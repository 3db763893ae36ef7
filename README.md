# Fishing-log backend dispatcher, modelled in Dafny

The backend of the fishing-log application is one PHP script. It answers a
CORS preflight and then routes each request on three things, in a fixed order:

1. the HTTP method, compared exactly (`===`), so `post` is not `POST`;
2. what `json_decode` made of the request body (POST and DELETE only);
3. the endpoint: the last `/`-separated segment of the request URI once its
   leading and trailing slashes are trimmed.

Every branch ends the request with exactly one response. Apart from the
preflight, that response is a status and a JSON envelope `{success, message}`
(see "## Left out" for the one case where `json_encode` fails). Only the
create handler adds `received_data`, which echoes the decoded body. The
handlers store nothing: saving and deleting are simulated.

The model has three modules, and all three are pure functions:

- `JsonValue` (`json_value.dfy`): the decoded body as an abstract value
  (`Null`, scalars, `List`, `Object`) and `IdIsSet`, the meaning of
  `isset($decodedData['id'])`. `Null` stands for every failed decode:
  malformed text, an empty body and the literal `null`. JSON arrays are kept
  as `List`, because `json_decode($data, true)` turns them into PHP arrays.
  `isset` with the non-numeric key `id` is false on them, as it is on strings
  and other scalars. So a DELETE whose body is a
  list is refused, and a POST whose body is a list is accepted.
- `RequestUri` (`request_uri.dfy`): `trim($uri, '/')` as `Trim`
  (built from `TrimLeft` and `TrimRight`), `explode` as `Explode`, `end` as
  `Last`, and `LastSegment`, which composes them. `Join` (PHP's `implode`)
  is the partner of `Explode`. Each function is written the way PHP computes
  it. What it computes is stated by the `...Spec` lemma next to it, not by
  its own contract.
- `Dispatcher` (`dispatcher.dfy`): the response datatype, the
  messages (`Message`, worded by `Text`), the header constants, and
  `Dispatch`. `Dispatch` extracts the endpoint and hands it to `Respond`,
  the branch chain. There is also a second formulation,
  `TableDispatch`. `TableDispatch` is a routing table from method to body
  rule and endpoint, and it is proved equal to `Dispatch` on every request.

Two behaviours of the code are worth knowing:

- Endpoint names are compared with their `.php` extension
  (`add_fishing_log.php`, `delete_fishing_log.php`). So `/add_fishing_log`
  is 404 (`EndpointWithoutExtensionNotFound`), as is `/delete_fishing_log`.
- The request URI keeps its query string, so `/add_fishing_log.php?debug=1`
  names a different endpoint and is 404 (`QueryStringNotMatched`).

## Model

| member | source | states |
|---|---|---|
| `RequestUri.TrimLeftSpec` | fishlog_app/backend/add_fishing_log.php:18 | the result is a suffix of the input that does not start with '/', and every character dropped is '/' |
| `RequestUri.TrimRightSpec` | fishlog_app/backend/add_fishing_log.php:18 | the result is a prefix of the input that does not end with '/', and every character dropped is '/' |
| `RequestUri.TrimSpec` | fishlog_app/backend/add_fishing_log.php:18 | the trimmed URI is the URI with a run of slashes cut from each end, neither of its ends is '/', and it is empty exactly when the URI is empty or all slashes |
| `RequestUri.Explode` | fishlog_app/backend/add_fishing_log.php:18 | `explode` always yields at least one piece, so `end` has a last piece to return |
| `RequestUri.ExplodeAvoidsSep` | fishlog_app/backend/add_fishing_log.php:18 | no exploded piece contains the separator |
| `RequestUri.JoinExplode` | fishlog_app/backend/add_fishing_log.php:18 | joining the exploded pieces with the separator gives back the original string |
| `RequestUri.ExplodeJoin` | fishlog_app/backend/add_fishing_log.php:18 | exploding the join of any non-empty list of separator-free pieces gives back that list |
| `RequestUri.LastPieceIsFinalField` | fishlog_app/backend/add_fishing_log.php:18-19 | the last exploded piece is a separator-free suffix that reaches back to the start or to a separator |
| `RequestUri.FinalFieldUnique` | fishlog_app/backend/add_fishing_log.php:18-19 | a string has only one such final field |
| `RequestUri.LastSegmentHasNoSlash` | fishlog_app/backend/add_fishing_log.php:18-19 | the endpoint name never contains '/' |
| `RequestUri.LastSegmentIsFinalField` | fishlog_app/backend/add_fishing_log.php:18-19 | a string is the endpoint if and only if it is the text after the last '/' of the trimmed URI (or all of it when no '/' is left) |
| `RequestUri.LastSegmentEmpty` | fishlog_app/backend/add_fishing_log.php:18-19 | the endpoint is empty if and only if the URI is empty or all slashes |
| `RequestUri.TrimIdempotent` | fishlog_app/backend/add_fishing_log.php:18 | trimming an already trimmed URI changes nothing |
| `RequestUri.LeadingSlashIgnored` | fishlog_app/backend/add_fishing_log.php:18-19 | one more leading slash does not change the trimmed URI |
| `RequestUri.TrailingSlashIgnored` | fishlog_app/backend/add_fishing_log.php:18-19 | one more trailing slash does not change the trimmed URI |
| `RequestUri.LeadingSlashesIgnored` | fishlog_app/backend/add_fishing_log.php:18 | any run of leading slashes trims away |
| `RequestUri.TrailingSlashesIgnored` | fishlog_app/backend/add_fishing_log.php:18 | any run of trailing slashes trims away |
| `RequestUri.SurroundingSlashesIgnored` | fishlog_app/backend/add_fishing_log.php:18-19 | URIs that differ only in the slashes around them (`/a/b/` and `a/b`) name the same endpoint |
| `RequestUri.LastSegmentOfPath` | fishlog_app/backend/add_fishing_log.php:18-19 | any path ending in `/name`, for a non-empty slash-free name, has endpoint `name` |
| `RequestUri.LastSegmentOfName` | fishlog_app/backend/add_fishing_log.php:18-19 | a non-empty slash-free URI is its own endpoint |
| `Dispatcher.Dispatch` | fishlog_app/backend/add_fishing_log.php:11-159 | no JSON body if and only if the method is exactly OPTIONS (for bodies `json_encode` can encode); in every JSON response `success` holds exactly when the status is 200; the status is one of 200, 400, 404, 405; echoed data is the decoded body, never a failed decode |
| `Dispatcher.OptionsHasNoBody` | fishlog_app/backend/add_fishing_log.php:11-14 | OPTIONS ends with no body whatever the URI and body |
| `Dispatcher.PostInvalidBody` | fishlog_app/backend/add_fishing_log.php:22-31 | a POST body that does not decode gives 400/false with the invalid-JSON message, whatever the endpoint |
| `Dispatcher.PostToAddEndpoint` | fishlog_app/backend/add_fishing_log.php:34-72 | a decodable POST body (scalars and lists included) to `add_fishing_log.php` gives 200/true and echoes the body unchanged |
| `Dispatcher.PostToOtherEndpoint` | fishlog_app/backend/add_fishing_log.php:91-95 | a decodable POST body to any other endpoint gives 404/false |
| `Dispatcher.DeleteInvalidBody` | fishlog_app/backend/add_fishing_log.php:102-106 | a DELETE is 400 if and only if the body is not an object with a non-null `id`, and then it is 400/false with the missing-ID message |
| `Dispatcher.DeleteWithId` | fishlog_app/backend/add_fishing_log.php:108-122 | with an `id` present, `delete_fishing_log.php` gives 200/true and every other endpoint 404/false |
| `Dispatcher.GetIsNotFound` | fishlog_app/backend/add_fishing_log.php:125-152 | GET is always 404/false, whatever the URI and body |
| `Dispatcher.OtherMethodsNotAllowed` | fishlog_app/backend/add_fishing_log.php:154-158 | a method gets 405/false if and only if it is not exactly POST, GET, DELETE or OPTIONS |
| `Dispatcher.AllowMethodsHeaderValue` | fishlog_app/backend/add_fishing_log.php:6 | the `Access-Control-Allow-Methods` value is the handled methods joined with ", " |
| `Dispatcher.AllowMethodsHeaderMatchesDispatch` | fishlog_app/backend/add_fishing_log.php:6 | the `Access-Control-Allow-Methods` header lists exactly the methods that are not refused with 405 |
| `Dispatcher.EchoOnlyOnCreate` | fishlog_app/backend/add_fishing_log.php:71 | `received_data` is present if and only if the request is a POST with a decodable body to `add_fishing_log.php` |
| `Dispatcher.BodyCheckedBeforeEndpoint` | fishlog_app/backend/add_fishing_log.php:22-108 | once POST or DELETE refuses the body, the answer is 400 and the URI makes no difference |
| `Dispatcher.MethodCheckedFirst` | fishlog_app/backend/add_fishing_log.php:11-159 | for every method other than POST and DELETE, neither URI nor body affects the response |
| `Dispatcher.SameEndpointDispatchedAlike` | fishlog_app/backend/add_fishing_log.php:18-34 | the URI affects the response only through its last segment |
| `Dispatcher.SurroundingSlashesDispatchAlike` | fishlog_app/backend/add_fishing_log.php:18-34 | URIs that differ only in their surrounding slashes are dispatched alike |
| `Dispatcher.DispatchIsTable` | fishlog_app/backend/add_fishing_log.php:22-159 | the branch chain equals a routing table of method to body rule and endpoint on every request |
| `Dispatcher.TableCoversHandledMethods` | fishlog_app/backend/add_fishing_log.php:6 | the routing table plus the preflight covers exactly the methods listed in the CORS header |
| `Dispatcher.CreateBassLog` | fishlog_app/backend/add_fishing_log.php:22-72 | POSTing `{"fish_type": "bass"}` to `<any path>/add_fishing_log.php` gives 200/true and echoes `fish_type` as `"bass"` |
| `Dispatcher.DeleteLogFive` | fishlog_app/backend/add_fishing_log.php:98-115 | DELETE of `{"id": 5}` to `<any path>/delete_fishing_log.php` gives 200/true |
| `Dispatcher.DeleteNullId` | fishlog_app/backend/add_fishing_log.php:102-105 | `{"id": null}` counts as a missing id: 400/false with the missing-ID message, for every URI |
| `Dispatcher.EndpointWithoutExtensionNotFound` | fishlog_app/backend/add_fishing_log.php:34 | a decodable POST to `<any path>/add_fishing_log` (no `.php`) is 404/false |
| `Dispatcher.QueryStringNotMatched` | fishlog_app/backend/add_fishing_log.php:18-34 | a decodable POST to `<any path>/add_fishing_log.php?<query>` (query without '/') is 404/false, because the query stays in the endpoint name |

## Left out

- The `header()` calls (lines 4-8) are kept only as the constant list
  `ResponseHeaders`. Sending them is I/O, and the model does not attach them
  to the response value.
- Reading the body with `file_get_contents("php://input")` (lines 23 and
  99) is I/O. The body reaches the model only as the decoded `Value`.
- `json_decode` and `json_encode` are library calls. The model has no JSON
  parser or serialiser. The decode result is an input, and the response is a
  structured value, not encoded text.
- `Float` holds a Dafny `real`, so the decoded body has no INF or NaN. A body
  such as `{"weight": 1e400}` decodes to INF in PHP; `json_encode` then fails
  at line 71, so a POST to `add_fishing_log.php` answers 200 with an empty
  body. The model cannot represent that input and does not model the failed
  encode.
- The echo in `received_data` is the decoded value, not its re-encoding.
  `json_encode` writes an empty object `{}`, or one keyed `"0"`, `"1"`, …,
  back as a list, and it keeps key order, which a `map` does not have. None
  of this is modelled.
- The `error_log` / `print_r` diagnostics (lines 69 and 112) are logging
  only. They do not affect the response.
- The commented-out database code and the commented-out blog, comment and
  GET endpoints (lines 37-66, 75-90, 127-147) are dead code.
- `http_response_code` and `exit()` appear only as the `status` field and
  as the one-response-per-request shape of `Dispatch`. The preflight answer
  has no status in the model. The script sets none, so PHP's default
  applies.
- Reading `$_SERVER['REQUEST_METHOD']` and `$_SERVER['REQUEST_URI']` is
  I/O. In the model they are the `verb` and `uri` parameters, and the case
  where they are missing is not modelled.
- Strings are sequences of characters. PHP compares bytes, and the
  comparisons modelled here are exact equality either way.
