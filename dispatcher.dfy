/**
 The request dispatcher of the fishing-log backend script.

 One request produces exactly one response. The method is looked at first
 (compared exactly, so `post` is not `POST`), then the decoded body, then the
 endpoint named by the last segment of the URI. The handlers store nothing;
 they only answer with a JSON envelope `{success, message[, received_data]}`
 and an HTTP status.
 */
module Dispatcher {
  import opened JsonValue
  import opened RequestUri

  datatype Response =
    | NoBody
    | Json(status: int, success: bool, message: Message, received: Option<Value>)

  /** The fixed messages of the envelope, one per branch; `Text` gives their wording. */
  datatype Message =
    | InvalidPostBody
    | LogReceived
    | PostNotFound
    | InvalidDeleteBody
    | LogDeleted
    | DeleteNotFound
    | GetNotFound
    | MethodNotAllowed

  function Text(m: Message): string
  {
    match m
    case InvalidPostBody => "Invalid JSON format or empty data."
    case LogReceived => "Fishing log data received by backend (simulated save)."
    case PostNotFound => "API endpoint not found for POST request."
    case InvalidDeleteBody => "Invalid JSON format or missing ID for DELETE."
    case LogDeleted => "Fishing log deleted (simulated)."
    case DeleteNotFound => "API endpoint not found for DELETE request."
    case GetNotFound => "API endpoint not found or not implemented for GET request."
    case MethodNotAllowed => "Method not allowed."
  }

  const AddEndpoint: string := "add_fishing_log.php"
  const DeleteEndpoint: string := "delete_fishing_log.php"

  /** The headers sent with every response, the preflight answer included. */
  const ResponseHeaders: seq<(string, string)> := [
    ("Access-Control-Allow-Origin", "*"),
    ("Content-Type", "application/json; charset=UTF-8"),
    ("Access-Control-Allow-Methods", "POST, GET, DELETE, OPTIONS"),
    ("Access-Control-Max-Age", "3600"),
    ("Access-Control-Allow-Headers", "Content-Type, Access-Control-Allow-Headers, Authorization, X-Requested-With")
  ]

  /** The methods the dispatcher has a branch for. */
  const HandledMethods: seq<string> := ["POST", "GET", "DELETE", "OPTIONS"]

  /** Handles one request. `decoded` is what `json_decode` made of the body;
      it is consulted only for POST and DELETE. */
  function Dispatch(verb: string, uri: string, decoded: Value): (r: Response)
    ensures r.NoBody? <==> verb == "OPTIONS"
    ensures r.Json? ==> (r.success <==> r.status == 200)
    ensures r.Json? ==> r.status in {200, 400, 404, 405}
    ensures r.Json? && r.received.Some? ==> r.received.value == decoded && decoded != Null
  {
    Respond(verb, LastSegment(uri), decoded)
  }

  /** The branch chain once the endpoint name `$api_endpoint` is known. */
  function Respond(verb: string, endpoint: string, decoded: Value): Response
  {
    if verb == "OPTIONS" then NoBody
    else if verb == "POST" then
      if decoded == Null then Json(400, false, InvalidPostBody, None)
      else if endpoint == AddEndpoint then Json(200, true, LogReceived, Some(decoded))
      else Json(404, false, PostNotFound, None)
    else if verb == "DELETE" then
      if decoded == Null || !IdIsSet(decoded) then Json(400, false, InvalidDeleteBody, None)
      else if endpoint == DeleteEndpoint then Json(200, true, LogDeleted, None)
      else Json(404, false, DeleteNotFound, None)
    else if verb == "GET" then Json(404, false, GetNotFound, None)
    else Json(405, false, MethodNotAllowed, None)
  }

  // ---------------------------------------------------------------------
  // The decision table, branch by branch.
  // ---------------------------------------------------------------------

  /** A preflight gets the headers and no body, whatever else the request holds. */
  lemma OptionsHasNoBody(uri: string, decoded: Value)
    ensures Dispatch("OPTIONS", uri, decoded) == NoBody
  {
  }

  /** A POST whose body does not decode fails with 400 before any endpoint is
      looked at, so an unknown endpoint with bad JSON is 400, not 404. */
  lemma PostInvalidBody(uri: string)
    ensures Dispatch("POST", uri, Null) == Json(400, false, InvalidPostBody, None)
  {
  }

  /** A POST with a decodable body to the create endpoint echoes the body back
      unchanged; scalars and lists are accepted as well as objects. */
  lemma PostToAddEndpoint(uri: string, decoded: Value)
    requires decoded != Null && LastSegment(uri) == AddEndpoint
    ensures Dispatch("POST", uri, decoded) == Json(200, true, LogReceived, Some(decoded))
  {
  }

  /** A POST with a decodable body to any other endpoint is 404. */
  lemma PostToOtherEndpoint(uri: string, decoded: Value)
    requires decoded != Null && LastSegment(uri) != AddEndpoint
    ensures Dispatch("POST", uri, decoded) == Json(404, false, PostNotFound, None)
  {
  }

  /** A DELETE is 400 exactly when the body is not an object with a non-null `id`. */
  lemma DeleteInvalidBody(uri: string, decoded: Value)
    ensures Dispatch("DELETE", uri, decoded).status == 400 <==> !IdIsSet(decoded)
    ensures !IdIsSet(decoded) ==> Dispatch("DELETE", uri, decoded) == Json(400, false, InvalidDeleteBody, None)
  {
  }

  /** A DELETE naming an `id` reaches the endpoint check. */
  lemma DeleteWithId(uri: string, decoded: Value)
    requires IdIsSet(decoded)
    ensures LastSegment(uri) == DeleteEndpoint ==> Dispatch("DELETE", uri, decoded) == Json(200, true, LogDeleted, None)
    ensures LastSegment(uri) != DeleteEndpoint ==> Dispatch("DELETE", uri, decoded) == Json(404, false, DeleteNotFound, None)
  {
  }

  /** GET has no endpoints yet: always 404, whatever the URI or body. */
  lemma GetIsNotFound(uri: string, decoded: Value)
    ensures Dispatch("GET", uri, decoded) == Json(404, false, GetNotFound, None)
  {
  }

  /** Every method other than the four handled ones is refused with 405, and
      only those are; the comparison is exact, so `post` or `Get` is refused. */
  lemma OtherMethodsNotAllowed(verb: string, uri: string, decoded: Value)
    ensures verb !in HandledMethods <==> Dispatch(verb, uri, decoded) == Json(405, false, MethodNotAllowed, None)
  {
  }

  /** The `Access-Control-Allow-Methods` header lists the handled methods. */
  lemma AllowMethodsHeaderValue()
    ensures ResponseHeaders[2] == ("Access-Control-Allow-Methods", Join(HandledMethods, ", "))
  {
    var tail := ["GET", "DELETE", "OPTIONS"];
    assert HandledMethods[1..] == tail;
    assert tail[1..] == ["DELETE", "OPTIONS"];
    assert ["DELETE", "OPTIONS"][1..] == ["OPTIONS"];
    calc {
      Join(HandledMethods, ", ");
      "POST" + ", " + Join(tail, ", ");
      "POST" + ", " + ("GET" + ", " + Join(["DELETE", "OPTIONS"], ", "));
      "POST" + ", " + ("GET" + ", " + ("DELETE" + ", " + "OPTIONS"));
      "POST, GET, DELETE, OPTIONS";
    }
  }

  /** The methods named in `Access-Control-Allow-Methods` are exactly those
      that are not refused with 405. */
  lemma AllowMethodsHeaderMatchesDispatch(verb: string, uri: string, decoded: Value)
    ensures ResponseHeaders[2].1 == Join(HandledMethods, ", ")
    ensures verb in HandledMethods <==> !(Dispatch(verb, uri, decoded).Json? && Dispatch(verb, uri, decoded).status == 405)
  {
    AllowMethodsHeaderValue();
    OtherMethodsNotAllowed(verb, uri, decoded);
  }

  /** Only the echoing create handler returns the body. */
  lemma EchoOnlyOnCreate(verb: string, uri: string, decoded: Value)
    ensures Dispatch(verb, uri, decoded).Json? && Dispatch(verb, uri, decoded).received.Some?
        <==> verb == "POST" && decoded != Null && LastSegment(uri) == AddEndpoint
  {
  }

  /** The body is checked before the endpoint: once the body is refused, the URI
      makes no difference. */
  lemma BodyCheckedBeforeEndpoint(verb: string, uri1: string, uri2: string, decoded: Value)
    requires (verb == "POST" && decoded == Null) || (verb == "DELETE" && !IdIsSet(decoded))
    ensures Dispatch(verb, uri1, decoded) == Dispatch(verb, uri2, decoded)
    ensures Dispatch(verb, uri1, decoded).status == 400
  {
  }

  /** The method is checked before anything else: for OPTIONS, GET and any
      refused verb, neither the URI nor the body makes a difference. */
  lemma MethodCheckedFirst(verb: string, uri1: string, uri2: string, d1: Value, d2: Value)
    requires verb != "POST" && verb != "DELETE"
    ensures Dispatch(verb, uri1, d1) == Dispatch(verb, uri2, d2)
  {
  }

  /** URIs that differ only in slashes around them are dispatched alike. */
  lemma SurroundingSlashesDispatchAlike(verb: string, before: string, uri: string, after: string, decoded: Value)
    requires AllSlashes(before) && AllSlashes(after)
    ensures Dispatch(verb, before + uri + after, decoded) == Dispatch(verb, uri, decoded)
  {
    SurroundingSlashesIgnored(before, uri, after);
    SameEndpointDispatchedAlike(verb, before + uri + after, uri, decoded);
  }

  /** The URI matters only through its last segment. */
  lemma SameEndpointDispatchedAlike(verb: string, uri1: string, uri2: string, decoded: Value)
    requires LastSegment(uri1) == LastSegment(uri2)
    ensures Dispatch(verb, uri1, decoded) == Dispatch(verb, uri2, decoded)
  {
  }

  // ---------------------------------------------------------------------
  // The same dispatcher as a routing table: each handled method other than
  // OPTIONS names a body rule and at most one endpoint.
  // ---------------------------------------------------------------------

  datatype BodyRule = AnyBody | DecodableBody | HasId

  datatype Route = Route(rule: BodyRule, endpoint: Option<string>, echo: bool,
                         badBody: Message, accepted: Message, notFound: Message)

  const Routes: map<string, Route> := map[
    "POST" := Route(DecodableBody, Some(AddEndpoint), true, InvalidPostBody, LogReceived, PostNotFound),
    "DELETE" := Route(HasId, Some(DeleteEndpoint), false, InvalidDeleteBody, LogDeleted, DeleteNotFound),
    "GET" := Route(AnyBody, None, false, GetNotFound, GetNotFound, GetNotFound)
  ]

  predicate Admits(rule: BodyRule, decoded: Value)
  {
    match rule
    case AnyBody => true
    case DecodableBody => decoded != Null
    case HasId => IdIsSet(decoded)
  }

  function TableDispatch(verb: string, uri: string, decoded: Value): Response
  {
    if verb == "OPTIONS" then NoBody
    else if verb !in Routes then Json(405, false, MethodNotAllowed, None)
    else
      var route := Routes[verb];
      if !Admits(route.rule, decoded) then Json(400, false, route.badBody, None)
      else if route.endpoint == Some(LastSegment(uri)) then
        Json(200, true, route.accepted, if route.echo then Some(decoded) else None)
      else Json(404, false, route.notFound, None)
  }

  /** The chain of branches and the routing table agree on every request. */
  lemma DispatchIsTable(verb: string, uri: string, decoded: Value)
    ensures Dispatch(verb, uri, decoded) == TableDispatch(verb, uri, decoded)
  {
  }

  /** The routing table answers with 405 for a method exactly when the CORS
      header does not list it. */
  lemma TableCoversHandledMethods(verb: string)
    ensures verb in Routes || verb == "OPTIONS" <==> verb in HandledMethods
  {
  }

  // ---------------------------------------------------------------------
  // Concrete requests.
  // ---------------------------------------------------------------------

  /** Creating a log with `{"fish_type": "bass"}` under any path echoes the fish type back. */
  lemma CreateBassLog(path: string)
    ensures var body := Object(map["fish_type" := Str("bass")]);
      var r := Dispatch("POST", path + "/" + AddEndpoint, body);
      r.Json? && r.status == 200 && r.success && r.received.Some? &&
      r.received.value.Object? && "fish_type" in r.received.value.fields &&
      r.received.value.fields["fish_type"] == Str("bass")
  {
    var body := Object(map["fish_type" := Str("bass")]);
    LastSegmentOfPath(path, AddEndpoint);
    PostToAddEndpoint(path + "/" + AddEndpoint, body);
  }

  /** Deleting with `{"id": 5}` under any path succeeds. */
  lemma DeleteLogFive(path: string)
    ensures Dispatch("DELETE", path + "/" + DeleteEndpoint, Object(map["id" := Int(5)])) == Json(200, true, LogDeleted, None)
  {
    var body := Object(map["id" := Int(5)]);
    assert IdIsSet(body);
    LastSegmentOfPath(path, DeleteEndpoint);
    DeleteWithId(path + "/" + DeleteEndpoint, body);
  }

  /** `{"id": null}` counts as a missing `id`. */
  lemma DeleteNullId(uri: string)
    ensures Dispatch("DELETE", uri, Object(map["id" := Null])) == Json(400, false, InvalidDeleteBody, None)
  {
    DeleteInvalidBody(uri, Object(map["id" := Null]));
  }

  /** Endpoint names are matched with their `.php` extension. */
  lemma EndpointWithoutExtensionNotFound(path: string, decoded: Value)
    requires decoded != Null
    ensures Dispatch("POST", path + "/add_fishing_log", decoded) == Json(404, false, PostNotFound, None)
  {
    assert path + "/add_fishing_log" == path + "/" + "add_fishing_log";
    LastSegmentOfPath(path, "add_fishing_log");
  }

  /** A query string stays part of the endpoint name, so the create endpoint is not matched. */
  lemma QueryStringNotMatched(path: string, query: string, decoded: Value)
    requires decoded != Null && '/' !in query
    ensures Dispatch("POST", path + "/" + AddEndpoint + "?" + query, decoded) == Json(404, false, PostNotFound, None)
  {
    var name := AddEndpoint + "?" + query;
    assert path + "/" + AddEndpoint + "?" + query == path + "/" + name;
    LastSegmentOfPath(path, name);
    PostToOtherEndpoint(path + "/" + name, decoded);
  }
}
