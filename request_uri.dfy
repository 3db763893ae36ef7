/**
 Endpoint extraction from the request URI:
   `end(explode('/', trim($_SERVER['REQUEST_URI'], '/')))`.
 The URI has every leading and trailing slash removed, is cut at each
 remaining slash, and the last piece names the endpoint.

 The functions below are written as PHP computes them; what they compute is
 stated by the lemmas that follow each one.
 */
module RequestUri {

  predicate AllSlashes(s: string)
  {
    forall i :: 0 <= i < |s| ==> s[i] == '/'
  }

  /** Removes every leading '/' (the left half of PHP's `trim($s, '/')`). */
  function TrimLeft(s: string): string
  {
    if s != [] && s[0] == '/' then TrimLeft(s[1..]) else s
  }

  /** The left trim keeps a suffix that does not start with '/' and drops only slashes. */
  lemma {:induction false} TrimLeftSpec(s: string)
    ensures var r := TrimLeft(s);
      |r| <= |s| && r == s[|s| - |r|..] && (r == [] || r[0] != '/') &&
      forall i :: 0 <= i < |s| - |r| ==> s[i] == '/'
    decreases |s|
  {
    if s != [] && s[0] == '/' {
      TrimLeftSpec(s[1..]);
      var r := TrimLeft(s);
      assert r == TrimLeft(s[1..]);
      forall i | 0 < i < |s| - |r|
        ensures s[i] == '/'
      {
        assert s[i] == s[1..][i - 1];
      }
    }
  }

  /** Removes every trailing '/' (the right half of PHP's `trim($s, '/')`). */
  function TrimRight(s: string): string
  {
    if s != [] && s[|s| - 1] == '/' then TrimRight(s[..|s| - 1]) else s
  }

  /** The right trim keeps a prefix that does not end with '/' and drops only slashes. */
  lemma {:induction false} TrimRightSpec(s: string)
    ensures var r := TrimRight(s);
      |r| <= |s| && r == s[..|r|] && (r == [] || r[|r| - 1] != '/') &&
      forall i :: |r| <= i < |s| ==> s[i] == '/'
    decreases |s|
  {
    if s != [] && s[|s| - 1] == '/' {
      TrimRightSpec(s[..|s| - 1]);
      var r := TrimRight(s);
      assert r == TrimRight(s[..|s| - 1]);
      forall i | |r| <= i < |s| - 1
        ensures s[i] == '/'
      {
        assert s[i] == s[..|s| - 1][i];
      }
    }
  }

  /** PHP's `trim($s, '/')`. */
  function Trim(s: string): string
  {
    TrimRight(TrimLeft(s))
  }

  /** The trimmed string is the input with a run of slashes removed from each
      end, neither of its own ends is a slash, and only an empty or all-slash
      input trims to the empty string. */
  lemma TrimSpec(s: string)
    ensures var r := Trim(s);
      |r| <= |s| && (r == [] || (r[0] != '/' && r[|r| - 1] != '/')) &&
      (r == [] <==> AllSlashes(s))
    ensures exists i, j ::
      0 <= i <= j <= |s| && Trim(s) == s[i..j] && AllSlashes(s[..i]) && AllSlashes(s[j..])
  {
    var l := TrimLeft(s);
    var r := TrimRight(l);
    TrimLeftSpec(s);
    TrimRightSpec(l);
    var i, j := |s| - |l|, |s| - |l| + |r|;
    assert r == s[i..j];
    assert AllSlashes(s[..i]);
    forall k | 0 <= k < |s| - j
      ensures s[j..][k] == '/'
    {
      assert s[j + k] == l[|r| + k];
    }
    assert l != [] ==> l[0] != '/';
    assert !AllSlashes(s) ==> l != [] by {
      if l == [] { assert AllSlashes(s); }
    }
    assert AllSlashes(s) ==> l == [] by {
      if l != [] { assert s[|s| - |l|] == l[0]; }
    }
  }

  /** PHP's `explode($sep, $s)` for a one-character separator: the pieces of
      `s` between separators, always at least one (`explode('/', '')` is `['']`). */
  function Explode(s: string, sep: char): (pieces: seq<string>)
    ensures |pieces| >= 1
    decreases |s|
  {
    if s == [] then [[]]
    else
      var rest := Explode(s[1..], sep);
      if s[0] == sep then [[]] + rest
      else [[s[0]] + rest[0]] + rest[1..]
  }

  /** No exploded piece contains the separator. */
  lemma {:induction false} ExplodeAvoidsSep(s: string, sep: char)
    ensures forall k :: 0 <= k < |Explode(s, sep)| ==> sep !in Explode(s, sep)[k]
    decreases |s|
  {
    if s != [] {
      ExplodeAvoidsSep(s[1..], sep);
      var rest := Explode(s[1..], sep);
      var pieces := Explode(s, sep);
      if s[0] != sep {
        assert pieces[0] == [s[0]] + rest[0];
        forall k | 1 <= k < |pieces|
          ensures sep !in pieces[k]
        {
          assert pieces[k] == rest[k];
        }
      } else {
        forall k | 1 <= k < |pieces|
          ensures sep !in pieces[k]
        {
          assert pieces[k] == rest[k - 1];
        }
      }
    }
  }

  /** In particular the last piece has no separator. */
  lemma LastPieceAvoidsSep(s: string, sep: char)
    ensures sep !in Last(Explode(s, sep))
  {
    var pieces := Explode(s, sep);
    ExplodeAvoidsSep(s, sep);
    assert Last(pieces) == pieces[|pieces| - 1];
  }

  /** PHP's `implode($sep, $pieces)`. */
  function Join(pieces: seq<string>, sep: string): string
    requires |pieces| >= 1
    decreases |pieces|
  {
    if |pieces| == 1 then pieces[0] else pieces[0] + sep + Join(pieces[1..], sep)
  }

  /** PHP's `end($pieces)`. */
  function Last(pieces: seq<string>): string
    requires |pieces| >= 1
  {
    pieces[|pieces| - 1]
  }

  /** Joining the pieces with the separator gives back the string. */
  lemma {:induction false} JoinExplode(s: string, sep: char)
    ensures Join(Explode(s, sep), [sep]) == s
    decreases |s|
  {
    if s != [] {
      var rest := Explode(s[1..], sep);
      JoinExplode(s[1..], sep);
      if s[0] == sep {
        assert Explode(s, sep)[1..] == rest;
      } else {
        var pieces := Explode(s, sep);
        if |rest| == 1 {
          assert pieces == [[s[0]] + rest[0]];
        } else {
          assert pieces[1..] == rest[1..];
          assert Join(rest, [sep]) == rest[0] + [sep] + Join(rest[1..], [sep]);
        }
      }
    }
  }

  /** And the other way round: cutting at the separators recovers any
      separator-free pieces that were joined. */
  lemma {:induction false} ExplodeJoin(pieces: seq<string>, sep: char)
    requires |pieces| >= 1
    requires forall k :: 0 <= k < |pieces| ==> sep !in pieces[k]
    ensures Explode(Join(pieces, [sep]), sep) == pieces
    decreases |pieces|
  {
    if |pieces| == 1 {
      ExplodeFree(pieces[0], sep);
    } else {
      ExplodeJoin(pieces[1..], sep);
      ExplodePrefix(pieces[0], Join(pieces[1..], [sep]), sep);
      assert [pieces[0]] + pieces[1..] == pieces;
    }
  }

  /** A string without the separator is a single piece. */
  lemma {:induction false} ExplodeFree(s: string, sep: char)
    requires sep !in s
    ensures Explode(s, sep) == [s]
    decreases |s|
  {
    if s != [] {
      assert s == [s[0]] + s[1..];
      ExplodeFree(s[1..], sep);
    }
  }

  /** Exploding `p + [sep] + t` for a separator-free `p` yields `p` first. */
  lemma {:induction false} ExplodePrefix(p: string, t: string, sep: char)
    requires sep !in p
    ensures Explode(p + [sep] + t, sep) == [p] + Explode(t, sep)
    decreases |p|
  {
    var s := p + [sep] + t;
    if p == [] {
      assert s[0] == sep && s[1..] == t;
    } else {
      assert [p[0]] + p[1..] == p;
      ExplodePrefix(p[1..], t, sep);
      assert s[1..] == p[1..] + [sep] + t;
      assert s[0] == p[0];
    }
  }

  /** `r` is the final field of `s`: a separator-free suffix of `s` that
      reaches back either to the start of `s` or to a separator. */
  predicate IsFinalField(s: string, r: string, sep: char)
  {
    |r| <= |s| && r == s[|s| - |r|..] && sep !in r &&
    (|r| == |s| || s[|s| - |r| - 1] == sep)
  }

  /** The last exploded piece is the final field. */
  lemma {:induction false} LastPieceIsFinalField(s: string, sep: char)
    ensures IsFinalField(s, Last(Explode(s, sep)), sep)
    decreases |s|
  {
    if s != [] {
      var rest := Explode(s[1..], sep);
      var pieces := Explode(s, sep);
      LastPieceIsFinalField(s[1..], sep);
      LastPieceAvoidsSep(s, sep);
      var p' := Last(rest);
      assert sep !in s[1..] ==> |rest| == 1 by {
        if sep !in s[1..] { ExplodeFree(s[1..], sep); }
      }
      if s[0] == sep {
        assert Last(pieces) == p';
      } else if |rest| == 1 {
        JoinExplode(s[1..], sep);
        assert rest[0] == s[1..];
        assert Last(pieces) == [s[0]] + s[1..] == s;
      } else {
        assert Last(pieces) == p';
        assert |p'| < |s[1..]|;
      }
      FinalFieldExtend(s[0], s[1..], Last(pieces), sep);
      assert [s[0]] + s[1..] == s;
    }
  }

  /** A final field of `t` is still one of `[c] + t` unless it was all of `t`
      and `c` is not a separator. */
  lemma FinalFieldExtend(c: char, t: string, r: string, sep: char)
    requires IsFinalField(t, r, sep) || r == [c] + t
    requires sep !in r
    requires |r| < |t| || c == sep || r == [c] + t
    ensures IsFinalField([c] + t, r, sep)
  {
    var s := [c] + t;
    if r != s {
      assert s[|s| - |r|..] == t[|t| - |r|..];
      assert |r| < |t| ==> s[|s| - |r| - 1] == t[|t| - |r| - 1];
    }
  }

  /** The final field of a string is unique. */
  lemma FinalFieldUnique(s: string, r1: string, r2: string, sep: char)
    requires IsFinalField(s, r1, sep) && IsFinalField(s, r2, sep)
    ensures r1 == r2
  {
    FinalFieldAvoidsSep(s, r1, sep);
    FinalFieldAvoidsSep(s, r2, sep);
  }

  lemma FinalFieldAvoidsSep(s: string, r: string, sep: char)
    requires IsFinalField(s, r, sep)
    ensures forall i :: |s| - |r| <= i < |s| ==> s[i] != sep
  {
    forall i | |s| - |r| <= i < |s|
      ensures s[i] != sep
    {
      assert s[i] == r[i - (|s| - |r|)];
    }
  }

  /** The endpoint name of a request URI. */
  function LastSegment(uri: string): string
  {
    Last(Explode(Trim(uri), '/'))
  }

  /** The endpoint name never contains a slash. */
  lemma LastSegmentHasNoSlash(uri: string)
    ensures '/' !in LastSegment(uri)
  {
    LastPieceAvoidsSep(Trim(uri), '/');
  }

  /** The endpoint is exactly the text after the last slash of the trimmed
      URI (all of it when no slash is left). */
  lemma LastSegmentIsFinalField(uri: string, r: string)
    ensures r == LastSegment(uri) <==> IsFinalField(Trim(uri), r, '/')
  {
    LastPieceIsFinalField(Trim(uri), '/');
    if IsFinalField(Trim(uri), r, '/') {
      FinalFieldUnique(Trim(uri), r, LastSegment(uri), '/');
    }
  }

  /** Only an empty or all-slash URI names the empty endpoint. */
  lemma LastSegmentEmpty(uri: string)
    ensures LastSegment(uri) == [] <==> AllSlashes(uri)
  {
    var t := Trim(uri);
    TrimSpec(uri);
    LastPieceIsFinalField(t, '/');
  }

  lemma TrimLeftAlreadyTrimmed(s: string)
    requires s == [] || s[0] != '/'
    ensures TrimLeft(s) == s
  {
  }

  lemma TrimRightAlreadyTrimmed(s: string)
    requires s == [] || s[|s| - 1] != '/'
    ensures TrimRight(s) == s
  {
  }

  /** Trimming twice is trimming once. */
  lemma TrimIdempotent(s: string)
    ensures Trim(Trim(s)) == Trim(s)
  {
    var t := Trim(s);
    TrimSpec(s);
    TrimLeftAlreadyTrimmed(t);
    TrimRightAlreadyTrimmed(t);
  }

  /** A trailing slash survives the left trim unless nothing else does. */
  lemma {:induction false} TrimLeftAppendSlash(u: string)
    ensures TrimLeft(u + "/") == if TrimLeft(u) == [] then [] else TrimLeft(u) + "/"
    decreases |u|
  {
    if u == [] {
      assert TrimLeft("/") == TrimLeft([]);
    } else if u[0] == '/' {
      assert (u + "/")[1..] == u[1..] + "/";
      TrimLeftAppendSlash(u[1..]);
    } else {
      assert (u + "/")[0] == u[0];
    }
  }

  /** An extra leading slash does not change the trimmed URI. */
  lemma LeadingSlashIgnored(u: string)
    ensures Trim("/" + u) == Trim(u)
  {
    assert ("/" + u)[1..] == u;
  }

  /** An extra trailing slash does not change the trimmed URI. */
  lemma TrailingSlashIgnored(u: string)
    ensures Trim(u + "/") == Trim(u)
  {
    var l := TrimLeft(u);
    TrimLeftAppendSlash(u);
    if l != [] {
      assert (l + "/")[..|l|] == l;
    }
  }

  /** A run of extra leading slashes trims away. */
  lemma {:induction false} LeadingSlashesIgnored(p: string, u: string)
    requires AllSlashes(p)
    ensures Trim(p + u) == Trim(u)
    decreases |p|
  {
    if p == [] {
      assert p + u == u;
    } else {
      assert p + u == "/" + (p[1..] + u);
      LeadingSlashesIgnored(p[1..], u);
      LeadingSlashIgnored(p[1..] + u);
    }
  }

  /** A run of extra trailing slashes trims away. */
  lemma {:induction false} TrailingSlashesIgnored(u: string, p: string)
    requires AllSlashes(p)
    ensures Trim(u + p) == Trim(u)
    decreases |p|
  {
    if p == [] {
      assert u + p == u;
    } else {
      var q := p[..|p| - 1];
      assert u + p == (u + q) + "/";
      TrailingSlashesIgnored(u, q);
      TrailingSlashIgnored(u + q);
    }
  }

  /** URIs that differ only in the slashes around them (`/a/b/` and `a/b`)
      name the same endpoint. */
  lemma SurroundingSlashesIgnored(before: string, u: string, after: string)
    requires AllSlashes(before) && AllSlashes(after)
    ensures LastSegment(before + u + after) == LastSegment(u)
  {
    assert before + u + after == before + (u + after);
    LeadingSlashesIgnored(before, u + after);
    TrailingSlashesIgnored(u, after);
  }

  /** A path ending in `/name`, with a non-empty slash-free name, has endpoint `name`. */
  lemma LastSegmentOfPath(path: string, name: string)
    requires name != [] && '/' !in name
    ensures LastSegment(path + "/" + name) == name
  {
    var u := path + "/" + name;
    var l := TrimLeft(u);
    TrimLeftSpec(u);
    assert u[|u| - 1] == name[|name| - 1] != '/';
    assert u[|u| - |name|] == name[0] != '/';
    assert |l| >= |name|;
    assert l[|l| - 1] == u[|u| - 1];
    TrimRightAlreadyTrimmed(l);
    var t := Trim(u);
    assert t == l;
    assert |t| > |name| ==> t[|t| - |name| - 1] == '/' by {
      if |t| > |name| { assert t[|t| - |name| - 1] == u[|u| - |name| - 1]; }
    }
    assert t[|t| - |name|..] == name;
    LastSegmentIsFinalField(u, name);
  }

  /** A bare, non-empty slash-free name is its own endpoint. */
  lemma LastSegmentOfName(name: string)
    requires name != [] && '/' !in name
    ensures LastSegment(name) == name
  {
    LastSegmentOfPath([], name);
    LeadingSlashIgnored(name);
    assert [] + "/" + name == "/" + name;
  }
}
