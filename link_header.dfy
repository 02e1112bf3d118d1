/**
  ParseLinkHeader: the final offset of a content listing, read from the
  `rel="last"` target of a web-linking `Link` header (section 3 of RFC 8288).

  The header is searched with the pattern `<([^>]+)>;\s*[^,]*rel="last"`.
  Because `[^>]` cannot cross a `>` and `\s*[^,]*` matches exactly the
  comma-free runs, a match starting at `<` at position i has one shape:
  the first `>` after i, at j > i+1, is followed by `;`, and `rel="last"`
  begins somewhere after j+1 with no comma before it. The leftmost such i
  wins, and the capture is the text between `<` and that `>`.
 */
module LinkHeader {
  import opened Wrappers
  import opened GoInt
  import Decimal
  import Url

  const RelLast: string := "rel=\"last\""

  // ---------------------------------------------------------------------
  // The pattern, declaratively

  predicate RelLastAt(s: string, p: int) {
    0 <= p && p + |RelLast| <= |s| && s[p..p + |RelLast|] == RelLast
  }

  /** `rel="last"` begins at some p >= k with no comma in between. */
  ghost predicate RelLastAfter(s: string, k: nat) {
    exists p :: RelLastAt(s, p) && k <= p && forall q :: k <= q < p ==> s[q] != ','
  }

  /** The pattern matches at `i`, its bracket closing at `j`. */
  ghost predicate LinkAt(s: string, i: int, j: int) {
    && 0 <= i && i + 1 < j && j + 1 < |s|
    && s[i] == '<' && s[j] == '>' && s[j + 1] == ';'
    && (forall k :: i < k < j ==> s[k] != '>')
    && RelLastAfter(s, j + 2)
  }

  ghost predicate MatchesAt(s: string, i: int) {
    exists j :: LinkAt(s, i, j)
  }

  // ---------------------------------------------------------------------
  // The pattern, as a scan

  /** The first `>` at or after `from`. */
  function CloseAt(s: string, from: nat): (r: Option<nat>)
    requires from <= |s|
    ensures r.Some? ==> from <= r.value < |s| && s[r.value] == '>'
                        && forall k :: from <= k < r.value ==> s[k] != '>'
    ensures r.None? ==> forall k :: from <= k < |s| ==> s[k] != '>'
    decreases |s| - from
  {
    if from == |s| then None
    else if s[from] == '>' then Some(from)
    else CloseAt(s, from + 1)
  }

  /** Whether `rel="last"` follows position `p` before any comma. */
  function RelLastFrom(s: string, p: nat): bool
    requires p <= |s|
    decreases |s| - p
  {
    if RelLastAt(s, p) then true
    else if p == |s| || s[p] == ',' then false
    else RelLastFrom(s, p + 1)
  }

  /** The capture of a match starting at `i`, if the pattern matches there. */
  function MatchAt(s: string, i: nat): Option<string>
    requires i < |s|
  {
    if s[i] != '<' then None
    else
      match CloseAt(s, i + 1)
      case None => None
      case Some(j) =>
        if j > i + 1 && j + 1 < |s| && s[j + 1] == ';' && RelLastFrom(s, j + 2) then Some(s[i + 1..j])
        else None
  }

  /** regexp.FindStringSubmatch's capture for the leftmost match at or after `i`. */
  function FindLastLink(s: string, i: nat): Option<string>
    decreases |s| - i
  {
    if i >= |s| then None
    else
      match MatchAt(s, i)
      case Some(c) => Some(c)
      case None => FindLastLink(s, i + 1)
  }

  // ---------------------------------------------------------------------
  // The scan is the pattern

  lemma {:induction false} RelLastFromSound(s: string, p: nat)
    requires p <= |s| && RelLastFrom(s, p)
    ensures RelLastAfter(s, p)
    decreases |s| - p
  {
    if !RelLastAt(s, p) {
      RelLastFromSound(s, p + 1);
      var p' :| RelLastAt(s, p') && p + 1 <= p' && forall q :: p + 1 <= q < p' ==> s[q] != ',';
      assert forall q :: p <= q < p' ==> s[q] != ',';
    }
  }

  lemma {:induction false} RelLastFromComplete(s: string, p: nat, w: nat)
    requires p <= w && RelLastAt(s, w)
    requires forall q :: p <= q < w ==> s[q] != ','
    ensures RelLastFrom(s, p)
    decreases w - p
  {
    if p < w && !RelLastAt(s, p) {
      RelLastFromComplete(s, p + 1, w);
    }
  }

  lemma RelLastFromIff(s: string, p: nat)
    requires p <= |s|
    ensures RelLastFrom(s, p) <==> RelLastAfter(s, p)
  {
    if RelLastFrom(s, p) {
      RelLastFromSound(s, p);
    }
    if RelLastAfter(s, p) {
      var w :| RelLastAt(s, w) && p <= w && forall q :: p <= q < w ==> s[q] != ',';
      RelLastFromComplete(s, p, w);
    }
  }

  /** At each position the scan finds a capture exactly when the pattern matches, and it is the bracketed text. */
  lemma MatchAtIff(s: string, i: nat)
    requires i < |s|
    ensures MatchAt(s, i).Some? <==> MatchesAt(s, i)
    ensures forall j :: LinkAt(s, i, j) ==> MatchAt(s, i) == Some(s[i + 1..j])
  {
    if s[i] == '<' && i + 1 <= |s| {
      var r := CloseAt(s, i + 1);
      forall j | LinkAt(s, i, j)
        ensures r == Some(j)
      {
      }
      if r.Some? {
        var j := r.value;
        if j + 2 <= |s| {
          RelLastFromIff(s, j + 2);
        }
        if MatchAt(s, i).Some? {
          assert LinkAt(s, i, j);
        }
      }
    }
  }

  /** The leftmost match wins. */
  lemma {:induction false} FindLeftmost(s: string, from: nat, i: nat, j: nat)
    requires from <= i && LinkAt(s, i, j)
    requires forall k :: from <= k < i ==> !MatchesAt(s, k)
    ensures FindLastLink(s, from) == Some(s[i + 1..j])
    decreases i - from
  {
    MatchAtIff(s, from);
    if from < i {
      FindLeftmost(s, from + 1, i, j);
    }
  }

  /** With no match anywhere, nothing is found. */
  lemma {:induction false} FindNone(s: string, from: nat)
    requires forall k :: from <= k < |s| ==> !MatchesAt(s, k)
    ensures FindLastLink(s, from) == None
    decreases |s| - from
  {
    if from < |s| {
      MatchAtIff(s, from);
      FindNone(s, from + 1);
    }
  }

  /** Whatever is found is the capture of a match with no match before it. */
  lemma {:induction false} FindSound(s: string, from: nat)
    requires FindLastLink(s, from).Some?
    ensures exists i, j :: from <= i && LinkAt(s, i, j) && FindLastLink(s, from) == Some(s[i + 1..j])
                           && forall k :: from <= k < i ==> !MatchesAt(s, k)
    decreases |s| - from
  {
    MatchAtIff(s, from);
    if MatchAt(s, from).Some? {
      var j :| LinkAt(s, from, j);
    } else {
      FindSound(s, from + 1);
      var i, j :| from + 1 <= i && LinkAt(s, i, j) && FindLastLink(s, from + 1) == Some(s[i + 1..j])
                  && forall k :: from + 1 <= k < i ==> !MatchesAt(s, k);
      assert forall k :: from <= k < i ==> !MatchesAt(s, k);
    }
  }

  // ---------------------------------------------------------------------
  // ParseLinkHeader

  datatype LinkError =
    | NoRelLast
    | BadUrl(urlError: Url.UrlError)
    | NoOffset
    | BadOffset(numError: Decimal.NumError)

  /** The text of the `offset` parameter as the final offset: missing and non-numeric are errors. */
  function OffsetValue(offset: string): (r: Result<Int64, LinkError>)
    ensures offset == "" ==> r == Err(NoOffset)
    ensures offset != "" ==> (r.Ok? <==> Decimal.Atoi(offset).Ok?)
    ensures r.Ok? ==> Decimal.Atoi(offset) == Ok(r.value)
    ensures offset != "" && Decimal.Atoi(offset).Err? ==> r == Err(BadOffset(Decimal.Atoi(offset).error))
  {
    if offset == "" then Err(NoOffset)
    else
      match Decimal.Atoi(offset)
      case Err(e) => Err(BadOffset(e))
      case Ok(n) => Ok(n)
  }

  /** The `offset` query parameter of a link target, as an integer. */
  function TargetOffset(target: string): (r: Result<Int64, LinkError>)
    ensures Url.Parse(target).Err? ==> r == Err(BadUrl(Url.Parse(target).error))
  {
    match Url.Parse(target)
    case Err(e) => Err(BadUrl(e))
    case Ok(url) => OffsetValue(Url.Get(Url.ParseQuery(url.rawQuery), "offset"))
  }

  function ParseLinkHeader(linkHeader: string): (r: Result<Int64, LinkError>)
    ensures r == Err(NoRelLast) <==> FindLastLink(linkHeader, 0).None?
  {
    match FindLastLink(linkHeader, 0)
    case None => Err(NoRelLast)
    case Some(target) => TargetOffset(target)
  }

  /** The header's value is the offset of the leftmost `rel="last"` link. */
  lemma LinkHeaderTarget(linkHeader: string, i: nat, j: nat)
    requires LinkAt(linkHeader, i, j)
    requires forall k :: 0 <= k < i ==> !MatchesAt(linkHeader, k)
    ensures ParseLinkHeader(linkHeader) == TargetOffset(linkHeader[i + 1..j])
  {
    FindLeftmost(linkHeader, 0, i, j);
  }

  /** Without a `rel="last"` link the header is an error. */
  lemma LinkHeaderNoLast(linkHeader: string)
    requires forall k :: 0 <= k < |linkHeader| ==> !MatchesAt(linkHeader, k)
    ensures ParseLinkHeader(linkHeader) == Err(NoRelLast)
  {
    FindNone(linkHeader, 0);
  }

  /** A query that starts `offset=v&` gives v as its offset. */
  lemma QueryOffset(value: string, more: string)
    requires Url.Plain(value) && '&' !in value && ';' !in value
    ensures Url.Get(Url.ParseQuery("offset=" + value + "&" + more), "offset") == value
  {
    var key := "offset";
    assert Url.Plain(key) && '&' !in key && ';' !in key && '=' !in key;
    assert key + "=" == "offset=";
    Url.LeadingPair(key, value, more);
    Url.GetFirst(Url.ParseQuery(more), key, value);
  }

  /** A target whose host holds a space fails as a URL, before its offset is read. */
  lemma SpacedHostTarget()
    ensures TargetOffset("http" + "://" + ("a" + [' '] + "b") + "/p" + "?" + "offset=5") == Err(BadUrl(Url.InvalidHost))
  {
    Url.SpacedHostRejected();
  }

  /** A target `/path?offset=v&...` yields v read as a decimal integer. */
  lemma TargetWithOffset(path: string, value: string, more: string)
    requires |path| >= 1 && path[0] == '/' && (|path| == 1 || path[1] != '/')
    requires '%' !in path && '?' !in path && '#' !in path && !Url.HasControl(path)
    requires Url.Plain(value) && '&' !in value && ';' !in value
    requires !Url.HasControl("offset=" + value + "&" + more) && '#' !in "offset=" + value + "&" + more
    ensures TargetOffset(path + "?" + ("offset=" + value + "&" + more)) == OffsetValue(value)
  {
    var query := "offset=" + value + "&" + more;
    Url.ParseAbsolutePath(path, query);
    QueryOffset(value, more);
  }

  /** A target whose query has no `offset` is an error. */
  lemma TargetWithoutOffset(path: string, query: string)
    requires |path| >= 1 && path[0] == '/' && (|path| == 1 || path[1] != '/')
    requires '%' !in path && '?' !in path && '#' !in path && '#' !in query
    requires !Url.HasControl(path) && !Url.HasControl(query)
    requires Url.Get(Url.ParseQuery(query), "offset") == ""
    ensures TargetOffset(path + "?" + query) == Err(NoOffset)
  {
    Url.ParseAbsolutePath(path, query);
  }

  /** A header that opens with a `rel="last"` link yields the offset of that link's target. */
  lemma SingleLink(target: string, params: string, tail: string)
    requires |target| > 0 && '>' !in target && ',' !in params
    ensures ParseLinkHeader("<" + target + ">;" + params + RelLast + tail) == TargetOffset(target)
  {
    var h := "<" + target + ">;" + params + RelLast + tail;
    var j := |target| + 1;
    var w := j + 2 + |params|;
    assert h[w..w + |RelLast|] == RelLast by {
      assert h == ("<" + target + ">;" + params) + RelLast + tail;
    }
    assert forall q :: j + 2 <= q < w ==> h[q] == params[q - j - 2];
    assert RelLastAt(h, w);
    assert forall k :: 0 < k < j ==> h[k] == target[k - 1];
    assert LinkAt(h, 0, j);
    assert h[1..j] == target;
    LinkHeaderTarget(h, 0, j);
  }

  /** The common shape: a `rel="last"` link to `/path?offset=v&...` yields v. */
  lemma LastLinkOffset(path: string, value: string, more: string, params: string, tail: string)
    requires |path| >= 1 && path[0] == '/' && (|path| == 1 || path[1] != '/')
    requires '%' !in path && '?' !in path && '#' !in path && !Url.HasControl(path) && '>' !in path
    requires Url.Plain(value) && '&' !in value && ';' !in value && '>' !in value && '#' !in value && !Url.HasControl(value)
    requires !Url.HasControl(more) && '#' !in more && '>' !in more && ',' !in params
    ensures ParseLinkHeader("<" + path + "?offset=" + value + "&" + more + ">;" + params + RelLast + tail)
            == OffsetValue(value)
  {
    var query := "offset=" + value + "&" + more;
    var target := path + "?" + query;
    assert "<" + path + "?offset=" + value + "&" + more == "<" + target;
    assert '>' !in target;
    assert !Url.HasControl(query) && '#' !in query;
    SingleLink(target, params, tail);
    TargetWithOffset(path, value, more);
  }
  /** `s` holds no `rel="last"`. */
  predicate LacksRelLast(s: string) {
    forall p :: 0 <= p <= |s| ==> !RelLastAt(s, p)
  }

  /** No `rel="last"` begins between `from` and the comma at `c`. */
  lemma NoRelLastBeforeComma(h: string, from: nat, c: nat, params: string)
    requires from + |params| == c < |h| && h[c] == ','
    requires h[from..c] == params && LacksRelLast(params)
    ensures forall p :: from <= p <= c ==> !RelLastAt(h, p)
  {
    forall p | from <= p <= c
      ensures !RelLastAt(h, p)
    {
      if p + |RelLast| <= c {
        assert !RelLastAt(params, p - from);
        var window, inParams := h[p..p + |RelLast|], params[p - from..p - from + |RelLast|];
        forall q | 0 <= q < |RelLast|
          ensures window[q] == inParams[q]
        {
          assert h[p + q] == h[from..c][p + q - from];
        }
        assert window == inParams;
      } else if p + |RelLast| <= |h| {
        assert h[p..p + |RelLast|][c - p] == ',';
      }
    }
  }

  /**
    A link whose parameters end at a comma without `rel="last"` is no match:
    the pattern cannot cross the comma.
   */
  lemma NoMatchBeforeComma(h: string, first: string, params: string)
    requires |first| > 0 && '>' !in first && LacksRelLast(params)
    requires |h| >= |first| + 4 + |params| && h[..|first| + 4 + |params|] == "<" + first + ">;" + params + ","
    ensures !MatchesAt(h, 0)
  {
    var j0 := |first| + 1;
    var c := j0 + 2 + |params|;
    var a := "<" + first + ">;" + params + ",";
    assert forall k :: 0 <= k < |a| ==> h[k] == a[k];
    assert h[c] == ',' && h[j0] == '>';
    assert h[j0 + 2..c] == params by {
      assert forall k :: j0 + 2 <= k < c ==> h[k] == params[k - j0 - 2];
    }
    NoRelLastBeforeComma(h, j0 + 2, c, params);
    assert !RelLastAfter(h, j0 + 2);
    forall j | 0 < j < j0
      ensures h[j] != '>'
    {
      assert h[j] == first[j - 1];
    }
    forall j
      ensures !LinkAt(h, 0, j)
    {
      if j > j0 {
        assert 0 < j0 < j && h[j0] == '>';
      }
    }
  }

  /** The leftmost match's capture, named. */
  lemma LinkHeaderCapture(linkHeader: string, i: nat, j: nat, target: string)
    requires LinkAt(linkHeader, i, j) && linkHeader[i + 1..j] == target
    requires forall k :: 0 <= k < i ==> !MatchesAt(linkHeader, k)
    ensures ParseLinkHeader(linkHeader) == TargetOffset(target)
  {
    LinkHeaderTarget(linkHeader, i, j);
  }

  /** A `rel="last"` link after any text `a` is a match at the end of `a`, capturing its target. */
  lemma LinkAtSuffix(a: string, target: string, params: string, tail: string)
    requires |target| > 0 && '>' !in target && ',' !in params
    ensures var h := a + ("<" + target + ">;" + params + RelLast + tail);
            LinkAt(h, |a|, |a| + |target| + 1) && h[|a| + 1..|a| + |target| + 1] == target
  {
    var b := "<" + target + ">;" + params + RelLast + tail;
    var h := a + b;
    var i := |a|;
    var j := i + |target| + 1;
    var w := j + 2 + |params|;
    assert b[w - i..w - i + |RelLast|] == RelLast by {
      assert b == ("<" + target + ">;" + params) + RelLast + tail;
    }
    assert forall q :: i <= q < |h| ==> h[q] == b[q - i];
    assert h[w..w + |RelLast|] == b[w - i..w - i + |RelLast|];
    assert RelLastAt(h, w);
    assert forall q :: j + 2 <= q < w ==> h[q] == params[q - j - 2];
    assert forall k :: i < k < j ==> h[k] == target[k - i - 1];
    assert LinkAt(h, i, j);
  }

  /** Before the second link of the fixture's shape nothing matches: the first link stops at its comma, and no other `<` occurs. */
  lemma NoMatchBeforeSecond(first: string, params1: string, gap: string, b: string)
    requires |first| > 0 && '>' !in first && '<' !in first
    requires '<' !in params1 && LacksRelLast(params1) && '<' !in gap
    ensures var a := "<" + first + ">;" + params1 + "," + gap;
            forall k :: 0 <= k < |a| ==> !MatchesAt(a + b, k)
  {
    var a := "<" + first + ">;" + params1 + "," + gap;
    var h := a + b;
    assert h[..|first| + 4 + |params1|] == "<" + first + ">;" + params1 + ",";
    NoMatchBeforeComma(h, first, params1);
    forall k | 0 < k < |a|
      ensures h[k] != '<'
    {
      assert h[k] == a[k];
    }
  }

  /**
    The fixture's shape: a `rel="first"` link, a comma, then the `rel="last"`
    link; the header yields the offset of the second link's target.
   */
  lemma LinkAfterFirst(first: string, params1: string, gap: string, target: string, params: string, tail: string)
    requires |first| > 0 && '>' !in first && '<' !in first
    requires '<' !in params1 && LacksRelLast(params1) && '<' !in gap
    requires |target| > 0 && '>' !in target && ',' !in params
    ensures ParseLinkHeader(("<" + first + ">;" + params1 + "," + gap) + ("<" + target + ">;" + params + RelLast + tail))
            == TargetOffset(target)
  {
    var a := "<" + first + ">;" + params1 + "," + gap;
    var b := "<" + target + ">;" + params + RelLast + tail;
    NoMatchBeforeSecond(first, params1, gap, b);
    LinkAtSuffix(a, target, params, tail);
    LinkHeaderCapture(a + b, |a|, |a| + |target| + 1, target);
  }

  /** The same shape with a last target `/path?offset=v&...`: the header yields v. */
  lemma LastLinkAfterFirst(first: string, params1: string, gap: string,
                           path: string, value: string, more: string, params: string, tail: string)
    requires |first| > 0 && '>' !in first && '<' !in first
    requires '<' !in params1 && LacksRelLast(params1) && '<' !in gap
    requires |path| >= 1 && path[0] == '/' && (|path| == 1 || path[1] != '/')
    requires '%' !in path && '?' !in path && '#' !in path && !Url.HasControl(path) && '>' !in path
    requires Url.Plain(value) && '&' !in value && ';' !in value && '>' !in value && '#' !in value && !Url.HasControl(value)
    requires !Url.HasControl(more) && '#' !in more && '>' !in more && ',' !in params
    ensures ParseLinkHeader(("<" + first + ">;" + params1 + "," + gap)
                            + ("<" + path + "?offset=" + value + "&" + more + ">;" + params + RelLast + tail))
            == OffsetValue(value)
  {
    var query := "offset=" + value + "&" + more;
    var target := path + "?" + query;
    assert "<" + path + "?offset=" + value + "&" + more == "<" + target;
    assert '>' !in target;
    assert !Url.HasControl(query) && '#' !in query;
    LinkAfterFirst(first, params1, gap, target, params, tail);
    TargetWithOffset(path, value, more);
  }
}
