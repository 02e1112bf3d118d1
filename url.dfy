/**
  The part of Go's net/url that reads the query of a link target:
  `url.Parse` as far as its errors and its raw query, and `ParseQuery`
  followed by `Values.Get`.
 */
module Url {
  import opened Wrappers
  import Decimal

  /** strings.Cut: the text before the first `c`, the text after it, and whether there was one. */
  datatype Cutting = Cutting(before: string, after: string, found: bool)

  function Cut(s: string, c: char): (r: Cutting)
    ensures r.found ==> s == r.before + [c] + r.after && c !in r.before
    ensures !r.found ==> r.before == s && r.after == "" && c !in s
  {
    if s == [] then Cutting("", "", false)
    else if s[0] == c then Cutting("", s[1..], true)
    else
      var r := Cut(s[1..], c);
      assert [s[0]] + s[1..] == s;
      Cutting([s[0]] + r.before, r.after, r.found)
  }

  predicate HasPrefix(s: string, p: string) {
    |p| <= |s| && s[..|p|] == p
  }

  /** A byte below 0x20 or 0x7f, which url.Parse refuses anywhere before the fragment. */
  predicate HasControl(s: string) {
    exists i :: 0 <= i < |s| && (s[i] < ' ' || s[i] == '\U{007F}')
  }

  predicate IsAlpha(c: char) {
    'a' <= c <= 'z' || 'A' <= c <= 'Z'
  }

  predicate IsSchemeChar(c: char) {
    IsAlpha(c) || '0' <= c <= '9' || c == '+' || c == '-' || c == '.'
  }

  function ToLower(s: string): (r: string)
    ensures |r| == |s|
  {
    seq(|s|, i requires 0 <= i < |s| => if 'A' <= s[i] <= 'Z' then (s[i] as int + 32) as char else s[i])
  }

  datatype UrlError =
    | InvalidControlCharacter
    | MissingProtocolScheme
    | ColonInFirstSegment
    | MissingBracket
    | InvalidPort
    | InvalidEscape
    | InvalidHost
    | InvalidUserinfo

  /** getScheme's scan from position `i`, every character before `i` being a letter or a later scheme character. */
  function SchemeScan(s: string, i: nat): (r: Result<(string, string), UrlError>)
    requires i <= |s|
    ensures r.Err? ==> i == 0 && r.error == MissingProtocolScheme
    ensures r.Ok? && r.value.0 != "" ==> i < |s| && s == r.value.0 + ":" + r.value.1 && |r.value.0| >= i
    ensures r.Ok? && r.value.0 == "" ==> r.value.1 == s
    decreases |s| - i
  {
    if i == |s| then Ok(("", s))
    else
      var c := s[i];
      if IsAlpha(c) then SchemeScan(s, i + 1)
      else if IsSchemeChar(c) then (if i == 0 then Ok(("", s)) else SchemeScan(s, i + 1))
      else if c == ':' then
        if i == 0 then Err(MissingProtocolScheme)
        else
          assert s == s[..i] + ":" + s[i + 1..];
          Ok((s[..i], s[i + 1..]))
      else Ok(("", s))
  }

  /**
    getScheme: a scheme is a letter followed by letters, digits, `+`, `-`
    or `.`, ended by `:`; a leading `:` is an error, anything else means
    there is no scheme.
   */
  function GetScheme(s: string): (r: Result<(string, string), UrlError>)
    ensures r.Err? <==> s != [] && s[0] == ':'
    ensures r.Ok? && r.value.0 != "" ==> s == r.value.0 + ":" + r.value.1 && IsAlpha(s[0])
    ensures r.Ok? && r.value.0 == "" ==> r.value.1 == s
  {
    SchemeStartsWithLetter(s, 0);
    SchemeScan(s, 0)
  }

  lemma {:induction false} SchemeStartsWithLetter(s: string, i: nat)
    requires i <= |s| && (i > 0 ==> IsAlpha(s[0]))
    ensures SchemeScan(s, i).Ok? && SchemeScan(s, i).value.0 != "" ==> s != [] && IsAlpha(s[0])
    decreases |s| - i
  {
    if i < |s| && (IsAlpha(s[i]) || (IsSchemeChar(s[i]) && i > 0)) {
      SchemeStartsWithLetter(s, i + 1);
    }
  }

  /** What unescape demands of a path or a fragment: every `%` starts `%XX`. */
  predicate ValidEscapes(s: string)
    decreases |s|
  {
    if s == [] then true
    else if s[0] == '%' then |s| >= 3 && Decimal.IsHex(s[1]) && Decimal.IsHex(s[2]) && ValidEscapes(s[3..])
    else ValidEscapes(s[1..])
  }

  /** The parts of a parsed URL this model keeps. */
  datatype Url = Url(scheme: string, rawQuery: string)

  /** The authority after `//`, when the reference has one, up to the next `/`. */
  function Authority(scheme: string, rest: string): Option<string> {
    if (scheme != "" || !HasPrefix(rest, "///")) && HasPrefix(rest, "//") then Some(Cut(rest[2..], '/').before)
    else None
  }

  /** The path that url.Parse unescapes, once scheme and query are off. */
  function PathPart(scheme: string, rest: string): string {
    if Authority(scheme, rest).Some? then
      var c := Cut(rest[2..], '/');
      if c.found then "/" + c.after else ""
    else rest
  }

  /** strings.LastIndex for one character, -1 when there is none. */
  function LastIndex(s: string, c: char): (i: int)
    ensures -1 <= i < |s|
    ensures i >= 0 ==> s[i] == c
    ensures forall k :: i < k < |s| ==> s[k] != c
  {
    if s == [] then -1
    else if s[|s| - 1] == c then |s| - 1
    else LastIndex(s[..|s| - 1], c)
  }

  /**
    An ASCII character shouldEscape lets stand in a host: letters, digits,
    the sub-delimiters, `:`, `[`, `]`, `<`, `>`, `"` and the marks `-`, `_`,
    `.`, `~`. In code order these are the runs `!`-`"`, `&`-`.` and
    `0`-`>`, the letters with `[`, and `$`, `]`, `_`, `~`.
   */
  predicate HostSafe(c: char) {
    || '!' <= c <= '"' || c == '$' || '&' <= c <= '.' || '0' <= c <= '>'
    || 'A' <= c <= '[' || c == ']' || c == '_' || 'a' <= c <= 'z' || c == '~'
  }

  /** A character unescape lets through in a host: a safe one, or any non-ASCII one. */
  predicate HostLiteral(c: char) {
    c >= '\U{0080}' || HostSafe(c)
  }

  /** The two modes parseHost unescapes in: the host itself, and an IPv6 zone. */
  datatype HostMode = HostPart | ZonePart

  /**
    Which well-formed escapes `%XY` unescape accepts. `%25` always; in a
    host otherwise only a non-ASCII byte; in a zone otherwise a space or a
    safe ASCII character.
   */
  predicate EscapeAllowed(mode: HostMode, hi: char, lo: char)
    requires Decimal.IsHex(hi) && Decimal.IsHex(lo)
  {
    if hi == '2' && lo == '5' then true
    else if mode == HostPart then Decimal.HexValue(hi) >= 8
    else
      var v := Decimal.HexValue(hi) * 16 + Decimal.HexValue(lo);
      v == 0x20 || (v < 0x80 && HostSafe(v as char))
  }

  /**
    unescape(s, encodeHost) and unescape(s, encodeZone) as far as their
    errors: the first offending position decides between a bad escape and
    a character a host may not hold.
   */
  function UnescapeHostError(s: string, mode: HostMode): (e: Option<UrlError>)
    ensures e.None? ==> ValidEscapes(s)
    ensures e.Some? ==> e.value == InvalidEscape || e.value == InvalidHost
    decreases |s|
  {
    if s == [] then None
    else if s[0] == '%' then
      if |s| < 3 || !Decimal.IsHex(s[1]) || !Decimal.IsHex(s[2]) then Some(InvalidEscape)
      else if !EscapeAllowed(mode, s[1], s[2]) then Some(InvalidEscape)
      else UnescapeHostError(s[3..], mode)
    else if !HostLiteral(s[0]) then Some(InvalidHost)
    else UnescapeHostError(s[1..], mode)
  }

  /** strings.Index(s, "%25") searched from `k` on; -1 when there is none. */
  function ZoneIndex(s: string, k: nat): (i: int)
    requires k <= |s|
    ensures i == -1 || (k <= i && i + 3 <= |s| && s[i] == '%' && s[i + 1] == '2' && s[i + 2] == '5')
    ensures i == -1 ==> forall j :: k <= j && j + 3 <= |s| ==> !(s[j] == '%' && s[j + 1] == '2' && s[j + 2] == '5')
    decreases |s| - k
  {
    if k + 3 > |s| then -1
    else if s[k] == '%' && s[k + 1] == '2' && s[k + 2] == '5' then k
    else ZoneIndex(s, k + 1)
  }

  /** validOptionalPort: nothing, or `:` followed by digits only. */
  predicate ValidOptionalPort(port: string) {
    port == "" || (port[0] == ':' && forall i :: 1 <= i < |port| ==> '0' <= port[i] <= '9')
  }

  /**
    The checks parseHost makes of the host. A host in brackets needs its
    `]` and may only be followed by a port; a `%25` inside the brackets
    starts a zone, unescaped in zone mode, with the text before it and from
    `]` on unescaped in host mode. Any other host may only end in a port
    after its last `:`, and is unescaped in host mode as a whole.
   */
  function HostError(host: string): (e: Option<UrlError>)
    ensures e == Some(MissingBracket) <==> HasPrefix(host, "[") && ']' !in host
    ensures !HasPrefix(host, "[") && ':' !in host ==> e == UnescapeHostError(host, HostPart)
    ensures e.Some? ==> e.value in {MissingBracket, InvalidPort, InvalidEscape, InvalidHost}
  {
    if HasPrefix(host, "[") then
      var i := LastIndex(host, ']');
      if i < 0 then Some(MissingBracket)
      else if !ValidOptionalPort(host[i + 1..]) then Some(InvalidPort)
      else
        var zone := ZoneIndex(host[..i], 0);
        if zone < 0 then UnescapeHostError(host, HostPart)
        else if UnescapeHostError(host[..zone], HostPart).Some? then UnescapeHostError(host[..zone], HostPart)
        else if UnescapeHostError(host[zone..i], ZonePart).Some? then UnescapeHostError(host[zone..i], ZonePart)
        else UnescapeHostError(host[i..], HostPart)
    else
      var i := LastIndex(host, ':');
      if i >= 0 && !ValidOptionalPort(host[i..]) then Some(InvalidPort)
      else UnescapeHostError(host, HostPart)
  }

  /**
    A character validUserinfo accepts: letters, digits and
    `-._:~!$&'()*+,;=%@`, in code order the runs `$`-`.`, `0`-`;` and
    `@`-`Z`, and `!`, `=`, `_`, `~`.
   */
  predicate UserinfoChar(c: char) {
    || c == '!' || '$' <= c <= '.' || '0' <= c <= ';' || c == '='
    || '@' <= c <= 'Z' || c == '_' || 'a' <= c <= 'z' || c == '~'
  }

  /** validUserinfo: every character of the user information is one it accepts. */
  predicate ValidUserinfo(s: string) {
    forall i :: 0 <= i < |s| ==> UserinfoChar(s[i])
  }

  /**
    parseAuthority: the host is what follows the last `@`, and it is checked
    first; then the user information before the `@` must hold only the
    characters validUserinfo allows, and its user name and its password
    (cut at the first `:`) must have well-formed escapes.
   */
  function AuthorityError(authority: string): (e: Option<UrlError>)
    ensures '@' !in authority ==> e == HostError(authority)
    ensures e == Some(InvalidUserinfo) ==> '@' in authority
  {
    var i := LastIndex(authority, '@');
    match HostError(authority[i + 1..])
    case Some(e) => Some(e)
    case None =>
      if i < 0 then None
      else
        var userinfo := authority[..i];
        var c := Cut(userinfo, ':');
        if !ValidUserinfo(userinfo) then Some(InvalidUserinfo)
        else if !ValidEscapes(c.before) || !ValidEscapes(c.after) then Some(InvalidEscape)
        else None
  }

  /** url.Parse without the `#fragment`. */
  function ParseReference(u: string): (r: Result<Url, UrlError>)
    ensures HasControl(u) ==> r == Err(InvalidControlCharacter)
    ensures !HasControl(u) && u != [] && u[0] == ':' ==> r == Err(MissingProtocolScheme)
  {
    if HasControl(u) then Err(InvalidControlCharacter)
    else if u == "*" then Ok(Url("", ""))
    else
      match GetScheme(u)
      case Err(e) => Err(e)
      case Ok((scheme, rest0)) =>
        // A lone trailing '?' (ForceQuery) leaves the same path and an empty raw query.
        var q := Cut(rest0, '?');
        var rest := q.before;
        var url := Url(ToLower(scheme), q.after);
        if !HasPrefix(rest, "/") && scheme != "" then Ok(url)
        else if !HasPrefix(rest, "/") && ':' in Cut(rest, '/').before then Err(ColonInFirstSegment)
        else if Authority(scheme, rest).Some? && AuthorityError(Authority(scheme, rest).value).Some? then
          Err(AuthorityError(Authority(scheme, rest).value).value)
        else if !ValidEscapes(PathPart(scheme, rest)) then Err(InvalidEscape)
        else Ok(url)
  }

  /** url.Parse. */
  function Parse(raw: string): (r: Result<Url, UrlError>)
    ensures HasControl(Cut(raw, '#').before) ==> r == Err(InvalidControlCharacter)
    ensures r.Ok? ==> ParseReference(Cut(raw, '#').before) == r
  {
    var c := Cut(raw, '#');
    match ParseReference(c.before)
    case Err(e) => Err(e)
    case Ok(url) => if c.after != "" && !ValidEscapes(c.after) then Err(InvalidEscape) else Ok(url)
  }

  /** QueryUnescape: `+` is a space and `%XX` a byte; a malformed escape is an error. */
  function QueryUnescape(s: string): (r: Option<string>)
    ensures r.Some? <==> ValidEscapes(s)
    ensures r.Some? ==> |r.value| <= |s|
    ensures r.Some? && '%' !in s ==> |r.value| == |s|
    decreases |s|
  {
    if s == [] then Some("")
    else if s[0] == '%' then
      if |s| >= 3 && Decimal.IsHex(s[1]) && Decimal.IsHex(s[2]) then
        match QueryUnescape(s[3..])
        case None => None
        case Some(t) => Some([(Decimal.HexValue(s[1]) * 16 + Decimal.HexValue(s[2])) as char] + t)
      else None
    else
      match QueryUnescape(s[1..])
      case None => None
      case Some(t) => Some([if s[0] == '+' then ' ' else s[0]] + t)
  }

  /** A query pair and a value in the order ParseQuery reads them. */
  datatype Pair = Pair(key: string, value: string)

  /**
    ParseQuery's pairs in order: the query is split on `&`; a part holding
    `;` or with a malformed escape is dropped, as is an empty part; a part
    is cut at its first `=`.
   */
  function ParseQuery(query: string): (ps: seq<Pair>)
    ensures |ps| <= |query|
    ensures '&' !in query && ';' in query ==> ps == []
    decreases |query|
  {
    if query == "" then []
    else
      var c := Cut(query, '&');
      var more := ParseQuery(c.after);
      var part := c.before;
      if ';' in part || part == "" then more
      else
        var kv := Cut(part, '=');
        match (QueryUnescape(kv.before), QueryUnescape(kv.after))
        case (Some(k), Some(v)) => [Pair(k, v)] + more
        case _ => more
  }

  /** Values.Get: the first value given for `key`, or "". */
  function Get(ps: seq<Pair>, key: string): (v: string)
    ensures (forall i :: 0 <= i < |ps| ==> ps[i].key != key) ==> v == ""
    ensures v != "" ==> exists i :: 0 <= i < |ps| && ps[i] == Pair(key, v)
  {
    if ps == [] then ""
    else if ps[0].key == key then ps[0].value
    else Get(ps[1..], key)
  }

  // ---------------------------------------------------------------------
  // Properties

  /** Text without `%` and `+` unescapes to itself. */
  predicate Plain(s: string) {
    forall i :: 0 <= i < |s| ==> s[i] != '%' && s[i] != '+'
  }

  lemma {:induction false} UnescapePlain(s: string)
    requires Plain(s)
    ensures QueryUnescape(s) == Some(s)
    decreases |s|
  {
    if s != [] {
      UnescapePlain(s[1..]);
      assert [s[0]] + s[1..] == s;
    }
  }

  /** A value Get returns was given for that key, and before it no value was. */
  lemma {:induction false} GetFound(ps: seq<Pair>, key: string)
    requires Get(ps, key) != ""
    ensures exists i :: 0 <= i < |ps| && ps[i] == Pair(key, Get(ps, key))
                        && forall j :: 0 <= j < i ==> ps[j].key != key
  {
    if ps[0].key != key {
      GetFound(ps[1..], key);
      var i :| 0 <= i < |ps| - 1 && ps[1..][i] == Pair(key, Get(ps[1..], key))
                && forall j :: 0 <= j < i ==> ps[1..][j].key != key;
      assert ps[i + 1] == Pair(key, Get(ps, key));
      forall j | 0 <= j < i + 1
        ensures ps[j].key != key
      {
        if j > 0 {
          assert ps[j] == ps[1..][j - 1];
        }
      }
    } else {
      assert ps[0] == Pair(key, Get(ps, key));
    }
  }

  /** Get finds the first pair for a key and skips pairs for other keys. */
  lemma GetFirst(ps: seq<Pair>, key: string, v: string)
    ensures Get([Pair(key, v)] + ps, key) == v
  {
  }

  lemma GetOther(p: Pair, ps: seq<Pair>, key: string)
    requires p.key != key
    ensures Get([p] + ps, key) == Get(ps, key)
  {
    assert ([p] + ps)[1..] == ps;
  }

  /**
    A leading `key=value` part of a query, both halves plain and free of the
    separators, is the first pair ParseQuery reads.
   */
  lemma LeadingPair(key: string, value: string, rest: string)
    requires key != "" && Plain(key) && Plain(value)
    requires '&' !in key && ';' !in key && '=' !in key && '&' !in value && ';' !in value
    ensures ParseQuery(key + "=" + value + "&" + rest) == [Pair(key, value)] + ParseQuery(rest)
  {
    var q := key + "=" + value + "&" + rest;
    var part := key + "=" + value;
    assert q == part + "&" + rest;
    assert '&' !in part;
    CutAt(part, '&', rest);
    CutAt(key, '=', value);
    UnescapePlain(key);
    UnescapePlain(value);
  }

  /** Cutting `a + [c] + b` at `c`, when `a` has no `c`, gives back `a` and `b`. */
  lemma {:induction false} CutAt(a: string, c: char, b: string)
    requires c !in a
    ensures Cut(a + [c] + b, c) == Cutting(a, b, true)
    decreases |a|
  {
    if a == [] {
      assert a + [c] + b == [c] + b;
    } else {
      assert (a + [c] + b)[1..] == a[1..] + [c] + b;
      CutAt(a[1..], c, b);
      assert [a[0]] + a[1..] == a;
    }
  }

  /** Text without `%` has no malformed escape. */
  lemma {:induction false} NoEscapes(s: string)
    requires '%' !in s
    ensures ValidEscapes(s)
    decreases |s|
  {
    if s != [] {
      assert s[0] != '%';
      NoEscapes(s[1..]);
    }
  }

  /**
    A path-absolute reference `/...?query` with no `%` in the path and no
    `#` or control character anywhere parses, with no scheme, to its query.
   */
  lemma ParseAbsolutePath(path: string, query: string)
    requires |path| >= 1 && path[0] == '/' && (|path| == 1 || path[1] != '/')
    requires '%' !in path && '?' !in path && '#' !in path && '#' !in query
    requires !HasControl(path) && !HasControl(query)
    ensures Parse(path + "?" + query) == Ok(Url("", query))
  {
    var u := path + "?" + query;
    CutAt(path, '?', query);
    assert '#' !in u;
    assert !HasControl(u) by {
      forall i | 0 <= i < |u|
        ensures !(u[i] < ' ' || u[i] == '\U{007F}')
      {
        if i < |path| {
          assert u[i] == path[i];
        } else if i > |path| {
          assert u[i] == query[i - |path| - 1];
        }
      }
    }
    assert u != "*";
    assert GetScheme(u) == Ok(("", u)) by {
      assert !IsSchemeChar(u[0]) && u[0] != ':';
    }
    assert HasPrefix(path, "/");
    assert !HasPrefix(path, "//");
    NoEscapes(path);
    assert ToLower("") == "";
  }

  /** The last `:` of `name:port`, neither half holding one, is the one between them. */
  lemma LastColon(name: string, port: string)
    requires ':' !in name && ':' !in port
    ensures LastIndex(name + ":" + port, ':') == |name|
  {
    var h := name + ":" + port;
    assert h[|name|] == ':';
    assert forall k :: |name| < k < |h| ==> h[k] == port[k - |name| - 1];
    assert forall k :: 0 <= k < |name| ==> h[k] == name[k];
  }

  /** Text that unescape passes as it is: no `%`, and only characters a host may hold. */
  predicate LiteralHost(s: string) {
    forall i :: 0 <= i < |s| ==> s[i] != '%' && HostLiteral(s[i])
  }

  lemma {:induction false} LiteralHostPasses(s: string, mode: HostMode)
    requires LiteralHost(s)
    ensures UnescapeHostError(s, mode) == None
    decreases |s|
  {
    if s != [] {
      LiteralHostPasses(s[1..], mode);
    }
  }

  /** After text that passes, a character a host may not hold is refused as an invalid host. */
  lemma {:induction false} HostCharRefused(pre: string, c: char, post: string, mode: HostMode)
    requires LiteralHost(pre) && c != '%' && !HostLiteral(c)
    ensures UnescapeHostError(pre + [c] + post, mode) == Some(InvalidHost)
    decreases |pre|
  {
    var s := pre + [c] + post;
    if pre == [] {
      assert s[0] == c;
    } else {
      assert s[0] == pre[0] && s[1..] == pre[1..] + [c] + post;
      HostCharRefused(pre[1..], c, post, mode);
    }
  }

  /** After text that passes, an escape of an ASCII byte other than `%25` is refused in a host. */
  lemma {:induction false} AsciiEscapeRefused(pre: string, hi: char, lo: char, post: string)
    requires LiteralHost(pre)
    requires Decimal.IsHex(hi) && Decimal.IsHex(lo) && Decimal.HexValue(hi) < 8 && !(hi == '2' && lo == '5')
    ensures UnescapeHostError(pre + ['%', hi, lo] + post, HostPart) == Some(InvalidEscape)
    decreases |pre|
  {
    var s := pre + ['%', hi, lo] + post;
    if pre == [] {
      assert s[0] == '%' && s[1] == hi && s[2] == lo;
    } else {
      assert s[0] == pre[0] && s[1..] == pre[1..] + ['%', hi, lo] + post;
      AsciiEscapeRefused(pre[1..], hi, lo, post);
    }
  }

  /** A host without `[` whose last `:` starts a valid port is checked by its escapes and characters alone. */
  lemma PlainHostError(h: string)
    requires !HasPrefix(h, "[")
    requires LastIndex(h, ':') < 0 || ValidOptionalPort(h[LastIndex(h, ':')..])
    ensures HostError(h) == UnescapeHostError(h, HostPart)
  {
  }

  lemma LiteralAroundColon(name: string, port: string)
    requires LiteralHost(name) && forall i :: 0 <= i < |port| ==> '0' <= port[i] <= '9'
    ensures LiteralHost(name + ":" + port)
  {
    var h := name + ":" + port;
    forall k | 0 <= k < |h|
      ensures h[k] != '%' && HostLiteral(h[k])
    {
      if k < |name| {
        assert h[k] == name[k];
      } else if k > |name| {
        assert h[k] == port[k - |name| - 1];
      }
    }
  }

  /** A plain host with a port of digits passes parseHost. */
  lemma HostWithPort(name: string, port: string)
    requires ':' !in name && LiteralHost(name) && (name == [] || name[0] != '[')
    requires forall i :: 0 <= i < |port| ==> '0' <= port[i] <= '9'
    ensures HostError(name + ":" + port) == None
  {
    var h := name + ":" + port;
    assert ':' !in port by {
      forall k | 0 <= k < |port|
        ensures port[k] != ':'
      {
      }
    }
    LastColon(name, port);
    assert h[|name|..] == ":" + port;
    assert h[0] != '[';
    PlainHostError(h);
    LiteralAroundColon(name, port);
    LiteralHostPasses(h, HostPart);
  }

  /** A port holding anything but digits makes parseHost fail. */
  lemma HostWithBadPort(name: string, port: string, k: nat)
    requires ':' !in name && (name == [] || name[0] != '[')
    requires ':' !in port && k < |port| && !('0' <= port[k] <= '9')
    ensures HostError(name + ":" + port) == Some(InvalidPort)
  {
    var h := name + ":" + port;
    LastColon(name, port);
    assert h[|name|..] == ":" + port;
    assert (":" + port)[k + 1] == port[k];
    assert !ValidOptionalPort(":" + port);
    assert h[0] != '[';
  }

  /** A scheme of letters ended by `:` is read by getScheme. */
  lemma {:induction false} ScanLetters(s: string, n: nat, i: nat)
    requires 0 < n < |s| && i <= n && s[n] == ':'
    requires forall k :: 0 <= k < n ==> IsAlpha(s[k])
    ensures SchemeScan(s, i) == Ok((s[..n], s[n + 1..]))
    decreases n - i
  {
    if i < n {
      ScanLetters(s, n, i + 1);
    }
  }

  predicate Letters(s: string) {
    forall k :: 0 <= k < |s| ==> IsAlpha(s[k])
  }

  /** Text free of the characters that end a URL's parts early. */
  predicate Inert(s: string) {
    !HasControl(s) && '#' !in s && '?' !in s
  }

  lemma InertConcat(a: string, b: string)
    requires Inert(a) && Inert(b)
    ensures Inert(a + b)
  {
    var u := a + b;
    forall i | 0 <= i < |u|
      ensures !(u[i] < ' ' || u[i] == '\U{007F}')
    {
      if i < |a| {
        assert u[i] == a[i];
      } else {
        assert u[i] == b[i - |a|];
      }
    }
  }

  lemma SplitAfterScheme(scheme: string, authority: string, path: string)
    requires path != []
    ensures scheme + "://" + authority + path == scheme + ":" + ("//" + authority + path)
    ensures ("//" + authority + path)[2..] == authority + [path[0]] + path[1..]
  {
    assert [path[0]] + path[1..] == path;
  }

  /** The pieces of `scheme://authority/path` as url.Parse separates them. */
  lemma SchemeAuthorityPath(scheme: string, authority: string, path: string)
    requires scheme != [] && Letters(scheme)
    requires Inert(scheme) && Inert(authority) && Inert(path) && '/' !in authority
    requires path != [] && path[0] == '/'
    ensures Inert(scheme + "://" + authority + path) && Inert("//" + authority + path)
    ensures GetScheme(scheme + "://" + authority + path) == Ok((scheme, "//" + authority + path))
    ensures Authority(scheme, "//" + authority + path) == Some(authority)
  {
    var rest := "//" + authority + path;
    var u := scheme + ":" + rest;
    SplitAfterScheme(scheme, authority, path);
    assert Inert(":") && Inert("//");
    InertConcat("//", authority);
    InertConcat("//" + authority, path);
    InertConcat(scheme, ":");
    InertConcat(scheme + ":", rest);
    assert u[|scheme|] == ':' && u[..|scheme|] == scheme && u[|scheme| + 1..] == rest;
    ScanLetters(u, |scheme|, 0);
    CutAt(authority, '/', path[1..]);
  }

  /**
    `scheme://authority/path`: an authority that parseAuthority refuses
    makes the whole URL fail with its error.
   */
  lemma AuthorityRefused(scheme: string, authority: string, path: string)
    requires scheme != [] && Letters(scheme)
    requires Inert(scheme) && Inert(authority) && Inert(path) && '/' !in authority
    requires path != [] && path[0] == '/'
    requires AuthorityError(authority).Some?
    ensures Parse(scheme + "://" + authority + path) == Err(AuthorityError(authority).value)
  {
    var rest := "//" + authority + path;
    var u := scheme + "://" + authority + path;
    SchemeAuthorityPath(scheme, authority, path);
    assert Cut(u, '#') == Cutting(u, "", false);
    assert u != "*";
    assert Cut(rest, '?') == Cutting(rest, "", false);
    assert HasPrefix(rest, "/");
  }

  /** `name:port` with a non-digit in the port is an authority parseAuthority refuses. */
  lemma BadPortAuthority(name: string, port: string, k: nat)
    requires Inert(name) && Inert(port)
    requires ':' !in name && '/' !in name && '@' !in name && (name == [] || name[0] != '[')
    requires ':' !in port && '/' !in port && '@' !in port && k < |port| && !('0' <= port[k] <= '9')
    ensures Inert(name + ":" + port) && '/' !in name + ":" + port
    ensures AuthorityError(name + ":" + port) == Some(InvalidPort)
  {
    var authority := name + ":" + port;
    HostWithBadPort(name, port, k);
    assert Inert(":");
    InertConcat(name, ":");
    InertConcat(name + ":", port);
    AbsentAroundColon(name, port, '/');
    AbsentAroundColon(name, port, '@');
    assert LastIndex(authority, '@') == -1;
  }

  lemma AbsentAroundColon(name: string, port: string, c: char)
    requires c != ':' && c !in name && c !in port
    ensures c !in name + ":" + port
  {
    var h := name + ":" + port;
    forall i | 0 <= i < |h|
      ensures h[i] != c
    {
      if i < |name| {
        assert h[i] == name[i];
      } else if i > |name| {
        assert h[i] == port[i - |name| - 1];
      }
    }
  }

  /** A URL whose port after a plain host holds a non-digit fails with an invalid port. */
  lemma PortRefused(scheme: string, name: string, port: string, path: string, k: nat)
    requires scheme != [] && Letters(scheme) && Inert(scheme)
    requires Inert(name) && Inert(port) && Inert(path) && path != [] && path[0] == '/'
    requires ':' !in name && '/' !in name && '@' !in name && (name == [] || name[0] != '[')
    requires ':' !in port && '/' !in port && '@' !in port && k < |port| && !('0' <= port[k] <= '9')
    ensures Parse(scheme + "://" + (name + ":" + port) + path) == Err(InvalidPort)
  {
    BadPortAuthority(name, port, k);
    AuthorityRefused(scheme, name + ":" + port, path);
  }

  /** The last `c` of `a + [c] + b`, when `b` has none, is the one between them. */
  lemma {:induction false} LastIndexAt(a: string, c: char, b: string)
    requires forall k :: 0 <= k < |b| ==> b[k] != c
    ensures LastIndex(a + [c] + b, c) == |a|
    decreases |b|
  {
    var h := a + [c] + b;
    if b == [] {
      assert h[|h| - 1] == c;
    } else {
      assert h[|h| - 1] == b[|b| - 1] != c;
      assert h[..|h| - 1] == a + [c] + b[..|b| - 1];
      LastIndexAt(a, c, b[..|b| - 1]);
    }
  }

  /**
    `user@host`, with a host that passes parseHost: user information
    holding a character validUserinfo refuses is an invalid user-info error.
   */
  lemma UserinfoRefused(user: string, host: string, k: nat)
    requires (forall i :: 0 <= i < |host| ==> host[i] != '@') && HostError(host).None?
    requires k < |user| && !UserinfoChar(user[k])
    ensures AuthorityError(user + "@" + host) == Some(InvalidUserinfo)
  {
    var a := user + "@" + host;
    LastIndexAt(user, '@', host);
    assert a[|user| + 1..] == host;
    assert a[..|user|] == user;
  }

  /** A query after a `?` adds no control character and no `#`. */
  lemma InertWithQuery(w: string, query: string)
    requires Inert(w) && !HasControl(query) && '#' !in query
    ensures !HasControl(w + "?" + query) && '#' !in w + "?" + query
  {
    var u := w + "?" + query;
    forall i | 0 <= i < |u|
      ensures !(u[i] < ' ' || u[i] == '\U{007F}') && u[i] != '#'
    {
      if i < |w| {
        assert u[i] == w[i];
      } else if i > |w| {
        assert u[i] == query[i - |w| - 1];
      }
    }
  }

  /** getScheme reads a scheme of letters up to the first `:`. */
  lemma LetterScheme(scheme: string, tail: string)
    requires scheme != [] && Letters(scheme)
    ensures GetScheme(scheme + ":" + tail) == Ok((scheme, tail))
  {
    var u := scheme + ":" + tail;
    assert u[|scheme|] == ':' && u[..|scheme|] == scheme && u[|scheme| + 1..] == tail;
    ScanLetters(u, |scheme|, 0);
  }

  /** How url.Parse takes `scheme://authority/path?query` apart. */
  lemma QueryUrlPieces(scheme: string, authority: string, path: string, query: string)
    requires scheme != [] && Letters(scheme)
    requires Inert(scheme) && Inert(authority) && Inert(path) && '/' !in authority
    requires path != [] && path[0] == '/'
    requires !HasControl(query) && '#' !in query
    ensures var u := scheme + "://" + authority + path + "?" + query;
            var rest := "//" + authority + path;
            && !HasControl(u) && Cut(u, '#') == Cutting(u, "", false) && u != "*"
            && GetScheme(u) == Ok((scheme, rest + "?" + query))
            && Cut(rest + "?" + query, '?') == Cutting(rest, query, true)
            && Authority(scheme, rest) == Some(authority) && HasPrefix(rest, "/")
  {
    var rest := "//" + authority + path;
    var w := scheme + "://" + authority + path;
    var u := w + "?" + query;
    SchemeAuthorityPath(scheme, authority, path);
    assert u == scheme + ":" + (rest + "?" + query);
    LetterScheme(scheme, rest + "?" + query);
    InertWithQuery(w, query);
    assert '#' !in u;
    CutAt(rest, '?', query);
  }

  /**
    `scheme://authority/path?query`: an authority that parseAuthority
    refuses makes the whole URL fail with its error, whatever the query.
   */
  lemma AuthorityRefusedWithQuery(scheme: string, authority: string, path: string, query: string)
    requires scheme != [] && Letters(scheme)
    requires Inert(scheme) && Inert(authority) && Inert(path) && '/' !in authority
    requires path != [] && path[0] == '/'
    requires !HasControl(query) && '#' !in query
    requires AuthorityError(authority).Some?
    ensures Parse(scheme + "://" + authority + path + "?" + query) == Err(AuthorityError(authority).value)
  {
    QueryUrlPieces(scheme, authority, path, query);
  }

  /** A host that is one escape `%XY`: parseAuthority judges the escape alone. */
  lemma EscapeAuthority(hi: char, lo: char)
    requires Decimal.IsHex(hi) && Decimal.IsHex(lo) && Decimal.HexValue(hi) < 8 && !(hi == '2' && lo == '5')
    ensures Inert(['%', hi, lo]) && '/' !in ['%', hi, lo]
    ensures AuthorityError(['%', hi, lo]) == Some(InvalidEscape)
  {
    var h := ['%', hi, lo];
    assert h == [] + h + [];
    assert h[..1] == ['%'] != "[";
    assert '@' !in h && ':' !in h && !HasPrefix(h, "[");
    AsciiEscapeRefused([], hi, lo, []);
  }

  /** `http://%XY/`: a host may not escape an ASCII byte other than `%25`, so the URL is refused. */
  lemma AsciiEscapeHostRefused(hi: char, lo: char)
    requires Decimal.IsHex(hi) && Decimal.IsHex(lo) && Decimal.HexValue(hi) < 8 && !(hi == '2' && lo == '5')
    ensures Parse("http" + "://" + ['%', hi, lo] + "/") == Err(InvalidEscape)
  {
    assert Inert("http") && Inert("/") && Letters("http");
    EscapeAuthority(hi, lo);
    AuthorityRefused("http", ['%', hi, lo], "/");
  }

  /** "http://%41/": `%41` escapes the letter A. */
  lemma AsciiEscapeHostRejected()
    ensures Parse("http" + "://" + ['%', '4', '1'] + "/") == Err(InvalidEscape)
  {
    AsciiEscapeHostRefused('4', '1');
  }

  /** Text free of the characters that end a host early or start an escape. */
  predicate HostPiece(c: char) {
    !(c < ' ' || c == '\U{007F}') && c != '#' && c != '?' && c != '/' && c != '@' && c != ':' && c != '%' && c != '['
  }

  /** A host `a` + c + `b`, where c is a character a host may not hold. */
  lemma BadCharAuthority(c: char)
    requires HostPiece(c) && !HostLiteral(c)
    ensures Inert("a" + [c] + "b") && '/' !in "a" + [c] + "b"
    ensures AuthorityError("a" + [c] + "b") == Some(InvalidHost)
  {
    var h := "a" + [c] + "b";
    assert h == ['a', c, 'b'];
    assert h[..1] == ['a'] != "[";
    assert '@' !in h && ':' !in h && !HasPrefix(h, "[");
    assert !HasControl(h);
    assert LiteralHost("a");
    HostCharRefused("a", c, "b", HostPart);
  }

  /** `http://a` + c + `b/p?offset=5`, c a character a host may not hold: the URL is refused. */
  lemma BadCharHostRefused(c: char)
    requires HostPiece(c) && !HostLiteral(c)
    ensures Parse("http" + "://" + ("a" + [c] + "b") + "/p" + "?" + "offset=5") == Err(InvalidHost)
  {
    assert Inert("http") && Inert("/p") && Letters("http");
    assert !HasControl("offset=5") && '#' !in "offset=5";
    BadCharAuthority(c);
    AuthorityRefusedWithQuery("http", "a" + [c] + "b", "/p", "offset=5");
  }

  /** "http://a b/p?offset=5": a space is not allowed in a host. */
  lemma SpacedHostRejected()
    ensures Parse("http" + "://" + ("a" + [' '] + "b") + "/p" + "?" + "offset=5") == Err(InvalidHost)
  {
    BadCharHostRefused(' ');
  }

  /** "http://a:b/": the port "b" is refused. */
  lemma LetterPortRejected()
    ensures Parse("http" + "://" + ("a" + ":" + "b") + "/") == Err(InvalidPort)
  {
    assert Inert("http") && Inert("a") && Inert("b") && Inert("/");
    assert Letters("http");
    PortRefused("http", "a", "b", "/", 0);
  }
}
