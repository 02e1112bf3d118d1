/**
  The part of Go's encoding/json that the pagination tokens and the report
  status object go through.

  - `Parse` accepts exactly the JSON text grammar (RFC 8259) and yields a
    syntax tree; string escapes are decoded as Go decodes them, including
    surrogate pairs and the replacement of a lone surrogate by U+FFFD. Like
    Go's scanner, it refuses text that nests arrays and objects more than
    10000 deep.
  - `IntField`, `StringField` and `ObjectMembers` are Go's rules for decoding
    a JSON value into a struct: keys match field names case-insensitively,
    unknown keys are ignored, a later duplicate key wins, `null` leaves a field
    alone, a value of the wrong type is an error, and a top-level `null`
    leaves the whole struct at its zero value.
  - `SerializeObject` is json.Marshal of a struct whose fields are `int`s and
    `string`s, in field order, with Go's default HTML-safe string escaping.
 */
module Json {
  import opened Wrappers
  import opened GoInt
  import Decimal

  datatype Value =
    | Null
    | Bool(b: bool)
    | Number(text: string)
    | Str(s: string)
    | Array(items: seq<Value>)
    | Object(members: seq<Member>)

  datatype Member = Member(key: string, value: Value)

  /** A parsed prefix and the text after it. */
  datatype Parsed<T> = Parsed(value: T, rest: string)

  // ---------------------------------------------------------------------
  // Lexical helpers

  predicate IsWs(c: char) {
    c == ' ' || c == '\t' || c == '\n' || c == '\r'
  }

  function SkipWs(s: string): (r: string)
    ensures |r| <= |s|
    ensures r != [] ==> !IsWs(r[0])
    decreases |s|
  {
    if s != [] && IsWs(s[0]) then SkipWs(s[1..]) else s
  }

  /** Go's encoder writes hexadecimal digits in lower case. */
  function HexDigit(d: nat): (c: char)
    requires d < 16
    ensures Decimal.IsHex(c) && Decimal.HexValue(c) == d
  {
    if d < 10 then ('0' as int + d) as char else ('a' as int + d - 10) as char
  }

  predicate IsHex4(s: string) {
    |s| >= 4 && Decimal.IsHex(s[0]) && Decimal.IsHex(s[1]) && Decimal.IsHex(s[2]) && Decimal.IsHex(s[3])
  }

  function Hex4Value(s: string): (v: nat)
    requires IsHex4(s)
    ensures v < 0x10000
  {
    Decimal.HexValue(s[0]) * 0x1000 + Decimal.HexValue(s[1]) * 0x100 + Decimal.HexValue(s[2]) * 0x10 + Decimal.HexValue(s[3])
  }

  /** Four hexadecimal digits of a code unit, as in a `\uXXXX` escape. */
  function Hex4(v: nat): (s: string)
    requires v < 0x10000
    ensures IsHex4(s) && |s| == 4 && Hex4Value(s) == v
  {
    var r1 := v % 0x1000;
    var r2 := r1 % 0x100;
    [HexDigit(v / 0x1000), HexDigit(r1 / 0x100), HexDigit(r2 / 0x10), HexDigit(r2 % 0x10)]
  }

  /** Number of leading decimal digits. */
  function DigitRun(s: string): (n: nat)
    ensures n <= |s|
    ensures forall i :: 0 <= i < n ==> Decimal.IsDigit(s[i])
    ensures n < |s| ==> !Decimal.IsDigit(s[n])
  {
    if s != [] && Decimal.IsDigit(s[0]) then 1 + DigitRun(s[1..]) else 0
  }

  // ---------------------------------------------------------------------
  // Numbers: -?(0|[1-9][0-9]*)(\.[0-9]+)?([eE][+-]?[0-9]+)?

  function IntPartEnd(s: string, i: nat): (r: Option<nat>)
    requires i <= |s|
    ensures r.Some? ==> i < r.value <= |s|
  {
    if i >= |s| || !Decimal.IsDigit(s[i]) then None
    else if s[i] == '0' then Some(i + 1)
    else Some(i + DigitRun(s[i..]))
  }

  function FracEnd(s: string, i: nat): (r: Option<nat>)
    requires i <= |s|
    ensures r.Some? ==> i <= r.value <= |s|
  {
    if i < |s| && s[i] == '.' then
      var n := DigitRun(s[i + 1..]);
      if n == 0 then None else Some(i + 1 + n)
    else Some(i)
  }

  function ExpEnd(s: string, i: nat): (r: Option<nat>)
    requires i <= |s|
    ensures r.Some? ==> i <= r.value <= |s|
  {
    if i < |s| && (s[i] == 'e' || s[i] == 'E') then
      var j := if i + 1 < |s| && (s[i + 1] == '+' || s[i + 1] == '-') then i + 2 else i + 1;
      var n := DigitRun(s[j..]);
      if n == 0 then None else Some(j + n)
    else Some(i)
  }

  function ParseNumber(s: string): (r: Option<Parsed<Value>>)
    requires s != []
    ensures r.Some? ==> |r.value.rest| < |s|
  {
    var i0 := if s[0] == '-' then 1 else 0;
    match IntPartEnd(s, i0)
    case None => None
    case Some(i1) =>
      match FracEnd(s, i1)
      case None => None
      case Some(i2) =>
        match ExpEnd(s, i2)
        case None => None
        case Some(i3) => Some(Parsed(Number(s[..i3]), s[i3..]))
  }

  // ---------------------------------------------------------------------
  // Strings

  const ReplacementChar: char := '\U{FFFD}'

  /** One escape sequence, `s` starting just after the backslash. */
  function ParseEscape(s: string): (r: Option<Parsed<char>>)
    ensures r.Some? ==> |r.value.rest| < |s|
  {
    if s == [] then None
    else if s[0] == '"' then Some(Parsed('"', s[1..]))
    else if s[0] == '\\' then Some(Parsed('\\', s[1..]))
    else if s[0] == '/' then Some(Parsed('/', s[1..]))
    else if s[0] == 'b' then Some(Parsed('\U{0008}', s[1..]))
    else if s[0] == 'f' then Some(Parsed('\U{000C}', s[1..]))
    else if s[0] == 'n' then Some(Parsed('\n', s[1..]))
    else if s[0] == 'r' then Some(Parsed('\r', s[1..]))
    else if s[0] == 't' then Some(Parsed('\t', s[1..]))
    else if s[0] == 'u' && IsHex4(s[1..]) then
      var v := Hex4Value(s[1..]);
      var t := s[5..];
      if v < 0xD800 || 0xE000 <= v then Some(Parsed(v as char, t))
      else if v < 0xDC00 && |t| >= 6 && t[0] == '\\' && t[1] == 'u' && IsHex4(t[2..])
              && 0xDC00 <= Hex4Value(t[2..]) < 0xE000 then
        // a high surrogate followed by a low one: one supplementary character
        var w := Hex4Value(t[2..]);
        Some(Parsed((0x10000 + (v - 0xD800) * 0x400 + (w - 0xDC00)) as char, t[6..]))
      else Some(Parsed(ReplacementChar, t))
    else None
  }

  function Prepend(c: char, r: Option<Parsed<string>>): (r': Option<Parsed<string>>)
    ensures r'.Some? <==> r.Some?
    ensures r'.Some? ==> r'.value == Parsed([c] + r.value.value, r.value.rest)
  {
    match r
    case None => None
    case Some(Parsed(u, t)) => Some(Parsed([c] + u, t))
  }

  /** The contents of a string literal, `s` starting just after the opening quote. */
  function ParseStringBody(s: string): (r: Option<Parsed<string>>)
    ensures r.Some? ==> |r.value.rest| < |s|
    decreases |s|
  {
    if s == [] then None
    else if s[0] == '"' then Some(Parsed("", s[1..]))
    else if s[0] == '\\' then
      match ParseEscape(s[1..])
      case None => None
      case Some(Parsed(c, t)) => Prepend(c, ParseStringBody(t))
    else if s[0] < ' ' then None
    else Prepend(s[0], ParseStringBody(s[1..]))
  }

  // ---------------------------------------------------------------------
  // Values

  function ParseLiteral(s: string, word: string, v: Value): (r: Option<Parsed<Value>>)
    requires |word| > 0
    ensures r.Some? ==> |r.value.rest| < |s|
  {
    if |s| >= |word| && s[..|word|] == word then Some(Parsed(v, s[|word|..])) else None
  }

  function ParseValue(s: string): (r: Option<Parsed<Value>>)
    ensures r.Some? ==> |r.value.rest| < |s|
    decreases |s|, 0
  {
    var t := SkipWs(s);
    if t == [] then None
    else if t[0] == '{' then ParseObject(t[1..])
    else if t[0] == '[' then ParseArray(t[1..])
    else if t[0] == '"' then
      match ParseStringBody(t[1..])
      case None => None
      case Some(Parsed(u, rest)) => Some(Parsed(Str(u), rest))
    else if t[0] == '-' || Decimal.IsDigit(t[0]) then ParseNumber(t)
    else if t[0] == 't' then ParseLiteral(t, "true", Bool(true))
    else if t[0] == 'f' then ParseLiteral(t, "false", Bool(false))
    else if t[0] == 'n' then ParseLiteral(t, "null", Null)
    else None
  }

  /** An array, `s` starting just after `[`. */
  function ParseArray(s: string): (r: Option<Parsed<Value>>)
    ensures r.Some? ==> |r.value.rest| < |s|
    decreases |s|, 2
  {
    var t := SkipWs(s);
    if t != [] && t[0] == ']' then Some(Parsed(Array([]), t[1..]))
    else
      match ParseElements(t)
      case None => None
      case Some(Parsed(vs, rest)) => Some(Parsed(Array(vs), rest))
  }

  /** One or more elements and the closing `]`. */
  function ParseElements(s: string): (r: Option<Parsed<seq<Value>>>)
    ensures r.Some? ==> |r.value.rest| < |s|
    decreases |s|, 1
  {
    match ParseValue(s)
    case None => None
    case Some(Parsed(v, t)) =>
      var u := SkipWs(t);
      if u == [] then None
      else if u[0] == ']' then Some(Parsed([v], u[1..]))
      else if u[0] == ',' then
        match ParseElements(u[1..])
        case None => None
        case Some(Parsed(vs, rest)) => Some(Parsed([v] + vs, rest))
      else None
  }

  /** An object, `s` starting just after `{`. */
  function ParseObject(s: string): (r: Option<Parsed<Value>>)
    ensures r.Some? ==> |r.value.rest| < |s|
    decreases |s|, 3
  {
    var t := SkipWs(s);
    if t != [] && t[0] == '}' then Some(Parsed(Object([]), t[1..]))
    else
      match ParseMembers(t)
      case None => None
      case Some(Parsed(ms, rest)) => Some(Parsed(Object(ms), rest))
  }

  /** One `"key": value` member. */
  function ParseMember(s: string): (r: Option<Parsed<Member>>)
    ensures r.Some? ==> |r.value.rest| < |s|
    decreases |s|, 1
  {
    var t := SkipWs(s);
    if t == [] || t[0] != '"' then None
    else
      match ParseStringBody(t[1..])
      case None => None
      case Some(Parsed(k, t1)) =>
        var t2 := SkipWs(t1);
        if t2 == [] || t2[0] != ':' then None
        else
          match ParseValue(t2[1..])
          case None => None
          case Some(Parsed(v, t3)) => Some(Parsed(Member(k, v), t3))
  }

  /** One or more members separated by `,` and the closing `}`. */
  function ParseMembers(s: string): (r: Option<Parsed<seq<Member>>>)
    ensures r.Some? ==> |r.value.rest| < |s|
    decreases |s|, 2
  {
    match ParseMember(s)
    case None => None
    case Some(Parsed(m, t)) =>
      var u := SkipWs(t);
      if u == [] then None
      else if u[0] == '}' then Some(Parsed([m], u[1..]))
      else if u[0] == ',' then
        match ParseMembers(u[1..])
        case None => None
        case Some(Parsed(ms, rest)) => Some(Parsed([m] + ms, rest))
      else None
  }

  // ---------------------------------------------------------------------
  // Nesting depth

  /** The scanner refuses to open an array or object past this depth ("exceeded max depth"). */
  const MaxNestingDepth: nat := 10000

  /**
    Whether the scanner, reading `s` outside a string literal with `depth`
    arrays and objects open, ever opens one past MaxNestingDepth. Brackets
    inside a string literal do not count.
   */
  predicate TooDeep(s: string, depth: nat)
    decreases |s|
  {
    if s == [] then false
    else if s[0] == '"' then TooDeepInString(s[1..], depth)
    else if s[0] == '[' || s[0] == '{' then depth + 1 > MaxNestingDepth || TooDeep(s[1..], depth + 1)
    else if s[0] == ']' || s[0] == '}' then TooDeep(s[1..], if depth > 0 then depth - 1 else 0)
    else TooDeep(s[1..], depth)
  }

  /** The same scan inside a string literal: a backslash hides the character after it. */
  predicate TooDeepInString(s: string, depth: nat)
    decreases |s|
  {
    if s == [] then false
    else if s[0] == '"' then TooDeep(s[1..], depth)
    else if s[0] == '\\' then |s| >= 2 && TooDeepInString(s[2..], depth)
    else TooDeepInString(s[1..], depth)
  }

  /**
    A whole JSON text: one value, optionally surrounded by whitespace, and
    nested no deeper than MaxNestingDepth. json.Unmarshal scans the whole
    text before decoding, so either failure makes it a syntax error.
   */
  function Parse(s: string): (r: Option<Value>)
    ensures SkipWs(s) == [] ==> r.None?
    ensures SkipWs(s) != [] && SkipWs(s)[0] in "}]:," ==> r.None?
    ensures TooDeep(s, 0) ==> r.None?
  {
    match ParseValue(s)
    case None => None
    case Some(Parsed(v, rest)) => if SkipWs(rest) == [] && !TooDeep(s, 0) then Some(v) else None
  }

  // ---------------------------------------------------------------------
  // Go's struct decoding

  /**
    The case folding Go applies to object keys (ToUpper after ToLower). For
    comparison against an ASCII field name it is exact: besides ASCII letters,
    only these four characters fold onto ASCII.
   */
  function FoldChar(c: char): char {
    if 'a' <= c <= 'z' then (c as int - 32) as char
    else if c == '\U{0130}' || c == '\U{0131}' then 'I'
    else if c == '\U{017F}' then 'S'
    else if c == '\U{212A}' then 'K'
    else c
  }

  function Fold(s: string): (r: string)
    ensures |r| == |s|
  {
    seq(|s|, i requires 0 <= i < |s| => FoldChar(s[i]))
  }

  predicate KeyMatches(key: string, field: string) {
    Fold(key) == Fold(field)
  }

  /** Keys of different lengths never address the same field. */
  lemma LengthsDiffer(key: string, field: string)
    requires |key| != |field|
    ensures !KeyMatches(key, field)
  {
  }

  /** The long s folds onto S, so "ſtatus" addresses the field "status". */
  lemma LongSFolds()
    ensures KeyMatches("\U{017F}tatus", "status")
  {
    assert Fold("\U{017F}tatus") == "STATUS";
    assert Fold("status") == "STATUS";
  }

  datatype DecodeError = InvalidSyntax | WrongType(field: string) | NotAnObject

  /**
    Decodes every member addressed to the `int` field `field`, in order,
    starting from `init`: `null` is skipped, an integer literal within range
    replaces the value, anything else is an error.
   */
  function IntField(ms: seq<Member>, field: string, init: Int64): (r: Result<Int64, DecodeError>)
    ensures (forall i :: 0 <= i < |ms| ==> !KeyMatches(ms[i].key, field)) ==> r == Ok(init)
    ensures r.Err? ==> r == Err(WrongType(field))
    ensures r.Ok? && r.value != init ==>
              exists i :: 0 <= i < |ms| && KeyMatches(ms[i].key, field) && ms[i].value.Number?
    decreases |ms|
  {
    if ms == [] then Ok(init)
    else if !KeyMatches(ms[0].key, field) then IntField(ms[1..], field, init)
    else
      match ms[0].value
      case Null => IntField(ms[1..], field, init)
      case Number(text) =>
        (match Decimal.Atoi(text)
         case Ok(n) => IntField(ms[1..], field, n)
         case Err(_) => Err(WrongType(field)))
      case _ => Err(WrongType(field))
  }

  /** Same, for a `string` field. */
  function StringField(ms: seq<Member>, field: string, init: string): (r: Result<string, DecodeError>)
    ensures (forall i :: 0 <= i < |ms| ==> !KeyMatches(ms[i].key, field)) ==> r == Ok(init)
    ensures r.Err? ==> r == Err(WrongType(field))
    ensures r.Ok? && r.value != init ==>
              exists i :: 0 <= i < |ms| && KeyMatches(ms[i].key, field) && ms[i].value == Str(r.value)
    decreases |ms|
  {
    if ms == [] then Ok(init)
    else if !KeyMatches(ms[0].key, field) then StringField(ms[1..], field, init)
    else
      match ms[0].value
      case Null => StringField(ms[1..], field, init)
      case Str(u) => StringField(ms[1..], field, u)
      case _ => Err(WrongType(field))
  }

  /**
    The members a struct is decoded from: `None` for a top-level `null`
    (the struct keeps its zero value), an error for text that is not JSON or
    a value that is not an object.
   */
  function ObjectMembers(text: string): (r: Result<Option<seq<Member>>, DecodeError>)
    ensures r == Err(InvalidSyntax) <==> Parse(text).None?
  {
    match Parse(text)
    case None => Err(InvalidSyntax)
    case Some(Null) => Ok(None)
    case Some(Object(ms)) => Ok(Some(ms))
    case Some(_) => Err(NotAnObject)
  }

  // ---------------------------------------------------------------------
  // Go's encoder for flat structs of ints and strings

  /** A character Go writes as a `\uXXXX` escape. */
  predicate HexEscaped(c: char) {
    c < ' ' || c == '<' || c == '>' || c == '&' || c == '\U{2028}' || c == '\U{2029}'
  }

  function EscapeChar(c: char): string {
    if c == '"' then "\\\""
    else if c == '\\' then "\\\\"
    else if c == '\U{0008}' then "\\b"
    else if c == '\U{000C}' then "\\f"
    else if c == '\n' then "\\n"
    else if c == '\r' then "\\r"
    else if c == '\t' then "\\t"
    else if HexEscaped(c) then
      "\\u" + Hex4(c as int)
    else [c]
  }

  function EscapeString(s: string): string {
    if s == [] then "" else EscapeChar(s[0]) + EscapeString(s[1..])
  }

  /** A Go string as a JSON string literal. */
  function Quote(s: string): string {
    "\"" + EscapeString(s) + "\""
  }

  /** Text Go writes as it is: no quote, backslash, control character or HTML-sensitive character. */
  predicate Unescaped(s: string) {
    forall i :: 0 <= i < |s| ==> s[i] != '"' && s[i] != '\\' && !HexEscaped(s[i])
  }

  /** A name spelled in ASCII letters needs no escape. */
  lemma LettersUnescaped(s: string)
    requires forall i :: 0 <= i < |s| ==> 'a' <= s[i] <= 'z' || 'A' <= s[i] <= 'Z'
    ensures Unescaped(s)
  {
  }

  lemma {:induction false} EscapeUnescaped(s: string)
    requires Unescaped(s)
    ensures EscapeString(s) == s
    decreases |s|
  {
    if s != [] {
      assert EscapeChar(s[0]) == [s[0]];
      EscapeUnescaped(s[1..]);
      assert [s[0]] + s[1..] == s;
    }
  }

  datatype Scalar = IntScalar(n: Int64) | StrScalar(s: string)

  /** A struct field: its JSON name and its value. */
  datatype Field = Field(name: string, value: Scalar)

  function ScalarText(x: Scalar): string {
    match x
    case IntScalar(n) => Decimal.Itoa(n)
    case StrScalar(s) => Quote(s)
  }

  function ScalarValue(x: Scalar): Value {
    match x
    case IntScalar(n) => Number(Decimal.Itoa(n))
    case StrScalar(s) => Str(s)
  }

  function FieldsText(fs: seq<Field>): string
    requires fs != []
  {
    Quote(fs[0].name) + ":" + ScalarText(fs[0].value)
      + (if |fs| == 1 then "" else "," + FieldsText(fs[1..]))
  }

  /** json.Marshal of a struct with these fields, in this order. */
  function SerializeObject(fs: seq<Field>): (s: string)
    ensures |s| >= 2 && s[0] == '{'
  {
    "{" + (if fs == [] then "" else FieldsText(fs)) + "}"
  }

  /** A member `"name":value` whose name needs no escape. */
  function MemberText(f: Field): string {
    "\"" + f.name + "\":" + ScalarText(f.value)
  }

  /** A quoted name that needs no escape, its colon, its value and what follows. */
  lemma QuotedName(n: string, x: string, tail: string)
    requires EscapeString(n) == n
    ensures Quote(n) + ":" + x + tail == "\"" + n + "\":" + x + tail
  {
  }

  /** The last member of a struct's text. */
  lemma LastFieldText(a: Field)
    requires Unescaped(a.name)
    ensures FieldsText([a]) == MemberText(a)
  {
    EscapeUnescaped(a.name);
    QuotedName(a.name, ScalarText(a.value), "");
  }

  /** A member followed by the others. */
  lemma NextFieldText(fs: seq<Field>)
    requires |fs| >= 2 && Unescaped(fs[0].name)
    ensures FieldsText(fs) == MemberText(fs[0]) + ("," + FieldsText(fs[1..]))
  {
    EscapeUnescaped(fs[0].name);
    var tail := "," + FieldsText(fs[1..]);
    assert FieldsText(fs) == Quote(fs[0].name) + ":" + ScalarText(fs[0].value) + tail;
    QuotedName(fs[0].name, ScalarText(fs[0].value), tail);
  }

  /** The text of a struct with one field whose name needs no escape. */
  lemma OneFieldText(a: Field)
    requires Unescaped(a.name)
    ensures SerializeObject([a]) == "{" + MemberText(a) + "}"
  {
    LastFieldText(a);
  }

  /** The text of a struct with three such fields, in order and separated by commas. */
  lemma ThreeFieldsText(a: Field, b: Field, c: Field)
    requires Unescaped(a.name) && Unescaped(b.name) && Unescaped(c.name)
    ensures SerializeObject([a, b, c]) == "{" + MemberText(a) + "," + MemberText(b) + "," + MemberText(c) + "}"
  {
    assert [a, b, c][1..] == [b, c];
    assert [b, c][1..] == [c];
    LastFieldText(c);
    NextFieldText([b, c]);
    NextFieldText([a, b, c]);
    Regroup3(MemberText(a), MemberText(b), MemberText(c));
  }

  lemma Regroup3(u: string, v: string, w: string)
    ensures "{" + (u + ("," + (v + ("," + w)))) + "}" == "{" + u + "," + v + "," + w + "}"
  {
  }

  /** The syntax tree `Parse` should give back for `SerializeObject(fs)`. */
  function Members(fs: seq<Field>): (ms: seq<Member>)
    ensures |ms| == |fs|
    ensures forall i :: 0 <= i < |fs| ==> ms[i] == Member(fs[i].name, ScalarValue(fs[i].value))
  {
    if fs == [] then [] else [Member(fs[0].name, ScalarValue(fs[0].value))] + Members(fs[1..])
  }

  // ---------------------------------------------------------------------
  // Round trip: what Go writes, the decoder reads back

  lemma ParseHexEscaped(c: char, t: string)
    requires c as int < 0x10000
    ensures ParseStringBody(['\\', 'u'] + Hex4(c as int) + t) == Prepend(c, ParseStringBody(t))
  {
    var h := Hex4(c as int);
    var s := ['\\', 'u'] + h + t;
    var s1 := s[1..];
    assert s1 == ['u'] + h + t;
    assert s1[1..][..4] == h;
    assert IsHex4(s1[1..]) && Hex4Value(s1[1..]) == c as int;
    assert s1[5..] == t;
  }

  /** The two-character escapes Go writes for quote, backslash and the common control characters. */
  lemma ParseShortEscape(c: char, t: string)
    requires c == '"' || c == '\\' || c == '\U{0008}' || c == '\U{000C}' || c == '\n' || c == '\r' || c == '\t'
    ensures ParseStringBody(EscapeChar(c) + t) == Prepend(c, ParseStringBody(t))
  {
    var e := EscapeChar(c);
    var s := e + t;
    assert |e| == 2 && e[0] == '\\';
    assert s[0] == '\\' && s[1..] == [e[1]] + t;
    var p := [e[1]] + t;
    assert p[1..] == t;
    assert ParseEscape(p) == Some(Parsed(c, t));
  }

  lemma ParseEscapedChar(c: char, t: string)
    ensures ParseStringBody(EscapeChar(c) + t) == Prepend(c, ParseStringBody(t))
  {
    var s := EscapeChar(c) + t;
    if c == '"' || c == '\\' || c == '\U{0008}' || c == '\U{000C}' || c == '\n' || c == '\r' || c == '\t' {
      ParseShortEscape(c, t);
    } else if HexEscaped(c) {
      assert s == ['\\', 'u'] + Hex4(c as int) + t;
      ParseHexEscaped(c, t);
    } else {
      assert s[1..] == t;
    }
  }

  lemma {:induction false} ParseQuoted(s: string, rest: string)
    ensures ParseStringBody(EscapeString(s) + "\"" + rest) == Some(Parsed(s, rest))
    decreases |s|
  {
    if s == [] {
      assert EscapeString(s) + "\"" + rest == "\"" + rest;
    } else {
      var t := EscapeString(s[1..]) + "\"" + rest;
      assert EscapeString(s) + "\"" + rest == EscapeChar(s[0]) + t;
      ParseEscapedChar(s[0], t);
      ParseQuoted(s[1..], rest);
      assert [s[0]] + s[1..] == s;
    }
  }

  lemma {:induction false} DigitRunOfDigits(d: string, t: string)
    requires Decimal.AllDigits(d)
    requires t == [] || !Decimal.IsDigit(t[0])
    ensures DigitRun(d + t) == |d|
    decreases |d|
  {
    if d != [] {
      assert (d + t)[1..] == d[1..] + t;
      DigitRunOfDigits(d[1..], t);
    } else {
      assert d + t == t;
    }
  }

  lemma NoWs(s: string)
    requires s != [] && !IsWs(s[0])
    ensures SkipWs(s) == s
  {
  }

  // One-step unfoldings of the parser, each for a known first character.

  lemma ValueIsNumber(s: string)
    requires s != [] && (s[0] == '-' || Decimal.IsDigit(s[0]))
    ensures ParseValue(s) == ParseNumber(s)
  {
    NoWs(s);
  }

  lemma ValueIsString(s: string, u: string, rest: string)
    requires s != [] && s[0] == '"' && ParseStringBody(s[1..]) == Some(Parsed(u, rest))
    ensures ParseValue(s) == Some(Parsed(Str(u), rest))
  {
    NoWs(s);
  }

  lemma ValueIsObject(s: string)
    requires s != [] && s[0] == '{'
    ensures ParseValue(s) == ParseObject(s[1..])
  {
    NoWs(s);
  }

  lemma MemberIs(s: string, k: string, t1: string, v: Value, t3: string)
    requires s != [] && s[0] == '"' && ParseStringBody(s[1..]) == Some(Parsed(k, t1))
    requires t1 != [] && t1[0] == ':' && ParseValue(t1[1..]) == Some(Parsed(v, t3))
    ensures ParseMember(s) == Some(Parsed(Member(k, v), t3))
  {
    NoWs(s);
    NoWs(t1);
  }

  lemma MemberLast(s: string, m: Member, t: string)
    requires ParseMember(s) == Some(Parsed(m, t))
    requires t != [] && t[0] == '}'
    ensures ParseMembers(s) == Some(Parsed([m], t[1..]))
  {
    NoWs(t);
  }

  lemma MemberMore(s: string, m: Member, t: string, ms: seq<Member>, rest: string)
    requires ParseMember(s) == Some(Parsed(m, t))
    requires t != [] && t[0] == ',' && ParseMembers(t[1..]) == Some(Parsed(ms, rest))
    ensures ParseMembers(s) == Some(Parsed([m] + ms, rest))
  {
    NoWs(t);
  }

  /** The digits Itoa writes form the integer part of a number token. */
  lemma IntPartOfDigits(s: string, i0: nat, d: string, t: string)
    requires i0 <= |s| && s[i0..] == d + t
    requires |d| > 0 && Decimal.AllDigits(d) && (d[0] == '0' ==> d == "0")
    requires t != [] && (t[0] == ',' || t[0] == '}')
    ensures IntPartEnd(s, i0) == Some(i0 + |d|)
  {
    assert s[i0] == d[0];
    if d[0] != '0' {
      DigitRunOfDigits(d, t);
    }
  }

  /** A number token with no fraction and no exponent. */
  lemma IntegerToken(s: string, e: nat)
    requires s != [] && IntPartEnd(s, if s[0] == '-' then 1 else 0) == Some(e)
    requires e < |s| && s[e] != '.' && s[e] != 'e' && s[e] != 'E'
    ensures ParseNumber(s) == Some(Parsed(Number(s[..e]), s[e..]))
  {
    assert FracEnd(s, e) == Some(e);
    assert ExpEnd(s, e) == Some(e);
  }

  /** The digits of Itoa(n): after the sign, if any, a canonical digit string. */
  lemma ItoaDigits(n: Int64)
    ensures var text := Decimal.Itoa(n);
            var i0 := if n < 0 then 1 else 0;
            var d := text[i0..];
            && i0 <= |text| && (text[0] == '-' <==> n < 0)
            && |d| > 0 && Decimal.AllDigits(d) && (d[0] == '0' ==> d == "0")
  {
    var text := Decimal.Itoa(n);
    if n < 0 {
      assert text[1..] == Decimal.NatDigits(-(n as int));
    } else {
      assert text[0..] == Decimal.NatDigits(n);
    }
  }

  /** A decimal integer followed by a delimiter is one number token. */
  lemma ParseIntText(n: Int64, t: string)
    requires t != [] && (t[0] == ',' || t[0] == '}')
    ensures ParseNumber(Decimal.Itoa(n) + t) == Some(Parsed(Number(Decimal.Itoa(n)), t))
  {
    var text := Decimal.Itoa(n);
    var s := text + t;
    var i0 := if n < 0 then 1 else 0;
    ItoaDigits(n);
    var d := text[i0..];
    assert s[i0..] == d + t;
    assert s[0] == text[0];
    IntPartOfDigits(s, i0, d, t);
    assert s[|text|] == t[0];
    IntegerToken(s, |text|);
    assert s[..|text|] == text && s[|text|..] == t;
  }

  /** A decimal integer followed by a delimiter is a number value. */
  lemma ParseIntValue(n: Int64, t: string)
    requires t != [] && (t[0] == ',' || t[0] == '}')
    ensures ParseValue(Decimal.Itoa(n) + t) == Some(Parsed(Number(Decimal.Itoa(n)), t))
  {
    var text := Decimal.Itoa(n);
    var s := text + t;
    ItoaDigits(n);
    assert s[0] == text[0];
    assert n >= 0 ==> text[0..][0] == text[0];
    ValueIsNumber(s);
    ParseIntText(n, t);
  }

  /** A quoted string followed by a delimiter is a string value. */
  lemma ParseStrValue(u: string, t: string)
    ensures ParseValue(Quote(u) + t) == Some(Parsed(Str(u), t))
  {
    var s := Quote(u) + t;
    assert s[0] == '"';
    assert s[1..] == EscapeString(u) + "\"" + t;
    ParseQuoted(u, t);
    ValueIsString(s, u, t);
  }

  lemma ParseScalar(x: Scalar, t: string)
    requires t != [] && (t[0] == ',' || t[0] == '}')
    ensures ParseValue(ScalarText(x) + t) == Some(Parsed(ScalarValue(x), t))
  {
    match x
    case IntScalar(n) => ParseIntValue(n, t);
    case StrScalar(u) => ParseStrValue(u, t);
  }

  /** What follows the first field's value in `FieldsText(fs) + "}" + rest`. */
  function AfterFirst(fs: seq<Field>, rest: string): string
    requires fs != []
  {
    (if |fs| == 1 then "" else "," + FieldsText(fs[1..])) + "}" + rest
  }

  lemma Regroup(q: char, e: string, c: char, x: string, tail: string, rest: string)
    ensures [q] + e + [q] + [c] + x + tail + "}" + rest
         == [q] + (e + [q] + ([c] + (x + (tail + "}" + rest))))
  {
  }

  lemma FieldsTextSplit(fs: seq<Field>, rest: string)
    requires fs != []
    ensures FieldsText(fs) + "}" + rest
         == "\"" + (EscapeString(fs[0].name) + "\"" + (":" + (ScalarText(fs[0].value) + AfterFirst(fs, rest))))
  {
    var e := EscapeString(fs[0].name);
    var x := ScalarText(fs[0].value);
    var tail := if |fs| == 1 then "" else "," + FieldsText(fs[1..]);
    assert FieldsText(fs) == Quote(fs[0].name) + ":" + x + tail;
    assert Quote(fs[0].name) == "\"" + e + "\"";
    Regroup('"', e, ':', x, tail, rest);
    assert AfterFirst(fs, rest) == tail + "}" + rest;
  }

  lemma AfterFirstShape(fs: seq<Field>, rest: string)
    requires fs != []
    ensures AfterFirst(fs, rest)[0] == (if |fs| == 1 then '}' else ',')
    ensures |fs| == 1 ==> AfterFirst(fs, rest)[1..] == rest
    ensures |fs| > 1 ==> AfterFirst(fs, rest)[1..] == FieldsText(fs[1..]) + "}" + rest
  {
    if |fs| == 1 {
      assert AfterFirst(fs, rest) == "}" + rest;
    } else {
      var f := FieldsText(fs[1..]);
      assert AfterFirst(fs, rest) == "," + (f + "}" + rest);
    }
  }

  /** One encoded field followed by a delimiter parses as one member. */
  lemma FieldStep(s: string, k: string, x: Scalar, after: string)
    requires s == "\"" + (EscapeString(k) + "\"" + (":" + (ScalarText(x) + after)))
    requires after != [] && (after[0] == ',' || after[0] == '}')
    ensures ParseMember(s) == Some(Parsed(Member(k, ScalarValue(x)), after))
  {
    var t1 := ":" + (ScalarText(x) + after);
    assert s[1..] == EscapeString(k) + "\"" + t1;
    ParseQuoted(k, t1);
    assert t1[1..] == ScalarText(x) + after;
    ParseScalar(x, after);
    MemberIs(s, k, t1, ScalarValue(x), after);
  }

  lemma {:induction false} ParseFields(fs: seq<Field>, rest: string)
    requires fs != []
    ensures ParseMembers(FieldsText(fs) + "}" + rest) == Some(Parsed(Members(fs), rest))
    decreases |fs|
  {
    var m := Member(fs[0].name, ScalarValue(fs[0].value));
    var after := AfterFirst(fs, rest);
    var s := FieldsText(fs) + "}" + rest;
    FieldsTextSplit(fs, rest);
    AfterFirstShape(fs, rest);
    FieldStep(s, fs[0].name, fs[0].value, after);
    assert Members(fs) == [m] + Members(fs[1..]);
    if |fs| == 1 {
      assert Members(fs[1..]) == [];
      assert Members(fs) == [m];
      assert after[0] == '}';
      MemberLast(s, m, after);
      assert after[1..] == rest;
    } else {
      ParseFields(fs[1..], rest);
      MemberMore(s, m, after, Members(fs[1..]), rest);
    }
  }

  lemma ObjectOf(s: string, ms: seq<Member>, rest: string)
    requires s != [] && s[0] == '"' && ParseMembers(s) == Some(Parsed(ms, rest))
    ensures ParseObject(s) == Some(Parsed(Object(ms), rest))
  {
    NoWs(s);
  }

  /** An object text: `{`, then members up to the closing brace. */
  lemma ObjectValue(body: string, ms: seq<Member>)
    requires body != [] && body[0] == '"' && ParseMembers(body) == Some(Parsed(ms, ""))
    ensures ParseValue("{" + body) == Some(Parsed(Object(ms), ""))
  {
    ValueIsObject("{" + body);
    assert ("{" + body)[1..] == body;
    ObjectOf(body, ms, "");
  }

  /** The value parsed from `{` followed by the encoded fields and `}`. */
  lemma ParseFieldsObject(fs: seq<Field>)
    requires fs != []
    ensures ParseValue("{" + (FieldsText(fs) + "}" + "")) == Some(Parsed(Object(Members(fs)), ""))
  {
    var body := FieldsText(fs) + "}" + "";
    FieldsTextSplit(fs, "");
    ParseFields(fs, "");
    ObjectValue(body, Members(fs));
  }

  // ---------------------------------------------------------------------
  // Depth of json.Marshal's output

  /** Text the depth scan passes over outside a string: no quote and no bracket. */
  predicate Flat(p: string) {
    forall i :: 0 <= i < |p| ==> p[i] != '"' && p[i] != '[' && p[i] != ']' && p[i] != '{' && p[i] != '}'
  }

  lemma {:induction false} FlatScan(p: string, t: string, d: nat)
    requires Flat(p)
    ensures TooDeep(p + t, d) == TooDeep(t, d)
    decreases |p|
  {
    if p != [] {
      assert (p + t)[0] == p[0];
      assert (p + t)[1..] == p[1..] + t;
      FlatScan(p[1..], t, d);
    } else {
      assert p + t == t;
    }
  }

  /** Inside a string literal, text with no quote and no backslash changes nothing. */
  lemma {:induction false} PlainInString(p: string, t: string, d: nat)
    requires forall i :: 0 <= i < |p| ==> p[i] != '"' && p[i] != '\\'
    ensures TooDeepInString(p + t, d) == TooDeepInString(t, d)
    decreases |p|
  {
    if p != [] {
      assert (p + t)[0] == p[0];
      assert (p + t)[1..] == p[1..] + t;
      PlainInString(p[1..], t, d);
    } else {
      assert p + t == t;
    }
  }

  /** No escape Go writes ends the string literal it is in. */
  lemma EscapeCharScan(c: char, t: string, d: nat)
    ensures TooDeepInString(EscapeChar(c) + t, d) == TooDeepInString(t, d)
  {
    var s := EscapeChar(c) + t;
    if c == '"' || c == '\\' || c == '\U{0008}' || c == '\U{000C}' || c == '\n' || c == '\r' || c == '\t' {
      assert |EscapeChar(c)| == 2 && EscapeChar(c)[0] == '\\';
      assert s[2..] == t;
    } else if HexEscaped(c) {
      var h := Hex4(c as int);
      assert EscapeChar(c) == "\\u" + h;
      assert s[2..] == h + t;
      PlainInString(h, t, d);
    } else {
      assert EscapeChar(c) == [c];
      assert s[1..] == t;
    }
  }

  /** The scan leaves an escaped string at its closing quote, at the depth it entered. */
  lemma {:induction false} EscapeStringScan(u: string, t: string, d: nat)
    ensures TooDeepInString(EscapeString(u) + "\"" + t, d) == TooDeep(t, d)
    decreases |u|
  {
    if u == [] {
      assert EscapeString(u) + "\"" + t == "\"" + t;
      assert ("\"" + t)[1..] == t;
    } else {
      var rest := EscapeString(u[1..]) + "\"" + t;
      assert EscapeString(u) + "\"" + t == EscapeChar(u[0]) + rest;
      EscapeCharScan(u[0], rest, d);
      EscapeStringScan(u[1..], t, d);
    }
  }

  lemma QuoteScan(u: string, t: string, d: nat)
    ensures TooDeep(Quote(u) + t, d) == TooDeep(t, d)
  {
    var s := Quote(u) + t;
    assert s[0] == '"';
    assert s[1..] == EscapeString(u) + "\"" + t;
    EscapeStringScan(u, t, d);
  }

  lemma ScalarScan(x: Scalar, t: string, d: nat)
    ensures TooDeep(ScalarText(x) + t, d) == TooDeep(t, d)
  {
    match x
    case IntScalar(n) =>
      var m: int := n;
      var s := Decimal.Itoa(m);
      assert Flat(s) by {
        forall i | 0 <= i < |s| ensures s[i] == '-' || Decimal.IsDigit(s[i]) {
          if m < 0 && i > 0 {
            assert s[i] == Decimal.NatDigits(-m)[i - 1];
          }
        }
      }
      FlatScan(s, t, d);
    case StrScalar(u) => QuoteScan(u, t, d);
  }

  /** One encoded member, `"key":value`, leaves the scan where it was. */
  lemma MemberScan(k: string, x: Scalar, after: string, d: nat)
    ensures TooDeep(Quote(k) + (":" + (ScalarText(x) + after)), d) == TooDeep(after, d)
  {
    QuoteScan(k, ":" + (ScalarText(x) + after), d);
    FlatScan(":", ScalarText(x) + after, d);
    ScalarScan(x, after, d);
  }

  lemma FieldsTextHead(fs: seq<Field>, rest: string)
    requires fs != []
    ensures FieldsText(fs) + "}" + rest == Quote(fs[0].name) + (":" + (ScalarText(fs[0].value) + AfterFirst(fs, rest)))
  {
    FieldsTextSplit(fs, rest);
  }

  /** After the first member: the closing brace, or a comma and the remaining fields. */
  lemma AfterFirstScan(fs: seq<Field>, rest: string)
    requires fs != []
    ensures |fs| == 1 ==> TooDeep(AfterFirst(fs, rest), 1) == TooDeep(rest, 0)
    ensures |fs| > 1 ==> TooDeep(AfterFirst(fs, rest), 1) == TooDeep(FieldsText(fs[1..]) + "}" + rest, 1)
  {
    AfterFirstShape(fs, rest);
  }

  /** Encoded fields and the closing brace, read inside the object, close it again. */
  lemma {:induction false} FieldsScan(fs: seq<Field>, rest: string)
    requires fs != []
    ensures TooDeep(FieldsText(fs) + "}" + rest, 1) == TooDeep(rest, 0)
    decreases |fs|
  {
    FieldsTextHead(fs, rest);
    MemberScan(fs[0].name, fs[0].value, AfterFirst(fs, rest), 1);
    AfterFirstScan(fs, rest);
    if |fs| > 1 {
      FieldsScan(fs[1..], rest);
    }
  }

  /** json.Marshal's output for a struct of scalars opens one object and nothing else. */
  lemma SerializedShallow(fs: seq<Field>)
    ensures !TooDeep(SerializeObject(fs), 0)
  {
    var s := SerializeObject(fs);
    if fs == [] {
      assert s == "{}";
      assert s[1..] == "}" && s[1..][1..] == [];
      assert TooDeep(s[1..], 1) == TooDeep(s[1..][1..], 0);
    } else {
      assert s == "{" + (FieldsText(fs) + "}" + "");
      assert s[1..] == FieldsText(fs) + "}" + "";
      FieldsScan(fs, "");
    }
  }

  /** A run of opening brackets longer than the depth still allowed is refused, whatever follows. */
  lemma {:induction false} OpenRunTooDeep(n: nat, t: string, d: nat)
    requires d <= MaxNestingDepth < d + n
    ensures TooDeep(seq(n, _ => '[') + t, d)
    decreases n
  {
    var s := seq(n, _ => '[') + t;
    assert s[0] == '[';
    if d + 1 <= MaxNestingDepth {
      assert s[1..] == seq(n - 1, _ => '[') + t;
      OpenRunTooDeep(n - 1, t, d + 1);
    }
  }

  lemma NestedText(q1: string, q2: string, q3: string, opens: string, tail: string)
    ensures "{" + q1 + ":" + q2 + "," + q3 + ":" + opens + tail
         == "{" + (q1 + (":" + (q2 + ("," + (q3 + (":" + (opens + tail)))))))
  {
  }

  /**
    An object whose second member opens MaxNestingDepth arrays is too deep,
    whatever follows: encoding/json refuses it before decoding a member.
   */
  lemma NestedMemberRefused(k1: string, v1: string, k2: string, n: nat, tail: string)
    requires n >= MaxNestingDepth
    ensures Parse("{" + Quote(k1) + ":" + Quote(v1) + "," + Quote(k2) + ":" + seq(n, _ => '[') + tail).None?
  {
    var opens := seq(n, _ => '[');
    var a3 := Quote(k2) + (":" + (opens + tail));
    var body := Quote(k1) + (":" + (ScalarText(StrScalar(v1)) + ("," + a3)));
    NestedText(Quote(k1), Quote(v1), Quote(k2), opens, tail);
    OpenRunTooDeep(n, tail, 1);
    FlatScan(":", opens + tail, 1);
    QuoteScan(k2, ":" + (opens + tail), 1);
    FlatScan(",", a3, 1);
    MemberScan(k1, StrScalar(v1), "," + a3, 1);
    var s := "{" + body;
    assert s[1..] == body;
  }

  /** `{}` is the empty object. */
  lemma ParseEmptyObject()
    ensures Parse("{}") == Some(Object([]))
  {
    var s := "{}";
    ValueIsObject(s);
    assert s[1..] == "}";
    NoWs(s[1..]);
    assert ParseValue(s) == Some(Parsed(Object([]), ""));
    SerializedShallow([]);
  }

  /** The syntax tree of json.Marshal's output is the struct's own fields. */
  lemma ParseSerialized(fs: seq<Field>)
    ensures Parse(SerializeObject(fs)) == Some(Object(Members(fs)))
  {
    var s := SerializeObject(fs);
    if fs == [] {
      assert s == "{}";
      ParseEmptyObject();
    } else {
      assert s == "{" + (FieldsText(fs) + "}" + "");
      ParseFieldsObject(fs);
      SerializedShallow(fs);
    }
  }

  /** Decoding json.Marshal's output into a struct sees exactly the struct's fields. */
  lemma ObjectMembersSerialized(fs: seq<Field>)
    ensures ObjectMembers(SerializeObject(fs)) == Ok(Some(Members(fs)))
  {
    ParseSerialized(fs);
  }

  /** No member addressed to `field`: the field keeps its initial value. */
  lemma {:induction false} FieldsAbsent(fs: seq<Field>, field: string, n: Int64, u: string)
    requires forall i :: 0 <= i < |fs| ==> !KeyMatches(fs[i].name, field)
    ensures IntField(Members(fs), field, n) == Ok(n)
    ensures StringField(Members(fs), field, u) == Ok(u)
    decreases |fs|
  {
    if fs != [] {
      assert Members(fs)[1..] == Members(fs[1..]);
      FieldsAbsent(fs[1..], field, n, u);
    }
  }

  /** Exactly one member addressed to `field`: decoding yields its value. */
  lemma {:induction false} FieldPresent(fs: seq<Field>, k: nat, field: string, n: Int64, u: string)
    requires k < |fs| && KeyMatches(fs[k].name, field)
    requires forall i :: 0 <= i < |fs| && i != k ==> !KeyMatches(fs[i].name, field)
    ensures fs[k].value.IntScalar? ==> IntField(Members(fs), field, n) == Ok(fs[k].value.n)
    ensures fs[k].value.StrScalar? ==> StringField(Members(fs), field, u) == Ok(fs[k].value.s)
    decreases |fs|
  {
    assert Members(fs)[1..] == Members(fs[1..]);
    if k == 0 {
      var v := fs[0].value;
      if v.IntScalar? {
        Decimal.AtoiItoa(v.n);
        FieldsAbsent(fs[1..], field, v.n, u);
      } else {
        FieldsAbsent(fs[1..], field, n, v.s);
      }
    } else {
      FieldPresent(fs[1..], k - 1, field, n, u);
    }
  }
}
