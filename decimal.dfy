/**
  The decimal conversions of Go's strconv package that the connector uses:
  `Itoa` (and the identical integer formatting of encoding/json) and `Atoi`
  (equivalently `ParseInt(s, 10, 64)` on a 64-bit platform).
 */
module Decimal {
  import opened Wrappers
  import opened GoInt

  datatype NumError = SyntaxError | RangeError

  predicate IsDigit(c: char) {
    '0' <= c <= '9'
  }

  predicate AllDigits(s: string) {
    forall i :: 0 <= i < |s| ==> IsDigit(s[i])
  }

  function DigitValue(c: char): (d: nat)
    requires IsDigit(c)
    ensures d < 10
  {
    c as int - '0' as int
  }

  /** A hexadecimal digit, in either case (Go's ishex). */
  predicate IsHex(c: char) {
    '0' <= c <= '9' || 'a' <= c <= 'f' || 'A' <= c <= 'F'
  }

  /** The value of a hexadecimal digit (Go's unhex). */
  function HexValue(c: char): (v: nat)
    requires IsHex(c)
    ensures v < 16
    ensures v < 10 <==> IsDigit(c)
  {
    if c <= '9' then c as int - '0' as int
    else if c <= 'F' then c as int - 'A' as int + 10
    else c as int - 'a' as int + 10
  }

  function DigitChar(d: nat): (c: char)
    requires d < 10
    ensures IsDigit(c) && DigitValue(c) == d
  {
    ('0' as int + d) as char
  }

  /** The value of a run of decimal digits, most significant digit first. */
  function DigitsValue(s: string): nat
    requires AllDigits(s)
  {
    if s == [] then 0 else DigitsValue(s[..|s| - 1]) * 10 + DigitValue(s[|s| - 1])
  }

  /** The shortest decimal spelling of `n`: no leading zero except for 0 itself. */
  function NatDigits(n: nat): (s: string)
    ensures |s| > 0 && AllDigits(s)
    ensures DigitsValue(s) == n
    ensures s[0] == '0' ==> n == 0 && s == "0"
    decreases n
  {
    if n < 10 then [DigitChar(n)]
    else
      var front := NatDigits(n / 10);
      var s := front + [DigitChar(n % 10)];
      assert s[..|s| - 1] == front;
      s
  }

  /** strconv.Itoa: an optional '-' followed by the shortest digits. */
  function Itoa(n: int): (s: string)
    ensures |s| > 0
    ensures n >= 0 ==> s == NatDigits(n)
    ensures n < 0 ==> s == "-" + NatDigits(-n)
  {
    if n < 0 then "-" + NatDigits(-n) else NatDigits(n)
  }

  /**
    strconv.Atoi on a 64-bit platform: an optional sign followed by at least
    one decimal digit and nothing else; a well-formed value outside the int64
    range is a range error.
   */
  function Atoi(s: string): (r: Result<Int64, NumError>)
    ensures r.Ok? <==> WellFormed(s) && MinInt64 <= SignedValue(s) <= MaxInt64
    ensures r.Ok? ==> r.value == SignedValue(s)
    ensures r == Err(SyntaxError) <==> !WellFormed(s)
  {
    if !WellFormed(s) then Err(SyntaxError)
    else
      var v := SignedValue(s);
      if MinInt64 <= v <= MaxInt64 then Ok(v) else Err(RangeError)
  }

  /** Position of the first digit: after an optional leading sign. */
  function DigitsStart(s: string): nat {
    if |s| > 0 && (s[0] == '-' || s[0] == '+') then 1 else 0
  }

  /** The syntax strconv accepts for base 10: `[+-]?[0-9]+`. */
  predicate WellFormed(s: string) {
    DigitsStart(s) < |s| && AllDigits(s[DigitsStart(s)..])
  }

  function SignedValue(s: string): int
    requires WellFormed(s)
  {
    var m: int := DigitsValue(s[DigitsStart(s)..]);
    if s[0] == '-' then -m else m
  }

  /** Formatting and parsing are inverse on every 64-bit value. */
  lemma AtoiItoa(n: Int64)
    ensures Atoi(Itoa(n)) == Ok(n)
  {
    var s := Itoa(n);
    if n < 0 {
      var d := NatDigits(-(n as int));
      assert s == "-" + d;
      assert DigitsStart(s) == 1 && s[1..] == d;
      assert WellFormed(s) && SignedValue(s) == n;
    } else {
      var d := NatDigits(n);
      assert IsDigit(d[0]);
      assert DigitsStart(s) == 0 && s[0..] == d;
      assert WellFormed(s) && SignedValue(s) == n;
    }
  }

  lemma AtoiEmpty()
    ensures Atoi("") == Err(SyntaxError)
  {
  }
}
