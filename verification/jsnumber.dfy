/** Integer printing (`String(n)`) and `parseInt` with no radix argument,
    over unbounded integers. */
module JsNumber {
  import opened Wrappers
  import JsString

  predicate IsDigit(c: char)
  {
    '0' <= c <= '9'
  }

  predicate AllDigits(s: string)
  {
    forall i :: 0 <= i < |s| ==> IsDigit(s[i])
  }

  function DigitValue(c: char): nat
    requires IsDigit(c)
  {
    c as int - '0' as int
  }

  function DigitChar(d: nat): (c: char)
    requires d < 10
    ensures IsDigit(c) && DigitValue(c) == d
  {
    ('0' as int + d) as char
  }

  /** The number a string of decimal digits denotes. */
  function DecimalValue(s: string): nat
    requires AllDigits(s)
  {
    if s == [] then 0 else DecimalValue(s[..|s| - 1]) * 10 + DigitValue(s[|s| - 1])
  }

  /** `String(n)` for a natural number: shortest decimal form. */
  function NatToString(n: nat): (s: string)
    ensures 1 <= |s| && AllDigits(s)
    ensures s[0] == '0' ==> n == 0 && s == "0"
  {
    if n < 10 then [DigitChar(n)] else NatToString(n / 10) + [DigitChar(n % 10)]
  }

  /** `String(i)` for an integer. */
  function IntToString(i: int): string
  {
    if i < 0 then "-" + NatToString(-i) else NatToString(i)
  }

  /** Reading back a printed natural number gives the number. */
  lemma {:induction false} DecimalOfNatToString(n: nat)
    ensures DecimalValue(NatToString(n)) == n
  {
    if n >= 10 {
      DecimalOfNatToString(n / 10);
      var s := NatToString(n);
      assert s[..|s| - 1] == NatToString(n / 10);
    }
  }

  /** Leading zeros do not change a decimal value. */
  lemma {:induction false} DecimalLeadingZero(s: string)
    requires AllDigits(s)
    ensures AllDigits("0" + s) && DecimalValue("0" + s) == DecimalValue(s)
    decreases |s|
  {
    if s != [] {
      DecimalLeadingZero(s[..|s| - 1]);
      assert ("0" + s)[..|"0" + s| - 1] == "0" + s[..|s| - 1];
    }
  }

  predicate IsHexDigit(c: char)
  {
    IsDigit(c) || 'a' <= c <= 'f' || 'A' <= c <= 'F'
  }

  function HexDigitValue(c: char): nat
    requires IsHexDigit(c)
  {
    if IsDigit(c) then DigitValue(c)
    else if 'a' <= c <= 'f' then c as int - 'a' as int + 10
    else c as int - 'A' as int + 10
  }

  function HexValue(s: string): nat
    requires forall i :: 0 <= i < |s| ==> IsHexDigit(s[i])
  {
    if s == [] then 0 else HexValue(s[..|s| - 1]) * 16 + HexDigitValue(s[|s| - 1])
  }

  /** Length of the longest prefix of `s` whose characters satisfy `ok`. */
  function PrefixLength(s: string, ok: char -> bool): (k: nat)
    ensures k <= |s|
    ensures forall i :: 0 <= i < k ==> ok(s[i])
    ensures k < |s| ==> !ok(s[k])
  {
    if s != [] && ok(s[0]) then 1 + PrefixLength(s[1..], ok) else 0
  }

  /** A leading `0x`/`0X`, which makes `parseInt` read base 16. */
  predicate HasHexPrefix(s: string)
  {
    |s| >= 2 && s[0] == '0' && (s[1] == 'x' || s[1] == 'X')
  }

  /** Digits read after the sign: hexadecimal after `0x`, else decimal;
      `None` (NaN) when no digit follows. */
  function ParseMagnitude(u: string): Option<nat>
  {
    if HasHexPrefix(u) then
      var h := PrefixLength(u[2..], IsHexDigit);
      if h == 0 then None else Some(HexValue(u[2..][..h]))
    else
      var d := PrefixLength(u, IsDigit);
      if d == 0 then None else Some(DecimalValue(u[..d]))
  }

  /** `parseInt(s)`: skip leading white space, take an optional sign, then
      the longest run of digits; anything after the digits is ignored.
      `None` stands for NaN. */
  function ParseInt(s: string): (r: Option<int>)
    ensures |s| > 0 && AllDigits(s) ==> r == Some(DecimalValue(s))
    ensures JsString.AllSpace(s) ==> r == None
    ensures r.Some? ==> exists i :: 0 <= i < |s| && IsHexDigit(s[i])
  {
    PlainDigits(s);
    assert s[0..] == s && s[..|s|] == s;
    var t := s[JsString.LeadingSpaces(s)..];
    var negative := t != [] && t[0] == '-';
    var u := if t != [] && (t[0] == '-' || t[0] == '+') then t[1..] else t;
    match ParseMagnitude(u)
    case None => None
    case Some(m) => Some(if negative then -(m as int) else m as int)
  }

  /** A non-empty run of decimal digits has no leading space and no hex
      prefix, and is read whole. */
  lemma PlainDigits(s: string)
    ensures |s| > 0 && AllDigits(s) ==>
      && JsString.LeadingSpaces(s) == 0
      && !HasHexPrefix(s)
      && PrefixLength(s, IsDigit) == |s|
      && s[0] != '-' && s[0] != '+'
  {
    if |s| > 0 && AllDigits(s) {
      assert !JsString.IsSpace(s[0]);
    }
  }

  /** `parseInt(String(i)) == i`: a printed integer reads back unchanged. */
  lemma ParseIntOfIntToString(i: int)
    ensures ParseInt(IntToString(i)) == Some(i)
  {
    var n: nat := if i < 0 then -i else i;
    var digits := NatToString(n);
    var s := IntToString(i);
    assert JsString.LeadingSpaces(s) == 0 by {
      assert !JsString.IsSpace(s[0]);
    }
    assert s[0..] == s;
    assert !HasHexPrefix(digits);
    assert PrefixLength(digits, IsDigit) == |digits|;
    assert digits[..|digits|] == digits;
    DecimalOfNatToString(n);
    if i < 0 {
      assert s[1..] == digits;
    }
  }

  /** `padStart(2, "0")`: prefix zeros until the string is two long. */
  function PadTwo(s: string): (r: string)
    ensures |r| == if |s| < 2 then 2 else |s|
    ensures r[|r| - |s|..] == s
    ensures forall i :: 0 <= i < |r| - |s| ==> r[i] == '0'
  {
    if |s| >= 2 then s else if |s| == 1 then "0" + s else "00"
  }
}
