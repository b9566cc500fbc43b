/** Number <-> text as JavaScript does it for integers: template-literal
    interpolation `${n}` (decimal, leading '-' for negatives) and `parseInt`
    (lenient prefix parse; NaN is `None`). */
module Decimal {
  import opened Common

  predicate IsDigit(c: char) { '0' <= c <= '9' }

  function DigitChar(d: nat): (c: char)
    requires d < 10
    ensures IsDigit(c)
  {
    (('0' as int) + d) as char
  }

  /** Decimal rendering of a natural number, most significant digit first,
      without leading zeros. */
  function NatToString(n: nat): (s: string)
    ensures |s| >= 1
    ensures forall k :: 0 <= k < |s| ==> IsDigit(s[k])
    ensures |s| > 1 ==> s[0] != '0'
    decreases n
  {
    if n < 10 then [DigitChar(n)] else NatToString(n / 10) + [DigitChar(n % 10)]
  }

  /** `${i}` for an integer-valued number. */
  function IntToString(i: int): (s: string)
    ensures |s| >= 1
    ensures forall k :: 0 <= k < |s| ==> IsDigit(s[k]) || (k == 0 && s[k] == '-')
  {
    if i < 0 then "-" + NatToString(-i) else NatToString(i)
  }

  // ---------------------------------------------------------------------
  // parseInt
  // ---------------------------------------------------------------------

  /** Value of a digit in the given radix (10 or 16), or -1. */
  function DigitValue(c: char, radix: nat): (v: int)
    requires radix == 10 || radix == 16
    ensures -1 <= v < radix
  {
    if '0' <= c <= '9' then c as int - '0' as int
    else if radix == 16 && 'a' <= c <= 'f' then c as int - 'a' as int + 10
    else if radix == 16 && 'A' <= c <= 'F' then c as int - 'A' as int + 10
    else -1
  }

  /** The longest prefix of `s` made of digits of the radix. */
  function LeadingDigits(s: string, radix: nat): (ds: string)
    requires radix == 10 || radix == 16
    ensures |ds| <= |s| && ds == s[..|ds|]
    ensures forall k :: 0 <= k < |ds| ==> DigitValue(ds[k], radix) >= 0
    ensures |ds| < |s| ==> DigitValue(s[|ds|], radix) < 0
    decreases |s|
  {
    if |s| > 0 && DigitValue(s[0], radix) >= 0 then [s[0]] + LeadingDigits(s[1..], radix)
    else ""
  }

  /** Positional value of a digit string. */
  function DigitsValue(ds: string, radix: nat): (v: nat)
    requires radix == 10 || radix == 16
    requires forall k :: 0 <= k < |ds| ==> DigitValue(ds[k], radix) >= 0
    decreases |ds|
  {
    if |ds| == 0 then 0
    else DigitsValue(ds[..|ds| - 1], radix) * radix + DigitValue(ds[|ds| - 1], radix)
  }

  /** The part of parseInt after leading whitespace and an optional sign:
      at least one digit of the radix, else NaN. */
  function ParseDigits(s: string, radix: nat, negative: bool): Option<int>
    requires radix == 10 || radix == 16
  {
    var ds := LeadingDigits(s, radix);
    if |ds| == 0 then None
    else Some(if negative then -(DigitsValue(ds, radix) as int) else DigitsValue(ds, radix))
  }

  /** Leading whitespace and an optional sign, as parseInt reads them. */
  function SignAndBody(s: string): (bool, string) {
    var t := TrimStart(s);
    if |t| > 0 && (t[0] == '-' || t[0] == '+') then (t[0] == '-', t[1..]) else (false, t)
  }

  /** `parseInt(s, 10)`. */
  function ParseIntDecimal(s: string): Option<int> {
    var (neg, body) := SignAndBody(s);
    ParseDigits(body, 10, neg)
  }

  /** `parseInt(s)` without a radix: a `0x`/`0X` prefix selects radix 16. */
  function ParseIntAuto(s: string): Option<int> {
    var (neg, body) := SignAndBody(s);
    if |body| >= 2 && body[0] == '0' && (body[1] == 'x' || body[1] == 'X')
    then ParseDigits(body[2..], 16, neg)
    else ParseDigits(body, 10, neg)
  }

  /** `parseInt(parts[i], 10)`; `parseInt(undefined)` is NaN, so a missing
      piece parses as nothing. */
  function ParseIntDecimalAt(parts: seq<string>, i: nat): Option<int> {
    match At(parts, i)
    case None => None
    case Some(p) => ParseIntDecimal(p)
  }

  /** `parseInt(parts[i])` without a radix. */
  function ParseIntAutoAt(parts: seq<string>, i: nat): Option<int> {
    match At(parts, i)
    case None => None
    case Some(p) => ParseIntAuto(p)
  }

  // ---------------------------------------------------------------------
  // round trips
  // ---------------------------------------------------------------------

  lemma DigitCharValue(d: nat)
    requires d < 10
    ensures DigitValue(DigitChar(d), 10) == d
  {
  }

  lemma {:induction false} NatRoundTrip(n: nat)
    ensures LeadingDigits(NatToString(n), 10) == NatToString(n)
    ensures DigitsValue(NatToString(n), 10) == n
    decreases n
  {
    var s := NatToString(n);
    assert forall k :: 0 <= k < |s| ==> DigitValue(s[k], 10) >= 0;
    AllDigitsLeading(s, 10);
    if n < 10 {
      DigitCharValue(n);
      assert s[..0] == "";
    } else {
      var q := n / 10;
      var d := n % 10;
      NatRoundTrip(q);
      DigitCharValue(d);
      assert s == NatToString(q) + [DigitChar(d)];
      assert s[..|s| - 1] == NatToString(q);
      assert s[|s| - 1] == DigitChar(d);
      calc {
        DigitsValue(s, 10);
        DigitsValue(NatToString(q), 10) * 10 + DigitValue(DigitChar(d), 10);
        q * 10 + d;
      }
    }
  }

  lemma {:induction false} AllDigitsLeading(s: string, radix: nat)
    requires radix == 10 || radix == 16
    requires forall k :: 0 <= k < |s| ==> DigitValue(s[k], radix) >= 0
    ensures LeadingDigits(s, radix) == s
    decreases |s|
  {
    if |s| > 0 {
      AllDigitsLeading(s[1..], radix);
      assert [s[0]] + s[1..] == s;
    }
  }

  lemma TrimStartKeeps(s: string)
    requires |s| > 0 && !IsJsSpace(s[0])
    ensures TrimStart(s) == s
  {
  }

  /** A rendered integer is its sign followed by the digits of its magnitude. */
  lemma SignAndBodyOfInt(i: int)
    ensures SignAndBody(IntToString(i)) == (i < 0, NatToString(if i < 0 then -i else i))
  {
    var n: nat := if i < 0 then -i else i;
    var s := NatToString(n);
    var t := IntToString(i);
    assert IsDigit(s[0]);
    if i < 0 {
      assert t == "-" + s;
      assert t[0] == '-';
      TrimStartKeeps(t);
      assert t[1..] == s;
    } else {
      assert t == s;
      TrimStartKeeps(t);
    }
  }

  /** `parseInt(`${i}`, 10) === i`. */
  lemma DecimalRoundTrip(i: int)
    ensures ParseIntDecimal(IntToString(i)) == Some(i)
  {
    var n: nat := if i < 0 then -i else i;
    NatRoundTrip(n);
    SignAndBodyOfInt(i);
  }

  /** Without a radix the same holds: a rendered integer never starts with
      `0x`. */
  lemma AutoRoundTrip(i: int)
    ensures ParseIntAuto(IntToString(i)) == Some(i)
  {
    var n: nat := if i < 0 then -i else i;
    NatRoundTrip(n);
    SignAndBodyOfInt(i);
    var s := NatToString(n);
    assert |s| >= 2 ==> IsDigit(s[1]);
  }

  /** Distinct integers render differently. */
  lemma IntToStringInjective(a: int, b: int)
    requires IntToString(a) == IntToString(b)
    ensures a == b
  {
    DecimalRoundTrip(a);
    DecimalRoundTrip(b);
  }

  /** A rendered integer has no character other than '-' and digits. */
  lemma IntToStringHasNo(i: int, c: char)
    requires c != '-' && !IsDigit(c)
    ensures c !in IntToString(i)
  {
  }
}
