/**
 * The two number/string conversions the session handlers use: the decimal
 * text of an integer (`Date.now().toString()`) and `parseInt(s)` with no
 * radix argument. Numbers are mathematical integers here.
 */
module JsNumber {
  import opened Wrappers
  import opened JsString

  predicate IsDecimalDigit(c: char) {
    '0' <= c <= '9'
  }

  function DigitChar(d: nat): (c: char)
    requires d < 10
    ensures IsDecimalDigit(c) && c as int - '0' as int == d
  {
    (d + '0' as int) as char
  }

  /** The value of `c` as a digit in any radix up to 36 (`0-9`, then `a-z` or `A-Z`), if it is one. */
  function DigitValue(c: char): Option<nat> {
    if '0' <= c <= '9' then Some(c as int - '0' as int)
    else if 'a' <= c <= 'z' then Some(c as int - 'a' as int + 10)
    else if 'A' <= c <= 'Z' then Some(c as int - 'A' as int + 10)
    else None
  }

  predicate IsDigitIn(c: char, radix: nat) {
    DigitValue(c).Some? && DigitValue(c).value < radix
  }

  /** Length of the longest prefix of `s` made of radix-`radix` digits. */
  function DigitRun(s: string, radix: nat): (k: nat)
    ensures k <= |s|
    ensures forall i :: 0 <= i < k ==> IsDigitIn(s[i], radix)
    ensures k < |s| ==> !IsDigitIn(s[k], radix)
    decreases |s|
  {
    if |s| > 0 && IsDigitIn(s[0], radix) then 1 + DigitRun(s[1..], radix) else 0
  }

  lemma MulNat(a: nat, b: nat)
    ensures a * b >= 0
  {
  }

  /** The number a string of radix-`radix` digits denotes, most significant digit first. */
  function DigitsValue(ds: string, radix: nat): nat
    requires forall i :: 0 <= i < |ds| ==> IsDigitIn(ds[i], radix)
    decreases |ds|
  {
    if ds == [] then 0
    else
      var init := ds[..|ds| - 1];
      assert forall i :: 0 <= i < |init| ==> init[i] == ds[i];
      var d := ds[|ds| - 1];
      assert IsDigitIn(d, radix);
      var high := DigitsValue(init, radix);
      MulNat(high, radix);
      high * radix + DigitValue(d).value
  }

  /** Decimal text of a natural number, without leading zeros. */
  function NatToDecimal(n: nat): (s: string)
    ensures |s| >= 1
    ensures forall i :: 0 <= i < |s| ==> IsDecimalDigit(s[i])
    ensures s[0] == '0' ==> n == 0 && |s| == 1
    decreases n
  {
    if n < 10 then [DigitChar(n)] else NatToDecimal(n / 10) + [DigitChar(n % 10)]
  }

  /** `n.toString()` for an integer-valued number. */
  function IntToString(n: int): string {
    if n < 0 then "-" + NatToDecimal(-n) else NatToDecimal(n)
  }

  /** The value of the longest run of radix-`radix` digits at the start of `v`, if that run is not empty. */
  function LeadingDigits(v: string, radix: nat): Option<nat> {
    var k := DigitRun(v, radix);
    if k == 0 then None
    else
      var ds := v[..k];
      assert forall i :: 0 <= i < |ds| ==> IsDigitIn(ds[i], radix);
      Some(DigitsValue(ds, radix))
  }

  /**
   * `parseInt(s)`: skip leading white space, read an optional sign, read the
   * `0x`/`0X` prefix that selects radix 16 (radix 10 otherwise), then take the
   * longest run of digits. No digits at all gives NaN, here `None`.
   */
  function ParseInt(s: string): Option<int> {
    ParseSigned(TrimStart(s))
  }

  /** `parseInt` after the white space: an optional `-` or `+`, then the magnitude. */
  function ParseSigned(t: string): Option<int> {
    if |t| > 0 && t[0] == '-' then Negated(ParseMagnitude(t[1..]))
    else if |t| > 0 && t[0] == '+' then ParseMagnitude(t[1..])
    else ParseMagnitude(t)
  }

  function Negated(m: Option<nat>): Option<int> {
    match m
    case None => None
    case Some(v) =>
      var negative: int := -(v as int);
      Some(negative)
  }

  /** `parseInt` after the sign: the hexadecimal prefix, then the digits. */
  function ParseMagnitude(u: string): Option<nat> {
    if |u| >= 2 && u[0] == '0' && (u[1] == 'x' || u[1] == 'X') then LeadingDigits(u[2..], 16)
    else LeadingDigits(u, 10)
  }

  lemma {:induction false} DecimalValue(n: nat)
    ensures forall i :: 0 <= i < |NatToDecimal(n)| ==> IsDigitIn(NatToDecimal(n)[i], 10)
    ensures DigitsValue(NatToDecimal(n), 10) == n
    decreases n
  {
    var s := NatToDecimal(n);
    forall i | 0 <= i < |s| ensures IsDigitIn(s[i], 10) {
      assert IsDecimalDigit(s[i]);
    }
    if n >= 10 {
      DecimalValue(n / 10);
      assert s[..|s| - 1] == NatToDecimal(n / 10);
    }
  }

  lemma {:induction false} DigitRunAll(s: string, radix: nat)
    requires forall i :: 0 <= i < |s| ==> IsDigitIn(s[i], radix)
    ensures DigitRun(s, radix) == |s|
    decreases |s|
  {
    if |s| > 0 {
      DigitRunAll(s[1..], radix);
    }
  }

  lemma {:induction false} LeadingDigitsOfDecimal(m: nat)
    ensures LeadingDigits(NatToDecimal(m), 10) == Some(m)
  {
    var digits := NatToDecimal(m);
    DecimalValue(m);
    DigitRunAll(digits, 10);
    assert digits[..|digits|] == digits;
  }

  lemma MagnitudeOfDecimal(m: nat)
    ensures ParseMagnitude(NatToDecimal(m)) == Some(m)
  {
    var digits := NatToDecimal(m);
    assert !(|digits| >= 2 && digits[0] == '0');
    LeadingDigitsOfDecimal(m);
  }

  lemma SignOrDigitNotWhiteSpace(c: char)
    requires c == '-' || c == '+' || IsDecimalDigit(c)
    ensures !IsWhiteSpace(c)
  {
  }

  lemma ParseNonNegative(n: int)
    requires n >= 0
    ensures ParseInt(IntToString(n)) == Some(n)
  {
    var t := NatToDecimal(n);
    assert IntToString(n) == t;
    SignOrDigitNotWhiteSpace(t[0]);
    assert TrimStart(t) == t;
    assert t[0] != '-' && t[0] != '+';
    MagnitudeOfDecimal(n);
  }

  lemma ParseNegative(n: int)
    requires n < 0
    ensures ParseInt(IntToString(n)) == Some(n)
  {
    var m: nat := -n;
    var t := "-" + NatToDecimal(m);
    assert IntToString(n) == t;
    SignOrDigitNotWhiteSpace(t[0]);
    assert TrimStart(t) == t;
    assert t[1..] == NatToDecimal(m);
    MagnitudeOfDecimal(m);
  }

  /** `n.toString()` is an optional `-` (exactly when `n < 0`) followed by decimal digits denoting `|n|`. */
  lemma IntToStringValue(n: int)
    ensures |IntToString(n)| >= 1 && (IntToString(n)[0] == '-' <==> n < 0)
    ensures var digits := if n < 0 then IntToString(n)[1..] else IntToString(n);
      |digits| >= 1 &&
      (forall i :: 0 <= i < |digits| ==> IsDigitIn(digits[i], 10)) &&
      DigitsValue(digits, 10) == (if n < 0 then -n else n)
  {
    var m: nat := if n < 0 then -n else n;
    var t := NatToDecimal(m);
    if n < 0 {
      assert IntToString(n) == "-" + t;
      assert IntToString(n)[1..] == t;
    }
    DecimalValue(m);
  }

  /** Reading back the hidden-at timestamp: `parseInt(n.toString()) == n`. */
  lemma ParseIntOfIntToString(n: int)
    ensures ParseInt(IntToString(n)) == Some(n)
  {
    if n < 0 {
      ParseNegative(n);
    } else {
      ParseNonNegative(n);
    }
  }

  // ----- what `parseInt` reads -----

  /** The sign text `parseInt` accepts before the digits. */
  predicate IsSign(sign: string) {
    sign == "" || sign == "-" || sign == "+"
  }

  /** The value read with that sign. */
  function Signed(sign: string, v: nat): int {
    if sign == "-" then -(v as int) else v
  }

  lemma {:induction false} TrimStartSkips(w: string, t: string)
    requires forall i :: 0 <= i < |w| ==> IsWhiteSpace(w[i])
    requires |t| == 0 || !IsWhiteSpace(t[0])
    ensures TrimStart(w + t) == t
    decreases |w|
  {
    if |w| > 0 {
      assert (w + t)[1..] == w[1..] + t;
      TrimStartSkips(w[1..], t);
    } else {
      assert w + t == t;
    }
  }

  lemma {:induction false} DigitRunStops(ds: string, rest: string, radix: nat)
    requires forall i :: 0 <= i < |ds| ==> IsDigitIn(ds[i], radix)
    requires |rest| == 0 || !IsDigitIn(rest[0], radix)
    ensures DigitRun(ds + rest, radix) == |ds|
    decreases |ds|
  {
    if |ds| > 0 {
      assert (ds + rest)[1..] == ds[1..] + rest;
      DigitRunStops(ds[1..], rest, radix);
    } else {
      assert ds + rest == rest;
    }
  }

  lemma LeadingDigitsStop(ds: string, rest: string, radix: nat)
    requires |ds| >= 1 && forall i :: 0 <= i < |ds| ==> IsDigitIn(ds[i], radix)
    requires |rest| == 0 || !IsDigitIn(rest[0], radix)
    ensures LeadingDigits(ds + rest, radix) == Some(DigitsValue(ds, radix))
  {
    DigitRunStops(ds, rest, radix);
    assert (ds + rest)[..|ds|] == ds;
  }

  /** After the white space and the sign, `parseInt` reads the magnitude with the sign applied. */
  lemma ParseAfterSign(w: string, sign: string, u: string)
    requires forall i :: 0 <= i < |w| ==> IsWhiteSpace(w[i])
    requires IsSign(sign)
    requires |u| >= 1 && !IsWhiteSpace(u[0]) && (sign == "" ==> u[0] != '-' && u[0] != '+')
    ensures ParseInt(w + sign + u) ==
      if sign == "-" then Negated(ParseMagnitude(u)) else ParseMagnitude(u)
  {
    var t := sign + u;
    ConcatAssoc(w, sign, u);
    if sign != "" {
      SignOrDigitNotWhiteSpace(t[0]);
      assert t[1..] == u;
    } else {
      assert t == u;
    }
    TrimStartSkips(w, t);
  }

  lemma SignApplied(sign: string, u: string, v: nat)
    requires ParseMagnitude(u) == Some(v)
    ensures (if sign == "-" then Negated(ParseMagnitude(u)) else ParseMagnitude(u)) == Some(Signed(sign, v))
  {
  }

  lemma MagnitudeDecimal(ds: string, rest: string)
    requires |ds| >= 1 && forall i :: 0 <= i < |ds| ==> IsDigitIn(ds[i], 10)
    requires |rest| == 0 || !IsDigitIn(rest[0], 10)
    requires !(ds == "0" && |rest| > 0 && (rest[0] == 'x' || rest[0] == 'X'))
    ensures ParseMagnitude(ds + rest) == Some(DigitsValue(ds, 10))
  {
    var u := ds + rest;
    if |ds| == 1 && ds[0] == '0' {
      assert ds == "0";
    }
    assert !(|u| >= 2 && u[0] == '0' && (u[1] == 'x' || u[1] == 'X'));
    LeadingDigitsStop(ds, rest, 10);
  }

  lemma MagnitudeHex(x: char, hs: string, rest: string)
    requires x == 'x' || x == 'X'
    requires |hs| >= 1 && forall i :: 0 <= i < |hs| ==> IsDigitIn(hs[i], 16)
    requires |rest| == 0 || !IsDigitIn(rest[0], 16)
    ensures ParseMagnitude(("0" + [x]) + (hs + rest)) == Some(DigitsValue(hs, 16))
  {
    var u := ("0" + [x]) + (hs + rest);
    assert u[2..] == hs + rest;
    LeadingDigitsStop(hs, rest, 16);
  }

  /**
   * `parseInt(s)` where `s` is white space, an optional sign, then decimal
   * digits up to the first non-digit: the signed value of those digits.
   * The one exception is a lone `0` followed by `x` or `X`, which starts a
   * hexadecimal number instead.
   */
  lemma ParseIntDecimal(w: string, sign: string, ds: string, rest: string)
    requires forall i :: 0 <= i < |w| ==> IsWhiteSpace(w[i])
    requires IsSign(sign)
    requires |ds| >= 1 && forall i :: 0 <= i < |ds| ==> IsDigitIn(ds[i], 10)
    requires |rest| == 0 || !IsDigitIn(rest[0], 10)
    requires !(ds == "0" && |rest| > 0 && (rest[0] == 'x' || rest[0] == 'X'))
    ensures ParseInt(w + sign + ds + rest) == Some(Signed(sign, DigitsValue(ds, 10)))
  {
    var u := ds + rest;
    ConcatAssoc(w + sign, ds, rest);
    SignOrDigitNotWhiteSpace(u[0]);
    ParseAfterSign(w, sign, u);
    MagnitudeDecimal(ds, rest);
    SignApplied(sign, u, DigitsValue(ds, 10));
  }

  /**
   * `parseInt(s)` where `s` is white space, an optional sign, `0x` or `0X`,
   * then hexadecimal digits up to the first non-digit: the signed value of
   * those digits in radix 16.
   */
  lemma ParseIntHex(w: string, sign: string, x: char, hs: string, rest: string)
    requires forall i :: 0 <= i < |w| ==> IsWhiteSpace(w[i])
    requires IsSign(sign)
    requires x == 'x' || x == 'X'
    requires |hs| >= 1 && forall i :: 0 <= i < |hs| ==> IsDigitIn(hs[i], 16)
    requires |rest| == 0 || !IsDigitIn(rest[0], 16)
    ensures ParseInt(w + sign + ("0" + [x]) + hs + rest) == Some(Signed(sign, DigitsValue(hs, 16)))
  {
    var prefix := "0" + [x];
    var u := prefix + (hs + rest);
    ConcatAssoc(w + sign + prefix, hs, rest);
    ConcatAssoc(w + sign, prefix, hs + rest);
    SignOrDigitNotWhiteSpace(u[0]);
    ParseAfterSign(w, sign, u);
    MagnitudeHex(x, hs, rest);
    SignApplied(sign, u, DigitsValue(hs, 16));
  }

  /** White space and an optional sign followed by no digit at all: `parseInt` gives NaN. */
  lemma ParseIntNoDigits(w: string, sign: string, t: string)
    requires forall i :: 0 <= i < |w| ==> IsWhiteSpace(w[i])
    requires IsSign(sign)
    requires |t| > 0 ==> !IsDigitIn(t[0], 10) && !IsWhiteSpace(t[0]) && t[0] != '-' && t[0] != '+'
    ensures ParseInt(w + sign + t) == None
  {
    if |t| == 0 {
      assert w + sign + t == w + sign;
      if sign == "" {
        TrimStartSkips(w, []);
        assert w + [] == w;
      } else {
        TrimStartSkips(w, sign);
        assert sign[1..] == [];
      }
    } else {
      ParseAfterSign(w, sign, t);
      assert !(t[0] == '0');
    }
  }
}
