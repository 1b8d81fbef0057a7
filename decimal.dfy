/**
 * Decimal texts: the value of a number token such as `-8.5`, and the text
 * Python's fixed-point formatting (`f"{x:.3f}"`) writes for a value.
 */
module Decimal {
  import opened Text

  predicate IsSign(c: char) {
    c == '+' || c == '-'
  }

  function Pow10(n: nat): (p: nat)
    ensures p >= 1
  {
    if n == 0 then 1 else 10 * Pow10(n - 1)
  }

  /** Index of the first '.', or the length when there is none. */
  function DotIndex(u: string): (d: nat)
    ensures d <= |u| && (d < |u| ==> u[d] == '.')
    ensures forall q :: 0 <= q < d ==> u[q] != '.'
  {
    if u == [] || u[0] == '.' then 0 else 1 + DotIndex(u[1..])
  }

  /** The value of the digits after a decimal point. */
  function FractionValue(ds: string): (r: real)
    ensures r >= 0.0
  {
    DigitsValue(ds) as real / Pow10(|ds|) as real
  }

  function UnsignedValue(u: string): (r: real)
    ensures r >= 0.0
  {
    var d := DotIndex(u);
    var whole := DigitsValue(u[..d]) as real;
    if d < |u| then whole + FractionValue(u[d + 1..]) else whole
  }

  /**
   * The value of a token `[-+]?\d*\.?\d+`, as an exact decimal: the
   * rounding that Python's `float()` applies is not modelled.
   */
  function DecimalValue(t: string): (r: real)
    ensures t != [] && t[0] == '-' ==> r <= 0.0
    ensures (t == [] || t[0] != '-') ==> r >= 0.0
  {
    if t != [] && IsSign(t[0]) then
      if t[0] == '-' then -UnsignedValue(t[1..]) else UnsignedValue(t[1..])
    else UnsignedValue(t)
  }

  /** A leading '-' negates the value of an unsigned token and a leading '+' keeps it. */
  lemma SignPrefix(u: string)
    requires u == [] || !IsSign(u[0])
    ensures DecimalValue("-" + u) == -DecimalValue(u)
    ensures DecimalValue("+" + u) == DecimalValue(u)
  {
    assert ("-" + u)[1..] == u && ("+" + u)[1..] == u;
  }

  /** The affinity Vina prints for the best mode of a typical run. */
  lemma TokenValueExample()
    ensures DecimalValue("-8.5") == -8.5
  {
    assert "-8.5"[1..] == "8.5";
    assert DotIndex("8.5") == 1;
    assert "8.5"[..1] == "8" && "8.5"[2..] == "5";
    assert DigitsValue("8") == 8 && DigitsValue("5") == 5;
  }

  function Abs(x: real): (r: real)
    ensures r >= 0.0 && (r == x || r == -x)
  {
    if x < 0.0 then -x else x
  }

  /** The magnitude of `x` in units of the last of `places` decimals. */
  function Scaled(x: real, places: nat): (y: real)
    ensures y >= 0.0
  {
    NonNegativeProduct(Abs(x), Pow10(places) as real);
    Abs(x) * Pow10(places) as real
  }

  /** `n * 10^-places`: the number the digits of `n` denote with `places` of them after the point. */
  function Shifted(n: nat, places: nat): real {
    n as real / Pow10(places) as real
  }

  /** `v` with the sign of `x`. */
  function WithSign(x: real, v: real): real {
    if x < 0.0 then -v else v
  }

  lemma NonNegativeProduct(a: real, b: real)
    requires a >= 0.0 && b >= 0.0
    ensures a * b >= 0.0
  {
  }

  /** `y` rounded to the nearest integer, a tie going to the even one. */
  function RoundHalfEven(y: real): (n: nat)
    requires y >= 0.0
    ensures n as real - 0.5 <= y <= n as real + 0.5
    ensures (y == n as real - 0.5 || y == n as real + 0.5) ==> n % 2 == 0
  {
    var f := y.Floor;
    var frac := y - f as real;
    if frac < 0.5 then f
    else if frac > 0.5 then f + 1
    else if f % 2 == 0 then f
    else f + 1
  }

  function Zeros(n: nat): (s: string)
    ensures |s| == n && forall k :: 0 <= k < n ==> s[k] == '0'
  {
    seq(n, _ => '0')
  }

  /** The digits of `n`, with zeros in front up to `width` characters. */
  function PaddedDigits(n: nat, width: nat): (s: string)
    ensures |s| >= width && s != []
    ensures forall k :: 0 <= k < |s| ==> IsDigit(s[k])
    ensures s[0] == '0' ==> |s| == width || |s| == 1
  {
    var ds := NatToString(n);
    if |ds| >= width then ds else Zeros(width - |ds|) + ds
  }

  /**
   * `f"{x:.{places}f}"`: the sign when `x` is negative (kept even when the
   * rounded value is zero), the integer digits, and exactly `places` digits
   * after the point, rounded to nearest with ties to even.
   */
  function FormatFixed(x: real, places: nat): (r: string)
    ensures r != [] && (r[0] == '-' <==> x < 0.0)
    ensures FixedShape(if x < 0.0 then r[1..] else r, places)
  {
    var body := FixedBody(RoundHalfEven(Scaled(x, places)), places);
    if x < 0.0 then "-" + body else body
  }

  /**
   * The shape of an unsigned fixed-point text: digits only when there
   * are no decimals, otherwise at least one digit, a point, and exactly
   * `places` digits after it. The integer digits have no leading zero:
   * a '0' in front is the whole integer part.
   */
  predicate FixedShape(body: string, places: nat) {
    && (if places == 0 then body != [] && forall k :: 0 <= k < |body| ==> IsDigit(body[k])
        else
          && |body| >= places + 2 && body[|body| - places - 1] == '.'
          && forall k :: 0 <= k < |body| && k != |body| - places - 1 ==> IsDigit(body[k]))
    && (body[0] == '0' ==> |body| == 1 || body[1] == '.')
  }

  /** The unsigned text of `n / 10^places`: its digits with a point before the last `places`. */
  function FixedBody(n: nat, places: nat): (body: string)
    ensures body != [] && IsDigit(body[0])
    ensures FixedShape(body, places)
  {
    var ds := PaddedDigits(n, places + 1);
    if places == 0 then ds else ds[..|ds| - places] + "." + ds[|ds| - places..]
  }

  /** Appending digits shifts the value of the digits before them. */
  lemma {:induction false} DigitsAppend(a: string, b: string)
    ensures DigitsValue(a + b) == DigitsValue(a) * Pow10(|b|) + DigitsValue(b)
    decreases |b|
  {
    if b == [] {
      assert a + b == a;
    } else {
      var b' := b[..|b| - 1];
      var d := DigitValue(b[|b| - 1]);
      assert (a + b)[..|a + b| - 1] == a + b';
      assert (a + b)[|a + b| - 1] == b[|b| - 1];
      DigitsAppend(a, b');
      assert b[..|b| - 1] == b';
      assert DigitsValue(b) == DigitsValue(b') * 10 + d;
      assert Pow10(|b|) == Pow10(|b'|) * 10;
      ShiftByOneDigit(DigitsValue(a), Pow10(|b'|), DigitsValue(b'), d);
    }
  }

  lemma ShiftByOneDigit(x: int, q: int, y: int, d: int)
    ensures (x * q + y) * 10 + d == x * (q * 10) + (y * 10 + d)
  {
  }

  lemma {:induction false} ZerosValue(n: nat)
    ensures DigitsValue(Zeros(n)) == 0
  {
    if n > 0 {
      assert Zeros(n)[..n - 1] == Zeros(n - 1);
      ZerosValue(n - 1);
    }
  }

  /** Leading zeros do not change the value. */
  lemma PaddedDigitsValue(n: nat, width: nat)
    ensures DigitsValue(PaddedDigits(n, width)) == n
  {
    var ds := NatToString(n);
    NatToStringRoundTrip(n);
    if |ds| < width {
      var zs := Zeros(width - |ds|);
      assert PaddedDigits(n, width) == zs + ds;
      DigitsAppend(zs, ds);
      ZerosValue(width - |ds|);
      assert DigitsValue(zs + ds) == 0 * Pow10(|ds|) + n;
    } else {
      assert PaddedDigits(n, width) == ds;
    }
  }

  /** The first '.' of a text is found where it is. */
  lemma {:induction false} DotIndexAt(u: string, j: nat)
    requires j <= |u| && (j < |u| ==> u[j] == '.')
    requires forall q :: 0 <= q < j ==> u[q] != '.'
    ensures DotIndex(u) == j
  {
    if j > 0 {
      DotIndexAt(u[1..], j - 1);
    }
  }

  /** Digits, a point and more digits read as the whole part plus the scaled fraction. */
  lemma PointedValue(ip: string, fp: string)
    requires forall k :: 0 <= k < |ip| ==> IsDigit(ip[k])
    ensures UnsignedValue(ip + "." + fp) == DigitsValue(ip) as real + FractionValue(fp)
  {
    var u := ip + "." + fp;
    forall q | 0 <= q < |ip| ensures u[q] != '.' {
      assert u[q] == ip[q];
    }
    assert u[|ip|] == '.';
    DotIndexAt(u, |ip|);
    assert u[..|ip|] == ip;
    assert u[|ip| + 1..] == fp;

  }

  /** The unsigned text reads back as `n / 10^places`. */
  lemma FixedBodyValue(n: nat, places: nat)
    ensures UnsignedValue(FixedBody(n, places)) == Shifted(n, places)
  {
    if places == 0 {
      WholeBodyValue(n);
    } else {
      PointedBodyValue(n, places);
    }
  }

  /** With no decimals the text is the digits of `n` alone. */
  lemma WholeBodyValue(n: nat)
    ensures UnsignedValue(FixedBody(n, 0)) == n as real
  {
    var ds := PaddedDigits(n, 1);
    PaddedDigitsValue(n, 1);
    forall q | 0 <= q < |ds| ensures ds[q] != '.' {
      assert IsDigit(ds[q]);
    }
    DotIndexAt(ds, |ds|);
    assert ds[..|ds|] == ds;
  }

  /** With decimals the text is the whole part, a point, and the last `places` digits. */
  lemma PointedBodyValue(n: nat, places: nat)
    requires places > 0
    ensures UnsignedValue(FixedBody(n, places)) == Shifted(n, places)
  {
    var ds := PaddedDigits(n, places + 1);
    var ip, fp := ds[..|ds| - places], ds[|ds| - places..];
    assert FixedBody(n, places) == ip + "." + fp;
    PaddedDigitsValue(n, places + 1);
    DigitsSplit(ds, places);
    FractionOf(fp, places);
    PointedValue(ip, fp);
    SplitQuotient(n, DigitsValue(ip), DigitsValue(fp), Pow10(places));
  }

  /** The value of digits is that of the leading ones shifted past the last `k`, plus the last `k`. */
  lemma DigitsSplit(ds: string, k: nat)
    requires k <= |ds|
    ensures DigitsValue(ds) == DigitsValue(ds[..|ds| - k]) * Pow10(k) + DigitsValue(ds[|ds| - k..])
  {
    var ip, fp := ds[..|ds| - k], ds[|ds| - k..];
    assert ip + fp == ds;
    DigitsAppend(ip, fp);
  }
  /** The fraction digits `fp`, `k` of them, stand for their value over `10^k`. */
  lemma FractionOf(fp: string, k: nat)
    requires |fp| == k
    ensures FractionValue(fp) == DigitsValue(fp) as real / Pow10(k) as real
  {
  }


  lemma SplitQuotient(n: nat, w: nat, f: nat, p: nat)
    requires p >= 1 && n == w * p + f
    ensures n as real / p as real == w as real + f as real / p as real
  {
  }

  /** The formatted text of `x` reads back as the rounded magnitude over `10^places`, with the sign of `x`. */
  lemma FixedReadsBack(x: real, places: nat)
    ensures DecimalValue(FormatFixed(x, places)) == WithSign(x, Shifted(RoundHalfEven(Scaled(x, places)), places))
  {
    var n := RoundHalfEven(Scaled(x, places));
    FixedBodyValue(n, places);
    SignedValue(FixedBody(n, places), x < 0.0);
  }

  /** A '-' in front of unsigned digits negates their value. */
  lemma SignedValue(body: string, negative: bool)
    requires body != [] && IsDigit(body[0])
    ensures DecimalValue(if negative then "-" + body else body) ==
            if negative then -UnsignedValue(body) else UnsignedValue(body)
  {
    if negative {
      assert ("-" + body)[1..] == body;
    }
  }

  /** `v` is within half a unit of the last of `places` decimals of `x`. */
  predicate WithinHalfUnit(v: real, x: real, places: nat) {
    2.0 * Abs(v - x) * Pow10(places) as real <= 1.0
  }

  /** The formatted text is within half a unit of its last place of `x`. */
  lemma FixedIsClose(x: real, places: nat)
    ensures WithinHalfUnit(DecimalValue(FormatFixed(x, places)), x, places)
  {
    FixedReadsBack(x, places);
    var n := RoundHalfEven(Scaled(x, places));
    HalfUnit(x, places, n, WithSign(x, Shifted(n, places)));
  }

  /** A count within half of the scaled magnitude, scaled back, is within half a unit. */
  lemma HalfUnit(x: real, places: nat, n: nat, v: real)
    requires n as real - 0.5 <= Scaled(x, places) <= n as real + 0.5
    requires v == WithSign(x, Shifted(n, places))
    ensures WithinHalfUnit(v, x, places)
  {
    var q := Shifted(n, places);
    SignedDistance(x, q, v);
    ShiftedScale(n, places);
    assert (q - Abs(x)) * Pow10(places) as real == n as real - Scaled(x, places);
    AbsScale(q - Abs(x), Pow10(places) as real);
  }

  lemma SignedDistance(x: real, q: real, v: real)
    requires v == WithSign(x, q)
    ensures Abs(v - x) == Abs(q - Abs(x))
  {
  }

  lemma ShiftedScale(n: nat, places: nat)
    ensures Shifted(n, places) * Pow10(places) as real == n as real
  {
  }

  lemma AbsScale(y: real, p: real)
    requires p >= 0.0
    ensures Abs(y) * p == Abs(y * p)
  {
    if y < 0.0 {
      assert y * p <= 0.0;
    }
  }

  /** A value with at most `places` decimals is written exactly. */
  lemma FixedIsExact(x: real, places: nat, n: nat)
    requires Scaled(x, places) == n as real
    ensures DecimalValue(FormatFixed(x, places)) == x
  {
    assert RoundHalfEven(n as real) == n by {
      assert (n as real).Floor == n;
    }
    FixedReadsBack(x, places);
    ExactShift(x, places, n);
  }

  /** Scaling an exact scaled magnitude back gives the value. */
  lemma ExactShift(x: real, places: nat, n: nat)
    requires Scaled(x, places) == n as real
    ensures WithSign(x, Shifted(n, places)) == x
  {
    ExactQuotient(Abs(x), Pow10(places) as real, n as real);
  }

  lemma ExactQuotient(a: real, p: real, n: real)
    requires p >= 1.0 && a * p == n
    ensures n / p == a
  {
  }

  /** A Vina affinity written with three decimals. */
  lemma AffinityFormatExample()
    ensures FormatFixed(-8.5, 3) == "-8.500"
  {
    assert Scaled(-8.5, 3) == 8500.0;
    assert RoundHalfEven(8500.0) == 8500;
  }

  /** Rounding to nearest, a tie going to the even digit. */
  lemma RoundingExample()
    ensures FormatFixed(0.4567, 2) == "0.46"
    ensures FormatFixed(0.125, 2) == "0.12"
  {
    assert Scaled(0.4567, 2) == 45.67;
    assert RoundHalfEven(45.67) == 46;
    assert Scaled(0.125, 2) == 12.5;
    assert RoundHalfEven(12.5) == 12;
  }

  /** A negative value that rounds to zero keeps its sign. */
  lemma NegativeZeroExample()
    ensures FormatFixed(-0.0001, 3) == "-0.000"
  {
    assert Scaled(-0.0001, 3) == 0.1;
    assert RoundHalfEven(0.1) == 0;
  }
}
