/** Display formatting on the client: `Number.prototype.toFixed` over exact
    reals, and `formatSpeed` (public/script.js), which turns a byte rate into a
    megabit-per-second figure with two decimals. */
module Fixed {
  import opened Options
  import opened Text

  function Abs(x: real): real {
    if x < 0.0 then -x else x
  }

  /** 10 to the power `n`. */
  function Pow10(n: nat): (p: nat)
    ensures p >= 1
  {
    if n == 0 then 1 else 10 * Pow10(n - 1)
  }

  /** The count of 10^-f units nearest to a non-negative `x`, the larger one on
      a tie: the integer `toFixed` prints before placing the decimal point.
      The scaling is done one decimal place at a time. */
  function Scaled(x: real, f: nat): nat
    requires x >= 0.0
    decreases f
  {
    if f == 0 then (x + 0.5).Floor else Scaled(x * 10.0, f - 1)
  }

  /** `Scaled` is nearest: within half a unit of `x`, and on a tie the upper one. */
  lemma {:induction false} ScaledIsNearest(x: real, f: nat)
    requires x >= 0.0
    ensures Scaled(x, f) as real - 0.5 <= x * Pow10(f) as real < Scaled(x, f) as real + 0.5
    decreases f
  {
    if f > 0 {
      ScaledIsNearest(x * 10.0, f - 1);
      assert x * Pow10(f) as real == (x * 10.0) * Pow10(f - 1) as real;
    }
  }

  /** The signed count of 10^-f units that `toFixed(f)` of `x` shows. */
  function Rounded(x: real, f: nat): int {
    if x < 0.0 then -(Scaled(Abs(x), f) as int) else Scaled(Abs(x), f)
  }

  /** The digits of `n` units of 10^-f with the decimal point placed, and at
      least one digit before it. */
  function Unsigned(n: nat, f: nat): (s: string)
    ensures |s| >= 1 && IsDigit(s[0]) && IsDigit(s[|s| - 1])
    ensures s[0] != '0' || |s| == 1 || s[1] == '.'
  {
    if f == 0 then Numeral(n) else Whole(n, f) + "." + Fraction(n, f)
  }

  /** The digits of `n` units of 10^-f before the decimal point. */
  function Whole(n: nat, f: nat): (s: string)
    ensures |s| >= 1 && AllDigits(s)
    ensures |s| == 1 || s[0] != '0'
  {
    Numeral(HighPart(n, f))
  }

  /** The `f` digits of `n` units of 10^-f after the decimal point. */
  function Fraction(n: nat, f: nat): (s: string)
    ensures |s| == f && AllDigits(s)
  {
    LowDigits(n, f)
  }

  /** `x.toFixed(f)` for a finite `x`: a minus sign for a negative `x`, then the
      rounded magnitude with exactly `f` digits after the point. The sign and
      the absence of a leading zero, with `ToFixedRoundTrip`, fix the string. */
  function ToFixed(x: real, f: nat): (s: string)
    ensures |s| >= 1 && IsDigit(s[|s| - 1])
    ensures Canonical(s, x < 0.0)
  {
    Signed(x < 0.0, Scaled(Abs(x), f), f)
  }

  /** `n` units of 10^-f printed with `f` decimals, negated when `negative`. */
  function Signed(negative: bool, n: nat, f: nat): (s: string)
    ensures |s| >= 1 && IsDigit(s[|s| - 1])
    ensures Canonical(s, negative)
  {
    Sign(negative) + Unsigned(n, f)
  }

  /** The minus sign `toFixed` prints before a negative number. */
  function Sign(negative: bool): string {
    if negative then "-" else ""
  }

  /** Reads a non-empty run of decimal digits. */
  function ParseDigits(s: string): Option<nat> {
    if |s| >= 1 && AllDigits(s) then Some(ValueOf(s)) else None
  }

  /** Reads a numeral with exactly `f` decimals and no sign back into units
      of 10^-f: the point is `f + 1` characters from the end, at least one
      digit precedes it, and the digits on both sides read as one number. */
  function ParseUnsigned(s: string, f: nat): Option<nat> {
    if f == 0 then ParseDigits(s)
    else if |s| >= f + 2 && s[|s| - f - 1] == '.' then ParseDigits(s[..|s| - f - 1] + s[|s| - f..])
    else None
  }

  /** Reads an optionally signed numeral with exactly `f` decimals back into
      units of 10^-f; the independent reading `ToFixed` is checked against. */
  function ParseFixed(s: string, f: nat): Option<int> {
    if |s| >= 1 && s[0] == '-' then
      match ParseUnsigned(s[1..], f)
      case None => None
      case Some(n) => Some(-(n as int))
    else
      match ParseUnsigned(s, f)
      case None => None
      case Some(n) => Some(n)
  }

  /** A numeral with a point in it is read as its two digit runs. */
  lemma ParsePoint(a: string, b: string, f: nat)
    requires |a| >= 1 && AllDigits(a) && |b| == f > 0 && AllDigits(b)
    ensures ParseUnsigned(a + "." + b, f) == Some(ValueOf(a + b))
  {
    PointSplit(a, b);
    DigitsConcat(a, b);
  }

  /** Removing the point from `a.b` leaves `a` followed by `b`. */
  lemma PointSplit(a: string, b: string)
    ensures var s := a + "." + b;
      && |s| >= |b| + 1
      && s[|s| - |b| - 1] == '.'
      && s[..|s| - |b| - 1] + s[|s| - |b|..] == a + b
  {
    var s := a + "." + b;
    assert s[..|a|] == a;
    assert s[|a| + 1..] == b;
  }

  /** The unsigned numeral `toFixed` prints reads back as its count of units. */
  lemma UnsignedRoundTrip(n: nat, f: nat)
    ensures ParseUnsigned(Unsigned(n, f), f) == Some(n)
  {
    if f == 0 {
      NumeralValue(n);
    } else {
      NumeralValue(HighPart(n, f));
      SplitValue(Whole(n, f), n, f);
      ParsePoint(Whole(n, f), Fraction(n, f), f);
    }
  }

  /** A leading minus sign negates the unsigned reading. */
  lemma ParseSign(negative: bool, u: string, f: nat, n: nat)
    requires |u| >= 1 && IsDigit(u[0]) && ParseUnsigned(u, f) == Some(n)
    ensures ParseFixed(Sign(negative) + u, f) == Some(if negative then -(n as int) else n)
  {
    if negative {
      assert (Sign(negative) + u)[1..] == u;
    } else {
      assert Sign(negative) + u == u;
    }
  }

  /** The string `toFixed` prints denotes exactly the rounded value. */
  lemma ToFixedRoundTrip(x: real, f: nat)
    ensures ParseFixed(ToFixed(x, f), f) == Some(Rounded(x, f))
  {
    var n := Scaled(Abs(x), f);
    assert ToFixed(x, f) == Signed(x < 0.0, n, f);
    assert Rounded(x, f) == if x < 0.0 then -(n as int) else n;
    SignedRoundTrip(x < 0.0, n, f);
  }

  /** A signed numeral reads back as its signed count of units. */
  lemma SignedRoundTrip(negative: bool, n: nat, f: nat)
    ensures ParseFixed(Signed(negative, n, f), f) == Some(if negative then -(n as int) else n)
  {
    UnsignedRoundTrip(n, f);
    ParseSign(negative, Unsigned(n, f), f, n);
  }

  /** The value shown is within half a unit of the last place of `x`. */
  lemma RoundedIsNearest(x: real, f: nat)
    ensures -0.5 <= Rounded(x, f) as real - x * Pow10(f) as real <= 0.5
  {
    ScaledIsNearest(Abs(x), f);
  }

  /** The shape `toFixed` prints: a minus sign only for a negative value, and
      no leading zero before the point other than a lone "0". */
  predicate Canonical(s: string, negative: bool) {
    && |s| >= 1
    && (s[0] == '-' <==> negative)
    && var u := if negative then s[1..] else s;
       |u| >= 1 && (u[0] != '0' || |u| == 1 || u[1] == '.')
  }

  /** The printed string is the only canonical string, with the sign of `x`,
      that reads back as the rounded value. */
  lemma ToFixedUnique(x: real, f: nat, s: string)
    requires Canonical(s, x < 0.0)
    requires ParseFixed(s, f) == Some(Rounded(x, f))
    ensures s == ToFixed(x, f)
  {
    var n := Scaled(Abs(x), f);
    assert ToFixed(x, f) == Signed(x < 0.0, n, f);
    assert Rounded(x, f) == if x < 0.0 then -(n as int) else n;
    SignedUnique(s, x < 0.0, n, f);
  }

  /** A canonical string that reads back as a signed count of units is the
      one `Signed` prints. */
  lemma SignedUnique(s: string, negative: bool, n: nat, f: nat)
    requires Canonical(s, negative)
    requires ParseFixed(s, f) == Some(if negative then -(n as int) else n)
    ensures s == Signed(negative, n, f)
  {
    if negative {
      UnsignedUnique(s[1..], f, n);
      assert s == "-" + s[1..];
    } else {
      UnsignedUnique(s, f, n);
      assert Signed(negative, n, f) == "" + Unsigned(n, f);
    }
  }

  /** An unsigned numeral with no leading zero that reads back as `n` units
      is the one `Unsigned` prints. */
  lemma UnsignedUnique(u: string, f: nat, n: nat)
    requires |u| >= 1 && (u[0] != '0' || |u| == 1 || u[1] == '.')
    requires ParseUnsigned(u, f) == Some(n)
    ensures u == Unsigned(n, f)
  {
    if f == 0 {
      NumeralValue(n);
      NoLeadingZeroUnique(u, Numeral(n));
    } else {
      var a, b := u[..|u| - f - 1], u[|u| - f..];
      assert u == a + "." + b;
      assert forall i | 0 <= i < |a| :: a[i] == (a + b)[i];
      assert forall i | 0 <= i < |b| :: b[i] == (a + b)[i + |a|];
      assert |a| >= 2 ==> a[1] == u[1];
      var w := Whole(n, f);
      NumeralValue(HighPart(n, f));
      SplitValue(w, n, f);
      SplitUnique(a, b, w, Fraction(n, f));
      NoLeadingZeroUnique(a, w);
    }
  }

  /** Two digit strings without a leading zero (other than a lone "0") that
      read the same are the same string. */
  lemma NoLeadingZeroUnique(a: string, b: string)
    requires |a| >= 1 && AllDigits(a) && (|a| == 1 || a[0] != '0')
    requires |b| >= 1 && AllDigits(b) && (|b| == 1 || b[0] != '0')
    requires ValueOf(a) == ValueOf(b)
    ensures a == b
  {
    ShorterReadsLess(a, b);
    ShorterReadsLess(b, a);
    assert [] + a == a && [] + b == b;
    SplitUnique([], a, [], b);
  }

  /** A digit string without a leading zero reads more than any shorter
      non-empty one. */
  lemma ShorterReadsLess(a: string, b: string)
    requires |a| >= 1 && AllDigits(a)
    requires |b| >= 1 && AllDigits(b) && (|b| == 1 || b[0] != '0')
    ensures |a| < |b| ==> ValueOf(a) < ValueOf(b)
  {
    if |a| < |b| {
      ValueBelow(a);
      ValueAtLeast(b);
      Pow10Grows(|a|, |b| - 1);
    }
  }

  /** Digit strings that read the same and end in equally long parts: the
      ends are equal and the fronts read the same. */
  lemma {:induction false} SplitUnique(a: string, b: string, c: string, e: string)
    requires AllDigits(a + b) && AllDigits(c + e) && |b| == |e|
    requires ValueOf(a + b) == ValueOf(c + e)
    ensures AllDigits(a) && AllDigits(c) && ValueOf(a) == ValueOf(c) && b == e
    decreases |b|
  {
    assert forall i | 0 <= i < |a| :: a[i] == (a + b)[i];
    assert forall i | 0 <= i < |c| :: c[i] == (c + e)[i];
    if |b| == 0 {
      assert a + b == a && c + e == c;
    } else {
      var b', e' := b[..|b| - 1], e[..|e| - 1];
      assert (a + b)[..|a + b| - 1] == a + b';
      assert (c + e)[..|c + e| - 1] == c + e';
      assert forall i | 0 <= i < |a + b'| :: (a + b')[i] == (a + b)[i];
      assert forall i | 0 <= i < |c + e'| :: (c + e')[i] == (c + e)[i];
      SplitUnique(a, b', c, e');
      assert b == b' + [b[|b| - 1]] && e == e' + [e[|e| - 1]];
    }
  }

  /** `Pow10` grows with its exponent. */
  lemma {:induction false} Pow10Grows(m: nat, n: nat)
    requires m <= n
    ensures Pow10(m) <= Pow10(n)
    decreases n
  {
    if m < n {
      Pow10Grows(m, n - 1);
    }
  }

  /** `k` digits read as less than 10^k. */
  lemma {:induction false} ValueBelow(s: string)
    requires AllDigits(s)
    ensures ValueOf(s) < Pow10(|s|)
    decreases |s|
  {
    if |s| > 0 {
      var pre := s[..|s| - 1];
      assert forall i | 0 <= i < |pre| :: pre[i] == s[i];
      ValueBelow(pre);
    }
  }

  /** `k` digits without a leading zero read as at least 10^(k-1). */
  lemma {:induction false} ValueAtLeast(s: string)
    requires |s| >= 1 && AllDigits(s) && s[0] != '0'
    ensures ValueOf(s) >= Pow10(|s| - 1)
    decreases |s|
  {
    if |s| > 1 {
      var pre := s[..|s| - 1];
      assert forall i | 0 <= i < |pre| :: pre[i] == s[i];
      ValueAtLeast(pre);
    }
  }

  /** JavaScript values `formatSpeed` can be handed: the rates the meters
      compute, or nothing at all. */
  datatype JsValue = Null | Undefined | NaN | Infinity(negative: bool) | Number(value: real)

  /** Bytes per second to megabits (2^20 bits) per second. */
  function ToMbps(bps: real): real {
    bps * 8.0 / (1024.0 * 1024.0)
  }

  /** `formatSpeed`: a dash for a missing or non-numeric rate, otherwise the
      megabit rate with two decimals. */
  function FormatSpeed(speedBps: JsValue): (s: string)
    ensures s == "-" <==> speedBps.Null? || speedBps.Undefined? || speedBps.NaN?
  {
    match speedBps
    case Null => "-"
    case Undefined => "-"
    case NaN => "-"
    case Infinity(negative) => if negative then "-Infinity" else "Infinity"
    case Number(v) => ToFixed(ToMbps(v), 2)
  }

  /** A numeric rate is shown as its megabit value rounded to two decimals,
      to within half a hundredth. */
  lemma FormatSpeedDenotes(bps: real)
    ensures ParseFixed(FormatSpeed(Number(bps)), 2) == Some(Rounded(ToMbps(bps), 2))
    ensures -0.5 <= Rounded(ToMbps(bps), 2) as real - ToMbps(bps) * 100.0 <= 0.5
    ensures Canonical(FormatSpeed(Number(bps)), bps < 0.0)
  {
    ToFixedRoundTrip(ToMbps(bps), 2);
    RoundedIsNearest(ToMbps(bps), 2);
    assert Pow10(2) == 100;
  }

  /** 131072 bytes per second is exactly one megabit per second. */
  lemma OneMegabit()
    ensures FormatSpeed(Number(131072.0)) == "1.00"
  {
    assert ToMbps(131072.0) == 1.0;
    assert Scaled(1.0, 2) == 100 by {
      assert Scaled(1.0, 2) == Scaled(10.0, 1) == Scaled(100.0, 0);
      assert (100.5).Floor == 100;
    }
    assert Unsigned(100, 2) == "1.00" by {
      assert HighPart(100, 2) == HighPart(10, 1) == HighPart(1, 0) == 1;
      assert Whole(100, 2) == Numeral(1) == "1";
      assert LowDigits(10, 1) == LowDigits(1, 0) + "0" == "0";
      assert Fraction(100, 2) == LowDigits(10, 1) + "0" == "00";
    }
    assert FormatSpeed(Number(131072.0)) == ToFixed(1.0, 2) == Signed(false, 100, 2);
    assert Signed(false, 100, 2) == "" + Unsigned(100, 2);
  }
}
