/** Character-level helpers shared by the client and the server: JavaScript's
    substring test and decimal numerals (the integer-to-string conversion a
    template literal performs), each with a reference reading it is proved
    against. */
module Text {

  /** `t` occurs in `s` starting at index `i`. */
  predicate OccursAt(s: string, t: string, i: nat) {
    i + |t| <= |s| && s[i..i + |t|] == t
  }

  /** `String.prototype.includes`: scan `s` left to right for `t`. */
  function Includes(s: string, t: string): bool
    decreases |s|
  {
    if |t| <= |s| && s[..|t|] == t then true
    else if |s| == 0 then false
    else Includes(s[1..], t)
  }

  /** When the scan finds `t`, it occurs at some index of `s`. */
  lemma {:induction false} IncludesWitness(s: string, t: string) returns (i: nat)
    requires Includes(s, t)
    ensures OccursAt(s, t, i)
    decreases |s|
  {
    if |t| <= |s| && s[..|t|] == t {
      i := 0;
    } else {
      var j := IncludesWitness(s[1..], t);
      assert s[1..][j..j + |t|] == s[j + 1..j + 1 + |t|];
      i := j + 1;
    }
  }

  /** An occurrence at any index is found by the scan. */
  lemma {:induction false} IncludesFound(s: string, t: string, i: nat)
    requires OccursAt(s, t, i)
    ensures Includes(s, t)
    decreases i
  {
    if i > 0 && !(|t| <= |s| && s[..|t|] == t) {
      assert s[1..][i - 1..i - 1 + |t|] == s[i..i + |t|];
      IncludesFound(s[1..], t, i - 1);
    }
  }

  /** The scan finds `t` exactly when `t` occurs at some index of `s`. */
  lemma IncludesIff(s: string, t: string)
    ensures Includes(s, t) <==> exists i: nat :: OccursAt(s, t, i)
  {
    if Includes(s, t) {
      var i := IncludesWitness(s, t);
    }
    forall i: nat | OccursAt(s, t, i) ensures Includes(s, t) {
      IncludesFound(s, t, i);
    }
  }

  /** A string without the first character of `t` does not include `t`. */
  lemma {:induction false} MissingHeadNotIncluded(s: string, t: string)
    requires |t| > 0 && t[0] !in s
    ensures !Includes(s, t)
    decreases |s|
  {
    if |s| > 0 {
      if |t| <= |s| {
        assert s[..|t|][0] == s[0] != t[0];
      }
      assert forall c | c in s[1..] :: c in s;
      MissingHeadNotIncluded(s[1..], t);
    }
  }

  /** Whatever surrounds it, an embedded `t` is found. */
  lemma IncludesInfix(a: string, t: string, b: string)
    ensures Includes(a + t + b, t)
  {
    var s := a + t + b;
    assert s[|a|..|a| + |t|] == t;
    assert OccursAt(s, t, |a|);
    IncludesIff(s, t);
  }

  predicate IsDigit(c: char) {
    '0' <= c <= '9'
  }

  predicate AllDigits(s: string) {
    forall i | 0 <= i < |s| :: IsDigit(s[i])
  }

  lemma DigitsConcat(a: string, b: string)
    requires AllDigits(a) && AllDigits(b)
    ensures AllDigits(a + b)
  {
    forall i | 0 <= i < |a + b| ensures IsDigit((a + b)[i]) {
      if i >= |a| {
        assert (a + b)[i] == b[i - |a|];
      }
    }
  }

  function DigitChar(d: nat): (c: char)
    requires d < 10
    ensures IsDigit(c)
  {
    ('0' as int + d) as char
  }

  function DigitValue(c: char): (d: nat)
    requires IsDigit(c)
    ensures d < 10
  {
    c as int - '0' as int
  }

  /** The numeric value of a string of decimal digits, most significant first. */
  function ValueOf(s: string): nat
    requires AllDigits(s)
  {
    if |s| == 0 then 0 else ValueOf(s[..|s| - 1]) * 10 + DigitValue(s[|s| - 1])
  }

  /** The decimal numeral of `n` without leading zeros, as JavaScript prints an
      integral number: "0" for zero. */
  function Numeral(n: nat): (s: string)
    ensures |s| >= 1 && AllDigits(s)
    ensures |s| == 1 || s[0] != '0'
  {
    if n < 10 then [DigitChar(n)] else Numeral(n / 10) + [DigitChar(n % 10)]
  }

  /** The last `width` decimal digits of `n`, most significant first and
      padded on the left with zeros. */
  function LowDigits(n: nat, width: nat): (s: string)
    ensures |s| == width && AllDigits(s)
  {
    if width == 0 then [] else LowDigits(n / 10, width - 1) + [DigitChar(n % 10)]
  }

  /** `n` with its last `width` decimal digits dropped. */
  function HighPart(n: nat, width: nat): nat {
    if width == 0 then n else HighPart(n / 10, width - 1)
  }

  /** Reading a numeral back gives the number it was printed from. */
  lemma {:induction false} NumeralValue(n: nat)
    ensures ValueOf(Numeral(n)) == n
  {
    var s := Numeral(n);
    if n >= 10 {
      NumeralValue(n / 10);
      assert s[..|s| - 1] == Numeral(n / 10);
    }
  }

  /** Splitting `n` after its last `width` digits loses nothing: digits
      reading as the high part, followed by the low digits, read as `n`. */
  lemma {:induction false} SplitValue(high: string, n: nat, width: nat)
    requires AllDigits(high) && ValueOf(high) == HighPart(n, width)
    ensures AllDigits(high + LowDigits(n, width))
    ensures ValueOf(high + LowDigits(n, width)) == n
  {
    var s := high + LowDigits(n, width);
    if width == 0 {
      assert s == high;
    } else {
      var t := high + LowDigits(n / 10, width - 1);
      SplitValue(high, n / 10, width - 1);
      assert s == t + [DigitChar(n % 10)];
      assert s[..|s| - 1] == t;
    }
  }
}
