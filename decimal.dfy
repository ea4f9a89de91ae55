/**
 * Decimal rendering of numbers as JavaScript produces it for the values this
 * project formats: `String(n)` / template interpolation of a non-negative
 * integer, and `Number.prototype.toFixed(f)` applied to an exact quotient
 * `num / den` (every quotient formatted here divides an integer below 2^53 by
 * a power of two, which a double holds exactly, so integer arithmetic gives
 * the same digits as the double-precision computation).
 */
module Decimal {

  predicate IsDigit(c: char) {
    '0' <= c <= '9'
  }

  predicate AllDigits(s: string) {
    forall i :: 0 <= i < |s| ==> IsDigit(s[i])
  }

  function DigitChar(d: nat): (c: char)
    requires d < 10
    ensures IsDigit(c) && c as int - '0' as int == d
  {
    ('0' as int + d) as char
  }

  /** The value of a string of decimal digits. */
  function DigitsValue(s: string): nat
    requires AllDigits(s)
  {
    if |s| == 0 then 0
    else DigitsValue(s[..|s| - 1]) * 10 + (s[|s| - 1] as int - '0' as int)
  }

  /** The decimal text of `n`, as `String(n)` writes it. */
  function NatToString(n: nat): (r: string)
    ensures |r| >= 1 && AllDigits(r)
    decreases n
  {
    if n < 10 then [DigitChar(n)]
    else NatToString(n / 10) + [DigitChar(n % 10)]
  }

  /** `NatToString` is read back by `DigitsValue` and writes no leading zero. */
  lemma {:induction false} NatToStringRoundTrip(n: nat)
    ensures DigitsValue(NatToString(n)) == n
    ensures NatToString(n)[0] == '0' ==> n == 0
    decreases n
  {
    if n >= 10 {
      NatToStringRoundTrip(n / 10);
      var s := NatToString(n);
      assert s[..|s| - 1] == NatToString(n / 10);
    }
  }

  function Pow10(f: nat): (p: nat)
    ensures p >= 1
  {
    if f == 0 then 1 else 10 * Pow10(f - 1)
  }

  /** `NatToString(x)` fits in `f` characters when `x < 10^f`. */
  lemma {:induction false} NatToStringLength(x: nat, f: nat)
    requires x < Pow10(f)
    ensures |NatToString(x)| <= f || (x == 0 && f == 0)
    decreases x
  {
    if x >= 10 {
      assert f >= 1;
      NatToStringLength(x / 10, f - 1);
    } else if f == 0 {
      assert x == 0;
    }
  }

  function Zeros(k: nat): (z: string)
    ensures |z| == k && AllDigits(z)
    ensures forall i :: 0 <= i < k ==> z[i] == '0'
  {
    if k == 0 then "" else "0" + Zeros(k - 1)
  }

  /** `s` widened to at least `width` characters with leading zeros. */
  function PadZeros(s: string, width: nat): string {
    if |s| >= width then s else Zeros(width - |s|) + s
  }

  lemma DigitsValueSnoc(s: string, c: char)
    requires AllDigits(s) && IsDigit(c)
    ensures AllDigits(s + [c])
    ensures DigitsValue(s + [c]) == DigitsValue(s) * 10 + (c as int - '0' as int)
  {
    var t := s + [c];
    assert t[..|t| - 1] == s;
  }

  lemma ShiftDigit(x: int, p: int, y: int, d: int)
    ensures (x * p + y) * 10 + d == x * (10 * p) + (y * 10 + d)
  {
  }

  /** Reading digits is positional: the digits of `b` weigh `10^0 .. 10^(|b|-1)`. */
  lemma {:induction false} DigitsValueAppend(a: string, b: string)
    requires AllDigits(a) && AllDigits(b)
    ensures AllDigits(a + b)
    ensures DigitsValue(a + b) == DigitsValue(a) * Pow10(|b|) + DigitsValue(b)
    decreases |b|
  {
    if |b| == 0 {
      assert a + b == a;
    } else {
      var b', c := b[..|b| - 1], b[|b| - 1];
      var d := c as int - '0' as int;
      assert a + b == (a + b') + [c];
      assert b == b' + [c];
      DigitsValueAppend(a, b');
      DigitsValueSnoc(a + b', c);
      DigitsValueSnoc(b', c);
      ShiftDigit(DigitsValue(a), Pow10(|b'|), DigitsValue(b'), d);
    }
  }

  lemma {:induction false} ZerosValue(k: nat)
    ensures DigitsValue(Zeros(k)) == 0
  {
    if k > 0 {
      ZerosValue(k - 1);
      DigitsValueAppend("0", Zeros(k - 1));
    }
  }

  /**
   * The integer `n` nearest to `num / den`, the larger one on a tie: the
   * choice `toFixed` makes for the scaled quotient.
   */
  function RoundHalfUp(num: nat, den: nat): nat
    requires den > 0
  {
    (2 * num + den) / (2 * den)
  }

  /** Division is determined by the bounds of the quotient. */
  lemma DivUnique(x: int, d: int, q: int)
    requires d > 0 && q * d <= x < q * d + d
    ensures x / d == q
  {
    var r := x / d;
    assert r * d <= x < r * d + d;
    var e := r - q;
    assert e * d == r * d - q * d;
    MulSmall(e, d);
  }

  lemma MulSmall(e: int, d: int)
    requires d > 0 && -d < e * d < d
    ensures e == 0
  {
    if e > 0 {
      MulAtLeast(e, d);
    } else if e < 0 {
      MulAtLeast(-e, d);
    }
  }

  lemma {:induction false} MulAtLeast(a: int, d: int)
    requires a >= 1 && d > 0
    ensures a * d >= d
    decreases a
  {
    if a > 1 {
      MulAtLeast(a - 1, d);
      assert a * d == (a - 1) * d + d;
    }
  }

  function Abs(x: int): nat {
    if x < 0 then -x else x
  }

  /**
   * No integer is nearer to `num / den` than `RoundHalfUp(num, den)`, and one
   * just as near is smaller (ties go up).
   */
  lemma RoundHalfUpNearest(num: nat, den: nat, m: int)
    requires den > 0
    ensures 2 * Abs(num - RoundHalfUp(num, den) * den) <= den
    ensures Abs(num - m * den) >= Abs(num - RoundHalfUp(num, den) * den)
    ensures Abs(num - m * den) == Abs(num - RoundHalfUp(num, den) * den) ==> m <= RoundHalfUp(num, den)
  {
    var n := RoundHalfUp(num, den);
    var q := 2 * num + den;
    assert n * (2 * den) <= q < n * (2 * den) + 2 * den;
    var e := num - n * den;
    assert -(den as int) <= 2 * e < den;
    var d := n - m;
    assert num - m * den == e + d * den;
    if d >= 1 {
      assert d * den >= den;
    } else if d <= -1 {
      assert d * den <= -(den as int);
    }
  }

  /** `n` with its last `f` decimal digits dropped, that is `n / 10^f`. */
  function DropDigits(n: nat, f: nat): nat {
    if f == 0 then n else DropDigits(n / 10, f - 1)
  }

  /** The last `f` decimal digits of `n`, that is `n % 10^f`. */
  function LowDigits(n: nat, f: nat): nat {
    if f == 0 then 0 else LowDigits(n / 10, f - 1) * 10 + n % 10
  }

  /** `DropDigits` and `LowDigits` are the quotient and remainder by `10^f`. */
  lemma {:induction false} DigitsDivMod(n: nat, f: nat)
    ensures DropDigits(n, f) * Pow10(f) + LowDigits(n, f) == n
    ensures LowDigits(n, f) < Pow10(f)
  {
    if f > 0 {
      DigitsDivMod(n / 10, f - 1);
      DivModStep(n, DropDigits(n / 10, f - 1), LowDigits(n / 10, f - 1), Pow10(f - 1));
    }
  }

  lemma DivModStep(n: nat, q: nat, low: nat, p: nat)
    requires q * p + low == n / 10 && low < p
    ensures q * (10 * p) + (low * 10 + n % 10) == n
    ensures low * 10 + n % 10 < 10 * p
  {
    assert n == 10 * (n / 10) + n % 10;
    assert q * (10 * p) == 10 * (q * p);
    assert low * 10 <= (p - 1) * 10;
  }

  /** A multiple of `10^f` has `f` trailing zero digits. */
  lemma {:induction false} DigitsOfMultiple(k: nat, f: nat)
    ensures DropDigits(k * Pow10(f), f) == k && LowDigits(k * Pow10(f), f) == 0
  {
    if f > 0 {
      var m := k * Pow10(f - 1);
      assert k * Pow10(f) == m * 10;
      assert (m * 10) / 10 == m && (m * 10) % 10 == 0;
      DigitsOfMultiple(k, f - 1);
    }
  }

  /**
   * `toFixed`'s layout of the scaled integer `n` with `f` fraction digits:
   * the integer part without leading zeros, a point, and the fraction
   * zero-filled to `f` digits.
   */
  function FixedPoint(n: nat, f: nat): string {
    if f == 0 then NatToString(n)
    else NatToString(DropDigits(n, f)) + "." + PadZeros(NatToString(LowDigits(n, f)), f)
  }

  /** `x.toFixed(f)` for the exact quotient `x = num / den`. */
  function ToFixed(num: nat, den: nat, f: nat): string
    requires den > 0
  {
    FixedPoint(RoundHalfUp(num * Pow10(f), den), f)
  }

  /**
   * The text `FixedPoint(n, f)` is an integer part without leading zeros, a
   * point and exactly `f` fraction digits, and reading those digits back
   * gives `n`.
   */
  lemma FixedPointParts(n: nat, f: nat) returns (whole: string, frac: string)
    requires f > 0
    ensures FixedPoint(n, f) == whole + "." + frac
    ensures AllDigits(whole) && AllDigits(frac) && |frac| == f && |whole| >= 1
    ensures whole[0] == '0' ==> whole == "0"
    ensures DigitsValue(whole) * Pow10(f) + DigitsValue(frac) == n
  {
    var q, low := DropDigits(n, f), LowDigits(n, f);
    DigitsDivMod(n, f);
    whole := NatToString(q);
    frac := PadZeros(NatToString(low), f);
    NatToStringRoundTrip(q);
    assert |frac| == f && AllDigits(frac) && DigitsValue(frac) == low by {
      PaddedValue(low, f);
    }
  }

  /** A number below `10^f` padded to `f` digits keeps its value. */
  lemma PaddedValue(x: nat, f: nat)
    requires x < Pow10(f) && f > 0
    ensures var t := PadZeros(NatToString(x), f);
            |t| == f && AllDigits(t) && DigitsValue(t) == x
  {
    var s := NatToString(x);
    NatToStringRoundTrip(x);
    NatToStringLength(x, f);
    if |s| < f {
      ZerosPrefixValue(f - |s|, s);
    }
  }

  /** Leading zeros do not change the value of a digit string. */
  lemma ZerosPrefixValue(k: nat, s: string)
    requires AllDigits(s)
    ensures AllDigits(Zeros(k) + s) && DigitsValue(Zeros(k) + s) == DigitsValue(s)
  {
    DigitsValueAppend(Zeros(k), s);
    ZerosValue(k);
    ZeroTimes(Pow10(|s|));
  }

  lemma ZeroTimes(p: int)
    ensures 0 * p == 0
  {
  }

  /**
   * `(num / den).toFixed(f)` is an integer part without leading zeros, a
   * point and `f` digits which, read back, give the quotient rounded to the
   * nearest multiple of `10^-f`.
   */
  lemma ToFixedParts(num: nat, den: nat, f: nat) returns (whole: string, frac: string)
    requires den > 0 && f > 0
    ensures ToFixed(num, den, f) == whole + "." + frac
    ensures AllDigits(whole) && AllDigits(frac) && |frac| == f
    ensures |whole| >= 1 && (whole[0] == '0' ==> whole == "0")
    ensures DigitsValue(whole) * Pow10(f) + DigitsValue(frac) == RoundHalfUp(num * Pow10(f), den)
  {
    whole, frac := FixedPointParts(RoundHalfUp(num * Pow10(f), den), f);
  }

  /** An exact multiple renders with an all-zero fraction: `(k).toFixed(f)`. */
  lemma RoundHalfUpOfMultiple(m: nat, den: nat)
    requires den > 0
    ensures RoundHalfUp(m * den, den) == m
  {
    assert 2 * (m * den) + den == m * (2 * den) + den;
    DivUnique(2 * (m * den) + den, 2 * den, m);
  }

  lemma MulSwap(k: int, den: int, p: int)
    ensures (k * den) * p == (k * p) * den
  {
  }

  /** A multiple of `10^f` lays out as its quotient, a point and `f` zeros. */
  lemma FixedPointOfMultiple(k: nat, f: nat)
    requires f > 0
    ensures FixedPoint(k * Pow10(f), f) == NatToString(k) + "." + Zeros(f)
  {
    DigitsOfMultiple(k, f);
    assert PadZeros(NatToString(0), f) == Zeros(f);
  }

  /** `(k).toFixed(f)` for a whole number `k`: its digits, a point and `f` zeros. */
  lemma ToFixedWhole(k: nat, den: nat, f: nat)
    requires den > 0 && f > 0
    ensures ToFixed(k * den, den, f) == NatToString(k) + "." + Zeros(f)
  {
    var p := Pow10(f);
    var n := k * p;
    assert RoundHalfUp((k * den) * p, den) == n by {
      MulSwap(k, den, p);
      RoundHalfUpOfMultiple(n, den);
    }
    FixedPointOfMultiple(k, f);
  }
}
