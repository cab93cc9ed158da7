/**
 What a double is, what its neighbours are, and when a decimal number reads back as it. Shows
 that the operands `dtoa` (`lae/source/dtoa.c`) prepares for its mode-0 loop make that loop print a
 shortest decimal that reads back, and a nearest one of that length.

 Values are whole numbers of 2^-1074, the smallest positive double.
 */
module Doubles {
  import opened Words
  import opened Bigints
  import opened Conversions
  import opened DigitSpec

  /** The words of a positive finite double, or of zero. */
  predicate Finite(d0: Word, d1: Word)
  {
    d0 < 0x7FF0_0000
  }

  function Shift(d0: Word): (s: nat)
  {
    Scale(d0) + 1074
  }

  function Value(d0: Word, d1: Word): (v: nat)
  {
    Mantissa(d0, d1) * Two(Shift(d0))
  }

  function NextUp(d0: Word, d1: Word): (w: (Word, Word))
    requires Finite(d0, d1)
  {
    if d1 == 0xFFFF_FFFF then (d0 + 1, 0) else (d0, d1 + 1)
  }

  function NextDown(d0: Word, d1: Word): (w: (Word, Word))
    requires d0 > 0 || d1 > 0
  {
    if d1 == 0 then (d0 - 1, 0xFFFF_FFFF) else (d0, d1 - 1)
  }

  /** A power of two whose lower neighbour has the smaller exponent: the gap below is half the gap above. */
  predicate Boundary(d0: Word, d1: Word)
  {
    d1 == 0 && d0 % 0x10_0000 == 0 && Exponent(d0) >= 2
  }

  function GapAbove(d0: Word): (g: nat)
  {
    Two(Shift(d0))
  }

  function GapBelow(d0: Word, d1: Word): (g: nat)
  {
    if Boundary(d0, d1) then Two(Shift(d0) - 1) else Two(Shift(d0))
  }

  lemma {:induction false} SplitHigh(d0: Word)
    requires d0 < 0x7FF0_0000
    ensures d0 == Exponent(d0) * 0x10_0000 + d0 % 0x10_0000
  {
  }

  lemma {:induction false} NextHigh(d0: Word)
    requires d0 < 0x7FF0_0000
    ensures d0 % 0x10_0000 < 0xF_FFFF ==>
              Exponent(d0 + 1) == Exponent(d0) && (d0 + 1) % 0x10_0000 == d0 % 0x10_0000 + 1
    ensures d0 % 0x10_0000 == 0xF_FFFF ==>
              Exponent(d0 + 1) == Exponent(d0) + 1 && (d0 + 1) % 0x10_0000 == 0
  {
    SplitHigh(d0);
  }

  lemma {:induction false} NextMantissa(d0: Word, d1: Word)
    requires Finite(d0, d1)
    ensures var (u0, u1) := NextUp(d0, d1);
            || (Shift(u0) == Shift(d0) && Mantissa(u0, u1) == Mantissa(d0, d1) + 1)
            || (Shift(u0) == Shift(d0) + 1 && 2 * Mantissa(u0, u1) == Mantissa(d0, d1) + 1)
  {
    hide Exponent;
    if d1 == 0xFFFF_FFFF { NextHigh(d0); }
  }

  /** The next double is one gap away, across every change of exponent. */
  lemma {:induction false} UpperGap(d0: Word, d1: Word)
    requires Finite(d0, d1)
    ensures var (u0, u1) := NextUp(d0, d1); Value(u0, u1) == Value(d0, d1) + GapAbove(d0)
  {
    hide Two, Mantissa, Shift, NextUp;
    NextMantissa(d0, d1);
    TwoStep(Shift(d0));
    var (u0, u1) := NextUp(d0, d1);
    OneStep(Mantissa(d0, d1), Mantissa(u0, u1), Two(Shift(d0)));
  }

  lemma {:induction false} OneStep(m: int, n: int, t: int)
    ensures n == m + 1 ==> n * t == m * t + t
    ensures 2 * n == m + 1 ==> n * (2 * t) == m * t + t
  {
    MulAssoc(n, 2, t);
  }

  lemma {:induction false} DownThenUp(d0: Word, d1: Word)
    requires Finite(d0, d1) && (d0 > 0 || d1 > 0)
    ensures var (l0, l1) := NextDown(d0, d1);
            && Finite(l0, l1) && NextUp(l0, l1) == (d0, d1)
            && GapAbove(l0) == GapBelow(d0, d1)
  {
    hide Two;
    var (l0, l1) := NextDown(d0, d1);
    if d1 == 0 {
      NextHigh(l0);
    }
  }

  /** The double before it is one gap below. */
  lemma {:induction false} LowerGap(d0: Word, d1: Word)
    requires Finite(d0, d1) && (d0 > 0 || d1 > 0)
    ensures var (l0, l1) := NextDown(d0, d1); Value(d0, d1) == Value(l0, l1) + GapBelow(d0, d1)
  {
    hide Value, GapAbove, GapBelow;
    DownThenUp(d0, d1);
    var (l0, l1) := NextDown(d0, d1);
    UpperGap(l0, l1);
  }

  // ----- powers of ten -----

  function Ten(k: nat): (t: nat)
    ensures t >= 1
  {
    TenfoldPositive(1, k);
    Tenfold(1, k)
  }

  lemma {:induction false} TenfoldPositive(x: int, e: nat)
    requires x >= 1
    ensures Tenfold(x, e) >= 1
  {
    if e > 0 { TenfoldPositive(x, e - 1); }
  }

  lemma {:induction false} TenAdd(i: nat, j: nat)
    ensures Ten(i + j) == Ten(i) * Ten(j)
  {
    if i > 0 {
      TenAdd(i - 1, j);
      MulAssoc(10, Ten(i - 1), Ten(j));
    }
  }

  lemma {:induction false} TenStep(k: nat)
    ensures Ten(k + 1) == 10 * Ten(k)
  {
  }

  lemma {:induction false} TenIs(k: nat)
    ensures Ten(k) == Five(k) * Two(k)
  {
    if k > 0 {
      TenIs(k - 1);
      TenStep(k - 1);
      FiveStep(k - 1);
      TwoStep(k - 1);
      hide Ten, Five, Two;
      FiveTimesTwo(Five(k - 1), Two(k - 1));
    }
  }

  lemma {:induction false} FiveStep(k: nat)
    ensures Five(k + 1) == 5 * Five(k)
  {
  }

  lemma {:induction false} FiveTimesTwo(f: int, t: int)
    ensures (5 * f) * (2 * t) == 10 * (f * t)
  {
  }

  lemma {:induction false} TenfoldIs(x: int, e: nat)
    ensures Tenfold(x, e) == x * Ten(e)
  {
    if e > 0 {
      TenfoldIs(x, e - 1);
      assert x * (10 * Ten(e - 1)) == 10 * (x * Ten(e - 1));
    }
  }

  /** The positive and the negative part of a decimal exponent. */
  function Plus(k: int): (p: nat)
  {
    if k > 0 then k else 0
  }

  function Minus(k: int): (n: nat)
  {
    if k < 0 then -k else 0
  }

  /** 10^k, over the units and 10^Minus(k). */
  function Unit(k: int): (u: nat)
    ensures u >= 1
  {
    Positive(Two(1074), Ten(Plus(k)));
    Two(1074) * Ten(Plus(k))
  }

  lemma {:induction false} Positive(a: nat, b: nat)
    requires a >= 1 && b >= 1
    ensures a * b >= 1
  {
  }

  /** The double is at least 10^k. */
  predicate AtLeast(d0: Word, d1: Word, k: int)
  {
    Unit(k) <= Value(d0, d1) * Ten(Minus(k))
  }

  /** One step of the decimal exponent. */
  lemma {:induction false} UnitStep(k: int)
    ensures k >= 0 ==> Unit(k + 1) == 10 * Unit(k) && Ten(Minus(k + 1)) == Ten(Minus(k))
    ensures k < 0 ==> Unit(k + 1) == Unit(k) && Ten(Minus(k)) == 10 * Ten(Minus(k + 1))
  {
    hide Two;
    if k >= 0 {
      var a, t := Two(1074), Ten(k);
      assert a * (10 * t) == 10 * (a * t);
    }
  }

  // ----- reading back -----

  /** Twice q * 10^(k - e), in units over 10^(e + Minus(k)). */
  function Twice(q: int, k: int): (v: int)
  {
    2 * q * Unit(k)
  }

  /**
   q * 10^(k - e) reads back as the double: it is not beyond the midpoint to either neighbour,
   and on a midpoint only if the mantissa is even.
   */
  predicate ReadsBack(q: int, e: nat, k: int, d0: Word, d1: Word)
    requires Finite(d0, d1) && (d0 > 0 || d1 > 0)
  {
    var (l0, l1) := NextDown(d0, d1);
    var (u0, u1) := NextUp(d0, d1);
    var lo := (Value(l0, l1) + Value(d0, d1)) * Ten(e + Minus(k));
    var hi := (Value(d0, d1) + Value(u0, u1)) * Ten(e + Minus(k));
    && lo <= Twice(q, k) <= hi
    && (d1 % 2 == 0 || lo < Twice(q, k) < hi)
  }

  /** How far q * 10^(k - e) is from the double, in the same units. */
  function Off(q: int, e: nat, k: int, d0: Word, d1: Word): (r: int)
    ensures r >= 0
  {
    var t := Twice(q, k) - 2 * Value(d0, d1) * Ten(e + Minus(k));
    if t < 0 then -t else t
  }

  /**
   The operands of the loop: b / d is the double over 10^k, and b - mlo and b + mhi stand for the
   midpoints to its neighbours.
   */
  predicate Prepared(d0: Word, d1: Word, k: int, b: nat, d: nat, mlo: nat, mhi: nat)
  {
    && b > 0 && d > 0 && mlo > 0 && mhi > 0
    && 2 * Value(d0, d1) * mhi == GapAbove(d0) * b
    && 2 * Value(d0, d1) * mlo == GapBelow(d0, d1) * b
    && b * Unit(k) == d * (Value(d0, d1) * Ten(Minus(k)))
  }

  lemma {:induction false} SameOrder(a: int, b: int, x: int, c: int, d: int, y: int)
    requires x > 0 && y > 0 && a * x == c * y && b * x == d * y
    ensures (a <= b <==> c <= d) && (a < b <==> c < d)
  {
    if a <= b { MulMono(a, b, x); } else { MulMono(b + 1, a, x); }
    if c <= d { MulMono(c, d, y); } else { MulMono(d + 1, c, y); }
  }

  /** From the loop's scale to the units: s stands for h / 2. */
  lemma {:induction false} Rescale(q: int, d: int, s: int, t: int, v: int, b: int, h: int, u: int, n: int)
    requires d > 0 && v > 0 && u > 0 && t > 0
    requires 2 * v * s == b * h && b * u == d * (v * n)
    ensures (q * d) * (2 * v * u) == (2 * q * u) * (d * v)
    ensures (s * t) * (2 * v * u) == (h * (t * n)) * (d * v)
  {
    calc {
      (s * t) * (2 * v * u);
      { Swap4(s, t, 2 * v, u); }
      (2 * v * s) * (u * t);
      (b * h) * (u * t);
      { Swap4(b, h, u, t); }
      (b * u) * (h * t);
      (d * (v * n)) * (h * t);
      { Group5(d, v, n, h, t); }
      (h * (t * n)) * (d * v);
    }
    calc {
      (q * d) * (2 * v * u);
      { Group4(q, d, v, u); }
      (2 * q * u) * (d * v);
    }
  }

  lemma {:induction false} Swap4(a: int, b: int, c: int, d: int)
    ensures (a * b) * (c * d) == (c * a) * (d * b) == (a * c) * (b * d)
  {
  }

  lemma {:induction false} Group4(q: int, d: int, v: int, u: int)
    ensures (q * d) * (2 * v * u) == (2 * q * u) * (d * v)
  {
  }

  lemma {:induction false} Group5(d: int, v: int, n: int, h: int, t: int)
    ensures (d * (v * n)) * (h * t) == (h * (t * n)) * (d * v)
  {
  }

  lemma {:induction false} EndOfInterval(v: int, g: int, b: int, m: int)
    requires 2 * v * m == g * b
    ensures 2 * v * (b + m) == b * (2 * v + g) && 2 * v * (b - m) == b * (2 * v - g)
  {
    assert 2 * v * (b + m) == 2 * v * b + 2 * v * m;
    assert 2 * v * (b - m) == 2 * v * b - 2 * v * m;
    assert b * (2 * v + g) == 2 * v * b + g * b;
    assert b * (2 * v - g) == 2 * v * b - g * b;
  }

  /** One end of the interval: the order in the loop's scale is the order in units. */
  lemma {:induction false} EndCompares(q: int, e: nat, k: int, d0: Word, d1: Word, b: nat, d: nat, s: int, h: int)
    requires d > 0 && Value(d0, d1) > 0 && b * Unit(k) == d * (Value(d0, d1) * Ten(Minus(k)))
    requires 2 * Value(d0, d1) * s == b * h
    ensures (Times(q, d) <= Tenfold(s, e) <==> Twice(q, k) <= h * Ten(e + Minus(k)))
    ensures (Times(q, d) < Tenfold(s, e) <==> Twice(q, k) < h * Ten(e + Minus(k)))
    ensures var x, y := 2 * Value(d0, d1) * Unit(k), d * Value(d0, d1);
            && x > 0 && y > 0
            && Times(q, d) * x == Twice(q, k) * y && Tenfold(s, e) * x == h * Ten(e + Minus(k)) * y
  {
    hide Value, Unit, Ten, Tenfold, Times;
    var v, u, n, t := Value(d0, d1), Unit(k), Ten(Minus(k)), Ten(e);
    TimesIs(q, d);
    TenfoldIs(s, e);
    TenAdd(e, Minus(k));
    Rescale(q, d, s, t, v, b, h, u, n);
    Positive(v, u);
    Positive(d, v);
    MulAssoc(2, v, u);
    SameOrder(q * d, s * t, 2 * v * u, 2 * q * u, h * (t * n), d * v);
  }

  lemma {:induction false} ValuePositive(d0: Word, d1: Word)
    requires Mantissa(d0, d1) > 0
    ensures Value(d0, d1) > 0
  {
    Positive(Mantissa(d0, d1), Two(Shift(d0)));
  }

  /** The loop accepts exactly what reads back as the double. */
  lemma {:induction false} AcceptsIsReading(q: int, e: nat, k: int, d0: Word, d1: Word, b: nat, d: nat, mlo: nat,
                                            mhi: nat)
    requires Finite(d0, d1) && (d0 > 0 || d1 > 0) && Value(d0, d1) > 0 && Prepared(d0, d1, k, b, d, mlo, mhi)
    ensures Accepts(q, e, d, b, mlo, mhi, d1 % 2 == 0) <==> ReadsBack(q, e, k, d0, d1)
  {
    hide Value, Unit, Ten, Tenfold, Times, GapAbove, GapBelow, Twice, NextUp, NextDown;
    var v := Value(d0, d1);
    UpperGap(d0, d1);
    LowerGap(d0, d1);
    var (l0, l1) := NextDown(d0, d1);
    var (u0, u1) := NextUp(d0, d1);
    EndOfInterval(v, GapAbove(d0), b, mhi);
    EndOfInterval(v, GapBelow(d0, d1), b, mlo);
    EndCompares(q, e, k, d0, d1, b, d, b + mhi, v + Value(u0, u1));
    EndCompares(q, e, k, d0, d1, b, d, b - mlo, Value(l0, l1) + v);
  }

  /** Nearer in the loop's scale is nearer in units. */
  lemma {:induction false} DistanceIsOff(p: int, q: int, e: nat, k: int, d0: Word, d1: Word, b: nat, d: nat, mlo: nat,
                                         mhi: nat)
    requires Value(d0, d1) > 0 && Prepared(d0, d1, k, b, d, mlo, mhi)
    ensures Distance(p, e, d, b) <= Distance(q, e, d, b) <==> Off(p, e, k, d0, d1) <= Off(q, e, k, d0, d1)
  {
    hide Value, Unit, Ten, Tenfold, Times, GapAbove, GapBelow, Twice;
    var v := Value(d0, d1);
    MulComm(2 * v, b);
    EndCompares(p, e, k, d0, d1, b, d, b, 2 * v);
    EndCompares(q, e, k, d0, d1, b, d, b, 2 * v);
    var x, y, c := 2 * v * Unit(k), d * v, Tenfold(b, e);
    var z := 2 * v * Ten(e + Minus(k));
    ScaledGap(Times(p, d), c, x, Twice(p, k), z, y);
    ScaledGap(Times(q, d), c, x, Twice(q, k), z, y);
    SameOrder(Distance(p, e, d, b), Distance(q, e, d, b), x, Off(p, e, k, d0, d1), Off(q, e, k, d0, d1), y);
  }

  lemma {:induction false} ScaledGap(a: int, c: int, x: int, a': int, c': int, y: int)
    requires x > 0 && y > 0 && a * x == a' * y && c * x == c' * y
    ensures (if a - c < 0 then c - a else a - c) * x == (if a' - c' < 0 then c' - a' else a' - c') * y
  {
    SameOrder(a, c, x, a', c', y);
    assert (a - c) * x == a * x - c * x && (c - a) * x == c * x - a * x;
    assert (a' - c') * y == a' * y - c' * y && (c' - a') * y == c' * y - a' * y;
  }

  /** The order of b and d tells where the double lies. */
  lemma {:induction false} PreparedOrder(d0: Word, d1: Word, k: int, b: nat, d: nat, mlo: nat, mhi: nat)
    requires Prepared(d0, d1, k, b, d, mlo, mhi)
    ensures d <= b <==> AtLeast(d0, d1, k)
    ensures 10 * d <= b <==> AtLeast(d0, d1, k + 1)
  {
    hide Value, GapAbove, GapBelow, Two, Ten, Unit;
    OrderByRatio(b, d, Unit(k), Value(d0, d1), Ten(Minus(k)));
    UnitStep(k);
    TenfoldValue(Value(d0, d1), Ten(Minus(k + 1)));
  }

  lemma {:induction false} TenfoldValue(v: int, n: int)
    ensures v * (10 * n) == 10 * (v * n)
  {
  }

  lemma {:induction false} OrderByRatio(b: int, d: int, u: int, v: int, n: int)
    requires d > 0 && u > 0 && b * u == d * (v * n)
    ensures d <= b <==> u <= v * n
    ensures 10 * d <= b <==> 10 * u <= v * n
  {
    var x := v * n;
    MulComm(d, u);
    MulComm(d, x);
    SameOrder(d, b, u, u, x, d);
    assert (10 * d) * u == (10 * u) * d;
    SameOrder(10 * d, b, u, 10 * u, x, d);
  }

  // ----- the corner is never met -----

  lemma {:induction false} CancelMul(a: int, b: int, f: int)
    requires f > 0 && a * f == b * f
    ensures a == b
  {
    if a < b { MulStrict(a, b, f); } else if b < a { MulStrict(b, a, f); }
  }

  /** The numerator is the mantissa, in units of half gaps. */
  lemma {:induction false} HalfGaps(d0: Word, d1: Word, k: int, b: nat, d: nat, mlo: nat, mhi: nat)
    requires Prepared(d0, d1, k, b, d, mlo, mhi)
    ensures b == 2 * Mantissa(d0, d1) * mhi
  {
    hide Two, Mantissa, Shift;
    var m, t := Mantissa(d0, d1), Two(Shift(d0));
    assert 2 * (m * t) * mhi == (2 * m * mhi) * t;
    MulComm(t, b);
    CancelMul(2 * m * mhi, b, t);
  }

  /** In the corner the mantissa has at most one digit. */
  lemma {:induction false} CornerIsSmall(m: nat, b: nat, d: nat, mlo: nat, mhi: nat, even: bool)
    requires b == 2 * m * mhi && mhi > 0 && NineCorner(b, d, mlo, mhi, even)
    ensures m <= 9
  {
    assert b < 19 * mhi;
    if m >= 10 { MulMono(20, 2 * m, mhi); }
  }

  lemma {:induction false} TwoNotFive(n: nat)
    ensures Two(n) % 5 != 0
  {
    if n > 0 {
      TwoNotFive(n - 1);
      TwoStep(n - 1);
      hide Two;
      TwiceNotFive(Two(n - 1));
    }
  }

  lemma {:induction false} TwiceNotFive(x: nat)
    requires x % 5 != 0
    ensures 2 * x % 5 != 0
  {
    var q, r := x / 5, x % 5;
    assert 2 * x == 5 * (2 * q) + 2 * r;
  }

  /** What the corner would say about a mantissa of one digit. */
  lemma {:induction false} SmallCorner(m: nat, b: nat, d: nat, mhi: nat, u: nat, n: nat)
    requires 1 <= m && mhi > 0 && d > 0 && b == 2 * m * mhi && b + mhi == 10 * d && d <= b
    requires b * u == d * (m * n)
    ensures 20 * u == (2 * m + 1) * n && u <= m * n
  {
    Commute(m, mhi, u);
    MulComm(m, n);
    MulAssoc(d, n, m);
    CancelMul(2 * mhi * u, d * n, m);
    Twentyfold(m, d, mhi, u, n);
    CancelMul(20 * u, (2 * m + 1) * n, mhi);
    BelowRatio(b, d, u, m * n);
  }

  lemma {:induction false} Commute(m: int, h: int, u: int)
    ensures (2 * m * h) * u == (2 * h * u) * m
  {
  }

  lemma {:induction false} Twentyfold(m: int, d: int, h: int, u: int, n: int)
    requires 10 * d == 2 * m * h + h && 2 * h * u == d * n
    ensures (20 * u) * h == ((2 * m + 1) * n) * h
  {
    assert (20 * u) * h == 10 * (2 * h * u);
    assert 10 * (d * n) == (10 * d) * n;
    assert (2 * m * h + h) * n == ((2 * m + 1) * n) * h by {
      var k := 2 * m + 1;
      assert 2 * m * h + h == k * h;
      assert (k * h) * n == (k * n) * h;
    }
  }

  lemma {:induction false} BelowRatio(b: int, d: int, u: int, x: int)
    requires d > 0 && u >= 0 && d <= b && b * u == d * x
    ensures u <= x
  {
    MulMono(d, b, u);
    MulComm(d, u);
    MulComm(d, x);
    CancelAtMost(u, x, d);
  }

  lemma {:induction false} FactorOfFive(u: nat, m: nat, x: nat)
    requires 20 * u == (2 * m + 1) * (100 * x)
    ensures u % 5 == 0
  {
    assert (2 * m + 1) * (100 * x) == 100 * ((2 * m + 1) * x);
    assert u == 5 * ((2 * m + 1) * x);
  }

  /** No such mantissa and exponent exist: two factors of five on one side, at most one on the other. */
  lemma {:induction false} NoSmallCorner(m: nat, k: int)
    requires 1 <= m <= 9
    ensures !(20 * Unit(k) == (2 * m + 1) * Ten(Minus(k)) && Unit(k) <= m * Ten(Minus(k)))
  {
    hide Two;
    TwoMono(7, 1074);
    assert Two(7) >= 128 by { TwoTable(); TwoAdd(4, 2); TwoStep(6); }
    if k >= -1 {
      MulMono(1, Ten(Plus(k)), Two(1074));
      assert Ten(Minus(k)) <= 10;
      assert m * Ten(Minus(k)) <= 90;
    } else {
      var x := Ten(-k - 2);
      TenStep(-k - 1);
      TenStep(-k - 2);
      assert Ten(-k) == 100 * x;
      assert Unit(k) == Two(1074) * 1 == Two(1074);
      TwoNotFive(1074);
      if 20 * Two(1074) == (2 * m + 1) * (100 * x) { FactorOfFive(Two(1074), m, x); }
    }
  }

  lemma {:induction false} SmallMantissa(d0: Word, d1: Word)
    requires Mantissa(d0, d1) <= 9
    ensures Shift(d0) == 0 && Value(d0, d1) == Mantissa(d0, d1)
  {
    assert Two(0) == 1;
  }

  /** The operands of a double never meet the corner in which mode 0 would miss the nearest string. */
  lemma {:induction false} NoCorner(d0: Word, d1: Word, k: int, b: nat, d: nat, mlo: nat, mhi: nat, even: bool)
    requires Mantissa(d0, d1) > 0 && Prepared(d0, d1, k, b, d, mlo, mhi) && d <= b
    ensures !NineCorner(b, d, mlo, mhi, even)
  {
    hide Mantissa, Unit, Ten, GapAbove, GapBelow, Two, Shift;
    HalfGaps(d0, d1, k, b, d, mlo, mhi);
    if NineCorner(b, d, mlo, mhi, even) {
      var m := Mantissa(d0, d1);
      CornerIsSmall(m, b, d, mlo, mhi, even);
      SmallMantissa(d0, d1);
      NoSmallCorner(m, k);
      SmallCorner(m, b, d, mhi, Unit(k), Ten(Minus(k)));
    }
  }

  // ----- the same number at another scale -----

  lemma {:induction false} Regroup3(a: int, b: int, c: int)
    ensures (a * b) * c == (a * c) * b == a * (b * c)
  {
  }

  /** Two ways to write one number. */
  predicate SameNumber(q: int, e: nat, k: int, q': int, e': nat, k': int)
  {
    Twice(q, k) * Ten(e' + Minus(k')) == Twice(q', k') * Ten(e + Minus(k))
  }

  lemma {:induction false} SameReading(q: int, e: nat, k: int, q': int, e': nat, k': int, d0: Word, d1: Word)
    requires Finite(d0, d1) && (d0 > 0 || d1 > 0) && SameNumber(q, e, k, q', e', k')
    ensures ReadsBack(q, e, k, d0, d1) <==> ReadsBack(q', e', k', d0, d1)
  {
    hide Twice, Ten, Value;
    var (l0, l1) := NextDown(d0, d1);
    var (u0, u1) := NextUp(d0, d1);
    var a, t, a', t' := Twice(q, k), Ten(e + Minus(k)), Twice(q', k'), Ten(e' + Minus(k'));
    var lo, hi := Value(l0, l1) + Value(d0, d1), Value(d0, d1) + Value(u0, u1);
    Regroup3(lo, t, t');
    Regroup3(hi, t, t');
    SameOrder(lo * t, a, t', lo * t', a', t);
    SameOrder(a, hi * t, t', a', hi * t', t);
  }

  lemma {:induction false} SameOff(q: int, e: nat, k: int, q': int, e': nat, k': int, d0: Word, d1: Word)
    requires SameNumber(q, e, k, q', e', k')
    ensures Off(q, e, k, d0, d1) * Ten(e' + Minus(k')) == Off(q', e', k', d0, d1) * Ten(e + Minus(k))
  {
    hide Twice, Ten, Value;
    var t, t', v := Ten(e + Minus(k)), Ten(e' + Minus(k')), 2 * Value(d0, d1);
    Regroup3(v, t, t');
    ScaledGap(Twice(q, k), v * t, t', Twice(q', k'), v * t', t);
  }

  lemma {:induction false} UnitShift(j: int, e: nat, k: int)
    requires j >= k - e
    ensures Unit(j) * Ten(e + Minus(k)) == Ten(j - k + e) * Unit(k) * Ten(Minus(j))
  {
    hide Two, Ten;
    var a, i := Two(1074), j - k + e;
    TenAdd(Plus(j), e + Minus(k));
    TenAdd(i, Plus(k));
    TenAdd(i + Plus(k), Minus(j));
    MulAssoc(a, Ten(Plus(j)), Ten(e + Minus(k)));
    MulAssoc(a, Ten(i + Plus(k)), Ten(Minus(j)));
    Regroup3(Ten(i), a, Ten(Plus(k)));
    MulComm(Ten(i) * Ten(Plus(k)), a);
  }

  /** q at 10^j as a multiple of the place that is e below 10^k. */
  lemma {:induction false} AtScale(q: int, j: int, e: nat, k: int)
    requires j >= k - e
    ensures SameNumber(q, 0, j, q * Ten(j - k + e), e, k)
  {
    hide Unit, Ten;
    UnitShift(j, e, k);
    var x, u, n := Ten(j - k + e), Unit(k), Ten(Minus(j));
    MulAssoc(2 * q, Unit(j), Ten(e + Minus(k)));
    MulAssoc(2 * q, x * u, n);
    MulAssoc(2 * q, x, u);
    Double(q, x);
    assert (2 * q) * ((x * u) * n) == (2 * (q * x) * u) * n;
  }

  lemma {:induction false} Lowered(q: int, e: nat, k: int)
    ensures SameNumber(q, 0, k - e, q, e, k)
  {
    hide SameNumber, Ten;
    AtScale(q, k - e, e, k);
    TenZero();
  }

  lemma {:induction false} PositiveReads(q: int, e: nat, k: int, d0: Word, d1: Word)
    requires Finite(d0, d1) && (d0 > 0 || d1 > 0) && Value(d0, d1) > 0 && ReadsBack(q, e, k, d0, d1)
    ensures q >= 1
  {
    hide Value, Ten, Unit;
    var (l0, l1) := NextDown(d0, d1);
    Positive(Value(l0, l1) + Value(d0, d1), Ten(e + Minus(k)));
    if q <= 0 { MulMono(2 * q, 0, Unit(k)); }
  }

  lemma {:induction false} TenMono(i: nat, j: nat)
    requires i <= j
    ensures Ten(i) <= Ten(j)
  {
    hide Ten;
    TenAdd(i, j - i);
    MulMono(1, Ten(j - i), Ten(i));
    MulComm(Ten(j - i), Ten(i));
  }

  /** If a number below 10^k reads back as a double from 10^k on, 10^k does and is no farther away. */
  lemma {:induction false} PowerReads(q: int, e: nat, k: int, d0: Word, d1: Word)
    requires Finite(d0, d1) && (d0 > 0 || d1 > 0) && Value(d0, d1) > 0 && AtLeast(d0, d1, k)
    requires q < Ten(e) && ReadsBack(q, e, k, d0, d1)
    ensures ReadsBack(1, 0, k, d0, d1)
    ensures Off(1, 0, k, d0, d1) * Ten(e) <= Off(q, e, k, d0, d1)
  {
    hide Value, Ten, Unit, Two, NextUp, NextDown, Off;
    var (l0, l1) := NextDown(d0, d1);
    var (u0, u1) := NextUp(d0, d1);
    var v, u, n, t := Value(d0, d1), Unit(k), Ten(Minus(k)), Ten(e);
    TenAdd(e, Minus(k));
    UpperGap(d0, d1);
    BelowPower(q, t, u, n, v, Value(l0, l1) + v, v + Value(u0, u1));
    PowerIsNearer(q, e, k, d0, d1);
  }

  lemma {:induction false} PowerIsNearer(q: int, e: nat, k: int, d0: Word, d1: Word)
    requires 2 * Unit(k) <= 2 * Value(d0, d1) * Ten(Minus(k))
    requires (2 * Value(d0, d1) * Ten(Minus(k)) - 2 * Unit(k)) * Ten(e)
             <= 2 * Value(d0, d1) * (Ten(e) * Ten(Minus(k))) - 2 * q * Unit(k)
    ensures Off(1, 0, k, d0, d1) * Ten(e) <= Off(q, e, k, d0, d1)
  {
    hide Value, Ten, Unit, Off;
    TenAdd(e, Minus(k));
    OffBelow(1, 0, k, d0, d1);
    OffBelow(q, e, k, d0, d1);
  }

  lemma {:induction false} OffBelow(q: int, e: nat, k: int, d0: Word, d1: Word)
    ensures Off(q, e, k, d0, d1) >= 2 * Value(d0, d1) * Ten(e + Minus(k)) - 2 * q * Unit(k)
    ensures 2 * q * Unit(k) <= 2 * Value(d0, d1) * Ten(e + Minus(k)) ==>
              Off(q, e, k, d0, d1) == 2 * Value(d0, d1) * Ten(e + Minus(k)) - 2 * q * Unit(k)
  {
    hide Value, Ten, Unit;
  }

  lemma {:induction false} BelowPower(q: int, t: int, u: int, n: int, v: int, lo: int, hi: int)
    requires q < t && t > 0 && u > 0 && n > 0 && u <= v * n && 2 * v < hi
    requires lo * (t * n) <= 2 * q * u
    ensures lo * n < 2 * u < hi * n && 2 * u <= 2 * v * n
    ensures (2 * v * n - 2 * u) * t <= 2 * v * (t * n) - 2 * q * u
  {
    assert 2 * q * u < 2 * t * u by { MulStrict(q, t, u); Double(q, u); Double(t, u); }
    assert lo * (t * n) == (lo * n) * t by { Regroup3(lo, n, t); MulComm(t, n); }
    assert 2 * t * u == (2 * u) * t by { Double(t, u); MulComm(t, u); Double(u, t); }
    if lo * n >= 2 * u { MulMono(2 * u, lo * n, t); }
    MulStrict(2 * v, hi, n);
    Double(v, n);
    assert 2 * v * (t * n) == (2 * v * n) * t by { Regroup3(2 * v, n, t); MulComm(t, n); }
    Distribute(2 * v * n, 2 * u, t);
  }

  lemma {:induction false} Distribute(a: int, b: int, t: int)
    ensures (a - b) * t == a * t - b * t
  {
  }

  lemma {:induction false} Double(a: int, b: int)
    ensures 2 * a * b == 2 * (a * b)
  {
  }

  /** Nothing with fewer digits reads back, wherever it stands. */
  lemma {:induction false} FewerDigits(q: int, j: int, k: int, last: nat, d0: Word, d1: Word)
    requires Finite(d0, d1) && (d0 > 0 || d1 > 0) && Value(d0, d1) > 0 && AtLeast(d0, d1, k)
    requires q < Ten(last) && forall e: nat, q :: e < last ==> !ReadsBack(q, e, k, d0, d1)
    ensures !ReadsBack(q, 0, j, d0, d1)
  {
    hide ReadsBack, AtLeast, Ten, Value, SameNumber, Off;
    if ReadsBack(q, 0, j, d0, d1) {
      PositiveReads(q, 0, j, d0, d1);
      TenZero();
      assert last > 0;
      if j > k {
        var i: nat := j - k;
        AtScale(q, j, 0, k);
        SameReading(q, 0, j, q * Ten(i), 0, k, d0, d1);
      } else {
        var e: nat := k - j;
        Lowered(q, e, k);
        SameReading(q, 0, j, q, e, k, d0, d1);
        if e >= last {
          TenMono(last, e);
          PowerReads(q, e, k, d0, d1);
        }
      }
    }
  }

  lemma {:induction false} TenZero()
    ensures Ten(0) == 1
  {
  }

  /** What has as many digits and reads back is no nearer, wherever it stands. */
  lemma {:induction false} AsManyDigits(q: int, j: int, p: int, k: int, last: nat, d0: Word, d1: Word)
    requires Finite(d0, d1) && (d0 > 0 || d1 > 0) && Value(d0, d1) > 0 && AtLeast(d0, d1, k)
    requires q < Ten(last + 1) && ReadsBack(q, 0, j, d0, d1) && ShortestAt(p, last, k, d0, d1)
    ensures NoNearer(q, j, p, last, k, d0, d1)
  {
    hide ReadsBack, AtLeast, Ten, Value, SameNumber, Off;
    if j >= k - last {
      var i: nat := j - (k - last);
      AtScale(q, j, last, k);
      var q' := q * Ten(i);
      SameReading(q, 0, j, q', last, k, d0, d1);
      SameOff(q, 0, j, q', last, k, d0, d1);
      MulMono(Off(p, last, k, d0, d1), Off(q', last, k, d0, d1), Ten(Minus(j)));
    } else {
      var e: nat := k - j;
      Lowered(q, e, k);
      SameReading(q, 0, j, q, e, k, d0, d1);
      TenMono(last + 1, e);
      PowerReads(q, e, k, d0, d1);
      assert ReadsBack(1, 0, k, d0, d1);
      assert last == 0;
      assert Off(p, 0, k, d0, d1) <= Off(1, 0, k, d0, d1);
      SameOff(q, 0, j, q, e, k, d0, d1);
      FartherStill(Off(p, 0, k, d0, d1), Off(1, 0, k, d0, d1), Off(q, e, k, d0, d1), Off(q, 0, j, d0, d1), e, j, k);
    }
  }

  lemma {:induction false} FartherStill(p: int, one: int, far: int, off: int, e: nat, j: int, k: int)
    requires p <= one && one * Ten(e) <= far && off * Ten(e + Minus(k)) == far * Ten(Minus(j))
    ensures p * Ten(Minus(j)) <= off * Ten(Minus(k))
  {
    hide Ten;
    TenAdd(e, Minus(k));
    var m, t, n := Ten(Minus(j)), Ten(e), Ten(Minus(k));
    MulMono(p, one, m);
    MulMono(one * t, far, m);
    Regroup3(one, t, m);
    assert off * (t * n) == (off * n) * t by { Regroup3(off, n, t); MulComm(t, n); }
    CancelAtMost(one * m, off * n, t);
  }

  // ----- what mode 0 prints -----

  /** q * 10^j is no nearer to the double than p * 10^(k - e). */
  predicate NoNearer(q: int, j: int, p: int, e: nat, k: int, d0: Word, d1: Word)
  {
    Off(p, e, k, d0, d1) * Ten(Minus(j)) <= Off(q, 0, j, d0, d1) * Ten(e + Minus(k))
  }

  /** The same with q and the digits counted from 10^k down. */
  ghost predicate PrintsAt(r: Output, k: int, d0: Word, d1: Word)
    requires Finite(d0, d1) && (d0 > 0 || d1 > 0)
  {
    var n := |r.digits|;
    && n > 0 && AllDigits(r.digits) && 1 <= r.digits[0] && 1 <= r.digits[n - 1]
    && (r.bump ==> r.digits == [1])
    && ShortestAt(At(r, n), n - 1, k, d0, d1)
  }

  ghost predicate ShortestAt(p: int, last: nat, k: int, d0: Word, d1: Word)
    requires Finite(d0, d1) && (d0 > 0 || d1 > 0)
  {
    && ReadsBack(p, last, k, d0, d1)
    && (forall e: nat, q :: e < last ==> !ReadsBack(q, e, k, d0, d1))
    && (forall q :: ReadsBack(q, last, k, d0, d1) ==> Off(p, last, k, d0, d1) <= Off(q, last, k, d0, d1))
  }

  /**
   The digits print the double: read with the first digit at 10^k (10^(k + 1) when raised) they
   read back as it, no number with fewer digits does, no number with as many that does is nearer,
   wherever its first digit stands, and there are no zeros at either end.
   */
  ghost predicate Prints(r: Output, k: int, d0: Word, d1: Word)
    requires Finite(d0, d1) && (d0 > 0 || d1 > 0)
  {
    var n := |r.digits|;
    && n > 0 && AllDigits(r.digits) && 1 <= r.digits[0] && 1 <= r.digits[n - 1]
    && (r.bump ==> r.digits == [1])
    && var last: nat := n - 1;
       && ReadsBack(At(r, n), last, k, d0, d1)
       && (forall q, j :: q < Ten(last) ==> !ReadsBack(q, 0, j, d0, d1))
       && (forall q, j :: q < Ten(n) && ReadsBack(q, 0, j, d0, d1) ==> NoNearer(q, j, At(r, n), last, k, d0, d1))
  }

  /** Where the double lies among the powers of ten is enough to look at one scale only. */
  lemma {:induction false} PrintsEverywhere(r: Output, k: int, d0: Word, d1: Word)
    requires Finite(d0, d1) && (d0 > 0 || d1 > 0) && Value(d0, d1) > 0 && AtLeast(d0, d1, k)
    requires PrintsAt(r, k, d0, d1)
    ensures Prints(r, k, d0, d1)
  {
    hide ReadsBack, NoNearer, AtLeast, Off, At, Ten, Value;
    var last: nat := |r.digits| - 1;
    var p := At(r, |r.digits|);
    forall q, j | q < Ten(last) ensures !ReadsBack(q, 0, j, d0, d1) {
      if ReadsBack(q, 0, j, d0, d1) { FewerDigits(q, j, k, last, d0, d1); }
    }
    forall q, j | q < Ten(last + 1) && ReadsBack(q, 0, j, d0, d1) ensures NoNearer(q, j, p, last, k, d0, d1) {
      AsManyDigits(q, j, p, k, last, d0, d1);
    }
  }

  lemma {:induction false} GapsOrdered(d0: Word, d1: Word, k: int, b: nat, d: nat, mlo: nat, mhi: nat)
    requires Mantissa(d0, d1) > 0 && Prepared(d0, d1, k, b, d, mlo, mhi)
    ensures Value(d0, d1) > 0 && mlo <= mhi
  {
    hide Value, Two;
    ValuePositive(d0, d1);
    if Shift(d0) > 0 { TwoStep(Shift(d0) - 1); }
    assert GapBelow(d0, d1) <= GapAbove(d0);
    MulMono(GapBelow(d0, d1), GapAbove(d0), b);
    var v := Value(d0, d1);
    MulComm(2 * v, mlo);
    MulComm(2 * v, mhi);
    CancelAtMost(mlo, mhi, 2 * v);
  }

  /** Mode 0 prints every double: shortest, reading back, and nearest among the strings of its length. */
  lemma {:induction false} DoubleCorrect(d0: Word, d1: Word, k: int, b: nat, d: nat, mlo: nat, mhi: nat)
    requires Finite(d0, d1) && (d0 > 0 || d1 > 0) && Mantissa(d0, d1) > 0
    requires Prepared(d0, d1, k, b, d, mlo, mhi) && d <= b < 10 * d
    ensures Prints(ShortestDigits(b, d, mlo, mhi, d1 % 2 == 0), k, d0, d1)
  {
    hide AtLeast, Prepared, ShortestDigits, PrintsAt, Value, Mantissa;
    GapsArePositive(d0, d1, k, b, d, mlo, mhi);
    PrintedAt(d0, d1, k, b, d, mlo, mhi);
    ValuePositive(d0, d1);
    PreparedOrder(d0, d1, k, b, d, mlo, mhi);
    PrintsEverywhere(ShortestDigits(b, d, mlo, mhi, d1 % 2 == 0), k, d0, d1);
  }

  lemma {:induction false} PrintedAt(d0: Word, d1: Word, k: int, b: nat, d: nat, mlo: nat, mhi: nat)
    requires Finite(d0, d1) && (d0 > 0 || d1 > 0) && Mantissa(d0, d1) > 0
    requires Prepared(d0, d1, k, b, d, mlo, mhi) && d <= b < 10 * d
    ensures PrintsAt(ShortestDigits(b, d, mlo, mhi, d1 % 2 == 0), k, d0, d1)
  {
    hide ShortestDigits, Accepts, ReadsBack, Mantissa, Value, Distance, Off, Prepared, NineCorner, At;
    var even := d1 % 2 == 0;
    assert mlo > 0 && mhi > 0 by { GapsArePositive(d0, d1, k, b, d, mlo, mhi); }
    GapsOrdered(d0, d1, k, b, d, mlo, mhi);
    ShortestCorrect(b, d, mlo, mhi, even);
    NoCorner(d0, d1, k, b, d, mlo, mhi, even);
    ShortestNearest(b, d, mlo, mhi, even);
    var r := ShortestDigits(b, d, mlo, mhi, even);
    var last: nat, q0 := |r.digits| - 1, At(r, |r.digits|);
    AcceptsIsReading(q0, last, k, d0, d1, b, d, mlo, mhi);
    forall e: nat, q | e < last ensures !ReadsBack(q, e, k, d0, d1) {
      AcceptsIsReading(q, e, k, d0, d1, b, d, mlo, mhi);
    }
    forall q | ReadsBack(q, last, k, d0, d1) ensures Off(q0, last, k, d0, d1) <= Off(q, last, k, d0, d1) {
      AcceptsIsReading(q, last, k, d0, d1, b, d, mlo, mhi);
      DistanceIsOff(q0, q, last, k, d0, d1, b, d, mlo, mhi);
    }
  }

  lemma {:induction false} GapsArePositive(d0: Word, d1: Word, k: int, b: nat, d: nat, mlo: nat, mhi: nat)
    requires Prepared(d0, d1, k, b, d, mlo, mhi)
    ensures mlo > 0 && mhi > 0
  {
  }
}
