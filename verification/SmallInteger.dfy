/**
 How `dtoa` (`lae/source/dtoa.c`) prints a whole number below 10^15: digits by division in double
 arithmetic, all of it exact.
 */
module SmallInteger {
  import opened Words
  import opened Bigints
  import opened Conversions
  import opened DigitSpec
  import opened Doubles
  import opened Estimate

  // ----- only the number itself reads back -----

  /** The neighbours of a whole number below 10^15 are less than one away. */
  lemma {:induction false} SmallGap(d0: Word, d1: Word, x: nat)
    requires Mantissa(d0, d1) > 0 && x < Ten(15) && Value(d0, d1) == x * Two(1074)
    ensures Shift(d0) <= 1074
  {
    hide Two, Ten, Mantissa;
    TenFifteen();
    TwoFiftyThree();
    if Shift(d0) > 1074 {
      NormalLead(d0, d1);
      TwoMono(1074, Shift(d0));
      MulMono(Two(1074), Two(Shift(d0)), Mantissa(d0, d1));
      MulComm(Two(1074), Mantissa(d0, d1));
      MulComm(Two(Shift(d0)), Mantissa(d0, d1));
      CancelAtMost(Mantissa(d0, d1), x, Two(1074));
    }
  }

  lemma {:induction false} TenFour()
    ensures Ten(4) == 10_000 && Ten(5) == 100_000
  {
    TenStep(0);
    TenStep(1);
    TenStep(2);
    TenStep(3);
    TenStep(4);
  }

  lemma {:induction false} TenFifteen()
    ensures Ten(14) == 100_000_000_000_000 && Ten(15) == 1_000_000_000_000_000
  {
    hide Ten;
    TenFour();
    TenAdd(5, 5);
    TenAdd(10, 4);
    TenAdd(10, 5);
  }

  lemma {:induction false} WholeReads(q: int, e: nat, k: nat, x: nat, d0: Word, d1: Word)
    requires Finite(d0, d1) && (d0 > 0 || d1 > 0) && Mantissa(d0, d1) > 0
    requires x < Ten(15) && Value(d0, d1) == x * Two(1074) && e <= k && ReadsBack(q, e, k, d0, d1)
    ensures q * Ten(k - e) == x
  {
    hide Value, Ten, Two, Mantissa, NextUp, NextDown, ReadsBack, GapAbove, GapBelow;
    var t, y := Two(1074), q * Ten(k - e);
    SmallGap(d0, d1, x);
    SmallGaps(d0, d1);
    ReadsBetween(q, e, k, d0, d1);
    TenAdd(k - e, e);
    TwiceIs(q, t, Ten(k - e), Ten(e));
    CancelAtMost(2 * Value(d0, d1) - t, 2 * (y * t), Ten(e));
    CancelAtMost(2 * (y * t), 2 * Value(d0, d1) + t, Ten(e));
    Within(x, y, t);
  }

  lemma {:induction false} SmallGaps(d0: Word, d1: Word)
    requires Shift(d0) <= 1074
    ensures GapAbove(d0) <= Two(1074) && GapBelow(d0, d1) <= Two(1074)
  {
    hide Two, Shift;
    TwoMono(Shift(d0), 1074);
    if Boundary(d0, d1) {
      BoundaryShift(d0, d1);
      TwoMono(Shift(d0) - 1, 1074);
    }
  }

  lemma {:induction false} BoundaryShift(d0: Word, d1: Word)
    requires Boundary(d0, d1)
    ensures Shift(d0) >= 1
  {
  }

  /** What reads back is not beyond the neighbours' midpoints. */
  lemma {:induction false} ReadsBetween(q: int, e: nat, k: nat, d0: Word, d1: Word)
    requires Finite(d0, d1) && (d0 > 0 || d1 > 0) && ReadsBack(q, e, k, d0, d1)
    requires GapAbove(d0) <= Two(1074) && GapBelow(d0, d1) <= Two(1074)
    ensures (2 * Value(d0, d1) - Two(1074)) * Ten(e) <= 2 * q * (Two(1074) * Ten(k))
    ensures 2 * q * (Two(1074) * Ten(k)) <= (2 * Value(d0, d1) + Two(1074)) * Ten(e)
  {
    hide Value, Ten, Two, GapAbove, GapBelow;
    var (l0, l1) := NextDown(d0, d1);
    var (u0, u1) := NextUp(d0, d1);
    UpperGap(d0, d1);
    LowerGap(d0, d1);
    MulMono(2 * Value(d0, d1) - Two(1074), Value(l0, l1) + Value(d0, d1), Ten(e));
    MulMono(Value(d0, d1) + Value(u0, u1), 2 * Value(d0, d1) + Two(1074), Ten(e));
  }

  lemma {:induction false} TwiceIs(q: int, t: int, a: int, b: int)
    ensures 2 * q * (t * (a * b)) == (2 * ((q * a) * t)) * b
  {
  }

  lemma {:induction false} Within(x: int, y: int, t: int)
    requires t > 0 && 2 * (x * t) - t <= 2 * (y * t) <= 2 * (x * t) + t
    ensures x == y
  {
    if x < y { MulMono(x + 1, y, t); } else if y < x { MulMono(y + 1, x, t); }
  }

  /** The number written by the digits, first at 10^k. */
  predicate Writes(ds: seq<int>, k: nat, x: nat)
  {
    && 0 < |ds| <= k + 1 && AllDigits(ds) && 1 <= ds[0] && 1 <= ds[|ds| - 1]
    && Number(ds) * Ten(k) == x * Ten(|ds| - 1)
  }

  lemma {:induction false} ExactReads(p: int, last: nat, k: nat, x: nat, d0: Word, d1: Word)
    requires Finite(d0, d1) && (d0 > 0 || d1 > 0) && Mantissa(d0, d1) > 0
    requires Value(d0, d1) == x * Two(1074) && p * Ten(k) == x * Ten(last)
    ensures ReadsBack(p, last, k, d0, d1) && Off(p, last, k, d0, d1) == 0
  {
    hide Value, Ten, Two, Mantissa, Shift;
    var (l0, l1) := NextDown(d0, d1);
    var (u0, u1) := NextUp(d0, d1);
    var v, t := Value(d0, d1), Two(1074);
    UpperGap(d0, d1);
    LowerGap(d0, d1);
    assert Twice(p, k) == 2 * v * Ten(last) by { SameTwice(p, t, Ten(k), x, Ten(last)); }
    MulStrict(Value(l0, l1) + v, 2 * v, Ten(last));
    MulStrict(2 * v, v + Value(u0, u1), Ten(last));
  }

  lemma {:induction false} SameTwice(p: int, t: int, a: int, x: int, b: int)
    requires p * a == x * b
    ensures 2 * p * (t * a) == 2 * (x * t) * b
  {
    assert 2 * p * (t * a) == 2 * ((p * a) * t);
    assert 2 * (x * t) * b == 2 * ((x * b) * t);
  }

  /** The last digit is the number's. */
  lemma {:induction false} LastDigit(ds: seq<int>)
    requires |ds| > 0 && AllDigits(ds)
    ensures Number(ds) % 10 == ds[|ds| - 1]
  {
    assert 0 <= ds[|ds| - 1] <= 9;
  }

  lemma {:induction false} NotShorter(q: int, e: nat, ds: seq<int>, k: nat, x: nat)
    requires Writes(ds, k, x) && e < |ds| - 1
    ensures q * Ten(k - e) != x
  {
    hide Ten, Number;
    var last: nat := |ds| - 1;
    LastDigit(ds);
    if q * Ten(k - e) == x {
      var p, i: nat := Number(ds), last - e;
      TenAdd(k - e, last);
      TenAdd(k, i);
      MulAssoc(q, Ten(k - e), Ten(last));
      assert p * Ten(k) == (q * Ten(i)) * Ten(k) by { Regroup3(q, Ten(k), Ten(i)); }
      CancelMul(p, q * Ten(i), Ten(k));
      TenStep(i - 1);
      TenDivides(q, Ten(i - 1));
    }
  }

  lemma {:induction false} TenDivides(q: int, t: int)
    ensures q * (10 * t) % 10 == 0
  {
    assert q * (10 * t) == 10 * (q * t);
  }

  /** Digits that write a small whole number exactly are what mode 0 is to print. */
  lemma {:induction false} ExactPrints(ds: seq<int>, k: nat, x: nat, d0: Word, d1: Word)
    requires Finite(d0, d1) && (d0 > 0 || d1 > 0) && Mantissa(d0, d1) > 0
    requires x < Ten(15) && Value(d0, d1) == x * Two(1074) && Writes(ds, k, x) && AtLeast(d0, d1, k)
    ensures Prints(Output(ds, false), k, d0, d1)
  {
    hide Value, Ten, Two, Mantissa, AtLeast, ReadsBack, Off, Number, Prints;
    var r := Output(ds, false);
    var last: nat := |ds| - 1;
    assert At(r, |ds|) == Number(ds);
    ExactReads(Number(ds), last, k, x, d0, d1);
    forall e: nat, q | e < last ensures !ReadsBack(q, e, k, d0, d1) {
      if ReadsBack(q, e, k, d0, d1) {
        WholeReads(q, e, k, x, d0, d1);
        NotShorter(q, e, ds, k, x);
      }
    }
    ValuePositive(d0, d1);
    PrintsEverywhere(r, k, d0, d1);
  }

  // ----- the arithmetic is exact -----

  /** A quotient that is not whole is too far from whole numbers to be rounded to one. */
  lemma {:induction false} BetweenWholes(z: real, t: real)
    requires 0.0 < t <= 100000000000000.0 && 1.0 <= z * t <= t - 1.0
    ensures 0.00000000000001 <= z <= 0.99999999999999
  {
    if z < 0.00000000000001 { FactorBelow(z, 0.00000000000001, t, t * 0.00000000000001); }
    if z > 0.99999999999999 { FactorBelow(0.99999999999999, z, t, z * t); }
  }

  lemma {:induction false} FactorBelow(x: real, y: real, t: real, p: real)
    requires t > 0.0 && x < y && p == y * t
    ensures x * t < p
  {
    CancelFactor(t, x, y);
  }

  /** The quotient as a whole part and the rest. */
  lemma {:induction false} QuotientParts(n: nat, t: nat)
    requires t > 0
    ensures n as real / t as real == (n / t) as real + (n % t) as real / t as real
  {
    var q, r := n / t, n % t;
    MulComm(q, t);
    ProductAsReal(q, t);
    var y, z := n as real / t as real, r as real / t as real;
    assert (q as real + z) * t as real == q as real * t as real + z * t as real;
    CancelFactor(t as real, y, q as real + z);
  }

  lemma {:induction false} DigitExact(rnd: real -> real, n: nat, t: nat)
    requires Rounding(rnd) && 0 < t <= 100_000_000_000_000 && n < 10 * t
    ensures 0 <= n / t <= 9
    ensures Truncate(rnd(n as real / t as real)) == n / t
  {
    hide Rounding;
    DigitBounds(n, t);
    QuotientParts(n, t);
    var q, r := n / t, n % t;
    if r == 0 {
      KeptWhole(rnd, q);
    } else {
      var z := r as real / t as real;
      assert z * t as real == r as real;
      BetweenWholes(z, t as real);
      RoundedInside(rnd, q, z);
    }
  }

  lemma {:induction false} RoundedInside(rnd: real -> real, q: int, z: real)
    requires Rounding(rnd) && 0 <= q <= 9 && 0.00000000000001 <= z <= 0.99999999999999
    ensures Truncate(rnd(q as real + z)) == q
  {
    var y := q as real + z;
    assert Close(rnd(y), y, Size(y) + 1.0);
  }

  lemma {:induction false} KeptWhole(rnd: real -> real, n: int)
    requires Rounding(rnd) && -0x20_0000_0000_0000 <= n <= 0x20_0000_0000_0000
    ensures rnd(n as real) == n as real
  {
    assert rnd(Whole(n)) == Whole(n);
  }

  lemma {:induction false} ProductKept(rnd: real -> real, a: nat, b: nat)
    requires Rounding(rnd) && a * b <= 0x20_0000_0000_0000
    ensures FloatMul(rnd, a as real, b as real) == (a * b) as real
  {
    hide Rounding;
    ProductAsReal(a, b);
    KeptWhole(rnd, a * b);
    assert Product(a as real, b as real) == (a * b) as real;
  }

  /** What is left after a digit. */
  lemma {:induction false} RestExact(rnd: real -> real, n: nat, t: nat)
    requires Rounding(rnd) && 0 < t <= 100_000_000_000_000 && n < 10 * t
    ensures rnd(n as real - FloatMul(rnd, (n / t) as real, t as real)) == (n % t) as real
    ensures FloatMul(rnd, (n % t) as real, 10.0) == (10 * (n % t)) as real
  {
    hide Rounding, FloatMul;
    DigitBounds(n, t);
    var q, r := n / t, n % t;
    MulMono(q, 9, t);
    ProductKept(rnd, q, t);
    KeptWhole(rnd, r);
    ProductKept(rnd, r, 10);
    assert n as real - (q * t) as real == r as real;
  }

  // ----- the loop -----

  /** After c digits, n is what is left of x, ten times as much with each. */
  predicate Left(ds: seq<int>, n: nat, k: nat, x: nat)
  {
    && 0 < n < 10 * Ten(k) && AllDigits(ds) && (ds != [] ==> 1 <= ds[0])
    && 10 * (Number(ds) * Ten(k)) + n == x * Ten(|ds|)
  }

  lemma {:induction false} OneMoreDigit(ds: seq<int>, n: nat, k: nat, x: nat)
    requires Left(ds, n, k, x) && |ds| <= k && Ten(k) <= x
    ensures var l, r := n / Ten(k), n % Ten(k);
            && AllDigits(ds + [l]) && 1 <= (ds + [l])[0]
            && Number(ds + [l]) * Ten(k) + r == x * Ten(|ds|)
            && (r == 0 ==> Writes(ds + [l], k, x))
            && (r != 0 ==> Left(ds + [l], 10 * r, k, x) && |ds| < k)
  {
    hide Ten, Number;
    var t := Ten(k);
    var l, r := n / t, n % t;
    DigitBounds(n, t);
    NumberOneMore(ds, l);
    TenZero();
    var p := Number(ds);
    assert (10 * p + l) * t == 10 * (p * t) + l * t;
    if ds == [] {
      NumberOfNone();
      AtLeastOne(x, t);
    }
    if r == 0 {
      PositiveDigit(l, t, n);
    } else {
      TenStep(|ds|);
      Tenfolded(Number(ds + [l]) * t, r, x, Ten(|ds|));
      if |ds| == k { NoRest(Number(ds + [l]), x, r, t); }
    }
  }

  lemma {:induction false} PositiveDigit(l: int, t: int, n: int)
    requires l >= 0 && n > 0 && n == l * t
    ensures l >= 1
  {
  }

  lemma {:induction false} NumberOneMore(ds: seq<int>, l: int)
    ensures Number(ds + [l]) == 10 * Number(ds) + l
  {
    assert (ds + [l])[..|ds|] == ds;
  }

  lemma {:induction false} NumberOfNone()
    ensures Number([]) == 0
  {
  }

  lemma {:induction false} DigitBounds(n: nat, t: nat)
    requires t > 0 && n < 10 * t
    ensures 0 <= n / t <= 9 && n == (n / t) * t + n % t && 0 <= n % t < t
  {
    var q := n / t;
    MulComm(q, t);
    if q >= 10 { MulMono(10, q, t); }
  }

  lemma {:induction false} AtLeastOne(x: nat, t: nat)
    requires t > 0 && t <= x
    ensures x / t >= 1
  {
    var q, r := x / t, x % t;
    MulComm(q, t);
    assert x == q * t + r;
  }

  lemma {:induction false} Tenfolded(a: int, r: int, x: int, t: int)
    requires a + r == x * t
    ensures 10 * a + 10 * r == x * (10 * t)
  {
    assert x * (10 * t) == 10 * (x * t);
  }

  lemma {:induction false} NoRest(a: int, x: int, r: int, t: int)
    requires a * t + r == x * t && 0 <= r < t
    ensures r == 0
  {
    assert (x - a) * t == x * t - a * t;
    if x - a >= 1 { MulMono(1, x - a, t); } else if x - a <= -1 { MulMono(x - a, -1, t); }
  }

  lemma {:induction false} StartsWhole(d0: Word, d1: Word, k: nat, x: nat)
    requires Value(d0, d1) == x * Two(1074) && AtLeast(d0, d1, k) && !AtLeast(d0, d1, k + 1)
    ensures Ten(k) <= x && Left([], x, k, x) && RealValue(d0, d1) == x as real
  {
    hide Two, Ten, Value, Power;
    var t := Two(1074);
    TenZero();
    TenStep(k);
    NumberOfNone();
    MulComm(t, Ten(k));
    MulComm(t, Ten(k + 1));
    CancelAtMost(Ten(k), x, t);
    if Ten(k + 1) <= x { MulMono(Ten(k + 1), x, t); }
    WholeValue(x);
  }

  lemma {:induction false} WholeValue(x: nat)
    ensures (x * Two(1074)) as real * Power(2.0, -1074) == x as real
  {
    hide Power, Two;
    ProductAsReal(x, Two(1074));
    TwoIsPower(1074);
    PowerAdd(2.0, 1074, -1074);
    PowerZero(2.0);
    Swap3(x as real, Power(2.0, 1074), Power(2.0, -1074));
  }

  /** The path for small whole numbers: the digits, first at 10^k, are what mode 0 is to print. */
  method PrintSmall(d0: Word, d1: Word, k: nat, rnd: real -> real, ghost x: nat) returns (ds: seq<int>)
    requires Rounding(rnd) && Finite(d0, d1) && (d0 > 0 || d1 > 0) && Mantissa(d0, d1) > 0
    requires k <= 14 && AtLeast(d0, d1, k) && !AtLeast(d0, d1, k + 1) && Value(d0, d1) == x * Two(1074)
    ensures Prints(Output(ds, false), k, d0, d1)
  {
    hide Two, Ten, Value, AtLeast, Mantissa, Number, Left, Writes, Rounding, RealValue, Prints, Truncate, FloatMul;
    StartsWhole(d0, d1, k, x);
    TenFifteen();
    TenMono(k, 14);
    ghost var n: nat := x;
    var u, unit := RealValue(d0, d1), Ten(k) as real;
    ds := [];
    while true
      invariant u == n as real && Left(ds, n, k, x) && |ds| <= k
      decreases k - |ds|
    {
      LeftBelow(ds, n, k, x);
      DigitExact(rnd, n, Ten(k));
      RestExact(rnd, n, Ten(k));
      OneMoreDigit(ds, n, k, x);
      var l := Truncate(rnd(u / unit));
      u := rnd(u - FloatMul(rnd, l as real, unit));
      ds := ds + [l];
      if u == 0.0 { break; }
      u := FloatMul(rnd, u, 10.0);
      n := 10 * (n % Ten(k));
    }
    assert Writes(ds, k, x);
    assert x < Ten(15) by { TenMono(k + 1, 15); BelowNext(d0, d1, k, x); }
    ExactPrints(ds, k, x, d0, d1);
  }

  lemma {:induction false} LeftBelow(ds: seq<int>, n: nat, k: nat, x: nat)
    requires Left(ds, n, k, x)
    ensures n < 10 * Ten(k)
  {
  }

  lemma {:induction false} BelowNext(d0: Word, d1: Word, k: nat, x: nat)
    requires Value(d0, d1) == x * Two(1074) && !AtLeast(d0, d1, k + 1)
    ensures x < Ten(k + 1)
  {
    hide Two, Ten, Value;
    TenZero();
    MulComm(Two(1074), Ten(k + 1));
    if Ten(k + 1) <= x { MulMono(Ten(k + 1), x, Two(1074)); }
  }
}
