/**
 The estimate of the decimal exponent in `dtoa` (`lae/source/dtoa.c`): a tangent to the logarithm,
 computed in double arithmetic. It is right or one too large for every double. The tangent is
 compared with the logarithm at each power of ten only, on bounds for 10^m / 2^i.
 */
module Estimate {
  import opened Words
  import opened Bigints
  import opened Conversions
  import opened DigitSpec
  import opened Doubles

  // ----- powers -----

  function Power(b: real, k: int): (r: real)
    requires b > 0.0
    ensures r > 0.0
    decreases if k < 0 then -k else k
  {
    if k == 0 then 1.0
    else if k > 0 then TimesPositive(b, Power(b, k - 1)); b * Power(b, k - 1)
    else Power(b, k + 1) / b
  }

  /** A product with a name, so that equal factors make equal products without arithmetic. */
  function Product(x: real, y: real): (z: real)
  {
    x * y
  }

  lemma {:induction false} TimesPositive(x: real, y: real)
    requires x > 0.0 && y > 0.0
    ensures x * y > 0.0
  {
  }

  lemma {:induction false} PowerStep(b: real, k: int)
    requires b > 0.0
    ensures Power(b, k + 1) == b * Power(b, k)
  {
  }

  lemma {:induction false} PowerZero(b: real)
    requires b > 0.0
    ensures Power(b, 0) == 1.0
  {
  }

  lemma {:induction false} PowerAdd(b: real, m: int, n: int)
    requires b > 0.0
    ensures Power(b, m + n) == Power(b, m) * Power(b, n)
    decreases if n < 0 then -n else n
  {
    hide Power;
    PowerZero(b);
    if n > 0 {
      PowerAdd(b, m, n - 1);
      PowerStep(b, m + n - 1);
      PowerStep(b, n - 1);
      Swap3(b, Power(b, m), Power(b, n - 1));
    } else if n < 0 {
      PowerAdd(b, m, n + 1);
      PowerStep(b, m + n);
      PowerStep(b, n);
      Swap3(b, Power(b, m), Power(b, n));
      CancelFactor(b, Power(b, m + n), Power(b, m) * Power(b, n));
    }
  }

  lemma {:induction false} Swap3(x: real, y: real, z: real)
    ensures x * (y * z) == y * (x * z) == (x * y) * z
  {
  }

  lemma {:induction false} CancelFactor(f: real, x: real, y: real)
    requires f > 0.0
    ensures f * x == f * y ==> x == y
    ensures f * x <= f * y <==> x <= y
    ensures f * x < f * y <==> x < y
  {
  }

  lemma {:induction false} PowerMono(i: int, j: int)
    requires i < j
    ensures 2.0 * Power(2.0, i) <= Power(2.0, j)
    decreases j - i
  {
    PowerStep(2.0, j - 1);
    if i < j - 1 { PowerMono(i, j - 1); }
  }

  lemma {:induction false} TenIsPower(k: nat)
    ensures Ten(k) as real == Power(10.0, k)
  {
    if k > 0 {
      TenIsPower(k - 1);
      TenStep(k - 1);
    }
  }

  lemma {:induction false} TwoIsPower(k: nat)
    ensures Two(k) as real == Power(2.0, k)
  {
    if k > 0 { TwoIsPower(k - 1); }
  }

  lemma {:induction false} ProductAsReal(a: nat, b: int)
    ensures (a * b) as real == a as real * b as real
  {
    if a > 0 {
      ProductAsReal(a - 1, b);
      assert a * b == (a - 1) * b + b;
      assert (a - 1) as real * b as real == a as real * b as real - b as real;
    }
  }

  // ----- a double as a real number -----

  /** The double itself. */
  function RealValue(d0: Word, d1: Word): (x: real)
  {
    Product(Value(d0, d1) as real, Power(2.0, -1074))
  }

  lemma {:induction false} AtLeastIs(d0: Word, d1: Word, k: int)
    ensures AtLeast(d0, d1, k) <==> Power(10.0, k) <= RealValue(d0, d1)
  {
    hide Power, Ten, Two, Value, Plus, Minus;
    var x, y := Power(10.0, k), Power(10.0, Minus(k));
    UnitAsReal(k);
    ProductAsReal(Value(d0, d1), Ten(Minus(k)));
    TenIsPower(Minus(k));
    PowerAdd(2.0, -1074, 1074);
    PowerZero(2.0);
    Rearranged(Power(2.0, -1074), Power(2.0, 1074), x, y, Value(d0, d1) as real);
  }

  lemma {:induction false} UnitAsReal(k: int)
    ensures Unit(k) as real == Power(2.0, 1074) * (Power(10.0, k) * Power(10.0, Minus(k)))
  {
    hide Power, Ten, Two;
    TwoIsPower(1074);
    TenIsPower(Plus(k));
    ProductAsReal(Two(1074), Ten(Plus(k)));
    PowerAdd(10.0, k, Minus(k));
  }

  lemma {:induction false} Rearranged(a: real, b: real, x: real, y: real, v: real)
    requires a > 0.0 && y > 0.0 && a * b == 1.0
    ensures b * (x * y) <= v * y <==> x <= Product(v, a)
  {
    assert a * (b * (x * y)) == y * x by { Swap3(a, b, x * y); }
    assert a * (v * y) == y * (v * a) by { Swap3(a, v, y); Swap3(y, v, a); }
    CancelFactor(a, b * (x * y), v * y);
    CancelFactor(y, x, v * a);
  }

  /** The mantissa as a number from 1 up to 2, for a mantissa of the given length. */
  function Lead(d0: Word, d1: Word, bits: nat): (t: real)
  {
    Product(Mantissa(d0, d1) as real, Power(2.0, 1 - bits))
  }

  lemma {:induction false} LeadIs(d0: Word, d1: Word, bits: nat)
    requires bits >= 1 && Two(bits - 1) <= Mantissa(d0, d1) < Two(bits)
    ensures 1.0 <= Lead(d0, d1, bits) < 2.0
    ensures RealValue(d0, d1) == Product(Lead(d0, d1, bits), Power(2.0, bits - 1 + Scale(d0)))
  {
    hide Power, Mantissa, Two, Scale;
    var m, u := Mantissa(d0, d1) as real, Power(2.0, 1 - bits);
    TwoIsPower(bits - 1);
    TwoIsPower(bits);
    PowerZero(2.0);
    PowerAdd(2.0, 1 - bits, bits - 1);
    PowerAdd(2.0, 1 - bits, bits);
    PowerStep(2.0, 0);
    CancelFactor(u, Power(2.0, bits - 1), m);
    CancelFactor(u, m, Power(2.0, bits));
    TwoIsPower(Shift(d0));
    ProductAsReal(Mantissa(d0, d1), Two(Shift(d0)));
    PowerAdd(2.0, Shift(d0), -1074);
    PowerAdd(2.0, 1 - bits, bits - 1 + Scale(d0));
    Swap3(m, Power(2.0, Shift(d0)), Power(2.0, -1074));
    Swap3(m, u, Power(2.0, bits - 1 + Scale(d0)));
  }

  // ----- the tangent -----

  /** What the code computes, without rounding. */
  function Line(t: real, i: int): (y: real)
  {
    (t - 1.5) * 0.289529654602168 + 0.1760912590558 + i as real * 0.301029995663981
  }

  /** lo * 2^i <= 10^m <= hi * 2^i. */
  predicate Encloses(m: int, i: int, lo: real, hi: real)
  {
    0.0 < lo && Product(lo, Power(2.0, i)) <= Power(10.0, m) <= Product(hi, Power(2.0, i))
  }

  /** At 10^m the tangent is above the logarithm, not by much and not by too little. */
  predicate Above(m: int, i: int, lo: real, hi: real)
  {
    && 1.0 <= lo && hi < 2.0
    && m as real + 0.000000001 <= (lo - 1.5) * 0.289529654602168 + 0.1760912590558 + i as real * 0.301029995663981
    && (hi - 1.5) * 0.289529654602168 + 0.1760912590558 + i as real * 0.301029995663981 <= m as real + 0.04
  }

  ghost predicate Marked(m: int)
  {
    exists i, lo, hi :: Encloses(m, i, lo, hi) && Above(m, i, lo, hi)
  }

  /** Of two numbers in the form s * 2^j, the one with the larger exponent is larger. */
  lemma {:induction false} LeadOrder(t: real, i: int, s: real, j: int)
    requires 1.0 <= t < 2.0 && 1.0 <= s < 2.0
    ensures Product(s, Power(2.0, j)) <= Product(t, Power(2.0, i)) <==> i > j || (i == j && s <= t)
  {
    hide Power;
    var u, v := Power(2.0, i), Power(2.0, j);
    if i == j {
      CancelFactor(u, s, t);
    } else if i < j {
      PowerMono(i, j);
      ExponentDecides(s, v, t, u);
    } else {
      PowerMono(j, i);
      ExponentDecides(t, u, s, v);
    }
  }

  lemma {:induction false} ExponentDecides(t: real, u: real, s: real, v: real)
    requires 1.0 <= t && s < 2.0 && 0.0 < v && 2.0 * v <= u
    ensures s * v < t * u
  {
    CancelFactor(v, s, 2.0);
    CancelFactor(u, 1.0, t);
    var x, y := s * v, t * u;
    assert x < 2.0 * v && u <= y;
  }

  /** The tangent grows with the number, so being on one side of 10^m is being on one side of m. */
  lemma {:induction false} TangentAt(m: int, t: real, i: int)
    requires 1.0 <= t < 2.0 && Marked(m)
    ensures Power(10.0, m) <= Product(t, Power(2.0, i)) ==> Line(t, i) >= m as real + 0.000000001
    ensures Product(t, Power(2.0, i)) < Power(10.0, m) ==> Line(t, i) <= m as real + 0.04
  {
    hide Power, Line, Product, Above;
    var j, lo, hi :| Encloses(m, j, lo, hi) && Above(m, j, lo, hi);
    FactorOrder(lo, hi, Power(2.0, j));
    AboveIs(m, j, lo, hi);
    LeadOrder(t, i, lo, j);
    LeadOrder(t, i, hi, j);
    if Power(10.0, m) <= Product(t, Power(2.0, i)) {
      LineOrder(t, i, lo, j);
    } else {
      LineOrder(hi, j, t, i);
    }
  }

  lemma {:induction false} FactorOrder(x: real, y: real, f: real)
    requires f > 0.0
    ensures Product(x, f) <= Product(y, f) ==> x <= y
  {
    CancelFactor(f, x, y);
  }

  lemma {:induction false} AboveIs(m: int, i: int, lo: real, hi: real)
    ensures Above(m, i, lo, hi) <==>
            && 1.0 <= lo && hi < 2.0
            && m as real + 0.000000001 <= Line(lo, i) && Line(hi, i) <= m as real + 0.04
  {
  }

  lemma {:induction false} LineOrder(t: real, i: int, s: real, j: int)
    requires 1.0 <= t < 2.0 && 1.0 <= s < 2.0 && (i > j || (i == j && t >= s))
    ensures Line(t, i) >= Line(s, j)
  {
  }

  // ----- bounds for the powers of ten -----

  lemma {:induction false} EnclosesProduct(m: int, i: int, lo: real, hi: real, n: int, j: int, wlo: real, whi: real)
    requires Encloses(m, i, lo, hi) && Encloses(n, j, wlo, whi)
    ensures Encloses(m + n, i + j, lo * wlo, hi * whi)
  {
    hide Power;
    var u, v, x, y := Power(2.0, i), Power(2.0, j), Power(10.0, m), Power(10.0, n);
    PowerAdd(2.0, i, j);
    PowerAdd(10.0, m, n);
    TimesPositive(lo, wlo);
    TimesPositive(wlo, v);
    ProductOrder(lo * u, x, wlo * v, y);
    ProductOrder(x, hi * u, y, whi * v);
    Swap4Real(lo, u, wlo, v);
    Swap4Real(hi, u, whi, v);
  }

  lemma {:induction false} ProductOrder(a: real, b: real, c: real, d: real)
    requires a <= b && 0.0 <= c <= d && 0.0 <= b
    ensures a * c <= b * d
  {
    assert a * c <= b * c <= b * d;
  }

  lemma {:induction false} Swap4Real(a: real, b: real, c: real, d: real)
    ensures (a * b) * (c * d) == (a * c) * (b * d)
  {
    Swap3(a * b, c, d);
    Swap3(a, b, c);
    Swap3(a, c, b);
    Swap3(a * c, b, d);
  }

  /** Wider bounds, and bounds for half or twice as much at another exponent. */
  lemma {:induction false} EnclosesWider(m: int, i: int, lo: real, hi: real, j: int, lo': real, hi': real)
    requires Encloses(m, i, lo, hi) && 0.0 < lo'
    requires (j == i && lo' <= lo && hi <= hi') || (j == i + 1 && 2.0 * lo' <= lo && hi <= 2.0 * hi')
    ensures Encloses(m, j, lo', hi')
  {
    hide Power;
    var u := Power(2.0, i);
    if j == i {
      CancelFactor(u, lo', lo);
      CancelFactor(u, hi, hi');
    } else {
      PowerStep(2.0, i);
      CancelFactor(u, 2.0 * lo', lo);
      CancelFactor(u, hi, 2.0 * hi');
      assert lo' * (2.0 * u) == (2.0 * lo') * u && hi' * (2.0 * u) == (2.0 * hi') * u;
    }
  }

  /** From m to m + n. */
  lemma {:induction false} EnclosesUp(m: int, i: int, lo: real, hi: real, n: int, j: int, wlo: real, whi: real,
                                      i': int, lo': real, hi': real)
    requires Encloses(m, i, lo, hi) && Encloses(n, j, wlo, whi) && 0.0 < lo'
    requires || (i' == i + j && lo' <= lo * wlo && hi * whi <= hi')
             || (i' == i + j + 1 && 2.0 * lo' <= lo * wlo && hi * whi <= 2.0 * hi')
    ensures Encloses(m + n, i', lo', hi')
  {
    hide Encloses;
    EnclosesProduct(m, i, lo, hi, n, j, wlo, whi);
    EnclosesWider(m + n, i + j, lo * wlo, hi * whi, i', lo', hi');
  }

  /** From m + n down to m. */
  lemma {:induction false} EnclosesDown(m: int, i: int, lo: real, hi: real, n: int, j: int, wlo: real, whi: real,
                                        i': int, lo': real, hi': real)
    requires Encloses(m + n, i', lo', hi') && Encloses(n, j, wlo, whi) && 0.0 < lo
    requires || (i' == i + j && lo * whi <= lo' && hi' <= hi * wlo)
             || (i' == i + j + 1 && lo * whi <= 2.0 * lo' && 2.0 * hi' <= hi * wlo)
    ensures Encloses(m, i, lo, hi)
  {
    hide Encloses;
    if i' == i + j {
      EnclosesQuotient(m, i, lo, hi, n, j, wlo, whi, lo', hi');
    } else {
      EnclosesTwice(m + n, i + j, lo', hi');
      EnclosesQuotient(m, i, lo, hi, n, j, wlo, whi, 2.0 * lo', 2.0 * hi');
    }
  }

  lemma {:induction false} EnclosesTwice(m: int, i: int, lo: real, hi: real)
    requires Encloses(m, i + 1, lo, hi)
    ensures Encloses(m, i, 2.0 * lo, 2.0 * hi)
  {
    hide Power;
    PowerStep(2.0, i);
    var u := Power(2.0, i);
    assert lo * (2.0 * u) == (2.0 * lo) * u && hi * (2.0 * u) == (2.0 * hi) * u;
  }

  lemma {:induction false} EnclosesQuotient(m: int, i: int, lo: real, hi: real, n: int, j: int, wlo: real, whi: real,
                                            lo': real, hi': real)
    requires Encloses(m + n, i + j, lo', hi') && Encloses(n, j, wlo, whi) && 0.0 < lo
    requires lo * whi <= lo' && hi' <= hi * wlo
    ensures Encloses(m, i, lo, hi)
  {
    hide Power;
    var u, v, x, y := Power(2.0, i), Power(2.0, j), Power(10.0, m), Power(10.0, n);
    PowerAdd(2.0, i, j);
    PowerAdd(10.0, m, n);
    Divided(x, y, lo, whi, u, v, lo');
    DividedAbove(x, y, hi, wlo, u, v, hi');
  }

  lemma {:induction false} Divided(x: real, y: real, lo: real, w: real, u: real, v: real, z: real)
    requires x > 0.0 && y > 0.0 && u > 0.0 && v > 0.0 && lo > 0.0 && lo * w <= z && z * (u * v) <= x * y && y <= w * v
    ensures lo * u <= x
  {
    TimesPositive(u, v);
    TimesPositive(lo, u);
    CancelFactor(u * v, lo * w, z);
    CancelFactor(lo * u, y, w * v);
    Swap4Real(lo, u, w, v);
    CancelFactor(y, lo * u, x);
  }

  lemma {:induction false} DividedAbove(x: real, y: real, hi: real, w: real, u: real, v: real, z: real)
    requires x > 0.0 && y > 0.0 && u > 0.0 && v > 0.0 && w > 0.0 && z <= hi * w && x * y <= z * (u * v) && w * v <= y
    ensures x <= hi * u
  {
    TimesPositive(u, v);
    CancelFactor(u * v, z, hi * w);
    Swap4Real(hi, u, w, v);
    assert x * y <= (hi * u) * (w * v);
    TimesPositive(w, v);
    TimesPositive(x, y);
    assert hi * u > 0.0;
    CancelFactor(hi * u, w * v, y);
    CancelFactor(y, x, hi * u);
  }

  lemma {:induction false} SmallPowers()
    ensures Encloses(0, 0, 1.0, 1.0) && Encloses(1, 3, 1.25, 1.25) && Encloses(-1, -4, 1.6, 1.6)
  {
  }

  /** 10^5, 10^10, 10^15 and 10^20. */
  lemma {:induction false} MiddlePowers()
    ensures Encloses(5, 16, 1.52587890625, 1.52587890625)
    ensures Encloses(10, 33, 1.164153218269348, 1.164153218269349)
    ensures Encloses(15, 49, 1.776356839400250, 1.776356839400252)
    ensures Encloses(20, 66, 1.355252715606880, 1.355252715606883)
  {
    hide Encloses;
    SmallPowers();
    EnclosesUp(1, 3, 1.25, 1.25, 1, 3, 1.25, 1.25, 6, 1.5625, 1.5625);
    EnclosesUp(2, 6, 1.5625, 1.5625, 2, 6, 1.5625, 1.5625, 13, 1.220703125, 1.220703125);
    EnclosesUp(4, 13, 1.220703125, 1.220703125, 1, 3, 1.25, 1.25, 16, 1.52587890625, 1.52587890625);
    EnclosesUp(5, 16, 1.52587890625, 1.52587890625, 5, 16, 1.52587890625, 1.52587890625,
               33, 1.164153218269348, 1.164153218269349);
    EnclosesUp(10, 33, 1.164153218269348, 1.164153218269349, 5, 16, 1.52587890625, 1.52587890625,
               49, 1.776356839400250, 1.776356839400252);
    EnclosesUp(10, 33, 1.164153218269348, 1.164153218269349, 10, 33, 1.164153218269348, 1.164153218269349,
               66, 1.355252715606880, 1.355252715606883);
  }

  /** 10^40, 10^60 and 10^80. */
  lemma {:induction false} LargePowers()
    ensures Encloses(40, 132, 1.836709923159822, 1.836709923159831)
    ensures Encloses(60, 199, 1.244603055572226, 1.244603055572236)
    ensures Encloses(80, 265, 1.686751670916879, 1.686751670916897)
  {
    hide Encloses;
    MiddlePowers();
    EnclosesUp(20, 66, 1.355252715606880, 1.355252715606883, 20, 66, 1.355252715606880, 1.355252715606883,
               132, 1.836709923159822, 1.836709923159831);
    EnclosesUp(40, 132, 1.836709923159822, 1.836709923159831, 20, 66, 1.355252715606880, 1.355252715606883,
               199, 1.244603055572226, 1.244603055572236);
    EnclosesUp(40, 132, 1.836709923159822, 1.836709923159831, 40, 132, 1.836709923159822, 1.836709923159831,
               265, 1.686751670916879, 1.686751670916897);
  }

  /** Every eightieth power from 10^-323 to 10^237. */
  lemma {:induction false} StartsDown()
    ensures Encloses(-323, -1073, 1.012011266536520, 1.012011266536567)
    ensures Encloses(-243, -808, 1.707011694817202, 1.707011694817260)
    ensures Encloses(-163, -542, 1.439652414253800, 1.439652414253833)
    ensures Encloses(-83, -276, 1.214168057641071, 1.214168057641085)
    ensures Encloses(-3, -10, 1.024, 1.024)
  {
    hide Encloses;
    SmallPowers();
    LargePowers();
    EnclosesUp(-1, -4, 1.6, 1.6, -1, -4, 1.6, 1.6, -7, 1.28, 1.28);
    EnclosesUp(-2, -7, 1.28, 1.28, -1, -4, 1.6, 1.6, -10, 1.024, 1.024);
    var w, v := 1.686751670916879, 1.686751670916897;
    EnclosesDown(-83, -276, 1.214168057641071, 1.214168057641085, 80, 265, w, v, -10, 1.024, 1.024);
    EnclosesDown(-163, -542, 1.439652414253800, 1.439652414253833, 80, 265, w, v,
                 -276, 1.214168057641071, 1.214168057641085);
    EnclosesDown(-243, -808, 1.707011694817202, 1.707011694817260, 80, 265, w, v,
                 -542, 1.439652414253800, 1.439652414253833);
    EnclosesDown(-323, -1073, 1.012011266536520, 1.012011266536567, 80, 265, w, v,
                 -808, 1.707011694817202, 1.707011694817260);
  }

  lemma {:induction false} StartsUp()
    ensures Encloses(77, 255, 1.727233711018884, 1.727233711018903)
    ensures Encloses(157, 521, 1.456707174062532, 1.456707174062564)
    ensures Encloses(237, 787, 1.228551629943290, 1.228551629943331)
  {
    hide Encloses;
    StartsDown();
    LargePowers();
    var w, v := 1.686751670916879, 1.686751670916897;
    EnclosesUp(-3, -10, 1.024, 1.024, 80, 265, w, v, 255, 1.727233711018884, 1.727233711018903);
    EnclosesUp(77, 255, 1.727233711018884, 1.727233711018903, 80, 265, w, v, 521, 1.456707174062532, 1.456707174062564);
    EnclosesUp(157, 521, 1.456707174062532, 1.456707174062564, 80, 265, w, v,
               787, 1.228551629943290, 1.228551629943331);
  }

  // ----- the tangent at the powers of ten -----

  /** 10^m, with bounds that may have to be halved. */
  predicate Fits(m: int, i: int, lo: real, hi: real)
  {
    if lo < 2.0 then Above(m, i, lo, hi)
    else if lo < 4.0 then Above(m, i + 1, lo / 2.0, hi / 2.0)
    else if lo < 8.0 then Above(m, i + 2, lo / 4.0, hi / 4.0)
    else Above(m, i + 3, lo / 8.0, hi / 8.0)
  }

  /** Five, twenty and eighty powers from 10^m on. */
  predicate FiveFrom(m: int, i: int, lo: real, hi: real)
  {
    && Fits(m, i, lo, hi)
    && Fits(m + 1, i + 3, lo * 1.25, hi * 1.25)
    && Fits(m + 2, i + 6, lo * 1.5625, hi * 1.5625)
    && Fits(m + 3, i + 9, lo * 1.953125, hi * 1.953125)
    && Fits(m + 4, i + 13, lo * 1.220703125, hi * 1.220703125)
  }

  predicate TwentyFrom(m: int, i: int, lo: real, hi: real)
  {
    && FiveFrom(m, i, lo, hi)
    && FiveFrom(m + 5, i + 16, lo * 1.52587890625, hi * 1.52587890625)
    && FiveFrom(m + 10, i + 33, lo * 1.164153218269348, hi * 1.164153218269349)
    && FiveFrom(m + 15, i + 49, lo * 1.776356839400250, hi * 1.776356839400252)
  }

  predicate EightyFrom(m: int, i: int, lo: real, hi: real)
  {
    && TwentyFrom(m, i, lo, hi)
    && TwentyFrom(m + 20, i + 66, lo * 1.355252715606880, hi * 1.355252715606883)
    && TwentyFrom(m + 40, i + 132, lo * 1.836709923159822, hi * 1.836709923159831)
    && TwentyFrom(m + 60, i + 199, lo * 1.244603055572226, hi * 1.244603055572236)
  }

  lemma {:induction false} Part0()
    ensures EightyFrom(-323, -1073, 1.012011266536520, 1.012011266536567)
  {
  }

  lemma {:induction false} Part1()
    ensures EightyFrom(-243, -808, 1.707011694817202, 1.707011694817260)
  {
  }

  lemma {:induction false} Part2()
    ensures EightyFrom(-163, -542, 1.439652414253800, 1.439652414253833)
  {
  }

  lemma {:induction false} Part3()
    ensures EightyFrom(-83, -276, 1.214168057641071, 1.214168057641085)
  {
  }

  lemma {:induction false} Part4()
    ensures EightyFrom(-3, -10, 1.024, 1.024)
  {
  }

  lemma {:induction false} Part5()
    ensures EightyFrom(77, 255, 1.727233711018884, 1.727233711018903)
  {
  }

  lemma {:induction false} Part6()
    ensures EightyFrom(157, 521, 1.456707174062532, 1.456707174062564)
  {
  }

  lemma {:induction false} Part7()
    ensures EightyFrom(237, 787, 1.228551629943290, 1.228551629943331)
  {
  }

  lemma {:induction false} FitsMarks(m: int, i: int, lo: real, hi: real)
    requires Encloses(m, i, lo, hi) && Fits(m, i, lo, hi)
    ensures Marked(m)
  {
    hide Encloses, Above;
    EnclosesPositive(m, i, lo, hi);
    EnclosesWider(m, i, lo, hi, i + 1, lo / 2.0, hi / 2.0);
    EnclosesWider(m, i + 1, lo / 2.0, hi / 2.0, i + 2, lo / 4.0, hi / 4.0);
    EnclosesWider(m, i + 2, lo / 4.0, hi / 4.0, i + 3, lo / 8.0, hi / 8.0);
  }

  lemma {:induction false} EnclosesPositive(m: int, i: int, lo: real, hi: real)
    requires Encloses(m, i, lo, hi)
    ensures 0.0 < lo
  {
  }

  lemma {:induction false} FiveMarked(m: int, i: int, lo: real, hi: real)
    requires Encloses(m, i, lo, hi) && FiveFrom(m, i, lo, hi)
    ensures forall n :: m <= n < m + 5 ==> Marked(n)
  {
    hide Encloses, Fits, Marked;
    EnclosesPositive(m, i, lo, hi);
    SmallPowers();
    EnclosesUp(1, 3, 1.25, 1.25, 1, 3, 1.25, 1.25, 6, 1.5625, 1.5625);
    EnclosesUp(2, 6, 1.5625, 1.5625, 1, 3, 1.25, 1.25, 9, 1.953125, 1.953125);
    EnclosesUp(2, 6, 1.5625, 1.5625, 2, 6, 1.5625, 1.5625, 13, 1.220703125, 1.220703125);
    EnclosesUp(m, i, lo, hi, 1, 3, 1.25, 1.25, i + 3, lo * 1.25, hi * 1.25);
    EnclosesUp(m, i, lo, hi, 2, 6, 1.5625, 1.5625, i + 6, lo * 1.5625, hi * 1.5625);
    EnclosesUp(m, i, lo, hi, 3, 9, 1.953125, 1.953125, i + 9, lo * 1.953125, hi * 1.953125);
    EnclosesUp(m, i, lo, hi, 4, 13, 1.220703125, 1.220703125, i + 13, lo * 1.220703125, hi * 1.220703125);
    FitsMarks(m, i, lo, hi);
    FitsMarks(m + 1, i + 3, lo * 1.25, hi * 1.25);
    FitsMarks(m + 2, i + 6, lo * 1.5625, hi * 1.5625);
    FitsMarks(m + 3, i + 9, lo * 1.953125, hi * 1.953125);
    FitsMarks(m + 4, i + 13, lo * 1.220703125, hi * 1.220703125);
  }

  lemma {:induction false} TwentyMarked(m: int, i: int, lo: real, hi: real)
    requires Encloses(m, i, lo, hi) && TwentyFrom(m, i, lo, hi)
    ensures forall n :: m <= n < m + 20 ==> Marked(n)
  {
    hide Encloses, FiveFrom, Marked;
    EnclosesPositive(m, i, lo, hi);
    MiddlePowers();
    EnclosesUp(m, i, lo, hi, 5, 16, 1.52587890625, 1.52587890625, i + 16, lo * 1.52587890625, hi * 1.52587890625);
    EnclosesUp(m, i, lo, hi, 10, 33, 1.164153218269348, 1.164153218269349,
               i + 33, lo * 1.164153218269348, hi * 1.164153218269349);
    EnclosesUp(m, i, lo, hi, 15, 49, 1.776356839400250, 1.776356839400252,
               i + 49, lo * 1.776356839400250, hi * 1.776356839400252);
    FiveMarked(m, i, lo, hi);
    FiveMarked(m + 5, i + 16, lo * 1.52587890625, hi * 1.52587890625);
    FiveMarked(m + 10, i + 33, lo * 1.164153218269348, hi * 1.164153218269349);
    FiveMarked(m + 15, i + 49, lo * 1.776356839400250, hi * 1.776356839400252);
  }

  lemma {:induction false} EightyMarked(m: int, i: int, lo: real, hi: real)
    requires Encloses(m, i, lo, hi) && EightyFrom(m, i, lo, hi)
    ensures forall n :: m <= n < m + 80 ==> Marked(n)
  {
    hide Encloses, TwentyFrom, Marked;
    EnclosesPositive(m, i, lo, hi);
    MiddlePowers();
    LargePowers();
    EnclosesUp(m, i, lo, hi, 20, 66, 1.355252715606880, 1.355252715606883,
               i + 66, lo * 1.355252715606880, hi * 1.355252715606883);
    EnclosesUp(m, i, lo, hi, 40, 132, 1.836709923159822, 1.836709923159831,
               i + 132, lo * 1.836709923159822, hi * 1.836709923159831);
    EnclosesUp(m, i, lo, hi, 60, 199, 1.244603055572226, 1.244603055572236,
               i + 199, lo * 1.244603055572226, hi * 1.244603055572236);
    TwentyMarked(m, i, lo, hi);
    TwentyMarked(m + 20, i + 66, lo * 1.355252715606880, hi * 1.355252715606883);
    TwentyMarked(m + 40, i + 132, lo * 1.836709923159822, hi * 1.836709923159831);
    TwentyMarked(m + 60, i + 199, lo * 1.244603055572226, hi * 1.244603055572236);
  }

  /** At every power of ten a double can come near, the tangent is above the logarithm. */
  lemma {:induction false} AllMarked(m: int)
    requires -323 <= m < 317
    ensures Marked(m)
  {
    hide Encloses, EightyFrom, Marked;
    StartsDown();
    StartsUp();
    Part0(); Part1(); Part2(); Part3(); Part4(); Part5(); Part6(); Part7();
    EightyMarked(-323, -1073, 1.012011266536520, 1.012011266536567);
    EightyMarked(-243, -808, 1.707011694817202, 1.707011694817260);
    EightyMarked(-163, -542, 1.439652414253800, 1.439652414253833);
    EightyMarked(-83, -276, 1.214168057641071, 1.214168057641085);
    EightyMarked(-3, -10, 1.024, 1.024);
    EightyMarked(77, 255, 1.727233711018884, 1.727233711018903);
    EightyMarked(157, 521, 1.456707174062532, 1.456707174062564);
    EightyMarked(237, 787, 1.228551629943290, 1.228551629943331);
  }

  // ----- the decimal exponent -----

  lemma {:induction false} AtLeastDown(d0: Word, d1: Word, j: int, k: int)
    requires AtLeast(d0, d1, k) && j <= k
    ensures AtLeast(d0, d1, j)
    decreases k - j
  {
    if j < k {
      AtLeastIs(d0, d1, k);
      AtLeastIs(d0, d1, k - 1);
      PowerStep(10.0, k - 1);
      hide Power, RealValue, AtLeast;
      AtLeastDown(d0, d1, j, k - 1);
    }
  }

  /** The range of the doubles. */
  lemma {:induction false} InRange(d0: Word, d1: Word)
    requires Finite(d0, d1) && Mantissa(d0, d1) > 0
    ensures AtLeast(d0, d1, -324) && !AtLeast(d0, d1, 309)
  {
    hide Power, Mantissa, AtLeast, RealValue;
    AtLeastIs(d0, d1, -324);
    AtLeastIs(d0, d1, 309);
    BinaryRange(d0, d1);
    PowerStep(10.0, -324);
    EndsOfRange();
  }

  lemma {:induction false} BinaryRange(d0: Word, d1: Word)
    requires Finite(d0, d1) && Mantissa(d0, d1) > 0
    ensures Power(2.0, -1074) <= RealValue(d0, d1) < Power(2.0, 1024)
  {
    hide Power, Mantissa, Value, Two, Product;
    ValuePositive(d0, d1);
    ValueBelow(d0, d1);
    TwoIsPower(2098);
    PowerProduct(2.0, 2098, -1074);
    BetweenScaled(Value(d0, d1) as real, Power(2.0, 2098), Power(2.0, -1074));
  }

  lemma {:induction false} PowerProduct(b: real, m: int, n: int)
    requires b > 0.0
    ensures Power(b, m + n) == Product(Power(b, m), Power(b, n))
  {
    hide Power;
    PowerAdd(b, m, n);
  }

  lemma {:induction false} BetweenScaled(x: real, y: real, u: real)
    requires 1.0 <= x < y && u > 0.0
    ensures u <= Product(x, u) < Product(y, u)
  {
    CancelFactor(u, 1.0, x);
    CancelFactor(u, x, y);
  }

  lemma {:induction false} EndsOfRange()
    ensures Power(10.0, -323) <= 10.0 * Power(2.0, -1074) && Power(2.0, 1024) < Power(10.0, 309)
  {
    hide Power;
    StartsDown();
    StartsUp();
    PowerStep(2.0, -1074);
    AllMarked(309);
    TangentAt(309, 1.0, 1024);
  }

  lemma {:induction false} ValueBelow(d0: Word, d1: Word)
    requires Finite(d0, d1)
    ensures Value(d0, d1) < Two(2098)
  {
    hide Two;
    assert Mantissa(d0, d1) < 0x20_0000_0000_0000;
    TwoFiftyThree();
    TwoMono(Shift(d0), 2045);
    TwoAdd(53, 2045);
    MulStrict(Mantissa(d0, d1), Two(53), Two(Shift(d0)));
    MulMono(Two(Shift(d0)), Two(2045), Two(53));
    MulComm(Two(53), Two(Shift(d0)));
    MulComm(Two(53), Two(2045));
  }

  /** The decimal exponent at or below hi. */
  lemma {:induction false} ExponentBelow(d0: Word, d1: Word, hi: int) returns (k: int)
    requires AtLeast(d0, d1, -324) && !AtLeast(d0, d1, hi) && hi > -324
    ensures -324 <= k < hi && AtLeast(d0, d1, k) && !AtLeast(d0, d1, k + 1)
    decreases hi + 324
  {
    hide AtLeast;
    if AtLeast(d0, d1, hi - 1) { k := hi - 1; } else { k := ExponentBelow(d0, d1, hi - 1); }
  }

  /** Every positive double has exactly one decimal exponent. */
  lemma {:induction false} OneExponent(d0: Word, d1: Word) returns (k: int)
    requires Finite(d0, d1) && Mantissa(d0, d1) > 0
    ensures -324 <= k <= 308
    ensures forall j :: AtLeast(d0, d1, j) && !AtLeast(d0, d1, j + 1) <==> j == k
  {
    hide AtLeast, Mantissa;
    InRange(d0, d1);
    k := ExponentBelow(d0, d1, 309);
    forall j | AtLeast(d0, d1, j) && !AtLeast(d0, d1, j + 1) ensures j == k {
      if j < k { AtLeastDown(d0, d1, j + 1, k); } else if k < j { AtLeastDown(d0, d1, k + 1, j); }
    }
  }

  // ----- the estimate -----

  function Size(x: real): (r: real)
    ensures r >= 0.0 && (r == x || r == -x)
  {
    if x < 0.0 then -x else x
  }

  function Whole(n: int): (x: real)
  {
    n as real
  }

  /**
   Rounds as double arithmetic does, as far as it matters here: whole numbers of up to 53 bits are
   kept, and the error is at most 2^-53 of the number, or of one near zero.
   */
  ghost predicate Rounding(rnd: real -> real)
  {
    && (forall n: int :: -0x20_0000_0000_0000 <= n <= 0x20_0000_0000_0000 ==> rnd(Whole(n)) == Whole(n))
    && (forall x: real :: Size(x) <= 1000.0 ==> Close(rnd(x), x, Size(x) + 1.0))
  }

  /** Not farther apart than n times 2^-53. */
  predicate Close(x: real, y: real, n: real)
  {
    -n <= (x - y) * 9007199254740992.0 <= n
  }

  /** The tangent in double arithmetic, for a number t * 2^i. */
  function Sum(rnd: real -> real, t: real, i: int): (y: real)
  {
    FloatAdd(rnd, Head(rnd, t), FloatMul(rnd, i as real, rnd(0.301029995663981)))
  }

  function Head(rnd: real -> real, t: real): (y: real)
  {
    FloatAdd(rnd, FloatMul(rnd, rnd(t - 1.5), rnd(0.289529654602168)), rnd(0.1760912590558))
  }

  function FloatAdd(rnd: real -> real, x: real, y: real): (z: real)
  {
    rnd(x + y)
  }

  function FloatMul(rnd: real -> real, x: real, y: real): (z: real)
  {
    rnd(Product(x, y))
  }

  lemma {:induction false} Rounded(rnd: real -> real, x: real, y: real, n: real)
    requires Rounding(rnd) && Close(x, y, n) && Size(x) <= 1000.0
    ensures Close(rnd(x), y, n + Size(x) + 1.0)
  {
  }

  lemma {:induction false} CloseProduct(x: real, y: real, x': real, y': real)
    requires Close(x', x, 2.0) && Close(y', y, 2.0) && Size(x) <= 1.0 && Size(y) <= 1.0
    ensures Close(Product(x', y'), x * y, 5.0)
  {
    var e, f := x' - x, y' - y;
    assert x' * y' - x * y == x * f + y * e + e * f;
    Bounded(x, f, 1.0, 2.0 / 9007199254740992.0);
    Bounded(y, e, 1.0, 2.0 / 9007199254740992.0);
    Bounded(e, f, 0.1, 2.0 / 9007199254740992.0);
  }

  lemma {:induction false} Bounded(x: real, y: real, a: real, b: real)
    requires -a <= x <= a && -b <= y <= b
    ensures -(a * b) <= x * y <= a * b
  {
    assert 0.0 <= (a - x) * (b + y) && 0.0 <= (a + x) * (b - y);
    assert 0.0 <= (a - x) * (b - y) && 0.0 <= (a + x) * (b + y);
  }

  lemma {:induction false} CloseMultiple(i: int, c: real, c': real, p: real)
    requires -1100 <= i <= 1100 && Close(c', c, 2.0) && p == i as real * c
    ensures Close(Product(i as real, c'), p, 2200.0)
  {
    Bounded(i as real, (c' - c) * 9007199254740992.0, 1100.0, 2.0);
    var x, e := i as real, c' - c;
    assert (x * c' - x * c) * 9007199254740992.0 == x * (e * 9007199254740992.0);
  }

  /** A rounded number that is close to y, which is at most b. */
  lemma {:induction false} RoundedClose(rnd: real -> real, x: real, y: real, n: real, b: real)
    requires Rounding(rnd) && Close(x, y, n) && Size(y) <= b <= 900.0 && 0.0 <= n <= 10000.0
    ensures Close(rnd(x), y, n + b + 2.0)
  {
    assert Size(x) <= b + 1.0;
    Rounded(rnd, x, y, n);
  }

  lemma {:induction false} RoundedConstant(rnd: real -> real, x: real)
    requires Rounding(rnd) && Size(x) <= 0.5
    ensures Close(rnd(x), x, 2.0)
  {
    assert Close(x, x, 0.0);
    Rounded(rnd, x, x, 0.0);
  }

  /** The sum of numbers that are close to x and y. */
  lemma {:induction false} SumOfTwo(rnd: real -> real, x': real, y': real, x: real, y: real, m: real, n: real, b: real)
    requires Rounding(rnd) && Close(x', x, m) && Close(y', y, n) && 0.0 <= m <= 4000.0 && 0.0 <= n <= 4000.0
    requires Size(x + y) <= b <= 900.0
    ensures Close(FloatAdd(rnd, x', y'), x + y, m + n + b + 2.0)
  {
    hide Rounding;
    assert Close(x' + y', x + y, m + n);
    RoundedClose(rnd, x' + y', x + y, m + n, b);
  }

  lemma {:induction false} ProductClose(rnd: real -> real, x': real, c': real, x: real, c: real, p: real)
    requires Rounding(rnd) && Close(x', x, 2.0) && Close(c', c, 2.0)
    requires Size(x) <= 0.5 && Size(c) <= 0.5 && p == x * c
    ensures Close(FloatMul(rnd, x', c'), p, 8.0)
  {
    hide Rounding, Close, Product;
    CloseProduct(x, c, x', c');
    Bounded(x, c, 0.5, 0.5);
    RoundedClose(rnd, Product(x', c'), p, 5.0, 1.0);
  }

  lemma {:induction false} HeadClose(rnd: real -> real, t: real)
    requires Rounding(rnd) && 1.0 <= t < 2.0
    ensures Close(Head(rnd, t), (t - 1.5) * 0.289529654602168 + 0.1760912590558, 13.0)
  {
    hide Rounding, Close, FloatMul, FloatAdd;
    var x, c, p, d := t - 1.5, 0.289529654602168, (t - 1.5) * 0.289529654602168, 0.1760912590558;
    RoundedConstant(rnd, x);
    RoundedConstant(rnd, c);
    RoundedConstant(rnd, d);
    ProductClose(rnd, rnd(x), rnd(c), x, c, p);
    SumOfTwo(rnd, FloatMul(rnd, rnd(x), rnd(c)), rnd(d), p, d, 8.0, 2.0, 1.0);
  }

  lemma {:induction false} MultipleClose(rnd: real -> real, i: int, c': real, c: real, p: real)
    requires Rounding(rnd) && -1100 <= i <= 1100 && Close(c', c, 2.0) && p == i as real * c && Size(p) <= 400.0
    ensures Close(FloatMul(rnd, i as real, c'), p, 2602.0)
  {
    hide Rounding, Close, Product;
    CloseMultiple(i, c, c', p);
    RoundedClose(rnd, Product(i as real, c'), p, 2200.0, 400.0);
  }

  lemma {:induction false} TermClose(rnd: real -> real, i: int)
    requires Rounding(rnd) && -1100 <= i <= 1100
    ensures Close(FloatMul(rnd, i as real, rnd(0.301029995663981)), i as real * 0.301029995663981, 2602.0)
  {
    hide Rounding, Close;
    RoundedConstant(rnd, 0.301029995663981);
    MultipleClose(rnd, i, rnd(0.301029995663981), 0.301029995663981, i as real * 0.301029995663981);
  }

  /** Rounding errors do not matter. */
  lemma {:induction false} SumClose(rnd: real -> real, t: real, i: int)
    requires Rounding(rnd) && 1.0 <= t < 2.0 && -1100 <= i <= 1100
    ensures Line(t, i) - 0.000000000001 <= Sum(rnd, t, i) <= Line(t, i) + 0.000000000001
  {
    hide Rounding, Close, Head, FloatMul, FloatAdd;
    HeadClose(rnd, t);
    TermClose(rnd, i);
    var h, p := (t - 1.5) * 0.289529654602168 + 0.1760912590558, i as real * 0.301029995663981;
    SumOfTwo(rnd, Head(rnd, t), FloatMul(rnd, i as real, rnd(0.301029995663981)), h, p,
             13.0, 2602.0, 400.0);
    CloseIs(Sum(rnd, t, i), h + p, 3017.0);
  }

  lemma {:induction false} CloseIs(x: real, y: real, n: real)
    requires Close(x, y, n) && n <= 9000.0
    ensures y - 0.000000000001 <= x <= y + 0.000000000001
  {
  }

  /** A leading part, cut off after 32 bits or not at all, is enough for the estimate. */
  lemma {:induction false} SumDecides(rnd: real -> real, d0: Word, d1: Word, bits: nat, d2: real)
    requires Rounding(rnd) && Finite(d0, d1) && Mantissa(d0, d1) > 0
    requires bits >= 1 && Two(bits - 1) <= Mantissa(d0, d1) < Two(bits)
    requires 1.0 <= d2 <= Lead(d0, d1, bits) < d2 + 0.000000001
    ensures var k := Sum(rnd, d2, bits - 1 + Scale(d0)).Floor;
            AtLeast(d0, d1, k - 1) && !AtLeast(d0, d1, k + 1)
  {
    hide Power, AtLeast, Two, Mantissa, Scale, Lead, Rounding, Sum, RealValue, Marked, Product;
    var t, i := Lead(d0, d1, bits), bits - 1 + Scale(d0);
    var K := OneExponent(d0, d1);
    LeadIs(d0, d1, bits);
    ExponentRange(d0, d1, bits);
    SumClose(rnd, d2, i);
    AtLeastIs(d0, d1, K);
    AtLeastIs(d0, d1, K + 1);
    AllMarked(K + 1);
    TangentAt(K + 1, t, i);
    if K >= -323 {
      AllMarked(K);
      TangentAt(K, t, i);
    }
    var k := Sum(rnd, d2, i).Floor;
    assert K <= k <= K + 1;
    AtLeastDown(d0, d1, k - 1, K);
    if AtLeast(d0, d1, k + 1) { AtLeastDown(d0, d1, K + 1, k + 1); }
  }

  lemma {:induction false} ExponentRange(d0: Word, d1: Word, bits: nat)
    requires Finite(d0, d1) && bits >= 1 && Two(bits - 1) <= Mantissa(d0, d1) < Two(bits)
    ensures bits <= 53 && -1074 <= bits - 1 + Scale(d0) <= 1023
  {
    hide Two;
    TwoFiftyThree();
    if bits > 53 { TwoMono(53, bits - 1); }
  }

  lemma {:induction false} TwoFiftyThree()
    ensures Two(20) == 0x10_0000 && Two(31) == 0x8000_0000 && Two(32) == 0x1_0000_0000
    ensures Two(52) == 0x10_0000_0000_0000 && Two(53) == 0x20_0000_0000_0000
  {
    hide Two;
    TwoTable();
    TwoAdd(16, 4);
    TwoAdd(16, 16);
    TwoStep(31);
    TwoAdd(32, 20);
    TwoStep(52);
  }

  // ----- the code -----

  /** The length of the mantissa, from that of its odd part. */
  lemma {:induction false} MantissaLength(d0: Word, d1: Word, v: nat, k0: nat, bits: nat)
    requires v * Two(k0) == Mantissa(d0, d1) && bits >= 1 && Two(bits - 1) <= v < Two(bits)
    ensures Two(k0 + bits - 1) <= Mantissa(d0, d1) < Two(k0 + bits)
  {
    hide Two, Mantissa;
    TwoAdd(bits - 1, k0);
    TwoAdd(bits, k0);
    MulMono(Two(bits - 1), v, Two(k0));
    MulStrict(v, Two(bits), Two(k0));
  }

  /** The first 32 bits of a denormal mantissa of the given length. */
  function TopBits(d0: Word, d1: Word, bits: nat): (x: int)
    requires 1 <= bits <= 64
  {
    if bits > 32 then d0 * Two(64 - bits) % 0x1_0000_0000 + d1 / Two(bits - 32)
    else d1 * Two(32 - bits) % 0x1_0000_0000
  }

  lemma {:induction false} TopBitsIs(d0: Word, d1: Word, bits: nat)
    requires Mantissa(d0, d1) == d0 * 0x1_0000_0000 + d1 && 1 <= bits <= 64
    requires Two(bits - 1) <= Mantissa(d0, d1) < Two(bits)
    ensures TopBits(d0, d1, bits) >= 0
    ensures var x := TopBits(d0, d1, bits);
            if bits > 32 then x * Two(bits - 32) <= Mantissa(d0, d1) < (x + 1) * Two(bits - 32)
            else x == Mantissa(d0, d1) * Two(32 - bits)
  {
    hide Two, Mantissa;
    if bits > 32 {
      LongBits(d0, d1, Mantissa(d0, d1), bits);
    } else {
      ShortBits(d0, d1, Mantissa(d0, d1), bits);
    }
  }

  lemma {:induction false} LongBits(d0: Word, d1: Word, m: nat, bits: nat)
    requires m == d0 * 0x1_0000_0000 + d1 && 32 < bits <= 64 && m < Two(bits)
    ensures var x := d0 * Two(64 - bits) % 0x1_0000_0000 + d1 / Two(bits - 32);
            0 <= x * Two(bits - 32) <= m < (x + 1) * Two(bits - 32) && x >= 0
  {
    hide Two;
    TwoFiftyThree();
    var a, b := Two(64 - bits), Two(bits - 32);
    TwoAdd(64 - bits, bits - 32);
    TwoAdd(32, bits - 32);
    MulAssoc(d0, a, b);
    if d0 * a >= 0x1_0000_0000 { MulMono(0x1_0000_0000, d0 * a, b); }
    SmallMod(d0 * a, 0x1_0000_0000);
    Quotient(d0, a, b, d1);
  }

  lemma {:induction false} ShortBits(d0: Word, d1: Word, m: nat, bits: nat)
    requires m == d0 * 0x1_0000_0000 + d1 && bits <= 32 && m < Two(bits)
    ensures d1 * Two(32 - bits) % 0x1_0000_0000 == m * Two(32 - bits)
  {
    hide Two;
    TwoFiftyThree();
    TwoMono(bits, 32);
    assert d0 == 0;
    TwoAdd(bits, 32 - bits);
    MulStrict(d1, Two(bits), Two(32 - bits));
    SmallMod(d1 * Two(32 - bits), 0x1_0000_0000);
  }

  lemma {:induction false} SmallMod(x: int, n: int)
    requires 0 <= x < n
    ensures x % n == x
  {
  }

  lemma {:induction false} Quotient(d: nat, a: nat, b: nat, e: nat)
    requires b > 0
    ensures 0 <= (d * a + e / b) * b <= d * (a * b) + e < (d * a + e / b + 1) * b && d * a + e / b >= 0
  {
    var q, r := e / b, e % b;
    assert e == q * b + r by { MulComm(q, b); }
    MulAssoc(d, a, b);
    assert (d * a + q) * b == (d * a) * b + q * b;
    assert (d * a + q + 1) * b == (d * a) * b + q * b + b;
  }

  lemma {:induction false} TopBitsLead(d0: Word, d1: Word, bits: nat)
    requires Mantissa(d0, d1) == d0 * 0x1_0000_0000 + d1 && 1 <= bits <= 64
    requires Two(bits - 1) <= Mantissa(d0, d1) < Two(bits)
    ensures var d2 := TopBits(d0, d1, bits) as real / 2147483648.0;
            1.0 <= d2 <= Lead(d0, d1, bits) < d2 + 0.000000001
  {
    hide Two, Mantissa, Power, TopBits, Product;
    var m, x := Mantissa(d0, d1), TopBits(d0, d1, bits);
    TopBitsIs(d0, d1, bits);
    LeadIs(d0, d1, bits);
    if bits > 32 {
      LongLead(x, m, bits);
      TopBitsEnough(x, m, bits);
    } else {
      ShortLead(x, m, bits);
    }
  }

  lemma {:induction false} LongLead(x: nat, m: nat, bits: nat)
    requires bits > 32 && x * Two(bits - 32) <= m < (x + 1) * Two(bits - 32)
    ensures var d2, t := x as real / 2147483648.0, Product(m as real, Power(2.0, 1 - bits));
            d2 <= t < d2 + 0.000000001
  {
    hide Two, Power;
    var b := Two(bits - 32);
    ThirtyOneBits();
    PowerAdd(2.0, bits - 32, 1 - bits);
    TwoIsPower(bits - 32);
    ProductAsReal(x, b);
    ProductAsReal(x + 1, b);
    Truncated(x as real, m as real, b as real, Power(2.0, 1 - bits));
  }

  lemma {:induction false} ShortLead(x: nat, m: nat, bits: nat)
    requires bits <= 32 && x == m * Two(32 - bits)
    ensures x as real / 2147483648.0 == Product(m as real, Power(2.0, 1 - bits))
  {
    hide Two, Power;
    ThirtyOneBits();
    TwoIsPower(32 - bits);
    PowerAdd(2.0, 32 - bits, -31);
    ProductAsReal(m, Two(32 - bits));
    Swap3(m as real, Power(2.0, 32 - bits), Power(2.0, -31));
  }

  lemma {:induction false} TopBitsEnough(x: nat, m: nat, bits: nat)
    requires bits > 32 && Two(bits - 1) <= m < (x + 1) * Two(bits - 32)
    ensures x >= 0x8000_0000
  {
    hide Two;
    TwoFiftyThree();
    TwoAdd(31, bits - 32);
    if x + 1 <= 0x8000_0000 { MulMono(x + 1, 0x8000_0000, Two(bits - 32)); }
  }

  lemma {:induction false} ThirtyOneBits()
    ensures Power(2.0, -31) * 2147483648.0 == 1.0
  {
    hide Power, Two;
    TwoFiftyThree();
    TwoIsPower(31);
    PowerAdd(2.0, -31, 31);
    PowerZero(2.0);
  }

  lemma {:induction false} Truncated(x: real, m: real, b: real, u: real)
    requires u > 0.0 && x * b <= m < (x + 1.0) * b && (b * u) * 2147483648.0 == 1.0
    ensures x / 2147483648.0 <= m * u < x / 2147483648.0 + 0.000000001
  {
    var c := b * u;
    CancelFactor(u, x * b, m);
    CancelFactor(u, m, (x + 1.0) * b);
    Swap3(x, b, u);
    Swap3(x + 1.0, b, u);
    assert x * c <= m * u < (x + 1.0) * c;
  }

  /** A double's value with its exponent set to zero. */
  lemma {:induction false} NormalLead(d0: Word, d1: Word)
    requires Exponent(d0) > 0
    ensures Lead(d0, d1, 53) == Mantissa(d0, d1) as real / 4503599627370496.0
    ensures Two(52) <= Mantissa(d0, d1) < Two(53)
  {
    hide Power, Two;
    TwoFiftyThree();
    TwoIsPower(52);
    PowerAdd(2.0, -52, 52);
    PowerZero(2.0);
  }

  /** Conversion to an int. */
  function Truncate(x: real): (n: int)
  {
    if x < 0.0 then -(-x).Floor else x.Floor
  }

  /**
   The estimate of the decimal exponent from the words of a positive double and from what `d2b`
   says of it. It is right or one too large.
   */
  method EstimateExponent(d0: Word, d1: Word, be: int, bits: int, rnd: real -> real, ghost v: nat) returns (k: int)
    requires Rounding(rnd) && Finite(d0, d1) && Mantissa(d0, d1) > 0
    requires be >= Scale(d0) && v * Two(be - Scale(d0)) == Mantissa(d0, d1)
    requires bits >= 1 && Two(bits - 1) <= v < Two(bits) && (Exponent(d0) > 0 ==> bits == 53 - (be - Scale(d0)))
    ensures AtLeast(d0, d1, k - 1) && !AtLeast(d0, d1, k + 1)
  {
    hide Two, Lead, AtLeast, Rounding, Sum, TopBits, Mantissa, Scale, Exponent;
    MantissaLength(d0, d1, v, be - Scale(d0), bits);
    ExponentRange(d0, d1, be - Scale(d0) + bits);
    WordsOf(d0, d1);
    var i: int, d2 := Exponent(d0), 1.0;
    if i != 0 {
      d2 := ((d0 % 0x10_0000 + 0x10_0000) * 0x1_0000_0000 + d1) as real / 4503599627370496.0;
      i := i - 1023;
      NormalLead(d0, d1);
      LeadIs(d0, d1, 53);
    } else {
      i := bits + be + 1074;
      TopBitsLead(d0, d1, i);
      d2 := TopBits(d0, d1, i) as real / 2147483648.0;
      i := i - 1075;
    }
    SumDecides(rnd, d0, d1, be - Scale(d0) + bits, d2);
    var ds := Sum(rnd, d2, i);
    k := Truncate(ds);
    if ds < 0.0 && ds != k as real { k := k - 1; }
    assert k == ds.Floor;
  }

  /** What the words of a double say, normal or not. */
  lemma {:induction false} WordsOf(d0: Word, d1: Word)
    requires Finite(d0, d1)
    ensures Exponent(d0) == 0 ==> Scale(d0) == -1074 && Mantissa(d0, d1) == d0 * 0x1_0000_0000 + d1
    ensures Exponent(d0) != 0 ==>
              Scale(d0) == Exponent(d0) - 1075
              && Mantissa(d0, d1) == (d0 % 0x10_0000 + 0x10_0000) * 0x1_0000_0000 + d1
  {
  }
}
