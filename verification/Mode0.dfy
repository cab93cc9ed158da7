/**
 How `dtoa` (`lae/source/dtoa.c`) prints a double in mode 0: the estimate of the decimal exponent,
 the path for small whole numbers, the numbers it sets up otherwise, and the loop it runs on them.
 */
module Mode0 {
  import opened Words
  import opened Bigints
  import opened Conversions
  import opened DigitSpec
  import opened DigitLoops
  import opened Doubles
  import opened Estimate
  import opened SmallInteger

  // ----- the blocks at work -----

  /**
   The blocks of `mine` are this call's own and hold what it says; everything else is as it was at
   the beginning, but for powers the cache has gained.
   */
  ghost predicate Working(num: map<Bigint, Num>, p5s: seq<Bigint>, num0: map<Bigint, Num>, p50: seq<Bigint>,
                          mine: map<Bigint, Num>)
  {
    && (forall x :: x in mine ==> x in num && num[x] == mine[x] && x !in p5s && x !in num0)
    && Grown(num0, p50, num - mine.Keys, p5s)
  }

  /** One block of one's own is given up for another. */
  ghost function Swapped(mine: map<Bigint, Num>, b: Bigint, r: Bigint, v: nat): (m: map<Bigint, Num>)
  {
    (mine - {b})[r := Num(v, false, false)]
  }

  /** The cache grows beside blocks in use. */
  lemma {:induction false} GrownBeside(a: map<Bigint, Num>, p: seq<Bigint>, b: map<Bigint, Num>, q: seq<Bigint>,
                                       x: set<Bigint>)
    requires Grown(a, p, b, q) && x <= a.Keys && (forall y :: y in x ==> y !in p)
    ensures Grown(a - x, p, b - x, q)
    ensures forall y :: y in x ==> y in b && b[y] == a[y] && y !in q
  {
  }

  /** A step that replaces b by r, whether or not the cache grew. */
  lemma {:induction false} Replacing(numA: map<Bigint, Num>, pA: seq<Bigint>, numB: map<Bigint, Num>, pB: seq<Bigint>,
                                     num0: map<Bigint, Num>, p50: seq<Bigint>, mine: map<Bigint, Num>,
                                     b: Bigint, r: Bigint, v: nat)
    requires Working(numA, pA, num0, p50, mine) && b in mine
    requires r in numB && numB[r] == Num(v, false, false) && r !in pB && r !in numA - {b}
    requires Grown(numA - {b}, pA, numB - {r}, pB)
    ensures Working(numB, pB, num0, p50, Swapped(mine, b, r, v))
  {
    var rest := mine.Keys - {b};
    GrownBeside(numA - {b}, pA, numB - {r}, pB, rest);
    assert numA - {b} - rest == numA - mine.Keys;
    assert (numB - {r}) - rest == numB - Swapped(mine, b, r, v).Keys;
    GrownTrans(num0, p50, numA - mine.Keys, pA, numB - Swapped(mine, b, r, v).Keys, pB);
  }

  /** A step that leaves the cache alone. */
  lemma {:induction false} ReplacingPlainly(numA: map<Bigint, Num>, p5s: seq<Bigint>, numB: map<Bigint, Num>,
                                            num0: map<Bigint, Num>, p50: seq<Bigint>, mine: map<Bigint, Num>,
                                            b: Bigint, r: Bigint, v: nat)
    requires Working(numA, p5s, num0, p50, mine) && b in mine && (r == b || r !in numA) && r !in p5s
    requires numB == (numA - {b})[r := Num(v, false, false)]
    ensures Working(numB, p5s, num0, p50, Swapped(mine, b, r, v))
  {
    assert numB - {r} == numA - {b};
    GrownRefl(numA - {b}, p5s);
    Replacing(numA, p5s, numB, p5s, num0, p50, mine, b, r, v);
  }

  lemma {:induction false} Adding(numA: map<Bigint, Num>, p5s: seq<Bigint>, numB: map<Bigint, Num>,
                                  num0: map<Bigint, Num>, p50: seq<Bigint>, mine: map<Bigint, Num>, r: Bigint, n: Num)
    requires Working(numA, p5s, num0, p50, mine) && r !in numA && r !in p5s && numB == numA[r := n]
    ensures Working(numB, p5s, num0, p50, mine[r := n])
  {
    assert numB - mine[r := n].Keys == numA - mine.Keys;
  }

  lemma {:induction false} Removing(numA: map<Bigint, Num>, p5s: seq<Bigint>, numB: map<Bigint, Num>,
                                    num0: map<Bigint, Num>, p50: seq<Bigint>, mine: map<Bigint, Num>, gone: set<Bigint>)
    requires Working(numA, p5s, num0, p50, mine) && gone <= mine.Keys && numB == numA - gone
    ensures Working(numB, p5s, num0, p50, mine - gone)
  {
    assert numB - (mine - gone).Keys == numA - mine.Keys;
  }

  method OneBlock(p: Dtoa, ghost num0: map<Bigint, Num>, ghost p50: seq<Bigint>, ghost mine: map<Bigint, Num>)
    returns (r: Bigint)
    requires p.Valid() && Working(p.num, p.p5s, num0, p50, mine)
    modifies p, p.repr
    ensures p.Valid() && fresh(p.repr - old(p.repr)) && r !in mine
    ensures Working(p.num, p.p5s, num0, p50, mine[r := Num(1, false, false)])
  {
    hide Dtoa.Valid, Working;
    p.CacheInUse();
    MineInUse(p.num, p.p5s, num0, p50, mine);
    r := p.I2b(1);
    Adding(old(p.num), p.p5s, p.num, num0, p50, mine, r, Num(1, false, false));
  }

  lemma {:induction false} MineInUse(num: map<Bigint, Num>, p5s: seq<Bigint>, num0: map<Bigint, Num>, p50: seq<Bigint>,
                                     mine: map<Bigint, Num>)
    requires Working(num, p5s, num0, p50, mine)
    ensures forall x :: x in mine ==> x in num && num[x] == mine[x] && x !in p5s && x !in num0
  {
  }

  /** b := b * 5^k. */
  method Fives(p: Dtoa, b: Bigint, k: nat, ghost v: nat, ghost num0: map<Bigint, Num>, ghost p50: seq<Bigint>,
               ghost mine: map<Bigint, Num>)
    returns (r: Bigint)
    requires p.Valid() && Working(p.num, p.p5s, num0, p50, mine)
    requires b in mine && v > 0 && mine[b] == Num(v, false, false)
    modifies p, p.repr
    ensures p.Valid() && fresh(p.repr - old(p.repr)) && r !in mine - {b}
    ensures Working(p.num, p.p5s, num0, p50, Swapped(mine, b, r, v * Five(k)))
  {
    hide Dtoa.Valid, Working, Grown, Five;
    MineInUse(p.num, p.p5s, num0, p50, mine);
    r := p.Pow5Mult(b, k);
    Replacing(old(p.num), old(p.p5s), p.num, p.p5s, num0, p50, mine, b, r, v * Five(k));
  }

  /** b := b * 2^k. */
  method Twos(p: Dtoa, b: Bigint, k: nat, ghost v: nat, ghost num0: map<Bigint, Num>, ghost p50: seq<Bigint>,
              ghost mine: map<Bigint, Num>)
    returns (r: Bigint)
    requires p.Valid() && Working(p.num, p.p5s, num0, p50, mine)
    requires b in mine && v > 0 && mine[b] == Num(v, false, false)
    modifies p, p.repr
    ensures p.Valid() && fresh(p.repr - old(p.repr)) && r !in mine - {b}
    ensures Working(p.num, p.p5s, num0, p50, Swapped(mine, b, r, v * Two(k)))
  {
    hide Dtoa.Valid, Working, Two;
    MineInUse(p.num, p.p5s, num0, p50, mine);
    if k > 0 {
      p.CacheInUse();
      r := p.Lshift(b, k);
      ReplacingPlainly(old(p.num), p.p5s, p.num, num0, p50, mine, b, r, v * Two(k));
    } else {
      TwoZero();
      r := b;
      assert (mine - {b})[b := Num(v, false, false)] == mine;
    }
  }

  /** b := b * 10. */
  method Tens(p: Dtoa, b: Bigint, ghost v: nat, ghost num0: map<Bigint, Num>, ghost p50: seq<Bigint>,
              ghost mine: map<Bigint, Num>)
    returns (r: Bigint)
    requires p.Valid() && Working(p.num, p.p5s, num0, p50, mine)
    requires b in mine && mine[b] == Num(v, false, false)
    modifies p, p.repr
    ensures p.Valid() && fresh(p.repr - old(p.repr)) && r !in mine - {b}
    ensures Working(p.num, p.p5s, num0, p50, Swapped(mine, b, r, 10 * v))
  {
    hide Dtoa.Valid, Working;
    MineInUse(p.num, p.p5s, num0, p50, mine);
    p.CacheInUse();
    r := p.MultAdd(b, 10, 0);
    ReplacingPlainly(old(p.num), p.p5s, p.num, num0, p50, mine, b, r, 10 * v);
  }

  /** b := a * b, in a new block. */
  method TimesBlock(p: Dtoa, a: Bigint, b: Bigint, ghost v: nat, ghost w: nat,
                    ghost num0: map<Bigint, Num>, ghost p50: seq<Bigint>, ghost mine: map<Bigint, Num>)
    returns (r: Bigint)
    requires p.Valid() && Working(p.num, p.p5s, num0, p50, mine) && a != b
    requires a in mine && mine[a] == Num(v, false, false) && b in mine && mine[b] == Num(w, false, false)
    requires v > 0 && w > 0
    modifies p, p.repr
    ensures p.Valid() && fresh(p.repr - old(p.repr)) && r !in mine - {b}
    ensures Working(p.num, p.p5s, num0, p50, Swapped(mine, b, r, v * w))
  {
    hide Dtoa.Valid, Working;
    MineInUse(p.num, p.p5s, num0, p50, mine);
    p.CacheInUse();
    Positive(v, w);
    r := p.Mult(a, b);
    p.Bfree(b);
    ReplacingPlainly(old(p.num), p.p5s, p.num, num0, p50, mine, b, r, v * w);
  }

  /** `Balloc` and `Bcopy`: the same number in a block of the same size. */
  method CopyOf(p: Dtoa, a: Bigint) returns (c: Bigint)
    requires p.Valid() && a in p.num && !p.num[a].short
    modifies p, p.repr
    ensures p.Valid() && fresh(p.repr - old(p.repr)) && p.p5s == old(p.p5s)
    ensures c !in old(p.num) && p.num == old(p.num)[c := old(p.num)[a]]
  {
    hide Val, Two, Five, CachedPower, Dtoa.Valid, Dtoa.FreeListsOk, Dtoa.CacheOk, Dtoa.BlocksOk;
    p.InUse(a);
    p.Owned(a);
    c := p.Balloc(a.k);
    assert c != a;
    p.Owned(c);
    p.Owned(a);
    p.InUse(a);
    label L:
    forall i | 0 <= i < a.wds { c.x[i] := a.x[i]; }
    c.sign, c.wds := a.sign, a.wds;
    p.Undisturbed@L(c);
    p.InUse(a);
    assert c.x[..c.wds] == a.x[..a.wds];
    p.Adopt(c, p.num[a]);
  }

  // ----- the exponents -----

  /** The powers of two and five the operands are given. */
  datatype Powers = Powers(b2: int, m2: int, s2: int, b5: int, s5: int)

  /** What the arithmetic on the exponents is for. */
  predicate Fit(w: Powers, be: int, k0: nat, k: int, boundary: bool)
  {
    && w.b2 >= 1 && w.m2 >= 0 && w.s2 >= 0 && w.b5 == Minus(k) && w.s5 == Plus(k)
    && w.b2 == w.m2 + 1 + k0 + (if boundary then 1 else 0)
    && w.s2 == w.b2 + k - be
  }

  /** The powers set up from the exponent and length of the double's odd part, and the estimate. */
  method SetPowers(d0: Word, d1: Word, be: int, bbits: int, k: int) returns (w: Powers)
    requires be >= Scale(d0) && (Exponent(d0) > 0 ==> bbits == 53 - (be - Scale(d0)))
    ensures Fit(w, be, be - Scale(d0), k, Boundary(d0, d1))
  {
    var denorm := Exponent(d0) == 0;
    var i: int := if denorm then bbits + be - 1 else Exponent(d0) - 1023;
    var j := bbits - i - 1;
    var b2, s2, b5, s5 := 0, 0, 0, 0;
    if j >= 0 { s2 := j; } else { b2 := -j; }
    if k >= 0 {
      s5 := k;
      s2 := s2 + k;
    } else {
      b2 := b2 - k;
      b5 := -k;
    }
    var m2 := b2;
    i := if denorm then be + 1075 else 1 + 53 - bbits;
    b2, s2 := b2 + i, s2 + i;
    if m2 > 0 && s2 > 0 {
      i := if m2 < s2 then m2 else s2;
      b2, m2, s2 := b2 - i, m2 - i, s2 - i;
    }
    if Boundary(d0, d1) {
      b2, s2 := b2 + 1, s2 + 1;
    }
    w := Powers(b2, m2, s2, b5, s5);
  }

  // ----- the values -----

  /** v * 5^f * 2^t. */
  function Form(v: nat, f: nat, t: nat): (r: nat)
  {
    v * Five(f) * Two(t)
  }

  lemma {:induction false} FormTimes(v: nat, f: nat, t: nat, f2: nat, t2: nat)
    ensures Form(v, f, t) * (Five(f2) * Two(t2)) == Form(v, f + f2, t + t2)
  {
    hide Five, Two;
    FiveAdd(f, f2);
    TwoAdd(t, t2);
    Regroup(v, Five(f), Two(t), Five(f2), Two(t2));
  }

  lemma {:induction false} Regroup(v: int, a: int, b: int, c: int, d: int)
    ensures (v * a * b) * (c * d) == v * (a * c) * (b * d)
  {
  }

  lemma {:induction false} FormPositive(v: nat, f: nat, t: nat)
    requires v > 0
    ensures Form(v, f, t) > 0
  {
    hide Five, Two;
    Positive(v, Five(f));
    Positive(v * Five(f), Two(t));
  }

  /** b over mhi: the mantissa, twice. */
  lemma {:induction false} GapRatio(v: nat, f: nat, m2: nat, k0: nat, boundary: bool)
    ensures var mlo := Form(1, f, m2);
            var mhi := if boundary then 2 * mlo else mlo;
            Form(v, f, m2 + 1 + k0 + (if boundary then 1 else 0)) == 2 * (v * Two(k0)) * mhi
  {
    hide Five, Two;
    var s := if boundary then 1 else 0;
    TwoAdd(m2, 1 + k0 + s);
    TwoAdd(k0, 1 + s);
    TwoTable();
    var g, t, z := Five(f), Two(m2), Two(k0);
    assert Two(1 + k0 + s) == z * Two(1 + s);
    if boundary {
      assert v * g * (t * (z * 4)) == 2 * (v * z) * (2 * (1 * g * t));
    } else {
      assert v * g * (t * (z * 2)) == 2 * (v * z) * (1 * g * t);
    }
  }

  lemma {:induction false} UnitIs(k: int)
    ensures Unit(k) == Five(Plus(k)) * Two(1074 + Plus(k))
  {
    hide Five, Two, Ten;
    TenIs(Plus(k));
    TwoAdd(1074, Plus(k));
    var f, t, u := Five(Plus(k)), Two(Plus(k)), Two(1074);
    assert u * (f * t) == f * (u * t);
  }

  lemma {:induction false} ValueIs(d0: Word, d1: Word, v: nat, k0: nat, n: nat)
    requires v * Two(k0) == Mantissa(d0, d1)
    ensures Value(d0, d1) * Ten(n) == Form(v, n, k0 + Shift(d0) + n)
  {
    hide Five, Two, Ten, Shift, Mantissa;
    TenIs(n);
    TwoAdd(k0, Shift(d0));
    TwoAdd(k0 + Shift(d0), n);
    var a, b, c, f := Two(k0), Two(Shift(d0)), Two(n), Five(n);
    assert (v * a * b) * (f * c) == v * f * (a * b * c);
  }

  /** b / d is the double over 10^k. */
  lemma {:induction false} ValueRatio(d0: Word, d1: Word, w: Powers, be: int, k0: nat, k: int, v: nat)
    requires Fit(w, be, k0, k, Boundary(d0, d1)) && be == Scale(d0) + k0 && v * Two(k0) == Mantissa(d0, d1)
    ensures Form(v, w.b5, w.b2) * Unit(k) == Form(1, w.s5, w.s2) * (Value(d0, d1) * Ten(Minus(k)))
  {
    hide Five, Two, Ten, Mantissa, Value, Unit, Form;
    var P, N := Plus(k), Minus(k);
    UnitIs(k);
    FormTimes(v, w.b5, w.b2, P, 1074 + P);
    ValueIs(d0, d1, v, k0, N);
    FormTimes(v, N, k0 + Shift(d0) + N, P, w.s2);
    OnePower(P, w.s2);
    MulComm(Form(v, N, k0 + Shift(d0) + N), Form(1, P, w.s2));
  }

  lemma {:induction false} OnePower(f: nat, t: nat)
    ensures Form(1, f, t) == Five(f) * Two(t)
  {
  }

  lemma {:induction false} GapsOf(d0: Word, d1: Word, b: nat, mlo: nat, mhi: nat)
    requires b == 2 * Mantissa(d0, d1) * mhi && mhi == (if Boundary(d0, d1) then 2 * mlo else mlo)
    ensures 2 * Value(d0, d1) * mhi == GapAbove(d0) * b
    ensures 2 * Value(d0, d1) * mlo == GapBelow(d0, d1) * b
  {
    hide Mantissa, Two;
    var m, t := Mantissa(d0, d1), Two(Shift(d0));
    assert 2 * (m * t) * mhi == t * (2 * m * mhi);
    if Boundary(d0, d1) {
      TwoStep(Shift(d0) - 1);
      var h := Two(Shift(d0) - 1);
      assert 2 * (m * (2 * h)) * mlo == h * (2 * m * (2 * mlo));
    }
  }

  /** The operands set up with these powers are those the loop is proved for. */
  lemma {:induction false} FitIsPrepared(d0: Word, d1: Word, w: Powers, be: int, k0: nat, k: int, v: nat)
    requires Fit(w, be, k0, k, Boundary(d0, d1)) && be == Scale(d0) + k0 && v > 0 && v * Two(k0) == Mantissa(d0, d1)
    ensures var mlo := Form(1, w.b5, w.m2);
            Prepared(d0, d1, k, Form(v, w.b5, w.b2), Form(1, w.s5, w.s2),
                     mlo, if Boundary(d0, d1) then 2 * mlo else mlo)
  {
    hide Five, Two, Ten, Mantissa, Value, Unit, Form, GapAbove, GapBelow, Boundary;
    FormPositive(v, w.b5, w.b2);
    FormPositive(1, w.s5, w.s2);
    FormPositive(1, w.b5, w.m2);
    GapRatio(v, w.b5, w.m2, k0, Boundary(d0, d1));
    var mlo := Form(1, w.b5, w.m2);
    GapsOf(d0, d1, Form(v, w.b5, w.b2), mlo, if Boundary(d0, d1) then 2 * mlo else mlo);
    ValueRatio(d0, d1, w, be, k0, k, v);
  }

  lemma {:induction false} GapTenfold(v: int, m: int, g: int, b: int)
    requires 2 * v * m == g * b
    ensures 2 * v * (10 * m) == g * (10 * b)
  {
    assert 2 * v * (10 * m) == 10 * (2 * v * m) && g * (10 * b) == 10 * (g * b);
  }

  lemma {:induction false} RatioTenfold(b: int, u: int, d: int, v: int, n: int, u': int, n': int)
    requires b * u == d * (v * n) && ((u == 10 * u' && n' == n) || (u' == u && n' == 10 * n))
    ensures (10 * b) * u' == d * (v * n')
  {
    assert (10 * b) * u' == b * (10 * u') == 10 * (b * u');
    assert d * (v * (10 * n)) == 10 * (d * (v * n));
  }

  /** An estimate that was one too large is put right by a factor of ten. */
  lemma {:induction false} PreparedTenfold(d0: Word, d1: Word, k: int, b: nat, d: nat, mlo: nat, mhi: nat)
    requires Prepared(d0, d1, k, b, d, mlo, mhi)
    ensures Prepared(d0, d1, k - 1, 10 * b, d, 10 * mlo, 10 * mhi)
  {
    hide Two, Ten, Unit, Value, GapAbove, GapBelow;
    var v := Value(d0, d1);
    GapTenfold(v, mhi, GapAbove(d0), b);
    GapTenfold(v, mlo, GapBelow(d0, d1), b);
    UnitStep(k - 1);
    RatioTenfold(b, Unit(k), d, v, Ten(Minus(k)), Unit(k - 1), Ten(Minus(k - 1)));
  }

  // ----- the code -----

  /** Own blocks that hold these three numbers. */
  ghost function Three(b: Bigint, vb: nat, S: Bigint, vs: nat, m: Bigint, vm: nat): (mine: map<Bigint, Num>)
  {
    map[b := Num(vb, false, false), S := Num(vs, false, false), m := Num(vm, false, false)]
  }

  /** The numerator and the gap with their powers of five, and the divisor with its own. */
  method SetFives(p: Dtoa, b0: Bigint, b5: nat, s5: nat, ghost v: nat, ghost num0: map<Bigint, Num>,
                  ghost p50: seq<Bigint>)
    returns (b: Bigint, S: Bigint, m: Bigint)
    requires p.Valid() && v > 0 && Working(p.num, p.p5s, num0, p50, map[b0 := Num(v, false, false)])
    modifies p, p.repr
    ensures p.Valid() && fresh(p.repr - old(p.repr)) && b != S && b != m && S != m
    ensures Working(p.num, p.p5s, num0, p50, Three(b, v * Five(b5), S, Five(s5), m, Five(b5)))
  {
    hide Dtoa.Valid, Working, Five;
    ghost var f := Five(b5);
    ghost var mine: map<Bigint, Num> := map[b0 := Num(v, false, false)];
    b := b0;
    m := OneBlock(p, num0, p50, mine);
    mine := mine[m := Num(1, false, false)];
    FiveZeroIsOne();
    if b5 > 0 {
      ghost var m0, b1 := m, b;
      m := Fives(p, m, b5, 1, num0, p50, mine);
      mine := Swapped(mine, m0, m, f);
      b := TimesBlock(p, m, b, f, v, num0, p50, mine);
      mine := Swapped(mine, b1, b, f * v);
    }
    MulComm(f, v);
    assert mine == map[b := Num(v * f, false, false), m := Num(f, false, false)];
    S := PowerBlock(p, s5, num0, p50, mine);
    assert mine[S := Num(Five(s5), false, false)] == Three(b, v * f, S, Five(s5), m, f);
  }

  /** A new block for a power of five. */
  method PowerBlock(p: Dtoa, k: nat, ghost num0: map<Bigint, Num>, ghost p50: seq<Bigint>, ghost mine: map<Bigint, Num>)
    returns (S: Bigint)
    requires p.Valid() && Working(p.num, p.p5s, num0, p50, mine)
    modifies p, p.repr
    ensures p.Valid() && fresh(p.repr - old(p.repr)) && S !in mine
    ensures Working(p.num, p.p5s, num0, p50, mine[S := Num(Five(k), false, false)])
  {
    hide Dtoa.Valid, Working, Five;
    FiveZeroIsOne();
    S := OneBlock(p, num0, p50, mine);
    if k > 0 {
      ghost var one := S;
      S := Fives(p, S, k, 1, num0, p50, mine[one := Num(1, false, false)]);
      assert Swapped(mine[one := Num(1, false, false)], one, S, Five(k)) == mine[S := Num(Five(k), false, false)];
    }
  }

  lemma {:induction false} FiveZeroIsOne()
    ensures Five(0) == 1
  {
  }

  /** The numerator and the divisor with their powers of two, the divisor aligned. */
  method SetTwos(p: Dtoa, b0: Bigint, S0: Bigint, m: Bigint, w: Powers, ghost vb: nat, ghost vs: nat, ghost vm: nat,
                 ghost num0: map<Bigint, Num>, ghost p50: seq<Bigint>)
    returns (b: Bigint, S: Bigint, i: nat)
    requires p.Valid() && b0 != S0 && b0 != m && S0 != m && w.b2 >= 0 && w.s2 >= 0 && vb > 0 && vs > 0
    requires Working(p.num, p.p5s, num0, p50, Three(b0, vb, S0, vs, m, vm))
    modifies p, p.repr
    ensures p.Valid() && fresh(p.repr - old(p.repr)) && b != S && b != m && S != m
    ensures Aligned(vs * Two(w.s2 + i))
    ensures Working(p.num, p.p5s, num0, p50, Three(b, vb * Two(w.b2 + i), S, vs * Two(w.s2 + i), m, vm))
  {
    hide Dtoa.Valid, Working, Two, Aligned;
    ghost var mine := Three(b0, vb, S0, vs, m, vm);
    MineInUse(p.num, p.p5s, num0, p50, mine);
    i := p.Dshift(S0, w.s2);
    b := Twos(p, b0, w.b2 + i, vb, num0, p50, mine);
    mine := Swapped(mine, b0, b, vb * Two(w.b2 + i));
    S := Twos(p, S0, w.s2 + i, vs, num0, p50, mine);
    mine := Swapped(mine, S0, S, vs * Two(w.s2 + i));
    assert mine == Three(b, vb * Two(w.b2 + i), S, vs * Two(w.s2 + i), m, vm);
  }

  /** The test of the estimate: one too large means a factor of ten. */
  method CheckEstimate(p: Dtoa, b0: Bigint, S: Bigint, m0: Bigint, kCheck: bool, ghost vb: nat, ghost vs: nat,
                       ghost vm: nat, ghost num0: map<Bigint, Num>, ghost p50: seq<Bigint>)
    returns (b: Bigint, m: Bigint, down: bool)
    requires p.Valid() && b0 != S && b0 != m0 && S != m0 && vb > 0 && vs > 0
    requires Working(p.num, p.p5s, num0, p50, Three(b0, vb, S, vs, m0, vm))
    modifies p, p.repr
    ensures p.Valid() && fresh(p.repr - old(p.repr)) && b != S && b != m && S != m
    ensures down <==> kCheck && vb < vs
    ensures Working(p.num, p.p5s, num0, p50,
                    Three(b, if down then 10 * vb else vb, S, vs, m, if down then 10 * vm else vm))
  {
    hide Dtoa.Valid, Working;
    ghost var mine := Three(b0, vb, S, vs, m0, vm);
    MineInUse(p.num, p.p5s, num0, p50, mine);
    b, m, down := b0, m0, false;
    if kCheck {
      var j := p.Cmp(b, S);
      if j < 0 {
        down := true;
        b := Tens(p, b, vb, num0, p50, mine);
        mine := Swapped(mine, b0, b, 10 * vb);
        m := Tens(p, m, vm, num0, p50, mine);
        mine := Swapped(mine, m0, m, 10 * vm);
        assert mine == Three(b, 10 * vb, S, vs, m, 10 * vm);
      }
    }
  }

  /** A new block with twice the number. */
  method DoubledCopy(p: Dtoa, a: Bigint, ghost v: nat, ghost num0: map<Bigint, Num>, ghost p50: seq<Bigint>,
                     ghost mine: map<Bigint, Num>)
    returns (r: Bigint)
    requires p.Valid() && Working(p.num, p.p5s, num0, p50, mine)
    requires a in mine && v > 0 && mine[a] == Num(v, false, false)
    modifies p, p.repr
    ensures p.Valid() && fresh(p.repr - old(p.repr)) && r !in mine
    ensures Working(p.num, p.p5s, num0, p50, mine[r := Num(2 * v, false, false)])
  {
    hide Dtoa.Valid, Working, Two;
    MineInUse(p.num, p.p5s, num0, p50, mine);
    p.CacheInUse();
    var c := CopyOf(p, a);
    Adding(old(p.num), p.p5s, p.num, num0, p50, mine, c, Num(v, false, false));
    TwoTable();
    r := Twos(p, c, 1, v, num0, p50, mine[c := Num(v, false, false)]);
    assert Swapped(mine[c := Num(v, false, false)], c, r, v * 2) == mine[r := Num(2 * v, false, false)];
  }

  /** The two gaps: one block, or a copy twice as large for a power of two. */
  method SetGaps(p: Dtoa, b: Bigint, S: Bigint, m0: Bigint, m2: nat, boundary: bool, ghost vb: nat, ghost vs: nat,
                 ghost vm: nat, ghost num0: map<Bigint, Num>, ghost p50: seq<Bigint>)
    returns (mlo: Bigint, mhi: Bigint, ghost mine: map<Bigint, Num>)
    requires p.Valid() && b != S && b != m0 && S != m0 && vm > 0
    requires Working(p.num, p.p5s, num0, p50, Three(b, vb, S, vs, m0, vm))
    modifies p, p.repr
    ensures p.Valid() && fresh(p.repr - old(p.repr)) && b != mlo && b != mhi && S != mlo && S != mhi
    ensures var v := vm * Two(m2);
            mine == Three(b, vb, S, vs, mlo, v)[mhi := Num(if boundary then 2 * v else v, false, false)]
    ensures boundary ==> mlo != mhi
    ensures !boundary ==> mlo == mhi
    ensures Working(p.num, p.p5s, num0, p50, mine)
  {
    hide Dtoa.Valid, Working, Two;
    ghost var v := vm * Two(m2);
    mine := Three(b, vb, S, vs, m0, vm);
    mlo := Twos(p, m0, m2, vm, num0, p50, mine);
    mine := Swapped(mine, m0, mlo, v);
    mhi := mlo;
    if boundary {
      Positive(vm, Two(m2));
      mhi := DoubledCopy(p, mlo, v, num0, p50, mine);
      mine := mine[mhi := Num(2 * v, false, false)];
    }
    assert mine == Three(b, vb, S, vs, mlo, v)[mhi := Num(if boundary then 2 * v else v, false, false)];
  }

  lemma {:induction false} NothingYet(num: map<Bigint, Num>, p5s: seq<Bigint>)
    ensures Working(num, p5s, num, p5s, map[])
  {
    assert num - {} == num;
  }

  lemma {:induction false} NothingLeft(num: map<Bigint, Num>, p5s: seq<Bigint>, num0: map<Bigint, Num>,
                                       p50: seq<Bigint>)
    requires Working(num, p5s, num0, p50, map[])
    ensures Grown(num0, p50, num, p5s)
  {
    assert num - {} == num;
  }

  /** What the operands stand for, whether or not the estimate was put right. */
  lemma {:induction false} OperandsPrepared(d0: Word, d1: Word, w: Powers, be: int, est: int, v: nat, kCheck: bool)
    requires be >= Scale(d0) && Fit(w, be, be - Scale(d0), est, Boundary(d0, d1))
    requires v > 0 && v * Two(be - Scale(d0)) == Mantissa(d0, d1)
    requires AtLeast(d0, d1, if kCheck then est - 1 else est) && !AtLeast(d0, d1, est + 1)
    ensures var vb, vs, vm := Form(v, w.b5, w.b2), Form(1, w.s5, w.s2), Form(1, w.b5, w.m2);
            var down := kCheck && vb < vs;
            var k, t := if down then est - 1 else est, if down then 10 else 1;
            && AtLeast(d0, d1, k) && !AtLeast(d0, d1, k + 1)
            && vs <= t * vb < 10 * vs && vs > 0 && vm > 0
            && Prepared(d0, d1, k, t * vb, vs, t * vm, if Boundary(d0, d1) then 2 * (t * vm) else t * vm)
  {
    hide Form, Prepared, AtLeast, Two, Mantissa, Fit;
    FitShifts(w, be, be - Scale(d0), est, Boundary(d0, d1), 0);
    var vb, vs, vm := Form(v, w.b5, w.b2), Form(1, w.s5, w.s2), Form(1, w.b5, w.m2);
    var vh := if Boundary(d0, d1) then 2 * vm else vm;
    FitIsPrepared(d0, d1, w, be, be - Scale(d0), est, v);
    FormPositive(1, w.s5, w.s2);
    FormPositive(1, w.b5, w.m2);
    PreparedOrder(d0, d1, est, vb, vs, vm, vh);
    if kCheck && vb < vs {
      PreparedTenfold(d0, d1, est, vb, vs, vm, vh);
      PreparedOrder(d0, d1, est - 1, 10 * vb, vs, 10 * vm, 10 * vh);
    }
  }

  lemma {:induction false} FormParts(v: nat, f: nat, t: nat, ten: nat)
    ensures v * Five(f) * Two(t) == Form(v, f, t)
    ensures Five(f) * Two(t) == Form(1, f, t)
    ensures (ten * Five(f)) * Two(t) == ten * Form(1, f, t)
  {
    hide Five, Two;
    MulAssoc(ten, Five(f), Two(t));
  }

  lemma {:induction false} FitShifts(w: Powers, be: int, k0: nat, k: int, boundary: bool, i: nat)
    requires Fit(w, be, k0, k, boundary)
    ensures Fit(w.(b2 := w.b2 + i, m2 := w.m2 + i, s2 := w.s2 + i), be, k0, k, boundary)
    ensures w.b2 >= 0 && w.m2 >= 0 && w.s2 >= 0 && w.b5 >= 0 && w.s5 >= 0
  {
  }

  /** The double's odd part and the divisor with all their powers, up to the test of the estimate. */
  method SetOperands(p: Dtoa, b0: Bigint, d0: Word, d1: Word, be: int, bits: int, est: int, ghost v: nat,
                     ghost num0: map<Bigint, Num>, ghost p50: seq<Bigint>)
    returns (b: Bigint, S: Bigint, m: Bigint, w: Powers)
    requires p.Valid() && v > 0 && Working(p.num, p.p5s, num0, p50, map[b0 := Num(v, false, false)])
    requires be >= Scale(d0) && (Exponent(d0) > 0 ==> bits == 53 - (be - Scale(d0)))
    modifies p, p.repr
    ensures p.Valid() && fresh(p.repr - old(p.repr)) && b != S && b != m && S != m
    ensures Fit(w, be, be - Scale(d0), est, Boundary(d0, d1))
    ensures Working(p.num, p.p5s, num0, p50, Three(b, Form(v, w.b5, w.b2), S, Form(1, w.s5, w.s2), m, Five(w.b5)))
    ensures Aligned(Form(1, w.s5, w.s2))
  {
    hide Dtoa.Valid, Working, Two, Five, Form, Scale, Fit, Aligned, Boundary, Three;
    w := SetPowers(d0, d1, be, bits, est);
    FitShifts(w, be, be - Scale(d0), est, Boundary(d0, d1), 0);
    b, S, m := SetFives(p, b0, w.b5, w.s5, v, num0, p50);
    Positive(v, Five(w.b5));
    var i;
    b, S, i := SetTwos(p, b, S, m, w, v * Five(w.b5), Five(w.s5), Five(w.b5), num0, p50);
    FitShifts(w, be, be - Scale(d0), est, Boundary(d0, d1), i);
    w := w.(b2 := w.b2 + i, m2 := w.m2 + i, s2 := w.s2 + i);
    FormParts(v, w.b5, w.b2, 1);
    FormParts(1, w.s5, w.s2, 1);
  }

  /** The operands of the loop, ready to print the double with its first digit at 10^k. */
  ghost predicate Ready(b: Bigint, S: Bigint, mlo: Bigint, mhi: Bigint, d0: Word, d1: Word, k: int,
                        mine: map<Bigint, Num>)
  {
    && mine.Keys == {b, S, mlo, mhi} && b != S && b != mlo && b != mhi && S != mlo && S != mhi
    && (forall x :: x in mine ==> mine[x].value > 0 && mine[x] == Num(mine[x].value, false, false))
    && Aligned(mine[S].value) && mine[S].value <= mine[b].value < 10 * mine[S].value
    && Prepared(d0, d1, k, mine[b].value, mine[S].value, mine[mlo].value, mine[mhi].value)
  }

  /** The whole set-up. */
  method SetUp(p: Dtoa, b0: Bigint, d0: Word, d1: Word, be: int, bits: int, est: int, kCheck: bool, ghost v: nat,
               ghost num0: map<Bigint, Num>, ghost p50: seq<Bigint>)
    returns (b: Bigint, S: Bigint, mlo: Bigint, mhi: Bigint, k: int, ghost mine: map<Bigint, Num>)
    requires p.Valid() && Working(p.num, p.p5s, num0, p50, map[b0 := Num(v, false, false)])
    requires v > 0 && be >= Scale(d0) && v * Two(be - Scale(d0)) == Mantissa(d0, d1)
    requires Exponent(d0) > 0 ==> bits == 53 - (be - Scale(d0))
    requires AtLeast(d0, d1, if kCheck then est - 1 else est) && !AtLeast(d0, d1, est + 1)
    modifies p, p.repr
    ensures p.Valid() && fresh(p.repr - old(p.repr))
    ensures AtLeast(d0, d1, k) && !AtLeast(d0, d1, k + 1)
    ensures Working(p.num, p.p5s, num0, p50, mine) && Ready(b, S, mlo, mhi, d0, d1, k, mine)
  {
    hide Dtoa.Valid, Working, Two, Five, Form, Mantissa, Scale, AtLeast, Fit, Aligned, Boundary, Prepared, Ready, Three;
    var m, w, down;
    b, S, m, w := SetOperands(p, b0, d0, d1, be, bits, est, v, num0, p50);
    FitShifts(w, be, be - Scale(d0), est, Boundary(d0, d1), 0);
    ghost var vb, vs := Form(v, w.b5, w.b2), Form(1, w.s5, w.s2);
    OperandsPrepared(d0, d1, w, be, est, v, kCheck);
    FormPositive(v, w.b5, w.b2);
    b, m, down := CheckEstimate(p, b, S, m, kCheck, vb, vs, Five(w.b5), num0, p50);
    ghost var t := if down then 10 else 1;
    FormParts(1, w.b5, w.m2, t);
    assert Three(b, if down then 10 * vb else vb, S, vs, m, if down then 10 * Five(w.b5) else Five(w.b5))
        == Three(b, t * vb, S, vs, m, t * Five(w.b5));
    mlo, mhi, mine := SetGaps(p, b, S, m, w.m2, Boundary(d0, d1), t * vb, vs, t * Five(w.b5), num0, p50);
    k := if down then est - 1 else est;
    ReadyOf(b, S, mlo, mhi, d0, d1, k, t * vb, vs, t * Form(1, w.b5, w.m2), mine);
  }

  lemma {:induction false} ReadyOf(b: Bigint, S: Bigint, mlo: Bigint, mhi: Bigint, d0: Word, d1: Word, k: int,
                                   vb: nat, vs: nat, vm: nat, mine: map<Bigint, Num>)
    requires b != S && b != mlo && b != mhi && S != mlo && S != mhi && (mlo == mhi <==> !Boundary(d0, d1))
    requires mine == Three(b, vb, S, vs, mlo, vm)[mhi := Num(if Boundary(d0, d1) then 2 * vm else vm, false, false)]
    requires vm > 0 && vs > 0 && Aligned(vs) && vs <= vb < 10 * vs
    requires Prepared(d0, d1, k, vb, vs, vm, if Boundary(d0, d1) then 2 * vm else vm)
    ensures Ready(b, S, mlo, mhi, d0, d1, k, mine)
  {
    hide Aligned, Prepared, Boundary;
  }

  lemma {:induction false} NotZero(d0: Word, d1: Word)
    requires Finite(d0, d1) && (d0 > 0 || d1 > 0)
    ensures Mantissa(d0, d1) > 0
  {
  }

  /** The comparison with a power of ten that is a double itself. */
  lemma {:induction false} BelowPowerOfTen(d0: Word, d1: Word, k: nat)
    ensures RealValue(d0, d1) < Ten(k) as real <==> !AtLeast(d0, d1, k)
  {
    hide RealValue, Ten, AtLeast, Power;
    AtLeastIs(d0, d1, k);
    TenIsPower(k);
  }

  /** The estimate, put right where powers of ten are doubles themselves; otherwise still to be checked. */
  method FirstExponent(d0: Word, d1: Word, be: int, bits: int, rnd: real -> real, ghost v: nat)
    returns (k: int, kCheck: bool)
    requires Rounding(rnd) && Finite(d0, d1) && Mantissa(d0, d1) > 0
    requires be >= Scale(d0) && v * Two(be - Scale(d0)) == Mantissa(d0, d1)
    requires bits >= 1 && Two(bits - 1) <= v < Two(bits) && (Exponent(d0) > 0 ==> bits == 53 - (be - Scale(d0)))
    ensures AtLeast(d0, d1, if kCheck then k - 1 else k) && !AtLeast(d0, d1, k + 1)
    ensures kCheck ==> k < 0 || k > 22
  {
    hide Two, Mantissa, Scale, Exponent, AtLeast, Rounding, RealValue, Ten;
    k := EstimateExponent(d0, d1, be, bits, rnd, v);
    kCheck := true;
    if 0 <= k <= 22 {
      BelowPowerOfTen(d0, d1, k);
      if RealValue(d0, d1) < Ten(k) as real { k := k - 1; }
      kCheck := false;
    }
  }

  /** With no power of two below the point the double is a whole number. */
  lemma {:induction false} WholeDouble(d0: Word, d1: Word, be: int, v: nat)
    requires be >= Scale(d0) && be >= 0 && v > 0 && v * Two(be - Scale(d0)) == Mantissa(d0, d1)
    ensures Value(d0, d1) == (v * Two(be)) * Two(1074)
    ensures AtLeast(d0, d1, 0)
  {
    hide Two, Mantissa, Scale;
    TwoAdd(be - Scale(d0), Shift(d0));
    TwoAdd(be, 1074);
    MulAssoc(v, Two(be - Scale(d0)), Two(Shift(d0)));
    MulAssoc(v, Two(be), Two(1074));
    TenZero();
    Positive(v, Two(be));
    MulMono(1, v * Two(be), Two(1074));
  }

  /**
   Mode 0 of `dtoa` on the words of a positive finite double: the exponent comes out right, the
   digits are a shortest decimal that reads back as the double and a nearest one of that length, and
   every block it used is given back; only the cache of powers may have grown.
   */
  method Print(p: Dtoa, d0: Word, d1: Word, rnd: real -> real) returns (out: Output, k: int)
    requires p.Valid() && Finite(d0, d1) && (d0 > 0 || d1 > 0) && Rounding(rnd)
    modifies p, p.repr
    ensures p.Valid() && fresh(p.repr - old(p.repr)) && Grown(old(p.num), old(p.p5s), p.num, p.p5s)
    ensures AtLeast(d0, d1, k) && !AtLeast(d0, d1, k + 1)
    ensures Prints(out, k, d0, d1)
  {
    hide Dtoa.Valid, Working, Mantissa, Scale, Exponent, Value, Two, AtLeast, Prints, Grown, Rounding;
    ghost var num0, p50 := p.num, p.p5s;
    NotZero(d0, d1);
    NothingYet(num0, p50);
    p.CacheInUse();
    var b, be, bits := D2b(p, d0, d1);
    ghost var v := p.num[b].value;
    Adding(num0, p50, p.num, num0, p50, map[], b, Num(v, false, false));
    var est, kCheck := FirstExponent(d0, d1, be, bits, rnd, v);
    if be >= 0 && est <= 14 {
      WholeDouble(d0, d1, be, v);
      if est < 0 { AtLeastDown(d0, d1, est + 1, 0); }
      k := est;
      var ds := PrintSmall(d0, d1, k, rnd, v * Two(be));
      out := Output(ds, false);
      GiveBack(p, b, v, num0, p50);
    } else {
      out, k := PrintLarge(p, b, d0, d1, be, bits, est, kCheck, v, num0, p50);
    }
  }

  /** The block of the double itself is given back. */
  method GiveBack(p: Dtoa, b: Bigint, ghost v: nat, ghost num0: map<Bigint, Num>, ghost p50: seq<Bigint>)
    requires p.Valid() && Working(p.num, p.p5s, num0, p50, map[b := Num(v, false, false)])
    modifies p, p.repr
    ensures p.Valid() && fresh(p.repr - old(p.repr)) && Grown(num0, p50, p.num, p.p5s)
  {
    hide Dtoa.Valid, Working, Grown;
    ghost var mine: map<Bigint, Num> := map[b := Num(v, false, false)];
    MineInUse(p.num, p.p5s, num0, p50, mine);
    p.Bfree(b);
    Removing(old(p.num), p.p5s, p.num, num0, p50, mine, {b});
    assert mine - {b} == map[];
    NothingLeft(p.num, p.p5s, num0, p50);
  }

  /** The general case, with multi-word numbers. */
  method PrintLarge(p: Dtoa, b0: Bigint, d0: Word, d1: Word, be: int, bits: int, est: int, kCheck: bool, ghost v: nat,
                    ghost num0: map<Bigint, Num>, ghost p50: seq<Bigint>)
    returns (out: Output, k: int)
    requires p.Valid() && Finite(d0, d1) && Mantissa(d0, d1) > 0 && (d0 > 0 || d1 > 0)
    requires Working(p.num, p.p5s, num0, p50, map[b0 := Num(v, false, false)])
    requires v > 0 && be >= Scale(d0) && v * Two(be - Scale(d0)) == Mantissa(d0, d1)
    requires Exponent(d0) > 0 ==> bits == 53 - (be - Scale(d0))
    requires AtLeast(d0, d1, if kCheck then est - 1 else est) && !AtLeast(d0, d1, est + 1)
    modifies p, p.repr
    ensures p.Valid() && fresh(p.repr - old(p.repr)) && Grown(num0, p50, p.num, p.p5s)
    ensures AtLeast(d0, d1, k) && !AtLeast(d0, d1, k + 1)
    ensures Prints(out, k, d0, d1)
  {
    hide Dtoa.Valid, Working, Mantissa, Scale, Exponent, Two, AtLeast, Prints, Grown, Aligned, ShortestDigits, Prepared;
    var b, S, mlo, mhi;
    ghost var mine;
    b, S, mlo, mhi, k, mine := SetUp(p, b0, d0, d1, be, bits, est, kCheck, v, num0, p50);
    MineInUse(p.num, p.p5s, num0, p50, mine);
    label L:
    out := Shortest(p, b, S, mlo, mhi, d1 % 2 == 0);
    Removing(old@L(p.num), p.p5s, p.num, num0, p50, mine, {b, S, mlo, mhi});
    assert mine - {b, S, mlo, mhi} == map[];
    NothingLeft(p.num, p.p5s, num0, p50);
    DoubleCorrect(d0, d1, k, mine[b].value, mine[S].value, mine[mlo].value, mine[mhi].value);
  }
}
