/**
 What the two integer digit loops of `dtoa` (`lae/source/dtoa.c`) produce, as functions of
 the numbers they start from, and what those digits mean.

 b / d is the value in [1, 10) whose digits are wanted. The shortest loop also gets the two
 half-gaps to the neighbouring doubles, mlo / d below and mhi / d above.
 */
module DigitSpec {
  import opened Words

  /** x * 10^e. */
  function Tenfold(x: int, e: nat): (r: int)
  {
    if e == 0 then x else 10 * Tenfold(x, e - 1)
  }

  /** The number written by a digit sequence, most significant digit first. */
  function Number(ds: seq<int>): (r: int)
  {
    if |ds| == 0 then 0 else 10 * Number(ds[..|ds| - 1]) + ds[|ds| - 1]
  }

  predicate AllDigits(ds: seq<int>)
  {
    forall i :: 0 <= i < |ds| ==> 0 <= ds[i] <= 9
  }

  /** The digits left in the buffer, and whether the decimal exponent was raised by one. */
  datatype Output = Output(digits: seq<int>, bump: bool)

  /** The output read as a number with n digits before the point. */
  function At(r: Output, n: nat): (v: int)
    requires |r.digits| <= n
  {
    Tenfold(Number(r.digits), n - |r.digits| + if r.bump then 1 else 0)
  }

  /** `roundoff`: adds one in the last place, dropping the trailing nines it turns to zeros. */
  function RoundUp(ds: seq<int>): (r: Output)
    requires |ds| > 0
    ensures 0 < |r.digits| <= |ds|
  {
    var n := |ds| - 1;
    if ds[n] != 9 then Output(ds[..n] + [ds[n] + 1], false)
    else if n == 0 then Output([1], true)
    else RoundUp(ds[..n])
  }

  /** Drops trailing zeros, but keeps the first digit. */
  function StripZeros(ds: seq<int>): (r: Output)
    requires |ds| > 0
    ensures 0 < |r.digits| <= |ds| && !r.bump
  {
    var n := |ds| - 1;
    if n == 0 || ds[n] != 0 then Output(ds, false) else StripZeros(ds[..n])
  }

  /** The digit and the remainder `quorem` gives. */
  function Quot(b: int, d: int): (q: int)
    requires d > 0
  {
    b / d
  }

  function Rem(b: int, d: int): (r: int)
    requires d > 0
    ensures 0 <= r < d
  {
    b % d
  }

  function Sign(x: int): (r: int)
  {
    if x < 0 then -1 else if x > 0 then 1 else 0
  }

  // ----- the shortest loop -----

  /**
   The comparison of remainder and upper gap, r + mhi against d. When the remainder is zero
   and the gap is the whole divisor, two zeros are compared, and a divisor of one word
   leaves the remainder with no word at all.
   */
  function CompareHigh(r: int, d: int, mhi: int): (j1: int)
  {
    if d < mhi then 1
    else if r == 0 && mhi == d then (if d < 0x1_0000_0000 then -1 else 0)
    else Sign(r + mhi - d)
  }

  /** Where the loop stopped: the digits cut off there, and whether to add one in the last place. */
  datatype Stop = Stop(ds: seq<int>, up: bool)

  /** One turn of the loop decides to stop here, and in which direction to round. */
  datatype Verdict = Continue | Down | Up

  function Judge(dig: int, r: int, d: int, mlo: int, mhi: int, even: bool): (v: Verdict)
  {
    var j, j1 := Sign(r - mlo), CompareHigh(r, d, mhi);
    if j1 == 0 && even then
      if dig == 9 || j > 0 then Up else Down
    else if j < 0 || (j == 0 && even) then
      if r != 0 && j1 > 0 && (2 * r > d || (2 * r == d && dig % 2 == 1)) then Up else Down
    else if j1 > 0 then Up
    else Continue
  }

  function ShortestLoop(b: nat, d: nat, mlo: nat, mhi: nat, even: bool, ds: seq<int>): (s: Stop)
    requires 0 < d && b < 10 * d && 0 < mlo
    ensures |s.ds| > |ds|
    decreases if mlo < d then d - mlo else 0
  {
    var dig, r := Quot(b, d), Rem(b, d);
    match Judge(dig, r, d, mlo, mhi, even)
    case Continue => ShortestLoop(10 * r, d, 10 * mlo, 10 * mhi, even, ds + [dig])
    case Down => Stop(ds + [dig], false)
    case Up => Stop(ds + [dig], true)
  }

  function Finish(s: Stop): (r: Output)
    requires |s.ds| > 0
    ensures 0 < |r.digits| <= |s.ds|
  {
    if s.up then RoundUp(s.ds) else Output(s.ds, false)
  }

  /** The digits of mode 0: the shortest loop from the beginning. */
  function ShortestDigits(b: nat, d: nat, mlo: nat, mhi: nat, even: bool): (r: Output)
    requires 0 < d && b < 10 * d && 0 < mlo
    ensures |r.digits| > 0
  {
    Finish(ShortestLoop(b, d, mlo, mhi, even, []))
  }

  /**
   q, with e digits after the first, reads back as the double: it lies between the two ends,
   and on an end only if the mantissa is even.
   */
  ghost predicate Accepts(q: int, e: nat, d: int, x: int, mlo: int, mhi: int, even: bool)
  {
    && Tenfold(x - mlo, e) <= Times(q, d) <= Tenfold(x + mhi, e)
    && (even || (Tenfold(x - mlo, e) < Times(q, d) < Tenfold(x + mhi, e)))
  }

  // ----- powers of ten -----

  lemma {:induction false} TenfoldAdd(x: int, y: int, e: nat)
    ensures Tenfold(x + y, e) == Tenfold(x, e) + Tenfold(y, e)
  {
    if e > 0 { TenfoldAdd(x, y, e - 1); }
  }

  lemma {:induction false} TenfoldUp(x: int, e: nat)
    ensures Tenfold(10 * x, e) == Tenfold(x, e + 1)
  {
    if e > 0 { TenfoldUp(x, e - 1); }
  }

  lemma {:induction false} TenfoldMono(x: int, y: int, e: nat)
    requires x <= y
    ensures Tenfold(x, e) <= Tenfold(y, e)
    ensures x < y ==> Tenfold(x, e) < Tenfold(y, e)
  {
    if e > 0 { TenfoldMono(x, y, e - 1); }
  }

  // ----- what one turn of the loop knows -----

  /** The current digits and remainder split the scaled value at a multiple of d. */
  lemma {:induction false} SplitAt(head: int, b: nat, d: nat)
    requires d > 0
    ensures Times(10 * head + Quot(b, d), d) + Rem(b, d) == 10 * Times(head, d) + b
    ensures Times(10 * head + Quot(b, d) + 1, d) == Times(10 * head + Quot(b, d), d) + d
    ensures 0 <= Rem(b, d) < d
    ensures b < 10 * d ==> 0 <= Quot(b, d) <= 9
    ensures d <= b ==> 1 <= Quot(b, d)
  {
    var q, r := b / d, b % d;
    assert b == q * d + r;
    assert (10 * head + q) * d == 10 * (head * d) + q * d;
    if q < 0 { MulMono(q, -1, d); }
    if 9 < q && b < 10 * d { MulMono(10, q, d); }
    if q < 1 && d <= b { MulMono(q, 0, d); }
  }

  lemma {:induction false} TimesBelow(p: int, q: int, d: int)
    requires p < q && 0 <= d
    ensures Times(p, d) + d <= Times(q, d)
  {
    MulMono(p + 1, q, d);
  }

  /** A turn that goes on has no number of this length to offer. */
  lemma {:induction false} ContinueMeansNone(cut: int, q: int, r: int, d: int, x: int, mlo: int, mhi: int, dig: int,
                                             even: bool)
    requires 0 <= r < d && 0 < mlo && x == Times(cut, d) + r
    requires Judge(dig, r, d, mlo, mhi, even) == Continue
    ensures mlo < d
    ensures !Accepts(q, 0, d, x, mlo, mhi, even)
  {
    hide Quot, Rem, Times;
    if q <= cut {
      if q < cut { TimesBelow(q, cut, d); }
    } else {
      TimesBelow(cut, q, d);
    }
  }

  /** A turn that stops offers a number that is accepted. */
  lemma {:induction false} StopIsAccepted(cut: int, r: int, d: int, x: int, mlo: int, mhi: int, dig: int, even: bool)
    requires 0 <= r < d && 0 < mlo && 0 < mhi && x == Times(cut, d) + r
    requires Times(cut + 1, d) == Times(cut, d) + d
    ensures Judge(dig, r, d, mlo, mhi, even) == Down ==> Accepts(cut, 0, d, x, mlo, mhi, even)
    ensures Judge(dig, r, d, mlo, mhi, even) == Up ==> Accepts(cut + 1, 0, d, x, mlo, mhi, even)
  {
    hide Quot, Rem, Times;
  }

  lemma {:induction false} NumberSnoc(ds: seq<int>, c: int)
    ensures Number(ds + [c]) == 10 * Number(ds) + c
  {
    assert (ds + [c])[..|ds|] == ds;
  }

  /** The value a stop stands for, with as many digits as the loop took. */
  function Stopped(s: Stop): (q: int)
  {
    Number(s.ds) + if s.up then 1 else 0
  }

  /** Scaling by ten moves a question about e + 1 digits to one about e. */
  lemma {:induction false} AcceptsTenfold(q: int, e: nat, d: int, x: int, mlo: int, mhi: int, even: bool)
    ensures Accepts(q, e + 1, d, x, mlo, mhi, even) <==> Accepts(q, e, d, 10 * x, 10 * mlo, 10 * mhi, even)
  {
    TenfoldUp(x - mlo, e);
    TenfoldUp(x + mhi, e);
  }

  /** The loop keeps the digits it had and adds digits; the first one added is not zero if d <= b. */
  lemma {:induction false} LoopDigits(b: nat, d: nat, mlo: nat, mhi: nat, even: bool, ds: seq<int>)
    requires 0 < d && b < 10 * d && 0 < mlo && AllDigits(ds)
    ensures var s := ShortestLoop(b, d, mlo, mhi, even, ds);
            AllDigits(s.ds) && ds < s.ds && (d <= b ==> 1 <= s.ds[|ds|])
    decreases if mlo < d then d - mlo else 0
  {
    hide Quot, Rem, Times, Number;
    var dig, r := Quot(b, d), Rem(b, d);
    SplitAt(0, b, d);
    if Judge(dig, r, d, mlo, mhi, even) == Continue {
      LoopDigits(10 * r, d, 10 * mlo, 10 * mhi, even, ds + [dig]);
      var s := ShortestLoop(b, d, mlo, mhi, even, ds);
      assert s.ds[|ds|] == (ds + [dig])[|ds|];
    }
  }

  /** Whatever turn the loop is in, what it will stop with is accepted. */
  lemma {:induction false} LoopAccepts(b: nat, d: nat, mlo: nat, mhi: nat, even: bool, ds: seq<int>)
    requires 0 < d && b < 10 * d && 0 < mlo && 0 < mhi
    ensures var s := ShortestLoop(b, d, mlo, mhi, even, ds);
            Accepts(Stopped(s), |s.ds| - |ds| - 1, d, 10 * Times(Number(ds), d) + b, mlo, mhi, even)
    decreases if mlo < d then d - mlo else 0
  {
    hide Quot, Rem, Times, Tenfold, Accepts, Number, Judge;
    var dig, r, x := Quot(b, d), Rem(b, d), 10 * Times(Number(ds), d) + b;
    SplitAt(Number(ds), b, d);
    NumberSnoc(ds, dig);
    var cut := Number(ds + [dig]);
    var s := ShortestLoop(b, d, mlo, mhi, even, ds);
    if Judge(dig, r, d, mlo, mhi, even) == Continue {
      ContinueMeansNone(cut, 0, r, d, x, mlo, mhi, dig, even);
      LoopAccepts(10 * r, d, 10 * mlo, 10 * mhi, even, ds + [dig]);
      AcceptsTenfold(Stopped(s), |s.ds| - |ds| - 2, d, x, mlo, mhi, even);
    } else {
      StopIsAccepted(cut, r, d, x, mlo, mhi, dig, even);
    }
  }

  /**
   No number with fewer digits than the loop takes, and more than it already had, is
   accepted.
   */
  lemma {:induction false} LoopMinimal(b: nat, d: nat, mlo: nat, mhi: nat, even: bool, ds: seq<int>, e: nat, q: int)
    requires 0 < d && b < 10 * d && 0 < mlo && 0 < mhi
    requires |ds| + 1 + e < |ShortestLoop(b, d, mlo, mhi, even, ds).ds|
    ensures !Accepts(q, e, d, 10 * Times(Number(ds), d) + b, mlo, mhi, even)
    decreases e
  {
    hide Quot, Rem, Times, Tenfold, Accepts, Number, Judge;
    var dig, r, x := Quot(b, d), Rem(b, d), 10 * Times(Number(ds), d) + b;
    SplitAt(Number(ds), b, d);
    NumberSnoc(ds, dig);
    assert Judge(dig, r, d, mlo, mhi, even) == Continue;
    if e == 0 {
      ContinueMeansNone(Number(ds + [dig]), q, r, d, x, mlo, mhi, dig, even);
    } else {
      LoopMinimal(10 * r, d, 10 * mlo, 10 * mhi, even, ds + [dig], e - 1, q);
      AcceptsTenfold(q, e - 1, d, x, mlo, mhi, even);
    }
  }

  // ----- the digits themselves -----

  /** Adding one in the last place, with the carry through trailing nines. */
  lemma {:induction false} RoundUpAt(ds: seq<int>)
    requires |ds| > 0 && AllDigits(ds)
    ensures At(RoundUp(ds), |ds|) == Number(ds) + 1
  {
    hide Number, At, Tenfold;
    var n := |ds| - 1;
    assert ds == ds[..n] + [ds[n]];
    NumberSnoc(ds[..n], ds[n]);
    if ds[n] != 9 {
      var up := ds[..n] + [ds[n] + 1];
      NumberSnoc(ds[..n], ds[n] + 1);
      AtLength(up);
    } else if n == 0 {
      EmptyNumber();
      TenAt();
    } else {
      RoundUpAt(ds[..n]);
      AtNext(RoundUp(ds[..n]), n);
    }
  }

  lemma {:induction false} AtLength(ds: seq<int>)
    ensures At(Output(ds, false), |ds|) == Number(ds)
  {
  }

  lemma {:induction false} TenAt()
    ensures At(Output([1], true), 1) == 10
  {
    NumberSnoc([], 1);
    assert [] + [1] == [1];
  }

  /** One more digit before the point. */
  lemma {:induction false} AtNext(r: Output, n: nat)
    requires |r.digits| <= n
    ensures At(r, n + 1) == 10 * At(r, n)
  {
    hide Number;
  }

  lemma {:induction false} RoundUpDigits(ds: seq<int>)
    requires |ds| > 0 && AllDigits(ds)
    ensures var r := RoundUp(ds);
            && AllDigits(r.digits) && 1 <= r.digits[|r.digits| - 1]
            && (1 <= ds[0] ==> 1 <= r.digits[0])
            && (ds[|ds| - 1] != 9 ==> |r.digits| == |ds|)
  {
    var n := |ds| - 1;
    if ds[n] == 9 && n > 0 {
      RoundUpDigits(ds[..n]);
    }
  }

  predicate AllNines(ds: seq<int>)
  {
    forall i :: 0 <= i < |ds| ==> ds[i] == 9
  }

  /** The exponent is raised exactly when every digit is a 9, and then the digit 1 is left. */
  lemma {:induction false} RoundUpBump(ds: seq<int>)
    requires |ds| > 0
    ensures RoundUp(ds).bump <==> AllNines(ds)
    ensures AllNines(ds) ==> RoundUp(ds).digits == [1]
  {
    var n := |ds| - 1;
    if ds[n] == 9 && n > 0 {
      RoundUpBump(ds[..n]);
      assert forall i :: 0 <= i < n ==> ds[..n][i] == ds[i];
    }
  }

  lemma {:induction false} StripZerosAt(ds: seq<int>)
    requires |ds| > 0 && AllDigits(ds)
    ensures var r := StripZeros(ds);
            && At(r, |ds|) == Number(ds)
            && r.digits <= ds
            && (1 <= ds[0] ==> 1 <= r.digits[|r.digits| - 1])
  {
    var n := |ds| - 1;
    if n > 0 && ds[n] == 0 {
      StripZerosAt(ds[..n]);
    }
  }

  lemma {:induction false} TimesTen(q: int, d: int)
    ensures Times(10 * q, d) == 10 * Times(q, d)
  {
    MulTen(q, d);
  }

  lemma {:induction false} MulTen(q: int, d: int)
    ensures (10 * q) * d == 10 * (q * d)
  {
  }

  /** The loop never stops with a digit that a shorter number could have dropped. */
  lemma {:induction false} NothingToDrop(b: nat, d: nat, mlo: nat, mhi: nat, even: bool)
    requires 0 < d && b < 10 * d && 0 < mlo && 0 < mhi
    ensures var s := ShortestLoop(b, d, mlo, mhi, even, []);
            var last := s.ds[|s.ds| - 1];
            |s.ds| > 1 ==> last != (if s.up then 9 else 0)
  {
    hide Times, Quot, Rem, Judge;
    var s := ShortestLoop(b, d, mlo, mhi, even, []);
    var n := |s.ds| - 1;
    if n > 0 && s.ds[n] == (if s.up then 9 else 0) {
      var q := Number(s.ds[..n]) + if s.up then 1 else 0;
      assert Stopped(s) == 10 * q;
      assert Number([]) == 0;
      TimesZero(d);
      LoopAccepts(b, d, mlo, mhi, even, []);
      TimesTen(q, d);
      assert Accepts(q, n - 1, d, b, mlo, mhi, even);
      LoopMinimal(b, d, mlo, mhi, even, [], n - 1, q);
    }
  }

  lemma {:induction false} TimesZero(d: int)
    ensures Times(0, d) == 0
  {
  }

  /** Mode 0 keeps every digit its loop took: the carry can only happen at the first digit. */
  lemma {:induction false} ShortestShape(b: nat, d: nat, mlo: nat, mhi: nat, even: bool)
    requires 0 < d <= b < 10 * d && 0 < mlo && 0 < mhi
    ensures var s, r := ShortestLoop(b, d, mlo, mhi, even, []), ShortestDigits(b, d, mlo, mhi, even);
            var n := |r.digits|;
            && n == |s.ds| && At(r, n) == Stopped(s)
            && AllDigits(r.digits) && 1 <= r.digits[0] && 1 <= r.digits[n - 1]
            && (r.bump <==> s == Stop([9], true))
            && (r.bump ==> r.digits == [1])
  {
    hide Times, Quot, Rem, Judge, ShortestLoop, Accepts, RoundUp, Number;
    LoopDigits(b, d, mlo, mhi, even, []);
    NothingToDrop(b, d, mlo, mhi, even);
    var s := ShortestLoop(b, d, mlo, mhi, even, []);
    RoundUpAt(s.ds);
    RoundUpDigits(s.ds);
    RoundUpBump(s.ds);
    if s.up && AllNines(s.ds) {
      assert s.ds[|s.ds| - 1] == 9;
      assert s.ds == [9];
    }
  }

  /**
   Mode 0 is right: its digits read back as the double, no shorter digit string does, there
   is no leading or trailing zero, and the exponent is raised only for a single rounded 9.
   */
  lemma {:induction false} ShortestCorrect(b: nat, d: nat, mlo: nat, mhi: nat, even: bool)
    requires 0 < d <= b < 10 * d && 0 < mlo && 0 < mhi
    ensures var r := ShortestDigits(b, d, mlo, mhi, even);
            var n := |r.digits|;
            && Accepts(At(r, n), n - 1, d, b, mlo, mhi, even)
            && (forall e: nat, q :: e < n - 1 ==> !Accepts(q, e, d, b, mlo, mhi, even))
            && AllDigits(r.digits) && 1 <= r.digits[0] && 1 <= r.digits[n - 1]
            && (r.bump ==> r.digits == [1])
  {
    hide Times, Quot, Rem, Judge, ShortestLoop, Accepts, ShortestDigits, RoundUp;
    ShortestShape(b, d, mlo, mhi, even);
    assert Number([]) == 0;
    TimesZero(d);
    LoopAccepts(b, d, mlo, mhi, even, []);
    forall e: nat, q | e < |ShortestDigits(b, d, mlo, mhi, even).digits| - 1
      ensures !Accepts(q, e, d, b, mlo, mhi, even)
    {
      LoopMinimal(b, d, mlo, mhi, even, [], e, q);
    }
  }

  // ----- nearness -----

  /** How far q, with e digits after the first, is from the exact value. */
  function Distance(q: int, e: nat, d: int, x: int): (r: int)
    ensures r >= 0
  {
    var t := Times(q, d) - Tenfold(x, e);
    if t < 0 then -t else t
  }

  /** A first digit 9 that is nearer than 10, where the code prefers 10 on the even upper end. */
  predicate NineCorner(b: int, d: int, mlo: int, mhi: int, even: bool)
  {
    && even && b + mhi == 10 * d && 9 * d <= b < 10 * d
    && b - 9 * d <= mlo && 2 * (b - 9 * d) < d
    && !(b == 9 * d && d < 0x1_0000_0000)
  }

  lemma {:induction false} StopIsNearest(cut: int, r: int, d: int, x: int, mlo: int, mhi: int, dig: int, even: bool,
                                         q: int)
    requires 0 <= r < d && 0 < mlo <= mhi && x == Times(cut, d) + r
    requires Times(cut + 1, d) == Times(cut, d) + d
    requires Accepts(q, 0, d, x, mlo, mhi, even)
    ensures Judge(dig, r, d, mlo, mhi, even) == Down ==> Distance(cut, 0, d, x) <= Distance(q, 0, d, x)
    ensures Judge(dig, r, d, mlo, mhi, even) == Up ==>
              Distance(cut + 1, 0, d, x) <= Distance(q, 0, d, x)
              || (dig == 9 && even && CompareHigh(r, d, mhi) == 0 && r <= mlo && 2 * r < d)
  {
    hide Times;
    if q <= cut {
      if q < cut { TimesBelow(q, cut, d); }
    } else {
      if cut + 1 < q { TimesBelow(cut + 1, q, d); }
    }
  }

  /** No accepted number of the same length is nearer than q0. */
  ghost predicate NearestAccepted(q0: int, e: nat, d: int, x: int, mlo: int, mhi: int, even: bool)
  {
    forall q :: Accepts(q, e, d, x, mlo, mhi, even) ==> Distance(q0, e, d, x) <= Distance(q, e, d, x)
  }

  /** From any turn on: unless the loop stops by rounding up a 9, it stops at a nearest accepted number. */
  lemma {:induction false} LoopNearest(b: nat, d: nat, mlo: nat, mhi: nat, even: bool, ds: seq<int>, q: int)
    requires 0 < d && b < 10 * d && 0 < mlo <= mhi
    requires var s := ShortestLoop(b, d, mlo, mhi, even, ds);
             !(s.up && s.ds[|s.ds| - 1] == 9)
             && Accepts(q, |s.ds| - |ds| - 1, d, 10 * Times(Number(ds), d) + b, mlo, mhi, even)
    ensures var s := ShortestLoop(b, d, mlo, mhi, even, ds);
            var e, x := |s.ds| - |ds| - 1, 10 * Times(Number(ds), d) + b;
            Distance(Stopped(s), e, d, x) <= Distance(q, e, d, x)
    decreases if mlo < d then d - mlo else 0
  {
    hide Quot, Rem, Times, Tenfold, Accepts, Number, Judge, CompareHigh;
    var dig, r, x := Quot(b, d), Rem(b, d), 10 * Times(Number(ds), d) + b;
    SplitAt(Number(ds), b, d);
    NumberSnoc(ds, dig);
    var cut := Number(ds + [dig]);
    var s := ShortestLoop(b, d, mlo, mhi, even, ds);
    var e := |s.ds| - |ds| - 1;
    if Judge(dig, r, d, mlo, mhi, even) == Continue {
      ContinueMeansNone(cut, 0, r, d, x, mlo, mhi, dig, even);
      AcceptsTenfold(q, e - 1, d, x, mlo, mhi, even);
      LoopNearest(10 * r, d, 10 * mlo, 10 * mhi, even, ds + [dig], q);
      TenfoldUp(x, e - 1);
    } else {
      StopIsNearest(cut, r, d, x, mlo, mhi, dig, even, q);
    }
  }

  /** The first turn, for a number that ends up with a single digit. */
  lemma {:induction false} OneDigitNearest(b: nat, d: nat, mlo: nat, mhi: nat, even: bool, q: int)
    requires 0 < d && b < 10 * d && 0 < mlo <= mhi && !NineCorner(b, d, mlo, mhi, even)
    requires |ShortestLoop(b, d, mlo, mhi, even, []).ds| == 1 && Accepts(q, 0, d, b, mlo, mhi, even)
    ensures Distance(Stopped(ShortestLoop(b, d, mlo, mhi, even, [])), 0, d, b) <= Distance(q, 0, d, b)
  {
    hide Times, Judge, Quot, Rem;
    var dig, r := Quot(b, d), Rem(b, d);
    TimesZero(d);
    SplitAt(0, b, d);
    NineTimes(d);
    NumberSnoc([], dig);
    assert [] + [dig] == [dig];
    StopIsNearest(dig, r, d, b, mlo, mhi, dig, even, q);
  }

  lemma {:induction false} NineTimes(d: int)
    ensures Times(9, d) == 9 * d && Times(10, d) == 10 * d
  {
  }

  /**
   Among all numbers of its length that read back as the double, mode 0 gives a nearest one,
   with exactly one exception: a leading 9 that is the nearer choice gives way to 10 when 10
   is the upper end itself. The gap above is never smaller than the one below in the source.
   */
  lemma {:induction false} ShortestNearest(b: nat, d: nat, mlo: nat, mhi: nat, even: bool)
    requires 0 < d <= b < 10 * d && 0 < mlo <= mhi
    ensures var r := ShortestDigits(b, d, mlo, mhi, even);
            var n := |r.digits|;
            NearestAccepted(At(r, n), n - 1, d, b, mlo, mhi, even) <==> !NineCorner(b, d, mlo, mhi, even)
  {
    hide Times, Quot, Rem, Judge, ShortestLoop, Accepts, ShortestDigits, NineCorner, Distance;
    ShortestShape(b, d, mlo, mhi, even);
    NothingToDrop(b, d, mlo, mhi, even);
    assert Number([]) == 0;
    TimesZero(d);
    var n := |ShortestDigits(b, d, mlo, mhi, even).digits|;
    var e := n - 1;
    if NineCorner(b, d, mlo, mhi, even) {
      CornerIsFar(b, d, mlo, mhi, even);
    } else {
      forall q | Accepts(q, e, d, b, mlo, mhi, even)
        ensures Distance(Stopped(ShortestLoop(b, d, mlo, mhi, even, [])), e, d, b) <= Distance(q, e, d, b)
      {
        if n == 1 {
          OneDigitNearest(b, d, mlo, mhi, even, q);
        } else {
          LoopNearest(b, d, mlo, mhi, even, [], q);
        }
      }
    }
  }

  /** In the corner the answer is 10, and 9 is accepted and strictly nearer. */
  lemma {:induction false} CornerIsFar(b: nat, d: nat, mlo: nat, mhi: nat, even: bool)
    requires 0 < d && 0 < mlo <= mhi && NineCorner(b, d, mlo, mhi, even)
    ensures ShortestLoop(b, d, mlo, mhi, even, []) == Stop([9], true)
    ensures Stopped(Stop([9], true)) == 10
    ensures Accepts(9, 0, d, b, mlo, mhi, even)
    ensures Distance(9, 0, d, b) < Distance(10, 0, d, b)
  {
    hide Times, Quot, Rem, Judge, Accepts, Distance, Number;
    CornerDistances(b, d, mlo, mhi, even);
    NineQuotient(b, d);
    assert [] + [9] == [9];
    NumberSnoc([], 9);
    EmptyNumber();
  }

  lemma {:induction false} CornerDistances(b: nat, d: nat, mlo: nat, mhi: nat, even: bool)
    requires 0 < d && 0 < mlo <= mhi && NineCorner(b, d, mlo, mhi, even)
    ensures Judge(9, b - 9 * d, d, mlo, mhi, even) == Up
    ensures Accepts(9, 0, d, b, mlo, mhi, even)
    ensures Distance(9, 0, d, b) < Distance(10, 0, d, b)
  {
    hide Times;
    NineTimes(d);
  }

  lemma {:induction false} EmptyNumber()
    ensures Number([]) == 0
  {
  }

  lemma {:induction false} NineQuotient(b: int, d: int)
    requires 0 < d && 9 * d <= b < 10 * d
    ensures Quot(b, d) == 9 && Rem(b, d) == b - 9 * d
  {
    var q, r := b / d, b % d;
    assert b == q * d + r;
    if q < 9 { MulMono(q, 8, d); }
    if 9 < q { MulMono(10, q, d); }
  }

  /** The corner exists: 9.4 with half-gaps of 0.6, over a divisor aligned for `quorem`. */
  lemma {:induction false} CornerWitness()
    ensures NineCorner(94 * 0x100_0000, 10 * 0x100_0000, 6 * 0x100_0000, 6 * 0x100_0000, true)
    ensures ShortestDigits(94 * 0x100_0000, 10 * 0x100_0000, 6 * 0x100_0000, 6 * 0x100_0000, true) == Output([1], true)
  {
    CornerIsFar(94 * 0x100_0000, 10 * 0x100_0000, 6 * 0x100_0000, 6 * 0x100_0000, true);
  }

  // ----- the fixed-length loop -----

  /** The last digit is rounded to nearest, a tie to the even digit. */
  predicate RoundsUp(dig: int, r: int, d: int)
  {
    2 * r > d || (2 * r == d && dig % 2 == 1)
  }

  /** At most `ilim` digits; the loop leaves early when nothing remains. */
  function FixedLoop(b: nat, d: nat, ilim: nat, ds: seq<int>): (r: Output)
    requires 0 < d && b < 10 * d && |ds| < ilim
    ensures 0 < |r.digits| <= ilim
    decreases ilim - |ds|
  {
    var dig, rest := Quot(b, d), Rem(b, d);
    var ds' := ds + [dig];
    if rest == 0 then Output(ds', false)
    else if |ds'| < ilim then FixedLoop(10 * rest, d, ilim, ds')
    else if RoundsUp(dig, rest, d) then RoundUp(ds')
    else StripZeros(ds')
  }

  lemma {:induction false} TimesTenfold(q: int, d: int, e: nat)
    ensures Times(Tenfold(q, e), d) == Tenfold(Times(q, d), e)
  {
    if e > 0 {
      TimesTenfold(q, d, e - 1);
      TimesTen(Tenfold(q, e - 1), d);
    }
  }

  /** q is a nearest number with e digits after the first, and the even one of two. */
  ghost predicate RoundedToEven(q: int, e: nat, d: int, x: int)
  {
    2 * Distance(q, e, d, x) <= d && (2 * Distance(q, e, d, x) == d ==> q % 2 == 0)
  }

  /** Rounding the last digit up or leaving it. */
  lemma {:induction false} LastDigitRounded(cut: int, dig: int, r: int, d: int, x: int)
    requires 0 <= r < d && x == Times(cut, d) + r && Times(cut + 1, d) == Times(cut, d) + d
    requires cut % 2 == dig % 2
    ensures RoundedToEven(if RoundsUp(dig, r, d) then cut + 1 else cut, 0, d, x)
  {
    hide Times;
  }

  lemma {:induction false} RoundedTenfold(q: int, e: nat, d: int, x: int)
    ensures RoundedToEven(q, e + 1, d, x) <==> RoundedToEven(q, e, d, 10 * x)
  {
    TenfoldUp(x, e);
  }

  /** With nothing left over, the digits so far are exact at any length. */
  lemma {:induction false} ExactDigits(ds: seq<int>, n: nat, d: nat)
    requires |ds| <= n && d > 0
    ensures RoundedToEven(At(Output(ds, false), n), n - |ds|, d, Times(Number(ds), d))
  {
    TimesTenfold(Number(ds), d, n - |ds|);
  }

  /** From any turn on, the output is the exact value rounded to `ilim` digits. */
  lemma {:induction false} FixedRounded(b: nat, d: nat, ilim: nat, ds: seq<int>)
    requires 0 < d && b < 10 * d && |ds| < ilim && AllDigits(ds)
    ensures RoundedToEven(At(FixedLoop(b, d, ilim, ds), ilim), ilim - |ds| - 1, d, 10 * Times(Number(ds), d) + b)
    decreases ilim - |ds|
  {
    hide Times, Quot, Rem, Tenfold, RoundedToEven, RoundsUp, RoundUp, StripZeros, At, Number;
    var dig, rest, x := Quot(b, d), Rem(b, d), 10 * Times(Number(ds), d) + b;
    var ds' := ds + [dig];
    SplitAt(Number(ds), b, d);
    NumberSnoc(ds, dig);
    if rest == 0 {
      ExactDigits(ds', ilim, d);
    } else if |ds'| < ilim {
      FixedRounded(10 * rest, d, ilim, ds');
      RoundedTenfold(At(FixedLoop(b, d, ilim, ds), ilim), ilim - |ds| - 2, d, x);
    } else {
      LastDigitRounded(Number(ds'), dig, rest, d, x);
      RoundUpAt(ds');
      StripZerosAt(ds');
    }
  }

  /** The digits are digits, the last one is not zero, and the first one given is kept. */
  lemma {:induction false} FixedDigits(b: nat, d: nat, ilim: nat, ds: seq<int>)
    requires 0 < d && 0 < b < 10 * d && |ds| < ilim && AllDigits(ds)
    requires if ds == [] then d <= b else 1 <= ds[0]
    ensures var r := FixedLoop(b, d, ilim, ds);
            && AllDigits(r.digits) && 1 <= r.digits[0] && 1 <= r.digits[|r.digits| - 1]
            && (r.bump ==> r.digits == [1])
    decreases ilim - |ds|
  {
    hide Times, Quot, Rem, Tenfold, RoundedToEven, RoundsUp, RoundUp, At, Number;
    var dig, rest := Quot(b, d), Rem(b, d);
    var ds' := ds + [dig];
    SplitAt(0, b, d);
    TimesZero(d);
    assert ds'[0] == if ds == [] then dig else ds[0];
    if rest == 0 {
      assert dig != 0;
    } else if |ds'| < ilim {
      FixedDigits(10 * rest, d, ilim, ds');
    } else {
      RoundUpDigits(ds');
      RoundUpBump(ds');
      StripZerosAt(ds');
    }
  }

  lemma {:induction false} NumberBound(ds: seq<int>)
    requires AllDigits(ds)
    ensures 0 <= Number(ds) < Tenfold(1, |ds|)
  {
    if |ds| > 0 { NumberBound(ds[..|ds| - 1]); }
  }

  lemma {:induction false} TenfoldTenfold(x: int, e: nat, f: nat)
    ensures Tenfold(Tenfold(x, e), f) == Tenfold(x, e + f)
  {
    if f > 0 { TenfoldTenfold(x, e, f - 1); }
  }

  /** Only a raised exponent reaches the next power of ten. */
  lemma {:induction false} BumpIsNextPower(r: Output, n: nat)
    requires 0 < |r.digits| <= n && AllDigits(r.digits) && (r.bump ==> r.digits == [1])
    ensures r.bump <==> At(r, n) == Tenfold(1, n)
  {
    if r.bump {
      assert [1] == [] + [1];
      NumberSnoc([], 1);
    } else {
      var m := |r.digits|;
      NumberBound(r.digits);
      TenfoldMono(Number(r.digits), Tenfold(1, m), n - m);
      TenfoldTenfold(1, m, n - m);
    }
  }

  /** No number of the same length at all is nearer than q. */
  ghost predicate Nearest(q: int, e: nat, d: int, x: int)
  {
    forall q' :: Distance(q, e, d, x) <= Distance(q', e, d, x)
  }

  /** Being within half a unit is being nearest. */
  lemma {:induction false} HalfIsNearest(q: int, e: nat, d: nat, x: int)
    requires d > 0 && 2 * Distance(q, e, d, x) <= d
    ensures Nearest(q, e, d, x)
  {
    hide Times, Tenfold;
    forall q' ensures Distance(q, e, d, x) <= Distance(q', e, d, x) {
      if q < q' { TimesBelow(q, q', d); }
      if q' < q { TimesBelow(q', q, d); }
    }
  }

  /**
   The fixed-length loop is right: its output is the nearest number of `ilim` digits, ties to
   even, without leading or trailing zeros, and the exponent is raised exactly when rounding
   reaches the next power of ten.
   */
  lemma {:induction false} FixedCorrect(b: nat, d: nat, ilim: nat)
    requires 0 < d <= b < 10 * d && 1 <= ilim
    ensures var r := FixedLoop(b, d, ilim, []);
            var q := At(r, ilim);
            && RoundedToEven(q, ilim - 1, d, b)
            && Nearest(q, ilim - 1, d, b)
            && AllDigits(r.digits) && 1 <= r.digits[0] && 1 <= r.digits[|r.digits| - 1]
            && (r.bump <==> q == Tenfold(1, ilim))
  {
    hide Times, FixedLoop, At, Distance;
    EmptyNumber();
    TimesZero(d);
    FixedRounded(b, d, ilim, []);
    FixedDigits(b, d, ilim, []);
    var r := FixedLoop(b, d, ilim, []);
    BumpIsNextPower(r, ilim);
    HalfIsNearest(At(r, ilim), ilim - 1, d, b);
  }
}
