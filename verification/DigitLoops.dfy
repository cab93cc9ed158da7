/**
 The two integer digit loops of `dtoa` (`lae/source/dtoa.c`), run on the multi-word numbers
 of `Bigints` with the calls the C code makes, and shown to produce what `DigitSpec` says.
 */
module DigitLoops {
  import opened Words
  import opened Bigints
  import opened DigitSpec

  /** A positive operand: in use, not a cache node, stored with at least one word. */
  ghost predicate Operand(num: map<Bigint, Num>, p5s: seq<Bigint>, b: Bigint, v: int)
  {
    b in num && b !in p5s && v > 0 && num[b] == Num(v, false, false)
  }

  /** A block that is rewritten or replaced leaves the other operands where they were. */
  ghost predicate Replaced(num0: map<Bigint, Num>, b0: Bigint, num1: map<Bigint, Num>, b1: Bigint, n: Num)
  {
    (b1 == b0 || b1 !in num0) && num1 == (num0 - {b0})[b1 := n]
  }

  /** The comparisons of one turn: remainder against lower gap, and against divisor less upper gap. */
  method CompareGaps(p: Dtoa, b: Bigint, S: Bigint, mlo: Bigint, mhi: Bigint, ghost r: nat, ghost d: nat,
                     ghost lo: nat, ghost hi: nat)
    returns (j: int, j1: int)
    requires p.Valid() && Operand(p.num, p.p5s, S, d) && Operand(p.num, p.p5s, mlo, lo)
       && Operand(p.num, p.p5s, mhi, hi)
    requires b in p.num && p.num[b] == Num(r, r == 0 && d < 0x1_0000_0000, false)
    modifies p, p.repr
    ensures p.Valid() && fresh(p.repr - old(p.repr)) && p.p5s == old(p.p5s) && p.num == old(p.num)
    ensures Sign(j) == Sign(r - lo) && Sign(j1) == CompareHigh(r, d, hi)
  {
    hide Dtoa.Valid;
    j := p.Cmp(b, mlo);
    p.CacheInUse();
    var delta := p.Diff(S, mhi);
    p.InUse(delta);
    if delta.sign != 0 {
      j1 := 1;
    } else {
      j1 := p.Cmp(b, delta);
    }
    p.Bfree(delta);
  }

  /** The rounding test inside a turn: doubles the remainder and compares it with the divisor. */
  method DoubleAndCompare(p: Dtoa, b: Bigint, S: Bigint, ghost r: nat, ghost d: nat) returns (b': Bigint, j: int)
    requires p.Valid() && Operand(p.num, p.p5s, b, r) && Operand(p.num, p.p5s, S, d) && b != S
    modifies p, p.repr
    ensures p.Valid() && fresh(p.repr - old(p.repr)) && p.p5s == old(p.p5s)
    ensures Replaced(old(p.num), b, p.num, b', Num(2 * r, false, false))
    ensures Sign(j) == Sign(2 * r - d)
  {
    hide Dtoa.Valid;
    assert Two(1) == 2 by { TwoStep(0); TwoZero(); }
    b' := p.Lshift(b, 1);
    j := p.Cmp(b', S);
  }

  /**
   One turn of the shortest loop up to its decision: the digit, and whether to go on. The
   remainder stays in a block in use, doubled if the rounding test needed that.
   */
  method Turn(p: Dtoa, b: Bigint, S: Bigint, mlo: Bigint, mhi: Bigint, even: bool,
              ghost v: nat, ghost d: nat, ghost lo: nat, ghost hi: nat)
    returns (dig: int, verdict: Verdict, b': Bigint, ghost n: Num)
    requires p.Valid() && Operand(p.num, p.p5s, b, v) && Operand(p.num, p.p5s, S, d)
    requires Operand(p.num, p.p5s, mlo, lo) && Operand(p.num, p.p5s, mhi, hi)
    requires b != S && b != mlo && b != mhi && Aligned(d) && v < 10 * d
    modifies p, p.repr
    ensures p.Valid() && fresh(p.repr - old(p.repr)) && p.p5s == old(p.p5s)
    ensures dig == Quot(v, d) && verdict == Judge(dig, Rem(v, d), d, lo, hi, even)
    ensures Replaced(old(p.num), b, p.num, b', n) && b' !in p.p5s
    ensures verdict == Continue ==> n == Num(Rem(v, d), false, false) && Rem(v, d) > 0
  {
    hide Dtoa.Valid, Aligned;
    p.CacheInUse();
    p.InUse(b);
    p.Owned(b);
    dig := p.Quorem(b, S);
    ghost var r := Rem(v, d);
    n := Num(r, r == 0 && d < 0x1_0000_0000, false);
    SmallRemainder(v, d);
    assert p.num == old(p.num)[b := n];
    b' := b;
    var j, j1 := CompareGaps(p, b, S, mlo, mhi, r, d, lo, hi);
    if j1 == 0 && even {
      verdict := if dig == 9 || j > 0 then Up else Down;
    } else if j < 0 || (j == 0 && even) {
      p.InUse(b);
      ZeroTest(b, n);
      verdict := Down;
      if !(b.x[0] == 0 && b.wds <= 1) && j1 > 0 {
        var j2;
        b', j2 := DoubleAndCompare(p, b, S, r, d);
        n := Num(2 * r, false, false);
        if j2 > 0 || (j2 == 0 && dig % 2 == 1) {
          verdict := Up;
        }
      }
    } else if j1 > 0 {
      verdict := Up;
    } else {
      verdict := Continue;
    }
  }

  lemma SmallRemainder(v: nat, d: nat)
    requires d > 0
    ensures v < d ==> v / d == 0 && v % d == v
  {
  }

  /** The zero test of the C code, on a trimmed number. */
  lemma ZeroTest(b: Bigint, n: Num)
    requires b.Holds(n) && b.x.Length > 0
    ensures (b.x[0] == 0 && b.wds <= 1) <==> n.value == 0
  {
    hide Val;
    var s := b.x[..b.wds];
    if b.wds == 0 {
      NoWords(0, 0);
      assert s == [];
    } else if b.wds == 1 {
      assert s == [] + [b.x[0]];
      ValSnoc([], b.x[0]);
      NoWords(b.x[0], 0);
    } else {
      ValTop(s);
      ShlGrows(0, b.wds - 1);
    }
  }

  /** The operands of the shortest loop; the two gaps may share one block. */
  ghost predicate Operands(num: map<Bigint, Num>, p5s: seq<Bigint>, b: Bigint, S: Bigint, mlo: Bigint, mhi: Bigint,
                           v: int, d: int, lo: int, hi: int)
  {
    && Operand(num, p5s, b, v) && Operand(num, p5s, S, d) && Operand(num, p5s, mlo, lo) && Operand(num, p5s, mhi, hi)
    && b != S && b != mlo && b != mhi && S != mlo && S != mhi
  }

  /** Multiplies one operand by ten. */
  method TimesTenOperand(p: Dtoa, b: Bigint, ghost v: nat) returns (b': Bigint)
    requires p.Valid() && Operand(p.num, p.p5s, b, v)
    modifies p, p.repr
    ensures p.Valid() && fresh(p.repr - old(p.repr)) && p.p5s == old(p.p5s)
    ensures Replaced(old(p.num), b, p.num, b', Num(10 * v, false, false)) && b' !in p.p5s
  {
    hide Dtoa.Valid;
    p.CacheInUse();
    b' := p.MultAdd(b, 10, 0);
  }

  /** An operand beside the one that was replaced is still there. */
  lemma Moved(num0: map<Bigint, Num>, b0: Bigint, num1: map<Bigint, Num>, b1: Bigint, n: Num,
              p5s: seq<Bigint>, c: Bigint, v: int)
    requires Replaced(num0, b0, num1, b1, n) && Operand(num0, p5s, c, v) && c != b0
    ensures Operand(num1, p5s, c, v) && c != b1
  {
  }

  lemma MovedOthers(num0: map<Bigint, Num>, b0: Bigint, num1: map<Bigint, Num>, b1: Bigint, n: Num, cs: set<Bigint>)
    requires Replaced(num0, b0, num1, b1, n) && cs <= num0.Keys
    ensures num1 - ({b1} + cs) == num0 - ({b0} + cs)
  {
  }

  /** Both gaps times ten, in one block if they share one. */
  method TimesTenGaps(p: Dtoa, mlo: Bigint, mhi: Bigint, ghost lo: nat, ghost hi: nat,
                      ghost b: Bigint, ghost S: Bigint, ghost v: nat, ghost d: nat)
    returns (mlo': Bigint, mhi': Bigint)
    requires p.Valid() && Operands(p.num, p.p5s, b, S, mlo, mhi, v, d, lo, hi)
    modifies p, p.repr
    ensures p.Valid() && fresh(p.repr - old(p.repr)) && p.p5s == old(p.p5s)
    ensures Operands(p.num, p.p5s, b, S, mlo', mhi', v, d, 10 * lo, 10 * hi)
    ensures p.num - {b, S, mlo', mhi'} == old(p.num) - {b, S, mlo, mhi}
  {
    hide Dtoa.Valid;
    if mlo == mhi {
      mhi' := TimesTenOperand(p, mhi, hi);
      mlo' := mhi';
    } else {
      mlo' := TimesTenOperand(p, mlo, lo);
      mhi' := TimesTenOperand(p, mhi, hi);
    }
  }

  /** What is left for the next turn: all operands times ten. */
  method NextTurn(p: Dtoa, b: Bigint, S: Bigint, mlo: Bigint, mhi: Bigint,
                  ghost v: nat, ghost d: nat, ghost lo: nat, ghost hi: nat)
    returns (b': Bigint, mlo': Bigint, mhi': Bigint)
    requires p.Valid() && Operands(p.num, p.p5s, b, S, mlo, mhi, v, d, lo, hi)
    modifies p, p.repr
    ensures p.Valid() && fresh(p.repr - old(p.repr)) && p.p5s == old(p.p5s)
    ensures Operands(p.num, p.p5s, b', S, mlo', mhi', 10 * v, d, 10 * lo, 10 * hi)
    ensures p.num - {b', S, mlo', mhi'} == old(p.num) - {b, S, mlo, mhi}
  {
    hide Dtoa.Valid;
    b' := TimesTenOperand(p, b, v);
    ghost var num1 := p.num;
    Moved(old(p.num), b, num1, b', Num(10 * v, false, false), p.p5s, S, d);
    Moved(old(p.num), b, num1, b', Num(10 * v, false, false), p.p5s, mlo, lo);
    Moved(old(p.num), b, num1, b', Num(10 * v, false, false), p.p5s, mhi, hi);
    mlo', mhi' := TimesTenGaps(p, mlo, mhi, lo, hi, b', S, 10 * v, d);
    assert old(p.num) - {b, S, mlo, mhi} == num1 - {b', S, mlo, mhi} by {
      MovedOthers(old(p.num), b, num1, b', Num(10 * v, false, false), {S, mlo, mhi});
      assert {b} + {S, mlo, mhi} == {b, S, mlo, mhi} && {b'} + {S, mlo, mhi} == {b', S, mlo, mhi};
    }
  }

  /** `roundoff`: walks back over trailing nines and adds one, or leaves a single 1. */
  method RoundOff(ds: seq<int>) returns (r: Output)
    requires |ds| > 0
    ensures r == RoundUp(ds)
  {
    var s := ds;
    while s[|s| - 1] == 9
      invariant |s| > 0 && RoundUp(s) == RoundUp(ds)
      decreases |s|
    {
      if |s| == 1 {
        return Output([1], true);
      }
      s := s[..|s| - 1];
    }
    r := Output(s[..|s| - 1] + [s[|s| - 1] + 1], false);
  }

  /** `trimzeros`: walks back over trailing zeros. */
  method TrimZeros(ds: seq<int>) returns (r: Output)
    requires |ds| > 0 && ds[0] != 0
    ensures r == StripZeros(ds)
  {
    var s := ds;
    while s[|s| - 1] == 0
      invariant |s| > 0 && s[0] == ds[0] && StripZeros(s) == StripZeros(ds)
      decreases |s|
    {
      s := s[..|s| - 1];
    }
    r := Output(s, false);
  }

  /** The end of `dtoa`: every number it worked with goes back to the free lists. */
  method FreeAll(p: Dtoa, b: Bigint, S: Bigint, mlo: Bigint, mhi: Bigint)
    requires p.Valid() && {b, S, mlo, mhi} <= p.num.Keys
    requires b !in p.p5s && S !in p.p5s && mlo !in p.p5s && mhi !in p.p5s
    requires b != S && b != mlo && b != mhi && S != mlo && S != mhi
    modifies p, p.repr
    ensures p.Valid() && p.repr == old(p.repr) && p.p5s == old(p.p5s)
    ensures p.num == old(p.num) - {b, S, mlo, mhi}
  {
    hide Dtoa.Valid;
    p.Bfree(S);
    if mlo != mhi {
      p.Bfree(mlo);
    }
    p.Bfree(mhi);
    p.Bfree(b);
  }

  lemma GoesOn(dig: int, r: int, d: int, lo: int, hi: int, even: bool)
    requires Judge(dig, r, d, lo, hi, even) == Continue
    ensures lo <= r
  {
  }

  /**
   The mode-0 loop. It ends for all positive operands, returns exactly the digits that
   `DigitSpec.ShortestDigits` describes, and gives back every block it was handed.
   */
  method Shortest(p: Dtoa, b0: Bigint, S: Bigint, mlo0: Bigint, mhi0: Bigint, even: bool)
    returns (out: Output)
    requires p.Valid()
    requires b0 in p.num && S in p.num && mlo0 in p.num && mhi0 in p.num
    requires Operands(p.num, p.p5s, b0, S, mlo0, mhi0,
                      p.num[b0].value, p.num[S].value, p.num[mlo0].value, p.num[mhi0].value)
    requires Aligned(p.num[S].value) && p.num[b0].value < 10 * p.num[S].value
    modifies p, p.repr
    ensures p.Valid() && fresh(p.repr - old(p.repr)) && p.p5s == old(p.p5s)
    ensures out == ShortestDigits(old(p.num)[b0].value, old(p.num)[S].value,
                                  old(p.num)[mlo0].value, old(p.num)[mhi0].value, even)
    ensures p.num == old(p.num) - {b0, S, mlo0, mhi0}
  {
    hide Dtoa.Valid, Aligned, ShortestLoop;
    var s, up, b, mlo, mhi := ShortestTurns(p, b0, S, mlo0, mhi0, even);
    if up {
      out := RoundOff(s);
    } else {
      out := Output(s, false);
    }
    FreeAll(p, b, S, mlo, mhi);
  }

  /** The turns of the mode-0 loop, up to its last digit and whether that is rounded up. */
  method ShortestTurns(p: Dtoa, b0: Bigint, S: Bigint, mlo0: Bigint, mhi0: Bigint, even: bool)
    returns (s: seq<int>, up: bool, b: Bigint, mlo: Bigint, mhi: Bigint)
    requires p.Valid()
    requires b0 in p.num && S in p.num && mlo0 in p.num && mhi0 in p.num
    requires Operands(p.num, p.p5s, b0, S, mlo0, mhi0,
                      p.num[b0].value, p.num[S].value, p.num[mlo0].value, p.num[mhi0].value)
    requires Aligned(p.num[S].value) && p.num[b0].value < 10 * p.num[S].value
    modifies p, p.repr
    ensures p.Valid() && fresh(p.repr - old(p.repr)) && p.p5s == old(p.p5s)
    ensures |s| > 0 && Stop(s, up) == ShortestLoop(old(p.num)[b0].value, old(p.num)[S].value,
                                                   old(p.num)[mlo0].value, old(p.num)[mhi0].value, even, [])
    ensures {b, S, mlo, mhi} <= p.num.Keys
    ensures b !in p.p5s && S !in p.p5s && mlo !in p.p5s && mhi !in p.p5s
    ensures b != S && b != mlo && b != mhi && S != mlo && S != mhi
    ensures p.num - {b, S, mlo, mhi} == old(p.num) - {b0, S, mlo0, mhi0}
  {
    hide Dtoa.Valid, Aligned, ShortestLoop, Judge, Quot, Rem;
    b, mlo, mhi := b0, mlo0, mhi0;
    ghost var v, d, lo, hi := p.num[b].value, p.num[S].value, p.num[mlo].value, p.num[mhi].value;
    ghost var goal, others := ShortestLoop(v, d, lo, hi, even, []), p.num - {b, S, mlo, mhi};
    s := [];
    var verdict := Continue;
    while true
      invariant p.Valid() && fresh(p.repr - old(p.repr)) && p.p5s == old(p.p5s)
      invariant Operands(p.num, p.p5s, b, S, mlo, mhi, v, d, lo, hi)
      invariant v < 10 * d && goal == ShortestLoop(v, d, lo, hi, even, s)
      invariant p.num - {b, S, mlo, mhi} == others
      decreases if lo < d then d - lo else 0
    {
      var dig;
      ghost var n;
      Unfold(v, d, lo, hi, even, s);
      dig, verdict, b, n := Turn(p, b, S, mlo, mhi, even, v, d, lo, hi);
      s := s + [dig];
      if verdict != Continue {
        break;
      }
      v := Rem(v, d);
      GoesOn(dig, v, d, lo, hi, even);
      b, mlo, mhi := NextTurn(p, b, S, mlo, mhi, v, d, lo, hi);
      v, lo, hi := 10 * v, 10 * lo, 10 * hi;
    }
    up := verdict == Up;
  }

  lemma Unfold(b: nat, d: nat, mlo: nat, mhi: nat, even: bool, ds: seq<int>)
    requires 0 < d && b < 10 * d && 0 < mlo
    ensures var dig, r := Quot(b, d), Rem(b, d);
            var s := ShortestLoop(b, d, mlo, mhi, even, ds);
            && 0 <= r < d
            && match Judge(dig, r, d, mlo, mhi, even)
               case Continue => s == ShortestLoop(10 * r, d, 10 * mlo, 10 * mhi, even, ds + [dig])
               case Down => s == Stop(ds + [dig], false)
               case Up => s == Stop(ds + [dig], true)
  {
  }

  /** The last step of the fixed-length loop: doubles the remainder to round, then trims. */
  method RoundLast(p: Dtoa, b: Bigint, S: Bigint, s: seq<int>, dig: int, ghost r: nat, ghost d: nat)
    returns (out: Output, b': Bigint)
    requires p.Valid() && Operand(p.num, p.p5s, b, r) && Operand(p.num, p.p5s, S, d) && b != S
    requires |s| > 0 && s[0] != 0
    modifies p, p.repr
    ensures p.Valid() && fresh(p.repr - old(p.repr)) && p.p5s == old(p.p5s)
    ensures Replaced(old(p.num), b, p.num, b', Num(2 * r, false, false)) && b' !in p.p5s
    ensures out == if RoundsUp(dig, r, d) then RoundUp(s) else StripZeros(s)
  {
    hide Dtoa.Valid, RoundUp, StripZeros;
    p.CacheInUse();
    var j;
    b', j := DoubleAndCompare(p, b, S, r, d);
    if j > 0 || (j == 0 && dig % 2 == 1) {
      out := RoundOff(s);
    } else {
      out := TrimZeros(s);
    }
  }

  /** One digit of the fixed-length loop, and whether anything remains. */
  method NextDigit(p: Dtoa, b: Bigint, S: Bigint, ghost v: nat, ghost d: nat) returns (dig: int, done: bool)
    requires p.Valid() && Operand(p.num, p.p5s, b, v) && Operand(p.num, p.p5s, S, d) && b != S
    requires Aligned(d) && v < 10 * d
    modifies p, p.repr
    ensures p.Valid() && p.repr == old(p.repr) && p.p5s == old(p.p5s)
    ensures dig == Quot(v, d) && (done <==> Rem(v, d) == 0)
    ensures p.num == old(p.num)[b := Num(Rem(v, d), Rem(v, d) == 0 && d < 0x1_0000_0000, false)]
  {
    hide Dtoa.Valid, Aligned;
    p.InUse(b);
    p.Owned(b);
    dig := p.Quorem(b, S);
    SmallRemainder(v, d);
    p.InUse(b);
    ZeroTest(b, p.num[b]);
    done := b.x[0] == 0 && b.wds <= 1;
  }

  /** The fixed-length loop: exactly the digits of `DigitSpec.FixedLoop`, and both blocks given back. */
  method Fixed(p: Dtoa, b0: Bigint, S: Bigint, ilim: nat) returns (out: Output)
    requires p.Valid() && b0 in p.num && S in p.num && b0 != S && 1 <= ilim
    requires Operand(p.num, p.p5s, b0, p.num[b0].value) && Operand(p.num, p.p5s, S, p.num[S].value)
    requires Aligned(p.num[S].value) && p.num[S].value <= p.num[b0].value < 10 * p.num[S].value
    modifies p, p.repr
    ensures p.Valid() && fresh(p.repr - old(p.repr)) && p.p5s == old(p.p5s)
    ensures out == FixedLoop(old(p.num)[b0].value, old(p.num)[S].value, ilim, [])
    ensures p.num == old(p.num) - {b0, S}
  {
    hide Dtoa.Valid, Aligned, FixedLoop, Quot, Rem, RoundUp, StripZeros, RoundsUp;
    ghost var r;
    var s, dig, b, done;
    s, dig, b, done, r := FixedTurns(p, b0, S, ilim);
    if done {
      out := Output(s, false);
    } else {
      ghost var d := p.num[S].value;
      out, b := RoundLast(p, b, S, s, dig, r, d);
    }
    p.Bfree(S);
    p.Bfree(b);
  }

  /** The turns of the fixed-length loop, up to where it leaves: exactly, or for want of room. */
  method FixedTurns(p: Dtoa, b0: Bigint, S: Bigint, ilim: nat)
    returns (s: seq<int>, dig: int, b: Bigint, done: bool, ghost r: nat)
    requires p.Valid() && b0 in p.num && S in p.num && b0 != S && 1 <= ilim
    requires Operand(p.num, p.p5s, b0, p.num[b0].value) && Operand(p.num, p.p5s, S, p.num[S].value)
    requires Aligned(p.num[S].value) && p.num[S].value <= p.num[b0].value < 10 * p.num[S].value
    modifies p, p.repr
    ensures p.Valid() && fresh(p.repr - old(p.repr)) && p.p5s == old(p.p5s)
    ensures b in p.num && b !in p.p5s && Operand(p.num, p.p5s, S, old(p.num)[S].value) && b != S
    ensures |s| > 0 && s[0] != 0 && (!done ==> Operand(p.num, p.p5s, b, r))
    ensures var d := old(p.num)[S].value;
            FixedLoop(old(p.num)[b0].value, d, ilim, [])
            == if done then Output(s, false) else if RoundsUp(dig, r, d) then RoundUp(s) else StripZeros(s)
    ensures p.num - {b, S} == old(p.num) - {b0, S}
  {
    hide Dtoa.Valid, Aligned, FixedLoop, Quot, Rem, RoundUp, StripZeros, RoundsUp;
    b := b0;
    ghost var v, d := p.num[b].value, p.num[S].value;
    ghost var goal, others := FixedLoop(v, d, ilim, []), p.num - {b, S};
    s := [];
    while true
      invariant p.Valid() && fresh(p.repr - old(p.repr)) && p.p5s == old(p.p5s)
      invariant Operand(p.num, p.p5s, b, v) && Operand(p.num, p.p5s, S, d) && b != S
      invariant v < 10 * d && |s| < ilim && goal == FixedLoop(v, d, ilim, s)
      invariant if s == [] then d <= v else s[0] != 0
      invariant p.num - {b, S} == others
      decreases ilim - |s|
    {
      UnfoldFixed(v, d, ilim, s);
      dig, done := NextDigit(p, b, S, v, d);
      s := s + [dig];
      r := Rem(v, d);
      if done || |s| >= ilim {
        break;
      }
      b := TimesTenOperand(p, b, r);
      v := 10 * r;
    }
  }

  lemma UnfoldFixed(b: nat, d: nat, ilim: nat, ds: seq<int>)
    requires 0 < d && b < 10 * d && |ds| < ilim
    ensures var dig, r := Quot(b, d), Rem(b, d);
            var ds' := ds + [dig];
            && (d <= b ==> dig != 0)
            && FixedLoop(b, d, ilim, ds)
               == if r == 0 then Output(ds', false)
                  else if |ds'| < ilim then FixedLoop(10 * r, d, ilim, ds')
                  else if RoundsUp(dig, r, d) then RoundUp(ds') else StripZeros(ds')
  {
    SplitAt(0, b, d);
  }
}
