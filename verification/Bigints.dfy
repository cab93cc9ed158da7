/**
 The multi-word numbers of `lae/source/dtoa.c`: blocks, their free lists, and the
 arithmetic on them.

 `Dtoa` holds the file's global state. Its ghost map `num` gives every block in use the
 number it stands for; each operation is specified by what it does to that map, and
 `Valid` ties the map to the words in the blocks.
 */
module Bigints {
  import opened Words

  /**
   What a block in use stands for. `short` tells a zero that is stored with no word at all
   (`wds == 0`) from one stored as a single zero word: `cmp` sees the difference.
   */
  datatype Num = Num(value: nat, short: bool, neg: bool)

  function Two(k: nat): (r: nat)
    ensures r >= 1
  {
    if k == 0 then 1 else 2 * Two(k - 1)
  }

  function Five(k: nat): (r: nat)
    ensures r >= 1
  {
    if k == 0 then 1 else 5 * Five(k - 1)
  }

  lemma {:induction false} TwoAdd(i: nat, j: nat)
    ensures Two(i + j) == Two(i) * Two(j)
  {
    if i > 0 {
      TwoAdd(i - 1, j);
      MulAssoc(2, Two(i - 1), Two(j));
    }
  }

  lemma {:induction false} FiveAdd(i: nat, j: nat)
    ensures Five(i + j) == Five(i) * Five(j)
  {
    if i > 0 {
      FiveAdd(i - 1, j);
      MulAssoc(5, Five(i - 1), Five(j));
    }
  }

  lemma {:induction false} MulAssoc(a: int, b: int, c: int)
    ensures (a * b) * c == a * (b * c)
  {
  }

  lemma {:induction false} TwoStep(k: nat)
    ensures Two(k + 1) == 2 * Two(k)
  {
  }

  lemma {:induction false} TwoMono(i: nat, j: nat)
    requires i <= j
    ensures Two(i) <= Two(j)
  {
    if i < j { TwoMono(i, j - 1); }
  }

  lemma {:induction false} Two32()
    ensures Two(32) == 0x1_0000_0000
  {
    assert Two(8) == 256;
    TwoAdd(8, 8);
    TwoAdd(16, 16);
  }

  /** Moving up by n words is multiplying by 2^(32 n). */
  lemma {:induction false} ShlTwo(w: int, n: nat)
    ensures Shl(w, n) == w * Two(32 * n)
  {
    if n > 0 {
      ShlTwo(w, n - 1);
      TwoAdd(32, 32 * (n - 1));
      Two32();
      var p := Two(32 * (n - 1));
      assert w * (0x1_0000_0000 * p) == 0x1_0000_0000 * (w * p);
    }
  }

  /** The two factors of a shift by r bits within a word. */
  lemma {:induction false} ShiftFactors(r: nat)
    requires 0 < r < 32
    ensures 2 <= Two(r) < 0x1_0000_0000 && 2 <= Two(32 - r) < 0x1_0000_0000
    ensures Two(r) * Two(32 - r) == 0x1_0000_0000
  {
    TwoAdd(r, 32 - r);
    Two32();
    TwoMono(1, r);
    TwoMono(1, 32 - r);
    var f, g := Two(r), Two(32 - r);
    assert 2 <= f && 2 <= g;
    MulMono(2, g, f);
    MulMono(2, f, g);
  }

  lemma {:induction false} ScaledTimes(q: int, s: seq<Word>)
    ensures Scaled(q, s) == Times(Val(s), q)
  {
    ScaledVal(q, s);
    MulComm(q, Val(s));
  }

  lemma {:induction false} TimesComm(a: int, b: int)
    ensures Times(a, b) == Times(b, a)
  {
  }

  /** A shifted number: n zero words, then the words of v * 2^r, then what was shifted out. */
  lemma {:induction false} ShiftResult(s: seq<Word>, zeros: seq<Word>, t: seq<Word>, z: Word, r: nat)
    requires |s| == |t| > 0 && s[|s| - 1] != 0
    requires forall i :: 0 <= i < |zeros| ==> zeros[i] == 0
    requires Val(t) + Shl(z, |t|) == Times(Val(s), Two(r))
    ensures Val(zeros + t + [z]) == Times(Val(s), Two(32 * |zeros| + r))
    ensures z == 0 ==> Val(zeros + t) == Times(Val(s), Two(32 * |zeros| + r)) && t[|t| - 1] != 0
  {
    var n := |zeros|;
    ValZeros(zeros);
    ValConcat(zeros, t);
    ValConcat(zeros, t + [z]);
    assert zeros + t + [z] == zeros + (t + [z]);
    ValSnoc(t, z);
    ShlTwo(Val(s) * Two(r), n);
    TwoAdd(r, 32 * n);
    MulAssoc(Val(s), Two(r), Two(32 * n));
    ShlMono(0, 0, |t|);
    if z == 0 {
      ValTop(s);
      ValBound(s);
      MulMono(1, Two(r), Val(s));
      TopNonZero(t);
    }
  }

  /** The word work of `diff`: the difference without leading zero words. */
  method DifferenceInto(c: array<Word>, a: array<Word>, na: nat, b: array<Word>, nb: nat) returns (w: nat)
    requires c != a && c != b && nb <= na <= a.Length && nb <= b.Length && na <= c.Length
    requires Val(b[..nb]) < Val(a[..na])
    modifies c
    ensures 0 < w <= na && c[w - 1] != 0 && Val(c[..w]) == Val(a[..na]) - Val(b[..nb])
  {
    hide Val;
    SubtractWords(c, a, na, b, nb);
    w := Trim(c, na, 0);
    ZeroIffNoWords(c[..w]);
  }

  method ClearWords(c: array<Word>, n: nat)
    requires n <= c.Length
    modifies c
    ensures forall i :: 0 <= i < n ==> c[..n][i] == 0
    ensures forall i :: n <= i < c.Length ==> c[i] == old(c[i])
  {
    forall t | 0 <= t < n { c[t] := 0; }
  }

  method CopyWords(c: array<Word>, n: nat, x: array<Word>, wds: nat)
    requires c != x && wds <= x.Length && n + wds <= c.Length
    modifies c
    ensures c[..n] == old(c[..n]) && c[n..n + wds] == x[..wds]
  {
    forall t | 0 <= t < wds { c[n + t] := x[t]; }
  }

  /** A shift by no bits. */
  lemma {:induction false} NotShifted(s: seq<Word>)
    ensures Val(s) + Shl(0, |s|) == Times(Val(s), Two(0))
  {
    hide Val, Two;
    TwoZero();
    TimesIs(Val(s), 1);
    ShlMono(0, 0, |s|);
  }

  /** The word work of `lshift`: n zero words, the words shifted by r bits, and what falls out on top. */
  method ShiftInto(c: array<Word>, n: nat, x: array<Word>, wds: nat, r: nat) returns (w: nat)
    requires c != x && r < 32
    requires 1 <= wds <= x.Length && x[wds - 1] != 0 && n + wds + 1 <= c.Length
    modifies c
    ensures 1 <= w <= c.Length && c[w - 1] != 0
    ensures Val(c[..w]) == Times(Val(x[..wds]), Two(32 * n + r))
  {
    hide Val, Shl, Scaled, Two, Times;
    ghost var xv := x[..wds];
    ClearWords(c, n);
    ghost var zeros := c[..n];
    var z: Word := 0;
    if r > 0 {
      ShiftFactors(r);
      z := ShiftLoop(c, n, x, wds, Two(r), Two(32 - r));
      assert x[..wds] == xv;
      ScaledTimes(Two(r), xv);
    } else {
      CopyWords(c, n, x, wds);
      NotShifted(xv);
    }
    w := n + wds;
    ghost var t := c[n..n + wds];
    assert c[..n] == zeros;
    ShiftResult(xv, zeros, t, z, r);
    assert c[..w] == zeros + t;
    if z != 0 {
      c[w] := z;
      w := w + 1;
      assert c[..w] == zeros + t + [z];
    }
    assert x[..wds] == xv;
  }

  /** The size loop of `lshift`: the first block size from 2^k on that has room for `words`. */
  method SizeFor(k: nat, words: nat) returns (k1: nat)
    ensures k <= k1 && words <= Two(k1)
    ensures k < k1 ==> Two(k1 - 1) < words
  {
    k1 := k;
    var i := Two(k);
    while words > i
      invariant k <= k1 && i == Two(k1)
      invariant k < k1 ==> Two(k1 - 1) < words
      decreases words - i
    {
      i, k1 := 2 * i, k1 + 1;
    }
  }

  lemma {:induction false} TwoZero()
    ensures Two(0) == 1
  {
  }

  /** A divisor prepared for `quorem`: its top word has exactly four leading zero bits. */
  ghost predicate Aligned(v: int)
  {
    exists n: nat :: Shl(0x800_0000, n) <= v < Shl(0x1000_0000, n)
  }

  lemma {:induction false} AlignedTop(s: seq<Word>)
    requires Trimmed(s) && Val(s) > 0 && Aligned(Val(s))
    ensures |s| > 0 && 0x800_0000 <= s[|s| - 1] < 0x1000_0000
  {
    NonZeroTop(s);
    var n: nat :| Shl(0x800_0000, n) <= Val(s) < Shl(0x1000_0000, n);
    ValTop(s);
    ValBound(s);
    ShlMono(1, 0x800_0000, n);
    ShlMono(0x1000_0000, 0x1_0000_0000, n);
    ShlUp(1, n);
    if |s| <= n { ShlGrows(|s|, n); }
    if n + 1 < |s| { ShlGrows(n + 1, |s| - 1); }
    assert |s| - 1 == n;
    var top: int := s[n];
    ValBound(s[..n]);
    ShlAdd(top, 1, n);
    ShlMono(top + 1, 0x800_0000, n);
    ShlMono(0x1000_0000, top, n);
  }

  /** The number of leading zero bits of a word, by halving. */
  method Hi0bits(w: Word) returns (k: nat)
    ensures w == 0 ==> k == 32
    ensures w > 0 ==> k < 32 && 0x8000_0000 <= w * Two(k) < 0x1_0000_0000
  {
    var x: int := w;
    k := 0;
    TwoTable();
    if x < 0x1_0000 {
      k, x := 16, x * 0x1_0000;
    }
    if x < 0x100_0000 {
      TwoAdd(k, 8);
      MulAssoc(w, Two(k), 0x100);
      k, x := k + 8, x * 0x100;
    }
    if x < 0x1000_0000 {
      TwoAdd(k, 4);
      MulAssoc(w, Two(k), 0x10);
      k, x := k + 4, x * 0x10;
    }
    if x < 0x4000_0000 {
      TwoAdd(k, 2);
      MulAssoc(w, Two(k), 4);
      k, x := k + 2, x * 4;
    }
    if x < 0x8000_0000 {
      TwoAdd(k, 1);
      MulAssoc(w, Two(k), 2);
      k := k + 1;
      if x < 0x4000_0000 {
        return 32;
      }
    }
  }

  lemma {:induction false} TwoTable()
    ensures Two(0) == 1 && Two(1) == 2 && Two(2) == 4 && Two(4) == 0x10 && Two(8) == 0x100 && Two(16) == 0x1_0000
  {
    assert Two(3) == 8 && Two(4) == 16;
    TwoAdd(4, 4);
    TwoAdd(8, 8);
  }

  /** Shifting by h - 4 bits, up to whole words, aligns a number whose top word has h leading zero bits. */
  lemma {:induction false} ShiftAligns(s: seq<Word>, h: nat, p: nat)
    requires |s| > 0 && s[|s| - 1] > 0 && h < 32
    requires 0x8000_0000 <= s[|s| - 1] * Two(h) < 0x1_0000_0000
    requires (p - (h - 4)) % 32 == 0
    ensures Aligned(Val(s) * Two(p))
  {
    hide Val, Two, Shl;
    var n, top: int := |s| - 1, s[|s| - 1];
    ValSplitTop(s);
    ShlTwo(top, n);
    ShlTwo(top + 1, n);
    ShlAdd(top, 1, n);
    // e whole bits above the top word's leading one
    var m := (32 * n + p + 4 - h) / 32;
    assert 32 * n + p == 32 * m + h - 4;
    assert Shl(0x800_0000, m) <= Val(s) * Two(p) < Shl(0x1000_0000, m) by {
      ScaledTop(top, Val(s), n, p, m, h);
    }
    assert Aligned(Val(s) * Two(p)) by { AlignedBy(Val(s) * Two(p), m); }
  }

  lemma {:induction false} AlignedBy(v: int, m: nat)
    requires Shl(0x800_0000, m) <= v < Shl(0x1000_0000, m)
    ensures Aligned(v)
  {
  }

  lemma {:induction false} ValSplitTop(s: seq<Word>)
    requires |s| > 0
    ensures var n, top: int := |s| - 1, s[|s| - 1]; Shl(top, n) <= Val(s) < Shl(top, n) + Shl(1, n)
  {
    ValBound(s[..|s| - 1]);
  }

  lemma {:induction false} ScaledTop(top: int, v: int, n: nat, p: nat, m: nat, h: nat)
    requires 0x8000_0000 <= top * Two(h) < 0x1_0000_0000 && h < 32
    requires top * Two(32 * n) <= v < (top + 1) * Two(32 * n)
    requires 32 * n + p == 32 * m + h - 4
    ensures Shl(0x800_0000, m) <= v * Two(p) < Shl(0x1000_0000, m)
  {
    hide Two, Shl;
    var a, b, c := Two(32 * n), Two(p), Two(32 * m);
    ShlTwo(0x800_0000, m);
    ShlTwo(0x1000_0000, m);
    TwoAdd(32 * n, p);
    TwoTable();
    TwoAdd(32 * n + p, 4);
    TwoAdd(32 * m, h);
    assert 32 * n + p + 4 == 32 * m + h;
    TwoAdd(h, 32 - h);
    Two32();
    NextMultiple(top, Two(h), Two(32 - h));
    ScaledTopArith(top, v, a, b, c, Two(h));
  }

  lemma {:induction false} ScaledTopArith(top: int, v: int, a: nat, b: nat, c: nat, t: nat)
    requires 0x8000_0000 <= top * t && (top + 1) * t <= 0x1_0000_0000 && a >= 1 && b >= 1 && c >= 1 && t >= 1
    requires top * a <= v < (top + 1) * a
    requires (a * b) * 0x10 == c * t
    ensures 0x800_0000 * c <= v * b < 0x1000_0000 * c
  {
    MulMono(top * a, v, b);
    assert v * b < ((top + 1) * a) * b by { MulStrict(v, (top + 1) * a, b); }
    assert (top * a) * b * 0x10 == (top * t) * c by {
      MulAssoc(top, a, b); MulAssoc(top, a * b, 0x10); MulAssoc(top, t, c); MulComm(t, c);
    }
    assert ((top + 1) * a) * b * 0x10 == ((top + 1) * t) * c by {
      MulAssoc(top + 1, a, b); MulAssoc(top + 1, a * b, 0x10); MulAssoc(top + 1, t, c); MulComm(t, c);
    }
    MulMono(0x8000_0000, top * t, c);
    MulMono((top + 1) * t, 0x1_0000_0000, c);
  }

  lemma {:induction false} NextMultiple(top: int, t: nat, g: nat)
    requires t >= 1 && t * g == 0x1_0000_0000 && top * t < 0x1_0000_0000
    ensures (top + 1) * t <= 0x1_0000_0000
  {
    MulComm(t, g);
    if g <= top { MulMono(g, top, t); }
    MulMono(top + 1, g, t);
  }

  lemma {:induction false} MulStrict(a: int, b: int, c: int)
    requires a < b && 0 < c
    ensures a * c < b * c
  {
  }

  /** One word is enough exactly for the numbers below 2^32. */
  lemma {:induction false} OneWord(s: seq<Word>)
    requires Trimmed(s) && Val(s) > 0
    ensures |s| == 1 <==> Val(s) < 0x1_0000_0000
  {
    NonZeroTop(s);
    ValBound(s);
    ValTop(s);
    assert Shl(1, 1) == 0x1_0000_0000;
    if |s| > 1 { ShlGrows(1, |s| - 1); }
  }

  /** Ten times an aligned divisor still fits the divisor's words. */
  lemma {:induction false} TenfoldFits(b: seq<Word>, s: seq<Word>)
    requires Trimmed(b) && Trimmed(s) && Val(s) > 0 && Aligned(Val(s)) && Val(b) < 10 * Val(s)
    ensures |b| <= |s|
  {
    AlignedTop(s);
    if |s| < |b| {
      var n, top := |s| - 1, s[|s| - 1];
      ValBound(s[..n]);
      ShlAdd(top, 1, n);
      ShlMono(top + 1, 0x1000_0000, n);
      ShlMul(10, 0x1000_0000, n);
      ShlMono(0xA000_0000, 0x1_0000_0000, n);
      ShlUp(1, n);
      ShlGrows(|s|, |b| - 1);
      ValTop(b);
    }
  }

  /** The two sums a quotient moves through when it is stepped by one. */
  lemma {:induction false} TimesStep(q: int, d: int)
    ensures Times(q + 1, d) == Times(q, d) + d && Times(q + 2, d) == Times(q, d) + 2 * d
  {
  }

  lemma {:induction false} QuotientIs(v: int, d: int, q: int)
    requires 0 <= v < 10 * d && Times(q, d) <= v < Times(q, d) + d
    ensures v / d == q && v % d == v - Times(q, d) && q < 10
  {
    var r := v - q * d;
    var q', r' := v / d, v % d;
    assert v == q' * d + r';
    if q < q' { MulMono(q + 1, q', d); }
    if q' < q { MulMono(q' + 1, q, d); }
    if 10 <= q { MulMono(10, q, d); }
  }

  lemma {:induction false} TimesAtLeast(q: nat, d: nat)
    ensures 1 <= q ==> d <= Times(q, d)
  {
    if 1 <= q { MulMono(1, q, d); }
  }

  /** What subtracting q times the divisor leaves in the books. */
  ghost function Remainder(n: Num, d: nat, q: nat): (r: Num)
    requires Times(q, d) <= n.value
  {
    var v := n.value - Times(q, d);
    if q == 0 then n else n.(value := v, short := v == 0 && d < 0x1_0000_0000)
  }

  /** The one-word quotient estimate of `quorem`. */
  function Estimate(bt: int, st: int): (q: nat)
    requires 0 <= bt < 0x1_0000_0000 && 0x800_0000 <= st < 0x1000_0000
    ensures q < 32
  {
    EstimateWords(bt, st, bt / (st + 1));
    bt / (st + 1)
  }

  lemma {:induction false} EstimateWords(bt: int, st: int, q: int)
    requires 0 <= bt < 0x1_0000_0000 && 0x800_0000 <= st < 0x1000_0000
    requires q == bt / (st + 1)
    ensures 0 <= q < 32 && Times(q, st + 1) <= bt && bt + 1 <= Times(q + 2, st)
  {
    var r := bt % (st + 1);
    assert bt == q * (st + 1) + r && 0 <= r <= st;
    if q >= 32 {
      MulMono(32, q, st + 1);
    }
    if q < 0 {
      MulMono(q, -1, st + 1);
    }
    assert (q + 2) * st == q * (st + 1) + 2 * st - q;
  }

  /**
   The estimate is never too big and at most one too small, for every dividend with as many
   words as the aligned divisor.
   */
  lemma {:induction false} EstimateIsClose(b: seq<Word>, s: seq<Word>, q: nat)
    requires |b| == |s| > 0 && 0x800_0000 <= s[|s| - 1] < 0x1000_0000
    requires q == Estimate(b[|b| - 1], s[|s| - 1])
    ensures Times(q, Val(s)) <= Val(b) < Times(q + 2, Val(s))
  {
    var n: nat, bt: int, st: int := |s| - 1, b[|s| - 1], s[|s| - 1];
    EstimateWords(bt, st, q);
    ValBound(b[..n]);
    ValBound(s[..n]);
    ShlAdd(st, 1, n);
    ShlAdd(bt, 1, n);
    EstimateScales(q, bt, st, n, Val(b), Val(s));
  }

  lemma {:induction false} EstimateScales(q: nat, bt: int, st: int, n: nat, b: int, s: int)
    requires Times(q, st + 1) <= bt && bt + 1 <= Times(q + 2, st)
    requires Shl(st, n) <= s < Shl(st + 1, n) && Shl(bt, n) <= b < Shl(bt + 1, n)
    ensures Times(q, s) <= b < Times(q + 2, s)
  {
    hide Shl, Times;
    TimesMono(q, s, Shl(st + 1, n));
    ShlTimes(q, st + 1, n);
    ShlMono(Times(q, st + 1), bt, n);
    TimesMono(q + 2, Shl(st, n), s);
    ShlTimes(q + 2, st, n);
    ShlMono(bt + 1, Times(q + 2, st), n);
  }

  lemma {:induction false} TimesMono(q: nat, a: int, b: int)
    requires a <= b
    ensures Times(q, a) <= Times(q, b)
  {
  }

  lemma {:induction false} ShlTimes(m: int, w: int, n: nat)
    ensures Times(m, Shl(w, n)) == Shl(Times(m, w), n)
  {
    ShlMul(m, w, n);
  }

  /** The power of five that node `i` of the cache holds: 5 to the 4 * 2^i. */
  function CachedPower(i: nat): (r: nat)
    ensures r >= 1
  {
    Five(4 * Two(i))
  }

  /** The cached power taken in by the lowest bit of k, and what the remaining bits still owe. */
  lemma {:induction false} PowerStep(i: nat, k: nat)
    ensures k % 2 == 0 ==> Five(4 * Two(i) * k) == Five(4 * Two(i + 1) * (k / 2))
    ensures k % 2 == 1 ==> Five(4 * Two(i) * k) == Times(CachedPower(i), Five(4 * Two(i + 1) * (k / 2)))
  {
    var t, h := Two(i), k / 2;
    assert 4 * Two(i + 1) * h == 4 * t * (2 * h);
    if k % 2 == 1 {
      assert 4 * t * k == 4 * t + 4 * t * (2 * h);
      FiveAdd(4 * t, 4 * t * (2 * h));
    }
  }

  lemma {:induction false} FirstPower()
    ensures CachedPower(0) == 625
  {
  }

  lemma {:induction false} PowerPositive(i: nat)
    ensures CachedPower(i) > 0
  {
  }

  lemma {:induction false} TimesAssoc(a: int, b: int, c: int)
    ensures Times(Times(a, b), c) == Times(a, Times(b, c))
  {
    MulAssoc(a, b, c);
  }

  lemma {:induction false} ProductPositive(a: nat, b: nat)
    requires a > 0 && b > 0
    ensures a * b > 0
  {
    MulMono(1, a, b);
  }

  lemma {:induction false} FiveZero(v: int, e: nat)
    ensures Times(v, Five(e * 0)) == v
  {
  }

  /** k splits into two low bits, served by a table, and the rest, served by the cache. */
  lemma {:induction false} SmallPowers(k: nat)
    ensures Five(0) == 1 && Five(1) == 5 && Five(2) == 25 && Five(3) == 125
    ensures Five(k) == Times(Five(k % 4), Five(4 * (k / 4)))
  {
    assert Five(2) == 5 * Five(1);
    FiveAdd(k % 4, 4 * (k / 4));
  }

  /** The next cached power is the square of the last one. */
  lemma {:induction false} PowerSquares(i: nat)
    ensures CachedPower(i + 1) == CachedPower(i) * CachedPower(i)
  {
    FiveAdd(4 * Two(i), 4 * Two(i));
  }

  const KMAX: nat := 7

  /** No leading zero word, except for the single word of zero. */
  predicate Trimmed(s: seq<Word>)
  {
    |s| > 1 ==> s[|s| - 1] != 0
  }

  /** A number that reaches the weight of its top word has a non-zero top word. */
  lemma {:induction false} TopNonZero(s: seq<Word>)
    requires |s| > 0 && Shl(1, |s| - 1) <= Val(s)
    ensures s[|s| - 1] != 0
  {
    ValBound(s[..|s| - 1]);
    ShlMono(0, 0, |s| - 1);
  }

  /** Trimmed all the way, only zero has no word left. */
  lemma {:induction false} ZeroIffNoWords(s: seq<Word>)
    requires |s| > 0 ==> s[|s| - 1] != 0
    ensures Val(s) == 0 <==> s == []
  {
    if |s| > 0 {
      ValTop(s);
      ShlMono(0, 1, |s| - 1);
      ShlMono(0, 0, |s| - 1);
    }
  }

  lemma {:induction false} NonZeroTop(s: seq<Word>)
    requires Trimmed(s) && Val(s) > 0
    ensures |s| > 0 && s[|s| - 1] != 0
  {
    if |s| == 1 {
      assert s == [] + [s[0]];
      ValSnoc([], s[0]);
      NoWords(s[0], 0);
    }
  }

  /** Among trimmed numbers the one with more words is larger, except that zero may carry one word. */
  lemma {:induction false} LengthDecides(s: seq<Word>, t: seq<Word>)
    requires Trimmed(s) && Trimmed(t) && |s| < |t|
    ensures Val(s) < Val(t) || (|t| == 1 && Val(s) == 0 == Val(t))
    ensures Val(t) == 0 ==> |t| <= 1
  {
    ValBound(s);
    ValBound(t);
    if t[|t| - 1] != 0 {
      ValTop(t);
      ShlGrows(|s|, |t| - 1);
    } else {
      assert s == [];
      NoWords(0, 0);
    }
  }

  lemma {:induction false} NotLonger(s: seq<Word>, t: seq<Word>)
    requires Trimmed(s) && Trimmed(t) && Val(s) < Val(t)
    ensures |s| <= |t|
  {
    if |t| < |s| { LengthDecides(t, s); }
  }

  lemma {:induction false} NotShorter(s: seq<Word>, t: seq<Word>)
    requires Trimmed(s) && Trimmed(t) && 0 < Val(s) <= Val(t)
    ensures |s| <= |t|
  {
    if |t| < |s| { LengthDecides(t, s); }
  }

  lemma {:induction false} ShlGrows(i: nat, j: nat)
    requires i <= j
    ensures 1 <= Shl(1, i) <= Shl(1, j)
  {
    if i < j { ShlGrows(i, j - 1); }
    else if i > 0 { ShlGrows(i - 1, i - 1); }
  }

  lemma {:induction false} MulComm(a: int, b: int)
    ensures a * b == b * a
  {
  }

  /** What the `multadd` loop leaves, with and without a carry word on top. */
  lemma {:induction false} MulAddResult(s: seq<Word>, t: seq<Word>, carry: Word, m: Word, a: Word)
    requires |s| == |t| > 0 && 1 <= m && Trimmed(s)
    requires Val(t) + Shl(carry, |t|) == Scaled(m, s) + a
    ensures Val(t + [carry]) == m * Val(s) + a
    ensures carry == 0 ==> Val(t) == m * Val(s) + a && Trimmed(t)
  {
    ScaledVal(m, s);
    ValSnoc(t, carry);
    ShlMono(0, 0, |t|);
    if carry == 0 && |s| > 1 {
      ValTop(s);
      ValBound(s);
      MulMono(1, m, Val(s));
      TopNonZero(t);
    }
  }

  /** One pass of the loop over a zero word leaves a zero word. */
  lemma {:induction false} MulAddZero(t: seq<Word>, carry: Word, m: Word)
    requires |t| == 1 && Val(t) + Shl(carry, 1) == Scaled(m, [0])
    ensures carry == 0 && t == [0]
  {
    assert t == [] + [t[0]] && [0] == [] + [0];
    ScaledSnoc(m, [], 0);
    ValSnoc([], t[0]);
    NoWords(t[0], m);
    NoWords(0, m);
    assert Shl(carry, 1) == 0x1_0000_0000 * Shl(carry, 0);
  }

  /** A block of 2^k words; `k` and the word store never change once it is allocated. */
  class Bigint {
    const k: nat
    const x: array<Word>
    var sign: int
    var wds: nat

    constructor (k: nat)
      ensures this.k == k && fresh(x) && x.Length == Two(k)
      ensures sign == 0 && wds == 0
    {
      this.k := k;
      x := new Word[Two(k)](_ => 0);
      sign, wds := 0, 0;
    }

    /** This block stands for `n`, with no leading zero word. */
    ghost predicate Holds(n: Num)
      reads this, x
    {
      && wds <= x.Length
      && Val(x[..wds]) == n.value
      && (n.short <==> wds == 0)
      && (wds == 0 ==> x.Length > 0 && x[0] == 0)
      && Trimmed(x[..wds])
      && sign == (if n.neg then 1 else 0)
    }
  }

  /** Between two states only cache nodes were added, on blocks that were not in use. */
  ghost predicate Grown(num0: map<Bigint, Num>, p0: seq<Bigint>, num1: map<Bigint, Num>, p1: seq<Bigint>)
  {
    && p0 <= p1
    && (forall i :: |p0| <= i < |p1| ==> p1[i] !in num0)
    && (forall b :: b in num0 ==> b in num1 && num1[b] == num0[b])
    && (forall b :: b in num1 ==> b in num0 || b in p1)
  }

  lemma {:induction false} GrownTrans(num0: map<Bigint, Num>, p0: seq<Bigint>, num1: map<Bigint, Num>, p1: seq<Bigint>,
                                      num2: map<Bigint, Num>, p2: seq<Bigint>)
    requires Grown(num0, p0, num1, p1) && Grown(num1, p1, num2, p2)
    ensures Grown(num0, p0, num2, p2)
  {
  }

  /** The cache grows around a block that is in use and not part of it. */
  lemma {:induction false} GrownAround(num0: map<Bigint, Num>, p0: seq<Bigint>, num1: map<Bigint, Num>, p1: seq<Bigint>,
                                       r: Bigint)
    requires Grown(num0, p0, num1, p1) && r in num0 && r !in p0
    ensures Grown(num0 - {r}, p0, num1 - {r}, p1)
    ensures r !in p1 && r in num1 && num1[r] == num0[r]
  {
  }

  lemma {:induction false} GrownDisjoint(num0: map<Bigint, Num>, p0: seq<Bigint>, num1: map<Bigint, Num>,
                                         p1: seq<Bigint>)
    requires Grown(num0, p0, num1, p1)
    ensures num0.Keys <= num1.Keys
  {
  }

  lemma {:induction false} GrownRefl(num0: map<Bigint, Num>, p0: seq<Bigint>)
    ensures Grown(num0, p0, num0, p0)
  {
  }

  class Dtoa {
    var free: seq<seq<Bigint>>  // freelist[0..KMAX], most recently freed block first
    var p5s: seq<Bigint>        // cached powers of five
    ghost var num: map<Bigint, Num>                // the blocks in use
    ghost var avail: set<Bigint>                   // the blocks on free lists
    ghost var known: set<Bigint>                   // every block ever handed out
    ghost var owner: map<array<Word>, Bigint>
    ghost var repr: set<object>

    /** List j holds distinct unused blocks of 2^j words. */
    ghost predicate FreeListsOk()
      reads this
    {
      && |free| == KMAX + 1
      && (forall j, i :: 0 <= j < |free| && 0 <= i < |free[j]| ==> free[j][i] in avail && free[j][i].k == j)
      && (forall j, i, i' :: 0 <= j < |free| && 0 <= i < i' < |free[j]| ==> free[j][i] != free[j][i'])
    }

    /** Node i of the cache is in use and stands for 5^(4 * 2^i). */
    ghost predicate CacheOk()
      reads this
    {
      forall i :: 0 <= i < |p5s| ==> p5s[i] in num && num[p5s[i]] == Num(CachedPower(i), false, false)
    }

    ghost predicate BlocksOk()
      reads this
    {
      && avail <= known && num.Keys <= known && num.Keys !! avail
      && (forall b :: b in known ==> b in repr && b.x in repr && b.x in owner && owner[b.x] == b
                                     && b.x.Length == Two(b.k))
    }

    ghost predicate Valid()
      reads this, repr
    {
      && this !in repr
      && FreeListsOk()
      && CacheOk()
      && BlocksOk()
      && (forall b :: b in num ==> b in repr && b.x in repr && b.Holds(num[b]))
    }

    /** `b` belongs to the caller at hand: neither in use nor on a free list. */
    ghost predicate Held(b: Bigint)
      reads this
    {
      b in known && b !in num && b !in avail
    }

    constructor ()
      ensures Valid() && num == map[] && p5s == []
      ensures repr == {}
    {
      free := seq(KMAX + 1, _ => []);
      p5s, num, avail, known, owner, repr := [], map[], {}, {}, map[], {};
    }

    /** Unlinks the newest block of list `k`. */
    method TakeFree(k: nat) returns (b: Bigint)
      requires Valid() && k <= KMAX && |free[k]| > 0
      modifies this`free, this`avail
      ensures Valid() && b in old(avail) && avail == old(avail) - {b} && b.k == k
    {
      hide Val, Two, Five, CachedPower;
      b := free[k][0];
      free := free[k := free[k][1..]];
      avail := avail - {b};
    }

    /** Asks the system for a block of 2^k words. */
    method NewBlock(k: nat) returns (b: Bigint)
      requires Valid()
      modifies this`repr, this`owner, this`known
      ensures Valid() && fresh(b) && fresh(b.x) && b.k == k && b.sign == 0 && b.wds == 0
      ensures known == old(known) + {b} && repr == old(repr) + {b, b.x}
    {
      hide Val, Two, Five, CachedPower;
      b := new Bigint(k);
      repr := repr + {b, b.x};
      owner := owner[b.x := b];
      known := known + {b};
    }

    /** Takes the newest block of list `k`, or allocates one; the words are left as they are. */
    method Balloc(k: nat) returns (b: Bigint)
      requires Valid()
      modifies this, repr
      ensures Valid() && fresh(repr - old(repr))
      ensures num == old(num) && p5s == old(p5s)
      ensures known == old(known) + {b} && avail == old(avail) - {b} && Held(b)
      ensures b in old(avail) || fresh(b)
      ensures b.k == k && b.sign == 0 && b.wds == 0
      ensures forall o :: o in old(repr) && o != b ==> unchanged(o)
    {
      hide Val, Two, Five, CachedPower;
      hide CacheOk;
      if k <= KMAX && |free[k]| > 0 {
        b := TakeFree(k);
        label L:
        b.sign, b.wds := 0, 0;
        Undisturbed@L(b);
      } else {
        b := NewBlock(k);
      }
    }

    /** Links an unused block into its free list; oversized ones go back to the system. */
    method Link(b: Bigint)
      requires Valid() && Held(b)
      modifies this`free, this`avail
      ensures Valid() && old(avail) <= avail <= old(avail) + {b}
    {
      hide Val, Two, Five, CachedPower;
      if b.k <= KMAX {
        free := free[b.k := [b] + free[b.k]];
        avail := avail + {b};
      }
    }

    /** Takes a block out of use while its words are being rewritten. */
    ghost method Withdraw(b: Bigint)
      requires Valid() && b in num && b !in p5s
      modifies this`num
      ensures Valid() && num == old(num) - {b} && Held(b)
    {
      hide Val, Two, Five, CachedPower;
      num := num - {b};
    }

    /** Puts a block in use under the number its words now stand for. */
    ghost method Adopt(b: Bigint, n: Num)
      requires Valid() && Held(b) && b.Holds(n)
      modifies this`num
      ensures Valid() && num == old(num)[b := n]
    {
      hide Val, Two, Five, CachedPower;
      num := num[b := n];
    }

    /** What being known to the allocator says about one block. */
    lemma Owned(b: Bigint)
      requires Valid() && b in known
      ensures b in repr && b.x in repr && b.x.Length == Two(b.k) && this !in repr
      ensures forall c :: c in known && c != b ==> c.x != b.x
    {
      hide Val, Two, Five, CachedPower;
    }

    lemma InUse(b: Bigint)
      requires Valid() && b in num
      ensures b in known && b !in avail && b.Holds(num[b])
    {
      hide Val, Two, Five, CachedPower;
    }

    /** Rewriting a held block disturbs no block in use. */
    twostate lemma Undisturbed(b: Bigint)
      requires old(Valid()) && old(Held(b))
      requires unchanged(this)
      requires forall o :: o in repr && o != b && o != b.x ==> unchanged(o)
      ensures Valid()
    {
      hide Val, Two, Five, CachedPower;
    }

    method Bfree(b: Bigint)
      requires Valid() && b in num && b !in p5s
      modifies this`num, this`free, this`avail
      ensures Valid() && num == old(num) - {b}
    {
      Withdraw(b);
      Link(b);
    }

    /** Puts one more word on top of a held block, moving to one of twice the size when it is full. */
    method Extend(b: Bigint, w: Word) returns (r: Bigint)
      requires Valid() && Held(b) && b.wds <= b.x.Length
      modifies this, repr
      ensures Valid() && fresh(repr - old(repr)) && p5s == old(p5s) && num == old(num)
      ensures Held(r)
      ensures r.sign == old(b.sign) && r.wds == old(b.wds) + 1 <= r.x.Length
      ensures r.x[..r.wds] == old(b.x[..b.wds]) + [w]
    {
      hide Val, Five, CachedPower, Valid, FreeListsOk, CacheOk, BlocksOk;
      Owned(b);
      var wds := b.wds;
      if wds >= b.x.Length {
        r := Grow(b);
      } else {
        r := b;
      }
      Owned(r);
      label L:
      r.x[wds] := w;
      r.wds := wds + 1;
      Undisturbed@L(r);
    }

    /** Moves a full held block to one of twice the size, as `Bcopy` and `Bfree` do. */
    method Grow(b: Bigint) returns (r: Bigint)
      requires Valid() && Held(b) && b.wds <= b.x.Length
      modifies this, repr
      ensures Valid() && fresh(repr - old(repr)) && p5s == old(p5s) && num == old(num)
      ensures Held(r)
      ensures r.sign == old(b.sign) && r.wds == old(b.wds) <= b.x.Length < r.x.Length
      ensures r.x[..r.wds] == old(b.x[..b.wds])
    {
      hide Val, Five, CachedPower, Valid, FreeListsOk, CacheOk, BlocksOk;
      Owned(b);
      r := Balloc(b.k + 1);
      Owned(r);
      label L:
      forall i | 0 <= i < b.wds { r.x[i] := b.x[i]; }
      r.sign, r.wds := b.sign, b.wds;
      Undisturbed@L(r);
      Link(b);
    }

    /** b := b * m + a. With no word in `b` the loop still rewrites word 0, and an `a` would be lost. */
    method MultAdd(b: Bigint, m: Word, a: Word) returns (r: Bigint)
      requires Valid() && b in num && b !in p5s
      requires 1 <= m && (num[b].short ==> a == 0)
      modifies this, repr
      ensures Valid() && fresh(repr - old(repr)) && p5s == old(p5s)
      ensures r == b || r !in old(num)
      ensures num == (old(num) - {b})[r := old(num)[b].(value := m * old(num)[b].value + a)]
    {
      hide Val, Shl, Scaled, Two, Five, CachedPower, Valid, FreeListsOk, CacheOk, BlocksOk;
      ghost var n := num[b];
      InUse(b);
      Owned(b);
      var wds := b.wds;
      var steps := if wds == 0 then 1 else wds;
      Withdraw(b);
      label L:
      ghost var before := b.x[..steps];
      var carry := MulAddLoop(b.x, steps, m, a);
      Undisturbed@L(b);
      if wds == 0 {
        NoWords(0, 0);
        assert before == [0] && b.x[..0] == [];
        MulAddZero(b.x[..1], carry, m);
      } else {
        MulAddResult(before, b.x[..steps], carry, m, a);
      }
      r := b;
      if carry != 0 {
        r := Extend(b, carry);
      }
      Adopt(r, n.(value := m * n.value + a));
    }

    /** The product of two numbers, the longer one first, in a new block. */
    method MultOrdered(a: Bigint, b: Bigint) returns (c: Bigint)
      requires Valid() && a in num && b in num && !num[a].short && b.wds <= a.wds
      modifies this, repr
      ensures Valid() && fresh(repr - old(repr)) && p5s == old(p5s)
      ensures c !in old(num)
      ensures var v := Times(old(num)[a].value, old(num)[b].value);
              0 <= v && num == old(num)[c := Num(v, v == 0, false)]
    {
      hide Times, Val, Shl, Scaled, Two, Five, CachedPower, Valid, FreeListsOk, CacheOk, BlocksOk;
      InUse(a); InUse(b); Owned(a); Owned(b);
      var k, wc := a.k, a.wds + b.wds;
      TwoStep(k);
      if wc > a.x.Length { k := k + 1; }
      ghost var av, bv, v := a.x[..a.wds], b.x[..b.wds], Times(num[a].value, num[b].value);
      c := Balloc(k);
      assert c != a && c != b;
      Owned(c);
      assert a.x[..a.wds] == av && b.x[..b.wds] == bv;
      label L:
      MulInto(c.x, a.x, a.wds, b.x, b.wds);
      assert Val(c.x[..wc]) == v;
      c.wds := Trim(c.x, wc, 0);
      Undisturbed@L(c);
      ZeroIffNoWords(c.x[..c.wds]);
      ValBound(c.x[..c.wds]);
      Adopt(c, Num(v, v == 0, false));
    }

    method Mult(a: Bigint, b: Bigint) returns (c: Bigint)
      requires Valid() && a in num && b in num && !(num[a].short && num[b].short)
      modifies this, repr
      ensures Valid() && fresh(repr - old(repr)) && p5s == old(p5s)
      ensures c !in old(num)
      ensures var v := old(num)[a].value * old(num)[b].value; num == old(num)[c := Num(v, v == 0, false)]
    {
      if a.wds < b.wds {
        MulComm(num[a].value, num[b].value);
        c := MultOrdered(b, a);
      } else {
        c := MultOrdered(a, b);
      }
    }

    /** b * 2^k in a new block. */
    method Shifted(b: Bigint, k: nat) returns (c: Bigint)
      requires Valid() && b in num && num[b].value > 0
      modifies this, repr
      ensures Valid() && fresh(repr - old(repr)) && p5s == old(p5s)
      ensures c !in old(num)
      ensures num == old(num)[c := Num(old(num)[b].value * Two(k), false, false)]
    {
      hide Times, Val, Shl, Scaled, Two, Five, CachedPower, Valid, FreeListsOk, CacheOk, BlocksOk;
      InUse(b); Owned(b);
      NonZeroTop(b.x[..b.wds]);
      var n := k / 32;
      var k1 := SizeFor(b.k, n + b.wds + 1);
      ghost var bv, v := b.x[..b.wds], Times(num[b].value, Two(k));
      c := Balloc(k1);
      assert c != b;
      Owned(c);
      assert b.x[..b.wds] == bv;
      label L:
      c.wds := ShiftInto(c.x, n, b.x, b.wds, k % 32);
      Undisturbed@L(c);
      TimesIs(old(num[b].value), Two(k));
      Adopt(c, Num(v, false, false));
    }

    /** b := b * 2^k; the old block is freed. */
    method Lshift(b: Bigint, k: nat) returns (c: Bigint)
      requires Valid() && b in num && b !in p5s && num[b].value > 0
      modifies this, repr
      ensures Valid() && fresh(repr - old(repr)) && p5s == old(p5s)
      ensures c !in old(num)
      ensures num == (old(num) - {b})[c := Num(old(num)[b].value * Two(k), false, false)]
    {
      hide Two, Valid;
      c := Shifted(b, k);
      Bfree(b);
    }

    /**
     The order of two numbers, by word count first. Two zeros compare by how many words they
     are stored with; with no words on either side the C code would read before the array.
     */
    method Cmp(a: Bigint, b: Bigint) returns (r: int)
      requires Valid() && a in num && b in num && !(num[a].short && num[b].short)
      ensures num[a].value > 0 || num[b].value > 0 ==>
                (r < 0 <==> num[a].value < num[b].value) && (r > 0 <==> num[a].value > num[b].value)
      ensures num[a].value == 0 == num[b].value ==>
                r == (if num[a].short then -1 else if num[b].short then 1 else 0)
    {
      hide Val, Shl, Two, Five, CachedPower, Valid, FreeListsOk, CacheOk, BlocksOk;
      InUse(a); InUse(b);
      r := a.wds - b.wds;
      if r < 0 {
        LengthDecides(a.x[..a.wds], b.x[..b.wds]);
      } else if r > 0 {
        LengthDecides(b.x[..b.wds], a.x[..a.wds]);
      } else {
        r := CompareWords(a.x, b.x, b.wds);
      }
    }

    /** |a - b| in a new block, with the sign of a - b; zero is stored as one zero word. */
    method Diff(a: Bigint, b: Bigint) returns (c: Bigint)
      requires Valid() && a in num && b in num && !num[a].short && !num[b].short
      modifies this, repr
      ensures Valid() && fresh(repr - old(repr)) && p5s == old(p5s)
      ensures c !in old(num)
      ensures var u, v := old(num)[a].value, old(num)[b].value;
              num == old(num)[c := Num(if u < v then v - u else u - v, false, u < v)]
    {
      hide Val, Shl, Two, Five, CachedPower, Valid, FreeListsOk, CacheOk, BlocksOk;
      var i := Cmp(a, b);
      if i == 0 {
        c := Balloc(0);
        Owned(c);
        label L:
        TwoZero();
        c.wds, c.x[0] := 1, 0;
        Undisturbed@L(c);
        assert c.x[..1] == [0];
        ValZeros([0]);
        Adopt(c, Num(0, false, false));
      } else if i < 0 {
        c := Subtract(b, a, true);
      } else {
        c := Subtract(a, b, false);
      }
    }

    /** a - b for a > b, under the given sign. */
    method Subtract(a: Bigint, b: Bigint, neg: bool) returns (c: Bigint)
      requires Valid() && a in num && b in num && !num[a].short && !num[b].short
      requires num[b].value < num[a].value
      modifies this, repr
      ensures Valid() && fresh(repr - old(repr)) && p5s == old(p5s)
      ensures c !in old(num)
      ensures num == old(num)[c := Num(old(num)[a].value - old(num)[b].value, false, neg)]
    {
      hide Val, Shl, Two, Five, CachedPower, Valid, FreeListsOk, CacheOk, BlocksOk;
      InUse(a); InUse(b); Owned(a); Owned(b);
      ghost var av, bv, v := a.x[..a.wds], b.x[..b.wds], num[a].value - num[b].value;
      NotLonger(bv, av);
      c := Balloc(a.k);
      assert c != a && c != b;
      Owned(c);
      assert a.x[..a.wds] == av && b.x[..b.wds] == bv;
      label L:
      c.sign := if neg then 1 else 0;
      c.wds := DifferenceInto(c.x, a.x, a.wds, b.x, b.wds);
      Undisturbed@L(c);
      Adopt(c, Num(v, false, neg));
    }

    /** One subtracting pass of `quorem`, with the trimming that follows it: b := b - q * d. */
    method Reduce(b: Bigint, d: Bigint, q: Word)
      requires Valid() && b in num && d in num && b != d && b !in p5s
      requires num[d].value > 0 && b.wds == d.wds && 1 <= q && Times(q, num[d].value) <= num[b].value
      modifies this, b, b.x
      ensures Valid() && repr == old(repr) && p5s == old(p5s) && b.wds <= d.wds
      ensures var d0 := old(num)[d].value;
              var v := old(num)[b].value - Times(q, d0);
              num == old(num)[b := old(num)[b].(value := v, short := v == 0 && d0 < 0x1_0000_0000)]
    {
      hide Times, Val, Shl, Scaled, Two, Five, CachedPower, Valid, FreeListsOk, CacheOk, BlocksOk;
      InUse(b); InUse(d); Owned(b); Owned(d);
      ghost var n0, v, dv := num[b], num[b].value - Times(q, num[d].value), d.x[..d.wds];
      NonZeroTop(dv);
      OneWord(dv);
      ScaledTimes(q, dv);
      TimesComm(Val(dv), q);
      var n := d.wds - 1;
      Withdraw(b);
      label L:
      SubtractMultiple(b.x, d.x, n + 1, q);
      if b.x[n] == 0 {
        assert b.x[..n + 1][..n] == b.x[..n];
        ValDropZero(b.x[..n + 1]);
        b.wds := Trim(b.x, n, if n == 0 then 0 else 1);
        NoWords(0, 0);
      } else {
        ZeroIffNoWords(b.x[..n + 1]);
      }
      Undisturbed@L(b);
      Adopt(b, n0.(value := v, short := v == 0 && num[d].value < 0x1_0000_0000));
    }

    /** `quorem` on numbers of the same length: the estimate, and at most one correction. */
    method DivideStep(b: Bigint, d: Bigint) returns (q: nat)
      requires Valid() && b in num && d in num && b != d && b !in p5s
      requires num[d].value > 0 && Aligned(num[d].value) && b.wds == d.wds
      modifies this, b, b.x
      ensures Valid() && repr == old(repr) && p5s == old(p5s)
      ensures var v, d0 := old(num)[b].value, old(num)[d].value; Times(q, d0) <= v < Times(q, d0) + d0
      ensures num == old(num)[b := Remainder(old(num)[b], old(num)[d].value, q)]
    {
      hide Times, Val, Shl, Scaled, Two, Five, CachedPower, Valid, FreeListsOk, CacheOk, BlocksOk, Aligned, Estimate;
      InUse(b); InUse(d); Owned(b); Owned(d);
      ghost var d0, bv, dv := num[d].value, b.x[..b.wds], d.x[..d.wds];
      AlignedTop(dv);
      q := Estimate(b.x[d.wds - 1], d.x[d.wds - 1]);
      EstimateIsClose(bv, dv, q);
      if q != 0 {
        Reduce(b, d, q);
      }
      TimesIs(0, d0);
      TimesStep(q, d0);
      var c := Cmp(b, d);
      if c >= 0 {
        assert b.wds == d.wds by { InUse(b); InUse(d); NotShorter(d.x[..d.wds], b.x[..b.wds]); }
        TimesIs(1, d0);
        Reduce(b, d, 1);
        q := q + 1;
      }
    }

    /**
     The quotient digit: returns floor(b / d) and leaves b mod d in `b`. A zero remainder
     keeps no word when the divisor has one word, and one zero word otherwise.
     */
    method Quorem(b: Bigint, d: Bigint) returns (q: nat)
      requires Valid() && b in num && d in num && b != d && b !in p5s
      requires num[d].value > 0 && Aligned(num[d].value) && num[b].value < 10 * num[d].value
      modifies this, b, b.x
      ensures Valid() && repr == old(repr) && p5s == old(p5s)
      ensures q < 10 && q == old(num)[b].value / old(num)[d].value
      ensures var n0, d0 := old(num)[b], old(num)[d].value;
              num == old(num)[b := if n0.value < d0 then n0
                                   else n0.(value := n0.value % d0,
                                            short := n0.value % d0 == 0 && d0 < 0x1_0000_0000)]
    {
      hide Times, Val, Shl, Scaled, Two, Five, CachedPower, Valid, FreeListsOk, CacheOk, BlocksOk, Aligned, Estimate;
      InUse(b); InUse(d);
      ghost var n0, d0 := num[b], num[d].value;
      TenfoldFits(b.x[..b.wds], d.x[..d.wds]);
      TimesIs(0, d0);
      if b.wds < d.wds {
        LengthDecides(b.x[..b.wds], d.x[..d.wds]);
        q := 0;
      } else {
        q := DivideStep(b, d);
      }
      QuotientIs(n0.value, d0, q);
      TimesAtLeast(q, d0);
    }

    /** A block for a one-word number. */
    method I2b(i: Word) returns (b: Bigint)
      requires Valid()
      modifies this, repr
      ensures Valid() && fresh(repr - old(repr)) && p5s == old(p5s)
      ensures b !in old(num) && num == old(num)[b := Num(i, false, false)]
    {
      hide Val, Shl, Two, Five, CachedPower, Valid, FreeListsOk, CacheOk, BlocksOk;
      b := Balloc(1);
      Owned(b);
      label L:
      TwoStep(0);
      TwoZero();
      b.x[0], b.wds := i, 1;
      Undisturbed@L(b);
      assert b.x[..1] == [] + [i];
      ValSnoc([], i);
      NoWords(i, 0);
      Adopt(b, Num(i, false, false));
    }

    /** Appends a node to the cache of powers. */
    method AppendPower(c: Bigint)
      requires Valid() && c in num && num[c] == Num(CachedPower(|p5s|), false, false)
      modifies this`p5s
      ensures Valid() && p5s == old(p5s) + [c]
    {
      hide Val, Two, Five, CachedPower;
      p5s := p5s + [c];
    }

    /** Makes sure that node i of the cache exists, given the nodes before it. */
    method NeedPower(i: nat)
      requires Valid() && i <= |p5s|
      modifies this, repr
      ensures Valid() && fresh(repr - old(repr))
      ensures i < |p5s| && Grown(old(num), old(p5s), num, p5s)
    {
      hide Val, Two, Five, CachedPower, Valid, FreeListsOk, BlocksOk;
      if i == |p5s| {
        CacheHolds();
        var c: Bigint;
        if i == 0 {
          assert CachedPower(0) == 625 by { FirstPower(); }
          c := I2b(625);
        } else {
          PowerSquares(i - 1);
          PowerPositive(i);
          c := Mult(p5s[i - 1], p5s[i - 1]);
        }
        AppendPower(c);
      }
    }

    lemma CacheInUse()
      requires Valid()
      ensures forall b :: b in p5s ==> b in num
    {
      hide Val, Two, Five, CachedPower;
    }

    lemma CacheHolds()
      requires Valid()
      ensures CacheOk()
    {
    }

    /** b := b * 5^(4 * 2^i), with the cached power. */
    method TimesPower(b: Bigint, i: nat) returns (r: Bigint)
      requires Valid() && b in num && b !in p5s && i < |p5s|
      requires num[b].value > 0 && num[b] == Num(num[b].value, false, false)
      modifies this, repr
      ensures Valid() && fresh(repr - old(repr)) && p5s == old(p5s)
      ensures r !in old(num)
      ensures var v := Times(old(num)[b].value, CachedPower(i));
              v > 0 && num == (old(num) - {b})[r := Num(v, false, false)]
    {
      hide Val, Two, Five, CachedPower, Valid, FreeListsOk, BlocksOk;
      CacheHolds();
      PowerPositive(i);
      ProductPositive(num[b].value, CachedPower(i));
      r := Mult(b, p5s[i]);
      Bfree(b);
    }

    /** Makes sure of node i while the caller holds a number in `b`. */
    method NeedPowerBeside(i: nat, b: Bigint)
      requires Valid() && i <= |p5s| && b in num && b !in p5s
      modifies this, repr
      ensures Valid() && fresh(repr - old(repr))
      ensures i < |p5s| && b !in p5s && b in num && num[b] == old(num)[b]
      ensures Grown(old(num) - {b}, old(p5s), num - {b}, p5s)
    {
      hide Valid;
      NeedPower(i);
      GrownAround(old(num), old(p5s), num, p5s, b);
    }

    /** b := b * 5^(4 * k), by squaring along the cache, which grows as far as k needs it. */
    method Pow625Mult(b: Bigint, k: nat) returns (r: Bigint)
      requires Valid() && b in num && b !in p5s && k > 0
      requires num[b].value > 0 && num[b] == Num(num[b].value, false, false)
      modifies this, repr
      ensures Valid() && fresh(repr - old(repr))
      ensures r in num && r !in p5s && r !in old(num) - {b}
      ensures num[r] == Num(Times(old(num)[b].value, Five(4 * k)), false, false)
      ensures Grown(old(num) - {b}, old(p5s), num - {r}, p5s)
    {
      hide Times, Val, Two, Five, CachedPower, Valid, FreeListsOk, BlocksOk, CacheOk, Grown;
      ghost var num0, p0, v := num - {b}, p5s, Times(num[b].value, Five(4 * k));
      r := b;
      var k', i := k, 0;
      TwoZero();
      NeedPowerBeside(0, r);
      while true
        invariant Valid() && fresh(repr - old(repr))
        invariant i < |p5s| && k' > 0
        invariant r in num && r !in p5s && r !in num0
        invariant num[r].value > 0 && num[r] == Num(num[r].value, false, false)
        invariant Times(num[r].value, Five(4 * Two(i) * k')) == v
        invariant Grown(num0, p0, num - {r}, p5s)
        decreases k'
      {
        PowerStep(i, k');
        if k' % 2 == 1 {
          TimesAssoc(num[r].value, CachedPower(i), Five(4 * Two(i + 1) * (k' / 2)));
          ghost var others := num - {r};
          GrownDisjoint(num0, p0, others, p5s);
          CacheInUse();
          r := TimesPower(r, i);
          assert num - {r} == others;
        }
        k' := k' / 2;
        if k' == 0 {
          FiveZero(num[r].value, 4 * Two(i + 1));
          break;
        }
        ghost var others, p := num - {r}, p5s;
        NeedPowerBeside(i + 1, r);
        GrownTrans(num0, p0, others, p, num - {r}, p5s);
        i := i + 1;
      }
    }

    /** b := b * 5^k. */
    method Pow5Mult(b: Bigint, k: nat) returns (r: Bigint)
      requires Valid() && b in num && b !in p5s
      requires num[b].value > 0 && num[b] == Num(num[b].value, false, false)
      modifies this, repr
      ensures Valid() && fresh(repr - old(repr))
      ensures r in num && r !in p5s && r !in old(num) - {b}
      ensures num[r] == Num(old(num)[b].value * Five(k), false, false)
      ensures Grown(old(num) - {b}, old(p5s), num - {r}, p5s)
    {
      hide Times, Val, Two, Five, CachedPower, Valid, FreeListsOk, BlocksOk, CacheOk, Grown;
      ghost var v := num[b].value;
      CacheInUse();
      SmallPowers(k);
      TimesIs(v, Five(k));
      r := b;
      var i := k % 4;
      if i != 0 {
        TimesIs(if i == 1 then 5 else if i == 2 then 25 else 125, v);
        TimesComm(if i == 1 then 5 else if i == 2 then 25 else 125, v);
        r := MultAdd(r, if i == 1 then 5 else if i == 2 then 25 else 125, 0);
      } else {
        TimesIs(v, 1);
      }
      GrownRefl(old(num) - {b}, p5s);
      assert num - {r} == old(num) - {b};
      if k / 4 != 0 {
        r := Pow625Mult(r, k / 4);
      }
      TimesAssoc(v, Five(k % 4), Five(4 * (k / 4)));
    }

    /**
     How far to shift a divisor, beyond `p2` bits already planned, so that its top word ends
     up with four leading zero bits.
     */
    method Dshift(b: Bigint, p2: int) returns (r: nat)
      requires Valid() && b in num && num[b].value > 0
      ensures r < 32 && Aligned(num[b].value * Two((if p2 > 0 then p2 else 0) + r))
    {
      hide Val, Shl, Two, Five, CachedPower, Valid, FreeListsOk, CacheOk, BlocksOk, Aligned;
      InUse(b);
      ghost var s := b.x[..b.wds];
      NonZeroTop(s);
      var h := Hi0bits(b.x[b.wds - 1]);
      var rv: int := h;
      rv := rv - 4;
      if p2 > 0 {
        rv := rv - p2;
      }
      r := rv % 32;
      ShiftAligns(s, h, (if p2 > 0 then p2 else 0) + r);
    }
  }
}
