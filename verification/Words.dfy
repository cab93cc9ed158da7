/**
 Little-endian numbers in base 2^32 and the word loops of `lae/source/dtoa.c`.

 The loops run in place on arrays, as the C code does; the 64-bit intermediates are
 written with their reduction modulo 2^64, and the proofs show where it changes nothing.
 */
module Words {

  type Word = n: int | 0 <= n < 0x1_0000_0000

  /** `w` moved up by `i` words: w * BASE^i, in a form that stays linear. */
  function Shl(w: int, i: nat): (r: int)
  {
    if i == 0 then w else 0x1_0000_0000 * Shl(w, i - 1)
  }

  /** The number a word sequence stands for, least significant word first. */
  function Val(s: seq<Word>): (v: int)
  {
    if |s| == 0 then 0 else Val(s[..|s| - 1]) + Shl(s[|s| - 1], |s| - 1)
  }

  /** Multiplication under a name, for proofs that should not look inside it. */
  function Times(a: int, b: int): (r: int)
  {
    a * b
  }

  lemma {:induction false} TimesIs(a: int, b: int)
    ensures Times(a, b) == a * b
  {
  }

  // ----- shifting by whole words -----

  lemma {:induction false} ShlAdd(a: int, b: int, i: nat)
    ensures Shl(a + b, i) == Shl(a, i) + Shl(b, i)
  {
    if i > 0 { ShlAdd(a, b, i - 1); }
  }

  lemma {:induction false} ShlMono(a: int, b: int, i: nat)
    ensures a <= b ==> Shl(a, i) <= Shl(b, i)
    ensures a < b ==> Shl(a, i) < Shl(b, i)
    ensures a == 0 ==> Shl(a, i) == 0
  {
    if i > 0 { ShlMono(a, b, i - 1); }
  }

  lemma {:induction false} ShlUp(w: int, i: nat)
    ensures Shl(0x1_0000_0000 * w, i) == Shl(w, i + 1)
  {
    if i > 0 { ShlUp(w, i - 1); }
  }

  lemma {:induction false} ShlShl(w: int, i: nat, j: nat)
    ensures Shl(Shl(w, i), j) == Shl(w, i + j)
  {
    if j > 0 { ShlShl(w, i, j - 1); }
  }

  lemma {:induction false} ShlMul(m: int, w: int, i: nat)
    ensures m * Shl(w, i) == Shl(m * w, i)
  {
    if i > 0 {
      ShlMul(m, w, i - 1);
      var y := Shl(w, i - 1);
      assert m * (0x1_0000_0000 * y) == 0x1_0000_0000 * (m * y);
    }
  }

  /** A carry split off a word moves one word up. */
  lemma {:induction false} ShlSplit(lo: int, hi: int, i: nat)
    ensures Shl(lo, i) + Shl(hi, i + 1) == Shl(hi * 0x1_0000_0000 + lo, i)
  {
    ShlUp(hi, i);
    ShlAdd(0x1_0000_0000 * hi, lo, i);
  }

  // ----- values of word sequences -----

  /** The starting point of every loop below: no words yet. */
  lemma {:induction false} NoWords(w: int, q: int)
    ensures Val([]) == 0 && Scaled(q, []) == 0 && Shl(w, 0) == w
  {
  }

  lemma {:induction false} ValSnoc(s: seq<Word>, w: Word)
    ensures Val(s + [w]) == Val(s) + Shl(w, |s|)
  {
    assert (s + [w])[..|s|] == s;
  }

  /** A word sequence is at least zero and smaller than the base to its length. */
  lemma {:induction false} ValBound(s: seq<Word>)
    ensures 0 <= Val(s) < Shl(1, |s|)
  {
    if |s| > 0 {
      var n: nat, w: int := |s| - 1, s[|s| - 1];
      ValBound(s[..n]);
      ShlMono(0, w, n);
      ShlAdd(w, 1, n);
      ShlMono(w + 1, 0x1_0000_0000, n);
      ShlUp(1, n);
    }
  }

  lemma {:induction false} ValConcat(s: seq<Word>, t: seq<Word>)
    ensures Val(s + t) == Val(s) + Shl(Val(t), |s|)
  {
    if t == [] {
      assert s + t == s;
      ShlMono(0, 0, |s|);
    } else {
      var u, w := t[..|t| - 1], t[|t| - 1];
      assert s + t == (s + u) + [w];
      ValConcat(s, u);
      ValSnoc(s + u, w);
      ShlAdd(Val(u), Shl(w, |u|), |s|);
      ShlShl(w, |u|, |s|);
    }
  }

  lemma {:induction false} ValZeros(s: seq<Word>)
    requires forall i :: 0 <= i < |s| ==> s[i] == 0
    ensures Val(s) == 0
  {
    if |s| > 0 {
      ValZeros(s[..|s| - 1]);
      ShlMono(0, 0, |s| - 1);
    }
  }

  /** Overwriting one word changes the value by the difference at that word's weight. */
  lemma {:induction false} ValUpdate(s: seq<Word>, i: nat, w: Word)
    requires i < |s|
    ensures Val(s[i := w]) == Val(s) + Shl(w, i) - Shl(s[i], i)
  {
    var last := |s| - 1;
    if i == last {
      assert s[i := w][..last] == s[..last];
    } else {
      assert s[i := w][..last] == s[..last][i := w];
      ValUpdate(s[..last], i, w);
    }
  }

  /** Dropping a leading zero word keeps the value. */
  lemma {:induction false} ValDropZero(s: seq<Word>)
    requires |s| > 0 && s[|s| - 1] == 0
    ensures Val(s[..|s| - 1]) == Val(s)
  {
    ShlMono(0, 0, |s| - 1);
  }

  /** With a non-zero top word the value reaches that word's weight. */
  lemma {:induction false} ValTop(s: seq<Word>)
    requires |s| > 0 && s[|s| - 1] != 0
    ensures Shl(1, |s| - 1) <= Val(s)
  {
    ValBound(s[..|s| - 1]);
    ShlMono(1, s[|s| - 1], |s| - 1);
  }

  /** The first differing word from the top decides the order. */
  lemma {:induction false} TopWordDecides(s: seq<Word>, t: seq<Word>, i: nat)
    requires |s| == |t| && i < |s| && s[i + 1..] == t[i + 1..]
    ensures s[i] < t[i] ==> Val(s) < Val(t)
  {
    assert s == (s[..i] + [s[i]]) + s[i + 1..] && t == (t[..i] + [t[i]]) + t[i + 1..];
    ValConcat(s[..i] + [s[i]], s[i + 1..]);
    ValConcat(t[..i] + [t[i]], t[i + 1..]);
    ValSnoc(s[..i], s[i]);
    ValSnoc(t[..i], t[i]);
    ValBound(s[..i]);
    ValBound(t[..i]);
    var w: int := s[i];
    ShlAdd(w, 1, i);
    ShlMono(w + 1, t[i], i);
  }

  /** q times a word sequence, word by word; the products stay apart from the sums. */
  function Scaled(q: int, s: seq<Word>): (v: int)
  {
    if |s| == 0 then 0 else Scaled(q, s[..|s| - 1]) + Shl(q * s[|s| - 1], |s| - 1)
  }

  lemma {:induction false} ScaledVal(q: int, s: seq<Word>)
    ensures Scaled(q, s) == q * Val(s)
  {
    if |s| > 0 {
      var n := |s| - 1;
      ScaledVal(q, s[..n]);
      ShlMul(q, s[n], n);
      Distribute(q, Val(s[..n]), Shl(s[n], n));
    }
  }

  lemma {:induction false} ScaledSnoc(q: int, s: seq<Word>, w: Word)
    ensures Scaled(q, s + [w]) == Scaled(q, s) + Shl(q * w, |s|)
  {
    assert (s + [w])[..|s|] == s;
  }

  // ----- 64-bit intermediates -----

  /** The borrow taken out of a wrapped 64-bit difference. */
  lemma {:induction false} BorrowStep(d: int)
    requires -0x1_0000_0000 <= d < 0x1_0000_0000
    ensures var y := d % 0x1_0000_0000_0000_0000;
            var borrow := y / 0x1_0000_0000 % 2;
            y % 0x1_0000_0000 == d + 0x1_0000_0000 * borrow && (borrow == 0 || borrow == 1)
  {
    var y := d % 0x1_0000_0000_0000_0000;
    if d >= 0 {
      assert y == d;
    } else {
      assert y == d + 0x1_0000_0000_0000_0000;
    }
  }

  /** A 32 by 32 bit product plus two words fits 64 bits. */
  lemma {:induction false} ProductFits(x: Word, y: Word, c: Word, carry: Word)
    ensures 0 <= x * y + c + carry < 0x1_0000_0000_0000_0000
  {
    MulMono(x, 0xFFFF_FFFF, y);
    MulMono(y, 0xFFFF_FFFF, 0xFFFF_FFFF);
    MulMono(0, x, y);
  }

  lemma {:induction false} MulMono(a: int, b: int, c: int)
    requires a <= b && 0 <= c
    ensures a * c <= b * c
  {
  }

  lemma {:induction false} HighWordFits(z: int)
    requires 0 <= z < 0x1_0000_0000_0000_0000
    ensures 0 <= z / 0x1_0000_0000 < 0x1_0000_0000 && z == z / 0x1_0000_0000 * 0x1_0000_0000 + z % 0x1_0000_0000
  {
  }

  // ----- the loops -----

  /** The loop of `multadd`: x := x * m + a over `n` words, with the carry out of the top. */
  method MulAddLoop(x: array<Word>, n: nat, m: Word, a: Word) returns (carry: Word)
    requires 1 <= n <= x.Length
    modifies x
    ensures Val(x[..n]) + Shl(carry, n) == Scaled(m, old(x[..n])) + a
    ensures forall t :: n <= t < x.Length ==> x[t] == old(x[t])
  {
    hide Val, Shl, Scaled;
    carry := a;
    var i := 0;
    ghost var x0 := x[..];
    NoWords(a, m);
    assert x[..0] == [] && x0[..0] == [];
    while i < n
      invariant 0 <= i <= n
      invariant Val(x[..i]) + Shl(carry, i) == Scaled(m, x0[..i]) + a
      invariant forall t :: i <= t < x.Length ==> x[t] == x0[t]
    {
      ghost var before, carry0 := x[..i], carry;
      var lo;
      lo, carry := MulAddWord(x[i], m, 0, carry);
      MulAddStep(before, x0[..i], lo, carry, x0[i], m, carry0, a);
      x[i] := lo;
      assert x[..i + 1] == before + [lo];
      assert x0[..i + 1] == x0[..i] + [x0[i]];
      i := i + 1;
    }
    assert x0[..n] == old(x[..n]);
  }

  lemma {:induction false} MulAddStep(s: seq<Word>, t: seq<Word>, lo: Word, hi: int, w: Word, m: int, carry: int,
                                      a: int)
    requires |s| == |t|
    requires m * w + carry == hi * 0x1_0000_0000 + lo
    requires Val(s) + Shl(carry, |s|) == Scaled(m, t) + a
    ensures Val(s + [lo]) + Shl(hi, |s| + 1) == Scaled(m, t + [w]) + a
  {
    var i := |s|;
    ValSnoc(s, lo);
    ScaledSnoc(m, t, w);
    ShlSplit(lo, hi, i);
    ShlAdd(m * w, carry, i);
  }

  lemma {:induction false} Distribute(m: int, x: int, y: int)
    ensures m * (x + y) == m * x + m * y
  {
  }

  /** The inner loop of `mult`: c := c + a * y * BASE^j, in place from word `j` on. */
  method AddProduct(c: array<Word>, wc: nat, j: nat, a: array<Word>, n: nat, y: Word)
    requires c != a
    requires 1 <= n <= a.Length && j + n < wc <= c.Length
    requires forall t :: j + n <= t < wc ==> c[t] == 0
    modifies c
    ensures Val(c[..wc]) == Val(old(c[..wc])) + Shl(Scaled(y, a[..n]), j)
    ensures forall t :: j + n < t < wc ==> c[t] == 0
  {
    hide Val, Shl, Scaled;
    var carry: Word := 0;
    var i := 0;
    ghost var c0, av := c[..wc], a[..];
    ShlMono(0, 0, j);
    ShlMono(0, 0, j + 0);
    NoWords(0, y);
    assert av[..0] == [];
    while i < n
      invariant 0 <= i <= n
      invariant Val(c[..wc]) + Shl(carry, j + i) == Val(c0) + Shl(Scaled(y, av[..i]), j)
      invariant forall t :: j + n <= t < wc ==> c[t] == 0
    {
      ghost var cc, carry0 := c[..wc], carry;
      var lo;
      lo, carry := MulAddWord(a[i], y, c[j + i], carry);
      AddProductStep(cc, j, av[..i], lo, carry, av[i], y, carry0, Val(c0));
      c[j + i] := lo;
      assert c[..wc] == cc[j + i := lo];
      assert av[..i + 1] == av[..i] + [av[i]];
      i := i + 1;
    }
    ghost var cc := c[..wc];
    ValUpdate(cc, j + n, carry);
    ShlMono(0, 0, j + n);
    c[j + n] := carry;
    assert c[..wc] == cc[j + n := carry] && a[..n] == av[..n];
  }

  /** One word of it: x * y + c + carry, split into a word and a carry. */
  method MulAddWord(x: Word, y: Word, c: Word, carry: Word) returns (lo: Word, carry': Word)
    ensures y * x + c + carry == carry' * 0x1_0000_0000 + lo
  {
    ProductFits(x, y, c, carry);
    var z := (x * y + c + carry) % 0x1_0000_0000_0000_0000;
    HighWordFits(z);
    lo, carry' := z % 0x1_0000_0000, z / 0x1_0000_0000;
  }

  lemma {:induction false} AddProductStep(c: seq<Word>, j: nat, a: seq<Word>, lo: Word, hi: int, w: Word, y: int,
                                          carry: int, v0: int)
    requires j + |a| < |c|
    requires y * w + c[j + |a|] + carry == hi * 0x1_0000_0000 + lo
    requires Val(c) + Shl(carry, j + |a|) == v0 + Shl(Scaled(y, a), j)
    ensures Val(c[j + |a| := lo]) + Shl(hi, j + |a| + 1) == v0 + Shl(Scaled(y, a + [w]), j)
  {
    var i, k := |a|, j + |a|;
    ValUpdate(c, k, lo);
    ShlSplit(lo, hi, k);
    ShlAdd(y * w, c[k] + carry, k);
    ShlAdd(c[k], carry, k);
    ScaledSnoc(y, a, w);
    ShlAdd(Scaled(y, a), Shl(y * w, i), j);
    ShlShl(y * w, i, j);
  }

  /**
   The subtracting loops of `quorem`: b := b - q * s over `n` words, with the carry of the
   product and the borrow of the difference running side by side.
   */
  method SubtractMultiple(b: array<Word>, s: array<Word>, n: nat, q: Word)
    requires b != s
    requires 1 <= n <= b.Length && n <= s.Length
    requires Scaled(q, s[..n]) <= Val(b[..n])
    modifies b
    ensures Val(b[..n]) == Val(old(b[..n])) - Scaled(q, s[..n])
    ensures forall t :: n <= t < b.Length ==> b[t] == old(b[t])
  {
    hide Val, Shl, Scaled;
    var carry: Word, borrow: Word := 0, 0;
    var i := 0;
    ghost var b0, sv := b[..], s[..];
    NoWords(0, q);
    assert b[..0] == [] && b0[..0] == [] && sv[..0] == [];
    while i < n
      invariant 0 <= i <= n
      invariant borrow <= 1
      invariant Val(b[..i]) + Scaled(q, sv[..i]) == Val(b0[..i]) + Shl(carry + borrow, i)
      invariant forall t :: i <= t < b.Length ==> b[t] == b0[t]
    {
      ghost var debt: int := carry + borrow;
      ghost var before := b[..i];
      var lo;
      lo, carry, borrow := SubtractProduct(b[i], s[i], q, carry, borrow);
      SubtractStep(before, b0, sv, q, debt, lo, carry + borrow);
      b[i] := lo;
      assert b[..i + 1] == before + [lo];
      i := i + 1;
    }
    assert b0[..n] == old(b[..n]) && s[..n] == sv[..n];
    NoDebtLeft(b[..n], Val(b0[..n]), Scaled(q, sv[..n]), carry + borrow);
  }

  /** A difference that is not negative leaves nothing owed beyond its top word. */
  lemma {:induction false} NoDebtLeft(c: seq<Word>, v: int, x: int, debt: int)
    requires 0 <= debt && x <= v
    requires Val(c) + x == v + Shl(debt, |c|)
    ensures Val(c) == v - x
  {
    ValBound(c);
    ShlMono(1, debt, |c|);
    ShlMono(0, 0, |c|);
  }

  /** One word of it: w - (sw * q + carry) - borrow, split into a word, a carry and a borrow. */
  method SubtractProduct(w: Word, sw: Word, q: Word, carry: Word, borrow: Word)
    returns (lo: Word, carry': Word, borrow': Word)
    requires borrow <= 1
    ensures borrow' <= 1
    ensures lo + q * sw + carry + borrow == w + (carry' + borrow') * 0x1_0000_0000
  {
    ProductFits(sw, q, 0, carry);
    var ys := (sw * q + carry) % 0x1_0000_0000_0000_0000;
    HighWordFits(ys);
    carry' := ys / 0x1_0000_0000;
    lo, borrow' := SubtractWord(w, ys % 0x1_0000_0000, borrow);
  }

  /** w - v - borrow in wrapped 64-bit arithmetic: the word and the borrow it leaves. */
  method SubtractWord(w: Word, v: Word, borrow: Word) returns (lo: Word, borrow': Word)
    requires borrow <= 1
    ensures borrow' <= 1
    ensures lo == w - v - borrow + 0x1_0000_0000 * borrow'
  {
    BorrowStep(w - v - borrow);
    var y := (w - v - borrow) % 0x1_0000_0000_0000_0000;
    borrow' := y / 0x1_0000_0000 % 2;
    lo := y % 0x1_0000_0000;
  }

  lemma {:induction false} SubtractStep(b: seq<Word>, b0: seq<Word>, s: seq<Word>, q: int, debt: int, lo: Word,
                                        debt': int)
    requires |b| < |b0| && |b| < |s|
    requires lo + q * s[|b|] + debt == b0[|b|] + debt' * 0x1_0000_0000
    requires Val(b) + Scaled(q, s[..|b|]) == Val(b0[..|b|]) + Shl(debt, |b|)
    ensures Val(b + [lo]) + Scaled(q, s[..|b| + 1]) == Val(b0[..|b| + 1]) + Shl(debt', |b| + 1)
  {
    var i := |b|;
    ValSnoc(b, lo);
    assert b0[..i + 1] == b0[..i] + [b0[i]] && s[..i + 1] == s[..i] + [s[i]];
    ValSnoc(b0[..i], b0[i]);
    ScaledSnoc(q, s[..i], s[i]);
    ShlSplit(b0[i], debt', i);
    ShlAdd(lo, q * s[i] + debt, i);
    ShlAdd(q * s[i], debt, i);
  }

  /** The first subtracting loop of `diff`: the words both numbers have. */
  method SubtractCommon(c: array<Word>, a: array<Word>, b: array<Word>, n: nat) returns (borrow: Word)
    requires c != a && c != b
    requires n <= a.Length && n <= b.Length && n <= c.Length
    modifies c
    ensures borrow <= 1
    ensures Val(c[..n]) + Val(b[..n]) == Val(a[..n]) + Shl(borrow, n)
  {
    hide Val, Shl, Scaled;
    ghost var av, bv := a[..], b[..];
    borrow := 0;
    var i := 0;
    NoWords(0, 0);
    assert c[..0] == [] && av[..0] == [] && bv[..0] == [];
    while i < n
      invariant 0 <= i <= n
      invariant borrow <= 1
      invariant Val(c[..i]) + Val(bv[..i]) == Val(av[..i]) + Shl(borrow, i)
    {
      ghost var before, borrow0 := c[..i], borrow;
      var lo;
      lo, borrow := SubtractWord(a[i], b[i], borrow);
      BorrowWord(before, av, bv[i], Val(bv[..i]), borrow0, lo, borrow);
      c[i] := lo;
      assert c[..i + 1] == before + [lo];
      assert bv[..i + 1] == bv[..i] + [bv[i]];
      ValSnoc(bv[..i], bv[i]);
      i := i + 1;
    }
    assert a[..n] == av[..n] && b[..n] == bv[..n];
  }

  /** Both subtracting loops of `diff`: c := a - b, word by word, for a >= b. */
  method SubtractWords(c: array<Word>, a: array<Word>, na: nat, b: array<Word>, nb: nat)
    requires c != a && c != b
    requires nb <= na <= a.Length && nb <= b.Length && na <= c.Length
    requires Val(b[..nb]) <= Val(a[..na])
    modifies c
    ensures Val(c[..na]) == Val(a[..na]) - Val(b[..nb])
  {
    hide Val, Shl, Scaled;
    ghost var av, vb := a[..], Val(b[..nb]);
    var borrow := SubtractCommon(c, a, b, nb);
    var i := nb;
    assert a[..i] == av[..i];
    while i < na
      invariant nb <= i <= na
      invariant borrow <= 1
      invariant Val(c[..i]) + vb == Val(av[..i]) + Shl(borrow, i)
    {
      ghost var before, borrow0 := c[..i], borrow;
      var lo;
      lo, borrow := SubtractWord(a[i], 0, borrow);
      BorrowWord(before, av, 0, vb, borrow0, lo, borrow);
      ShlMono(0, 0, i);
      c[i] := lo;
      assert c[..i + 1] == before + [lo];
      i := i + 1;
    }
    assert a[..na] == av[..na];
    NoDebtLeft(c[..na], Val(av[..na]), vb, borrow);
  }

  lemma {:induction false} BorrowWord(c: seq<Word>, a: seq<Word>, bw: Word, vb: int, borrow: int, lo: Word,
                                      borrow': int)
    requires |c| < |a|
    requires lo == a[|c|] - bw - borrow + 0x1_0000_0000 * borrow'
    requires Val(c) + vb == Val(a[..|c|]) + Shl(borrow, |c|)
    ensures Val(c + [lo]) + vb + Shl(bw, |c|) == Val(a[..|c| + 1]) + Shl(borrow', |c| + 1)
  {
    var i := |c|;
    ValSnoc(c, lo);
    assert a[..i + 1] == a[..i] + [a[i]];
    ValSnoc(a[..i], a[i]);
    ShlSplit(a[i], borrow', i);
    ShlAdd(lo, bw + borrow, i);
    ShlAdd(bw, borrow, i);
  }

  /**
   The shifting loop of `lshift` for a shift of k bits, 0 < k < 32, with f = 2^k and
   g = 2^(32-k): writes a * f from word `off` of `c` on and returns the bits shifted out.
   */
  method ShiftLoop(c: array<Word>, off: nat, a: array<Word>, n: nat, f: Word, g: Word) returns (z: Word)
    requires c != a
    requires 1 <= n <= a.Length && off + n <= c.Length
    requires f > 0 && f * g == 0x1_0000_0000
    modifies c
    ensures c[..off] == old(c[..off])
    ensures Val(c[off..off + n]) + Shl(z, n) == Scaled(f, a[..n])
  {
    hide Val, Shl, Scaled;
    z := 0;
    var i := 0;
    NoWords(0, f);
    assert c[off..off + 0] == [] && a[..0] == [];
    while i < n
      invariant 0 <= i <= n
      invariant c[..off] == old(c[..off])
      invariant z < f
      invariant Val(c[off..off + i]) + Shl(z, i) == Scaled(f, a[..i])
    {
      ShiftWord(a[i], f, g);
      var lo := a[i] * f % 0x1_0000_0000;
      ghost var before := c[off..off + i];
      MulAddStep(before, a[..i], lo + z, a[i] / g, a[i], f, z, 0);
      c[off + i] := lo + z;
      assert c[off..off + i + 1] == before + [lo + z];
      assert a[..i + 1] == a[..i] + [a[i]];
      z := a[i] / g;
      i := i + 1;
    }
  }

  /** Splitting a shifted word: the low part leaves room for the bits coming in. */
  lemma {:induction false} ShiftWord(w: Word, f: Word, g: Word)
    requires f > 0 && f * g == 0x1_0000_0000
    ensures g > 0
    ensures w * f == w * f % 0x1_0000_0000 + w / g * 0x1_0000_0000
    ensures w * f % 0x1_0000_0000 + f <= 0x1_0000_0000
    ensures 0 <= w / g < f
  {
    var q, r := w / g, w % g;
    assert w == q * g + r;
    assert q < f by {
      if f <= q { MulMono(f, q, g); }
    }
    MulMono(0, r, f);
    MulMono(r + 1, g, f);
    LowPart(q, r * f, w * f, f, g, r);
  }

  lemma {:induction false} LowPart(q: int, t: int, z: int, f: int, g: int, r: int)
    requires f * g == 0x1_0000_0000 && t == r * f && z == (q * g + r) * f
    requires 0 <= t && (r + 1) * f <= g * f && f > 0
    ensures z % 0x1_0000_0000 == t && z == t + q * 0x1_0000_0000 && t + f <= 0x1_0000_0000
  {
    assert z == q * (f * g) + r * f;
  }

  /** The word loop of `cmp` on two numbers of the same length, from the top word down. */
  method CompareWords(a: array<Word>, b: array<Word>, n: nat) returns (r: int)
    requires 1 <= n <= a.Length && n <= b.Length
    ensures r == (if Val(a[..n]) < Val(b[..n]) then -1 else if Val(a[..n]) > Val(b[..n]) then 1 else 0)
  {
    hide Val, Shl, Scaled;
    var i := n;
    while true
      invariant 1 <= i <= n
      invariant a[i..n] == b[i..n]
      decreases i
    {
      i := i - 1;
      assert a[..n][i + 1..] == a[i + 1..n] && b[..n][i + 1..] == b[i + 1..n];
      if a[i] != b[i] {
        TopWordDecides(a[..n], b[..n], i);
        TopWordDecides(b[..n], a[..n], i);
        return if a[i] < b[i] then -1 else 1;
      }
      assert a[i..n] == [a[i]] + a[i + 1..n] && b[i..n] == [b[i]] + b[i + 1..n];
      if i == 0 {
        assert a[..n] == b[..n];
        return 0;
      }
    }
  }

  /** The body of `mult`: c[..na + nb] := a * b, one row per word of `b`. */
  method MulInto(c: array<Word>, a: array<Word>, na: nat, b: array<Word>, nb: nat)
    requires c != a && c != b
    requires 1 <= na <= a.Length && nb <= b.Length && na + nb <= c.Length
    modifies c
    ensures Val(c[..na + nb]) == Times(Val(a[..na]), Val(b[..nb]))
  {
    hide Val, Shl, Scaled, Times;
    var wc := na + nb;
    forall t | 0 <= t < wc { c[t] := 0; }
    ghost var av, bv := a[..na], b[..nb];
    ValZeros(c[..wc]);
    NoWords(0, 0);
    TimesIs(Val(av), 0);
    var j := 0;
    assert bv[..0] == [];
    while j < nb
      invariant 0 <= j <= nb
      invariant Val(c[..wc]) == Times(Val(av), Val(bv[..j]))
      invariant forall t :: na + j <= t < wc ==> c[t] == 0
    {
      var y := b[j];
      MulRow(av, bv, j);
      if y != 0 {
        AddProduct(c, wc, j, a, na, y);
        assert a[..na] == av;
      }
      j := j + 1;
    }
    assert bv[..nb] == bv && a[..na] == av && b[..nb] == bv;
  }

  lemma {:induction false} MulRow(a: seq<Word>, b: seq<Word>, j: nat)
    requires j < |b|
    ensures Times(Val(a), Val(b[..j + 1])) == Times(Val(a), Val(b[..j])) + Shl(Scaled(b[j], a), j)
    ensures b[j] == 0 ==> Shl(Scaled(b[j], a), j) == 0
  {
    assert b[..j + 1] == b[..j] + [b[j]];
    ValSnoc(b[..j], b[j]);
    ScaledVal(b[j], a);
    ShlMono(0, 0, j);
    RowStep(Val(a), Val(b[..j]), b[j], j);
  }

  lemma {:induction false} RowStep(va: int, vb: int, w: int, j: nat)
    ensures Times(va, vb + Shl(w, j)) == Times(va, vb) + Shl(w * va, j)
  {
    Distribute(va, vb, Shl(w, j));
    ShlMul(va, w, j);
    assert va * w == w * va;
  }

  /** The trimming loops: drops leading zero words, but never below `lo` words. */
  method Trim(x: array<Word>, n: nat, lo: nat) returns (w: nat)
    requires lo <= n <= x.Length
    ensures lo <= w <= n && Val(x[..w]) == Val(x[..n])
    ensures w > lo ==> x[w - 1] != 0
    ensures forall t :: w <= t < n ==> x[t] == 0
  {
    hide Val, Shl;
    w := n;
    while w > lo && x[w - 1] == 0
      invariant lo <= w <= n && Val(x[..w]) == Val(x[..n])
      invariant forall t :: w <= t < n ==> x[t] == 0
    {
      assert x[..w][..w - 1] == x[..w - 1];
      ValDropZero(x[..w]);
      w := w - 1;
    }
  }
}
