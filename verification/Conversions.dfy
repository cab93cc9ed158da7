/** How numbers get into blocks in `lae/source/dtoa.c`: from decimal digits, and from the two words of a double. */
module Conversions {
  import opened Words
  import opened Bigints
  import DigitSpec

  // ----- decimal digits -----

  /** Where digit i stands in the text: those from `nd0` on come after a decimal point of `dplen` bytes. */
  function PlaceOf(i: nat, nd0: nat, dplen: nat): (p: nat)
  {
    if i < nd0 then i else i + dplen
  }

  /** The digits of the text without the decimal point. */
  function DigitsOf(s: seq<int>, nd0: nat, n: nat, dplen: nat): (ds: seq<int>)
    requires n > 0 ==> PlaceOf(n - 1, nd0, dplen) < |s|
    ensures |ds| == n
  {
    seq(n, i requires 0 <= i < n => s[PlaceOf(i, nd0, dplen)])
  }

  lemma {:induction false} DigitsSnoc(s: seq<int>, nd0: nat, n: nat, dplen: nat)
    requires PlaceOf(n, nd0, dplen) < |s|
    ensures DigitsOf(s, nd0, n + 1, dplen) == DigitsOf(s, nd0, n, dplen) + [s[PlaceOf(n, nd0, dplen)]]
    ensures DigitSpec.Number(DigitsOf(s, nd0, n + 1, dplen))
            == 10 * DigitSpec.Number(DigitsOf(s, nd0, n, dplen)) + s[PlaceOf(n, nd0, dplen)]
  {
    var ds, c := DigitsOf(s, nd0, n, dplen), s[PlaceOf(n, nd0, dplen)];
    assert DigitsOf(s, nd0, n + 1, dplen) == ds + [c];
    DigitSpec.NumberSnoc(ds, c);
  }

  /** The exponent of the smallest block for nd digits, nine to a word. */
  method BlockFor(nd: nat) returns (k: nat)
    ensures (nd + 8) / 9 <= Two(k) && (k > 0 ==> Two(k - 1) < (nd + 8) / 9)
  {
    var x, y := (nd + 8) / 9, 1;
    k := 0;
    while x > y
      invariant y == Two(k) && (k > 0 ==> Two(k - 1) < x)
      decreases x - y
    {
      TwoStep(k);
      y := y * 2;
      k := k + 1;
    }
  }

  /**
   `s2b`: the number written by the first nd digits of the text, of which the value of the first
   nine is given.
   */
  method S2b(p: Dtoa, s: seq<int>, nd0: nat, nd: nat, y9: Word, dplen: nat) returns (b: Bigint)
    requires p.Valid() && nd0 <= nd && (nd > 0 ==> PlaceOf(nd - 1, nd0, dplen) < |s|)
    requires forall i :: 0 <= i < nd ==> 0 <= s[PlaceOf(i, nd0, dplen)] <= 9
    requires y9 == DigitSpec.Number(DigitsOf(s, nd0, if nd < 9 then nd else 9, dplen))
    modifies p, p.repr
    ensures p.Valid() && fresh(p.repr - old(p.repr)) && p.p5s == old(p.p5s)
    ensures b !in old(p.num)
    ensures var v := DigitSpec.Number(DigitsOf(s, nd0, nd, dplen));
            v >= 0 && p.num == old(p.num)[b := Num(v, false, false)]
  {
    hide Dtoa.Valid, DigitSpec.Number, DigitsOf;
    p.CacheInUse();
    b := OneWordBlock(p, nd, y9);
    if nd <= 9 { return; }
    ghost var v: nat := y9;
    var i, at := 9, 9;
    if 9 < nd0 {
      while i < nd0
        invariant 9 <= i <= nd0 && at == i
        invariant p.Valid() && fresh(p.repr - old(p.repr)) && p.p5s == old(p.p5s)
        invariant b !in old(p.num) && p.num == old(p.num)[b := Num(v, false, false)] && b !in p.p5s
        invariant v == DigitSpec.Number(DigitsOf(s, nd0, i, dplen))
      {
        DigitsSnoc(s, nd0, i, dplen);
        b, v := TimesTenPlus(p, b, s[at], old(p.num), v);
        i, at := i + 1, at + 1;
      }
      at := at + dplen;
    } else {
      at := dplen + 9;
    }
    while i < nd
      invariant nd0 <= i <= nd && 9 <= i && at == i + dplen
      invariant p.Valid() && fresh(p.repr - old(p.repr)) && p.p5s == old(p.p5s)
      invariant b !in old(p.num) && p.num == old(p.num)[b := Num(v, false, false)] && b !in p.p5s
      invariant v == DigitSpec.Number(DigitsOf(s, nd0, i, dplen))
    {
      DigitsSnoc(s, nd0, i, dplen);
      b, v := TimesTenPlus(p, b, s[at], old(p.num), v);
      i, at := i + 1, at + 1;
    }
  }

  /** The block the number starts in. */
  method OneWordBlock(p: Dtoa, nd: nat, y9: Word) returns (b: Bigint)
    requires p.Valid()
    modifies p, p.repr
    ensures p.Valid() && fresh(p.repr - old(p.repr)) && p.p5s == old(p.p5s)
    ensures b !in old(p.num) && p.num == old(p.num)[b := Num(y9, false, false)]
  {
    hide Val, Shl, Two, Five, CachedPower, Dtoa.Valid, Dtoa.FreeListsOk, Dtoa.CacheOk, Dtoa.BlocksOk;
    var k := BlockFor(nd);
    b := p.Balloc(k);
    p.Owned(b);
    label L:
    b.x[0], b.wds := y9, 1;
    p.Undisturbed@L(b);
    assert b.x[..1] == [] + [y9];
    ValSnoc([], y9);
    NoWords(y9, 0);
    p.Adopt(b, Num(y9, false, false));
  }

  /** One more digit. */
  method TimesTenPlus(p: Dtoa, b: Bigint, c: int, ghost num0: map<Bigint, Num>, ghost v: nat)
    returns (r: Bigint, ghost w: nat)
    requires p.Valid() && b !in num0 && b !in p.p5s && p.num == num0[b := Num(v, false, false)] && 0 <= c <= 9
    modifies p, p.repr
    ensures p.Valid() && fresh(p.repr - old(p.repr)) && p.p5s == old(p.p5s)
    ensures w == 10 * v + c && r !in num0 && r !in p.p5s && p.num == num0[r := Num(w, false, false)]
  {
    hide Dtoa.Valid;
    p.CacheInUse();
    r := p.MultAdd(b, 10, c);
    w := 10 * v + c;
    assert num0[b := Num(v, false, false)] - {b} == num0;
  }

  // ----- the words of a double -----

  /** Zero, or some bit among the low j is set; j is one of the steps of the halving. */
  predicate LowBit(x: int, j: nat)
  {
    x == 0
    || (if j == 32 then 0 < x < 0x1_0000_0000
        else if j == 16 then x % 0x1_0000 != 0
        else if j == 8 then x % 0x100 != 0
        else if j == 4 then x % 0x10 != 0
        else if j == 2 then x % 4 != 0
        else x % 2 != 0)
  }

  /** The number of trailing zero bits of a word, by halving, and the word without them. */
  method Lo0bits(w: Word) returns (k: nat, y: Word)
    ensures w == 0 ==> k == 32
    ensures w > 0 ==> k < 32 && y % 2 == 1 && w == y * Two(k)
  {
    hide Two, LowBit;
    TwoTable();
    y := w;
    var x: int := w;
    if x % 8 != 0 {
      k, y := LastThree(w);
      return;
    }
    k := 0;
    AnyBit(w);
    var all: int := w;
    k, x := Lower(all, x, k, 16, 0x1_0000, x % 0x1_0000 == 0);
    k, x := Lower(all, x, k, 8, 0x100, x % 0x100 == 0);
    k, x := Lower(all, x, k, 4, 0x10, x % 0x10 == 0);
    k, x := Lower(all, x, k, 2, 4, x % 4 == 0);
    if x % 2 == 0 {
      k, x := Lower(all, x, k, 1, 2, true);
      LastBit(x);
      if x == 0 { return 32, y; }
    }
    y := x;
  }

  /** The short cut for a word whose low three bits are not all zero. */
  method LastThree(w: Word) returns (k: nat, y: Word)
    requires w % 8 != 0
    ensures k <= 2 && y % 2 == 1 && w == y * Two(k)
  {
    hide Two;
    TwoTable();
    var x: int := w;
    if x % 2 == 1 { return 0, w; }
    if x % 4 == 2 { return 1, x / 2; }
    assert x % 4 == 0;
    return 2, x / 4;
  }

  lemma {:induction false} AnyBit(w: Word)
    ensures LowBit(w, 32)
  {
  }

  lemma {:induction false} LastBit(x: int)
    requires LowBit(x, 1)
    ensures x == 0 || x % 2 == 1
  {
  }

  /** One step: when the low j bits are zero, they go, and as many places with them. */
  method Lower(w: int, x: int, k: nat, j: nat, f: int, zero: bool) returns (k': nat, x': int)
    requires 0 <= x < 0x1_0000_0000 && w == x * Two(k) && f == Two(j) && LowBit(x, 2 * j)
    requires (j, f) in {(16, 0x1_0000), (8, 0x100), (4, 0x10), (2, 4), (1, 2)} && zero == (x % f == 0)
    ensures k' == (if zero then k + j else k) && x' == (if zero then x / f else x)
    ensures 0 <= x' <= x && w == x' * Two(k') && LowBit(x', j) && (x' == 0 <==> x == 0)
  {
    hide LowBit, Two;
    k', x' := k, x;
    if zero {
      LowerBy(w, x, k, j, f);
      k', x' := k + j, x / f;
    }
    LowHalf(x, j, f);
  }

  lemma {:induction false} LowHalf(x: int, j: nat, f: int)
    requires 0 <= x < 0x1_0000_0000 && LowBit(x, 2 * j)
    requires (j, f) in {(16, 0x1_0000), (8, 0x100), (4, 0x10), (2, 4), (1, 2)}
    ensures var y := if x % f == 0 then x / f else x; 0 <= y <= x && LowBit(y, j) && (y == 0 <==> x == 0)
  {
    if x > 0 && x % f == 0 {
      if j == 16 { HighHalf(x); }
      else if j == 8 { HalfOf16(x); }
      else if j == 4 { HalfOf8(x); }
      else if j == 2 { HalfOf4(x); }
      else { HalfOf2(x); }
    }
  }

  lemma {:induction false} HighHalf(x: int)
    requires 0 < x < 0x1_0000_0000 && x % 0x1_0000 == 0
    ensures 0 < x / 0x1_0000 <= x && x / 0x1_0000 % 0x1_0000 != 0
  {
    assert 0 < x / 0x1_0000 < 0x1_0000;
  }

  lemma {:induction false} HalfOf16(x: int)
    requires 0 <= x && x % 0x100 == 0 && x % 0x1_0000 != 0
    ensures 0 < x / 0x100 <= x && x / 0x100 % 0x100 != 0
  {
    assert x % 0x1_0000 == x / 0x100 % 0x100 * 0x100 + x % 0x100;
  }

  lemma {:induction false} HalfOf8(x: int)
    requires 0 <= x && x % 0x10 == 0 && x % 0x100 != 0
    ensures 0 < x / 0x10 <= x && x / 0x10 % 0x10 != 0
  {
    assert x % 0x100 == x / 0x10 % 0x10 * 0x10 + x % 0x10;
  }

  lemma {:induction false} HalfOf4(x: int)
    requires 0 <= x && x % 4 == 0 && x % 0x10 != 0
    ensures 0 < x / 4 <= x && x / 4 % 4 != 0
  {
    assert x % 0x10 == x / 4 % 4 * 4 + x % 4;
  }

  lemma {:induction false} HalfOf2(x: int)
    requires 0 <= x && x % 2 == 0 && x % 4 != 0
    ensures 0 < x / 2 <= x && x / 2 % 2 != 0
  {
    assert x % 4 == x / 2 % 2 * 2 + x % 2;
  }

  lemma {:induction false} LowerBy(w: int, x: int, k: nat, j: nat, f: int)
    requires w == x * Two(k) && f == Two(j) && x % f == 0 && f > 0
    ensures w == x / f * Two(k + j)
  {
    hide Two;
    TwoAdd(k, j);
    assert x == x / f * f;
    assert x / f * f * Two(k) == x / f * (f * Two(k));
  }

  /** The exponent field of a double's high word; the sign bit is left out. */
  function Exponent(d0: Word): (de: nat)
    ensures de < 2048
  {
    d0 % 0x8000_0000 / 0x10_0000
  }

  /** The high word's part of the mantissa, with the hidden bit of a normalised double. */
  function HighPart(d0: Word): (z: nat)
    ensures z < 0x20_0000 && (Exponent(d0) > 0 ==> z >= 0x10_0000)
  {
    d0 % 0x10_0000 + (if Exponent(d0) > 0 then 0x10_0000 else 0)
  }

  function Mantissa(d0: Word, d1: Word): (m: nat)
  {
    HighPart(d0) * 0x1_0000_0000 + d1
  }

  /** The power of two the mantissa is scaled by: the value is Mantissa * 2^Scale. */
  function Scale(d0: Word): (e: int)
  {
    (if Exponent(d0) > 0 then Exponent(d0) else 1) - 1075
  }

  lemma {:induction false} CancelBelow(a: int, b: int, f: int)
    requires f > 0 && a * f < b * f
    ensures a < b
  {
  }

  lemma {:induction false} CancelAtMost(a: int, b: int, f: int)
    requires f > 0 && a * f <= b * f
    ensures a <= b
  {
  }

  /** A word with h leading zero bits. */
  lemma {:induction false} TopBits(w: Word, h: nat)
    requires h < 32 && 0x8000_0000 <= w * Two(h) < 0x1_0000_0000
    ensures Two(31 - h) <= w < Two(32 - h)
  {
    hide Two;
    Two32();
    TwoStep(31);
    TwoAdd(31 - h, h);
    TwoAdd(32 - h, h);
    CancelAtMost(Two(31 - h), w, Two(h));
    CancelBelow(w, Two(32 - h), Two(h));
  }

  /** Two words of which the high one is w, as bits. */
  lemma {:induction false} TopBitsAbove(x0: Word, w: Word, h: nat)
    requires h < 32 && Two(31 - h) <= w < Two(32 - h)
    ensures Two(63 - h) <= w * 0x1_0000_0000 + x0 < Two(64 - h)
  {
    hide Two;
    Two32();
    TwoAdd(31 - h, 32);
    TwoAdd(32 - h, 32);
  }

  /** Dividing a two-word number by 2^k, when the low word less its k trailing zeros is y. */
  lemma {:induction false} ShiftTwoWords(z: Word, y: int, d1: Word, f: int, g: int)
    requires f >= 2 && g >= 2 && f * g == 0x1_0000_0000 && g % 2 == 0 && y % 2 == 1 && y >= 0 && d1 == y * f
    ensures z * g % 0x1_0000_0000 == z % f * g
    ensures 0 <= y + z % f * g < 0x1_0000_0000 && (y + z % f * g) % 2 == 1
    ensures (z / f * 0x1_0000_0000 + (y + z % f * g)) * f == z * 0x1_0000_0000 + d1
  {
    ShiftParts(z, z / f, z % f, y, d1, f, g, z % f * g);
  }

  lemma {:induction false} ShiftParts(z: int, zh: int, zl: int, y: int, d1: int, f: int, g: int, lo: int)
    requires f >= 2 && g >= 2 && f * g == 0x1_0000_0000 && g % 2 == 0 && y % 2 == 1 && y >= 0
    requires d1 == y * f && d1 < 0x1_0000_0000 && z == zh * f + zl && 0 <= zl < f && lo == zl * g
    ensures z * g % 0x1_0000_0000 == lo
    ensures 0 <= y + lo < 0x1_0000_0000 && (y + lo) % 2 == 1
    ensures (zh * 0x1_0000_0000 + (y + lo)) * f == z * 0x1_0000_0000 + d1
  {
    ProductOfParts(zh, zl, f, g);
    LowProduct(zl, f, g);
    BelowFactor(y, f, g);
    EvenProduct(zl, g);
    ProductOfWords(zh, zl, y, f, g);
    FitTogether(z * g, zh, lo, y, g);
  }

  lemma {:induction false} FitTogether(zg: int, zh: int, lo: int, y: int, g: int)
    requires zg == zh * 0x1_0000_0000 + lo && 0 <= lo <= 0x1_0000_0000 - g && lo % 2 == 0
    requires 0 <= y < g && y % 2 == 1
    ensures zg % 0x1_0000_0000 == lo
    ensures 0 <= y + lo < 0x1_0000_0000 && (y + lo) % 2 == 1
  {
    WordRest(zh, lo);
  }

  lemma {:induction false} WordRest(zh: int, lo: int)
    requires 0 <= lo < 0x1_0000_0000
    ensures (zh * 0x1_0000_0000 + lo) % 0x1_0000_0000 == lo
  {
  }

  lemma {:induction false} BelowFactor(y: int, f: int, g: int)
    requires f >= 2 && y * f < 0x1_0000_0000 && f * g == 0x1_0000_0000
    ensures y < g
  {
    if y >= g { MulMono(g, y, f); }
  }

  lemma {:induction false} ProductOfParts(zh: int, zl: int, f: int, g: int)
    requires f * g == 0x1_0000_0000
    ensures (zh * f + zl) * g == zh * 0x1_0000_0000 + zl * g
  {
    MulAssoc(zh, f, g);
  }

  lemma {:induction false} LowProduct(zl: int, f: int, g: int)
    requires 0 <= zl < f && g > 0 && f * g == 0x1_0000_0000
    ensures 0 <= zl * g <= 0x1_0000_0000 - g
  {
    assert zl * g <= (f - 1) * g;
  }

  lemma {:induction false} EvenProduct(a: int, g: int)
    requires g % 2 == 0
    ensures a * g % 2 == 0
  {
    var h := g / 2;
    assert a * g == 2 * (a * h);
  }

  lemma {:induction false} ProductOfWords(zh: int, zl: int, y: int, f: int, g: int)
    requires f * g == 0x1_0000_0000
    ensures (zh * 0x1_0000_0000 + (y + zl * g)) * f == (zh * f + zl) * 0x1_0000_0000 + y * f
  {
    MulAssoc(zl, g, f);
  }

  lemma {:induction false} EvenTwo(k: nat)
    requires k > 0
    ensures Two(k) % 2 == 0
  {
  }

  /** The mantissa's words without its trailing zero bits. */
  method StripMantissa(z0: Word, d1: Word) returns (k: nat, x0: Word, x1: Word)
    requires z0 > 0 || d1 > 0
    ensures k < 64 && x0 % 2 == 1 && (x1 * 0x1_0000_0000 + x0) * Two(k) == z0 * 0x1_0000_0000 + d1
    ensures d1 == 0 ==> x1 == 0
  {
    hide Two;
    TwoTable();
    if d1 != 0 {
      var y;
      k, y := Lo0bits(d1);
      if k != 0 {
        ShiftFactors(k);
        EvenTwo(32 - k);
        ShiftTwoWords(z0, y, d1, Two(k), Two(32 - k));
        x0 := y + z0 * Two(32 - k) % 0x1_0000_0000;
        x1 := z0 / Two(k);
      } else {
        x0, x1 := y, z0;
      }
    } else {
      k, x0 := Lo0bits(z0);
      x1 := 0;
      TwoAdd(k, 32);
      Two32();
      MulAssoc(x0, Two(k), Two(32));
      k := k + 32;
    }
  }

  /**
   `d2b`: the double with these words is b * 2^e, where b is odd and exactly `bits` bits long.
   */
  method D2b(p: Dtoa, d0: Word, d1: Word) returns (b: Bigint, e: int, bits: int)
    requires p.Valid() && Mantissa(d0, d1) > 0
    modifies p, p.repr
    ensures p.Valid() && fresh(p.repr - old(p.repr)) && p.p5s == old(p.p5s)
    ensures b !in old(p.num) && b in p.num && p.num == old(p.num)[b := Num(p.num[b].value, false, false)]
    ensures p.num[b].value % 2 == 1
    ensures e >= Scale(d0) && p.num[b].value * Two(e - Scale(d0)) == Mantissa(d0, d1)
    ensures bits >= 1 && Two(bits - 1) <= p.num[b].value < Two(bits)
    ensures Exponent(d0) > 0 ==> bits == 53 - (e - Scale(d0))
  {
    hide Two, Dtoa.Valid, Mantissa, Scale;
    var k, x0, x1, n := MantissaWords(d0, d1);
    b := TwoWordBlock(p, x0, x1);
    return b, Scale(d0) + k, n;
  }

  /** The words, the trailing zeros and the length of the mantissa. */
  method MantissaWords(d0: Word, d1: Word) returns (k: nat, x0: Word, x1: Word, bits: int)
    requires Mantissa(d0, d1) > 0
    ensures x0 % 2 == 1 && (x1 * 0x1_0000_0000 + x0) * Two(k) == Mantissa(d0, d1)
    ensures bits >= 1 && Two(bits - 1) <= x1 * 0x1_0000_0000 + x0 < Two(bits)
    ensures Exponent(d0) > 0 ==> bits == 53 - k
  {
    hide Two, HighPart, Exponent;
    var z: Word := HighPart(d0);
    k, x0, x1 := StripMantissa(z, d1);
    if Exponent(d0) != 0 {
      bits := 53;
      bits := bits - k;
      NormalBits(x1 * 0x1_0000_0000 + x0, k, Mantissa(d0, d1));
    } else {
      bits := BitLength(x0, x1);
    }
  }

  /** The block for a number of one or two words. */
  method TwoWordBlock(p: Dtoa, x0: Word, x1: Word) returns (b: Bigint)
    requires p.Valid()
    modifies p, p.repr
    ensures p.Valid() && fresh(p.repr - old(p.repr)) && p.p5s == old(p.p5s)
    ensures b !in old(p.num) && p.num == old(p.num)[b := Num(x1 * 0x1_0000_0000 + x0, false, false)]
  {
    hide Val, Shl, Two, Five, CachedPower, Dtoa.Valid, Dtoa.FreeListsOk, Dtoa.CacheOk, Dtoa.BlocksOk;
    b := p.Balloc(1);
    p.Owned(b);
    TwoTable();
    label L:
    b.x[0], b.x[1] := x0, x1;
    b.wds := if x1 != 0 then 2 else 1;
    p.Undisturbed@L(b);
    assert b.x[..1] == [] + [x0] && b.x[..2] == [x0] + [x1];
    WordsOf(x0, x1);
    p.Adopt(b, Num(x1 * 0x1_0000_0000 + x0, false, false));
  }

  lemma {:induction false} WordsOf(x0: Word, x1: Word)
    ensures Val([] + [x0]) == x0 && Val([x0] + [x1]) == x1 * 0x1_0000_0000 + x0
  {
    ValSnoc([], x0);
    ValSnoc([x0], x1);
    NoWords(x0, 0);
    assert [] + [x0] == [x0];
    assert Shl(x1, 1) == 0x1_0000_0000 * Shl(x1, 0);
    NoWords(x1, 0);
  }

  lemma {:induction false} TwoBelow(k: nat, n: nat)
    requires Two(k) < Two(n)
    ensures k < n
  {
    hide Two;
    if k >= n { TwoMono(n, k); }
  }

  /** A normalised mantissa has 53 bits, its trailing zeros among them. */
  lemma {:induction false} NormalBits(v: nat, k: nat, m: nat)
    requires v >= 1 && v * Two(k) == m && 0x10_0000_0000_0000 <= m < 0x20_0000_0000_0000
    ensures k <= 52 && Two(52 - k) <= v < Two(53 - k)
  {
    hide Two;
    TwoTable();
    Two32();
    TwoAdd(32, 16);
    TwoAdd(48, 4);
    TwoStep(52);
    MulMono(1, v, Two(k));
    TwoBelow(k, 53);
    TwoAdd(52 - k, k);
    TwoAdd(53 - k, k);
    CancelAtMost(Two(52 - k), v, Two(k));
    CancelBelow(v, Two(53 - k), Two(k));
  }

  /** The number of bits of a number of one or two words. */
  method BitLength(x0: Word, x1: Word) returns (bits: int)
    requires x0 > 0
    ensures bits >= 1 && Two(bits - 1) <= x1 * 0x1_0000_0000 + x0 < Two(bits)
  {
    hide Two;
    var i := if x1 != 0 then 2 else 1;
    var h := Hi0bits(if x1 != 0 then x1 else x0);
    TopBits(if x1 != 0 then x1 else x0, h);
    if x1 != 0 {
      TopBitsAbove(x0, x1, h);
    }
    return 32 * i - h;
  }
}
