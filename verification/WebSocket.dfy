/**
 WebSocket framing in `lae/source/LXZMessage.cpp` (section 5.2 of RFC 6455): frames are written
 into a message at its cursor, and read from received bytes into another message.
 */
module WebSocket {
  import opened Bytes
  import opened MemFile

  const ERROR_FRAME: int := 0xFF00
  const INCOMPLETE_FRAME: int := 0xFE00
  const OPENING_FRAME: int := 0x3300
  const CLOSING_FRAME: int := 0x3400
  const INCOMPLETE_TEXT_FRAME: int := 0x01
  const INCOMPLETE_BINARY_FRAME: int := 0x02
  const TEXT_FRAME: int := 0x81
  const BINARY_FRAME: int := 0x82
  const PING_FRAME: int := 0x19
  const PONG_FRAME: int := 0x1A

  /** `WebSocketFrameType`. */
  predicate IsFrameType(kind: int)
  {
    kind in {ERROR_FRAME, INCOMPLETE_FRAME, OPENING_FRAME, CLOSING_FRAME, INCOMPLETE_TEXT_FRAME,
             INCOMPLETE_BINARY_FRAME, TEXT_FRAME, BINARY_FRAME, PING_FRAME, PONG_FRAME}
  }

  // ----- writing frames -----

  /** The length field: one byte, or 126 and two, or 127 and eight of which the first four are zero. */
  function LengthField(n: nat): (t: seq<byte>)
    requires n < 0x8000_0000
    ensures 1 <= |t| <= 9
  {
    if n <= 125 then [n]
    else if n <= 65535 then [126, n / 0x100, n % 0x100]
    else [127, 0, 0, 0, 0, n / 0x100_0000, n / 0x1_0000 % 0x100, n / 0x100 % 0x100, n % 0x100]
  }

  function Header(kind: int, n: nat): (t: seq<byte>)
    requires n < 0x8000_0000
    ensures 2 <= |t| <= 10
  {
    [kind % 0x100] + LengthField(n)
  }

  function Frame(kind: int, payload: seq<byte>): (t: seq<byte>)
    requires |payload| < 0x8000_0000
  {
    Header(kind, |payload|) + payload
  }

  /** A number written with its most significant byte first. */
  function BigEndian(s: seq<byte>): (n: nat)
  {
    if s == [] then 0 else BigEndian(s[..|s| - 1]) * 0x100 + s[|s| - 1]
  }

  /** The payload length as section 5.2 of RFC 6455 has it: in the shortest of the three forms. */
  predicate LengthLayout(f: seq<byte>, n: nat)
  {
    || (n <= 125 && f == [n])
    || (126 <= n < 0x1_0000 && |f| == 3 && f[0] == 126 && BigEndian(f[1..]) == n)
    || (0x1_0000 <= n && |f| == 9 && f[0] == 127 && BigEndian(f[1..]) == n)
  }

  lemma {:induction false} BigEndianStep(s: seq<byte>, c: byte)
    ensures BigEndian(s + [c]) == BigEndian(s) * 0x100 + c
  {
    assert (s + [c])[..|s|] == s;
  }

  lemma {:induction false} BigEndianTwo(a: byte, b: byte)
    ensures BigEndian([a, b]) == a * 0x100 + b
  {
    hide BigEndian;
    BigEndianNone();
    BigEndianStep([], a);
    BigEndianStep([a], b);
    assert [] + [a] == [a] && [a] + [b] == [a, b];
  }

  lemma {:induction false} BigEndianNone()
    ensures BigEndian([]) == 0
  {
  }

  /** The last four bytes of a number that has eight. */
  lemma {:induction false} BigEndianEight(s: seq<byte>)
    requires |s| == 8
    ensures BigEndian(s) == BigEndian(s[..4]) * 0x1_0000_0000 + FourBytes(s[4], s[5], s[6], s[7])
  {
    hide BigEndian;
    BigEndianStep(s[..4], s[4]);
    BigEndianStep(s[..5], s[5]);
    BigEndianStep(s[..6], s[6]);
    BigEndianStep(s[..7], s[7]);
    assert s[..4] + [s[4]] == s[..5] && s[..5] + [s[5]] == s[..6] && s[..6] + [s[6]] == s[..7] && s[..7] + [s[7]] == s;
  }

  lemma {:induction false} BigEndianZero(s: seq<byte>)
    ensures BigEndian(s) == 0 <==> forall i :: 0 <= i < |s| ==> s[i] == 0
  {
    if s != [] { BigEndianZero(s[..|s| - 1]); }
  }

  /** The length field the code writes is the one the standard lays out, and no other is. */
  lemma {:induction false} LengthFieldExactly(f: seq<byte>, n: nat)
    requires n < 0x8000_0000
    ensures LengthLayout(f, n) <==> f == LengthField(n)
  {
    hide BigEndian;
    if 126 <= n < 0x1_0000 && |f| == 3 {
      BigEndianTwo(f[1], f[2]);
      assert f[1..] == [f[1], f[2]];
      BigEndianTwo(n / 0x100, n % 0x100);
      assert LengthField(n)[1..] == [n / 0x100, n % 0x100];
    } else if 0x1_0000 <= n && |f| == 9 {
      LongFieldExactly(f, n);
    }
  }

  lemma {:induction false} LongFieldExactly(f: seq<byte>, n: nat)
    requires 0x1_0000 <= n < 0x8000_0000 && |f| == 9
    ensures f[0] == 127 && BigEndian(f[1..]) == n <==> f == LengthField(n)
  {
    hide BigEndian;
    var g := LengthField(n);
    var s, r := f[1..], g[1..];
    BigEndianEight(s);
    BigEndianEight(r);
    BigEndianZero(s[..4]);
    BigEndianZero(r[..4]);
    FourBack(n);
    if f[0] == 127 && BigEndian(s) == n {
      assert BigEndian(s[..4]) == 0;
      assert forall i :: 0 <= i < 4 ==> s[..4][i] == s[i] == f[1 + i];
      FourDigits(s[4], s[5], s[6], s[7], n);
      assert f == g;
    }
  }

  lemma {:induction false} FourDigits(a: int, b: int, c: int, d: int, n: nat)
    requires 0 <= a < 256 && 0 <= b < 256 && 0 <= c < 256 && 0 <= d < 256 && FourBytes(a, b, c, d) == n
    ensures a == n / 0x100_0000 && b == n / 0x1_0000 % 0x100 && c == n / 0x100 % 0x100 && d == n % 0x100
  {
    var q := a * 0x1_0000 + b * 0x100 + c;
    assert n == q * 0x100 + d;
    var r := a * 0x100 + b;
    assert q == r * 0x100 + c && n / 0x100 == q;
    assert q / 0x100 == r && n / 0x1_0000 == r;
  }

  // ----- reading frames -----

  /** What one look at the received bytes gives. */
  datatype Reading =
    | Incomplete
    | OutOfBounds                                   // read past the end of memory, or too long a length
    | Overflow                                      // a length taken although it does not fit an int
    | Got(kind: int, payload: seq<byte>, len: nat)  // a frame, and how many bytes it took

  /** The type told by the first byte. */
  function KindOf(b: int): (kind: int)
    requires 0 <= b < 256
  {
    var opcode, fin := b % 16, b / 128;
    if opcode == 0 || opcode == 1 then (if fin == 1 then TEXT_FRAME else INCOMPLETE_TEXT_FRAME)
    else if opcode == 2 then (if fin == 1 then BINARY_FRAME else INCOMPLETE_BINARY_FRAME)
    else if opcode == 9 then PING_FRAME
    else if opcode == 10 then PONG_FRAME
    else ERROR_FRAME
  }

  /** Bitwise exclusive or. */
  function Xor(a: nat, b: nat): (r: nat)
    decreases a + b
  {
    if a == 0 && b == 0 then 0 else (a + b) % 2 + 2 * Xor(a / 2, b / 2)
  }

  lemma {:induction false} XorBelow(a: nat, b: nat, bound: nat)
    requires bound in [1, 2, 4, 8, 16, 32, 64, 128, 256] && a < bound && b < bound
    ensures Xor(a, b) < bound
    decreases bound
  {
    if bound > 1 { XorBelow(a / 2, b / 2, bound / 2); }
  }

  lemma {:induction false} XorHalves(a: nat, b: nat)
    ensures Xor(a, b) / 2 == Xor(a / 2, b / 2) && Xor(a, b) % 2 == (a + b) % 2
    ensures Xor(a, b) == (a + b) % 2 + 2 * Xor(a / 2, b / 2)
  {
  }

  /** Bit k of a number. */
  function Bit(x: nat, k: nat): (b: nat)
  {
    if k == 0 then x % 2 else Bit(x / 2, k - 1)
  }

  lemma {:induction false} XorBit(a: nat, b: nat, k: nat)
    ensures Bit(Xor(a, b), k) == (Bit(a, k) + Bit(b, k)) % 2
  {
    XorHalves(a, b);
    hide Xor;
    if k > 0 { XorBit(a / 2, b / 2, k - 1); }
  }

  /** Numbers below 2^n with the same n bits are the same. */
  lemma {:induction false} BitsDecide(x: nat, y: nat, n: nat, bound: nat)
    requires n <= 8 && bound == [1, 2, 4, 8, 16, 32, 64, 128, 256][n] && x < bound && y < bound
    requires forall k :: 0 <= k < n ==> Bit(x, k) == Bit(y, k)
    ensures x == y
    decreases n
  {
    if n > 0 {
      assert Bit(x, 0) == Bit(y, 0);
      forall k | 0 <= k < n - 1 ensures Bit(x / 2, k) == Bit(y / 2, k) { assert Bit(x, k + 1) == Bit(y, k + 1); }
      BitsDecide(x / 2, y / 2, n - 1, bound / 2);
    }
  }

  function XorByte(a: byte, b: byte): (r: byte)
  {
    XorBelow(a, b, 256);
    Xor(a, b)
  }

  /** Each byte combined with one of the four mask bytes in turn. */
  function Masked(s: seq<byte>, mask: seq<byte>): (t: seq<byte>)
    requires |mask| == 4
    ensures |t| == |s|
  {
    seq(|s|, i requires 0 <= i < |s| => XorByte(s[i], mask[i % 4]))
  }

  /**
   What a client sends for its payload (section 5.3 of RFC 6455): octet j is, bit by bit, the
   exclusive or of octet j of the payload and octet j modulo 4 of the mask.
   */
  ghost predicate SentFor(payload: seq<byte>, mask: seq<byte>, sent: seq<byte>)
    requires |mask| == 4
  {
    && |sent| == |payload|
    && forall j, k :: 0 <= j < |sent| && 0 <= k < 8 ==>
         Bit(sent[j], k) == (Bit(payload[j], k) + Bit(mask[j % 4], k)) % 2
  }

  /** Unmasking gives the payload back, and nothing else does. */
  lemma {:induction false} UnmaskedExactly(payload: seq<byte>, mask: seq<byte>, sent: seq<byte>)
    requires |mask| == 4
    ensures SentFor(payload, mask, sent) <==> Masked(sent, mask) == payload
  {
    hide Bit, XorByte;
    var u := Masked(sent, mask);
    forall j, k | 0 <= j < |sent| && 0 <= k < 8
      ensures Bit(u[j], k) == (Bit(sent[j], k) + Bit(mask[j % 4], k)) % 2
    {
      XorByteBit(sent[j], mask[j % 4], k);
    }
    if SentFor(payload, mask, sent) {
      forall j | 0 <= j < |sent| ensures u[j] == payload[j] {
        forall k | 0 <= k < 8 ensures Bit(u[j], k) == Bit(payload[j], k) {
          FlippedTwice(Bit(payload[j], k), Bit(mask[j % 4], k), Bit(sent[j], k));
          BitBelow(payload[j], k);
        }
        BitsDecide(u[j], payload[j], 8, 256);
      }
    } else if u == payload {
      forall j, k | 0 <= j < |sent| && 0 <= k < 8
        ensures Bit(sent[j], k) == (Bit(payload[j], k) + Bit(mask[j % 4], k)) % 2
      {
        FlippedTwice(Bit(sent[j], k), Bit(mask[j % 4], k), Bit(u[j], k));
        BitBelow(sent[j], k);
      }
    }
  }

  lemma {:induction false} XorByteBit(a: byte, b: byte, k: nat)
    ensures Bit(XorByte(a, b), k) == (Bit(a, k) + Bit(b, k)) % 2
  {
    XorBit(a, b, k);
  }

  lemma {:induction false} BitBelow(x: nat, k: nat)
    ensures Bit(x, k) < 2
  {
    if k > 0 { BitBelow(x / 2, k - 1); }
  }

  lemma {:induction false} FlippedTwice(a: nat, b: nat, x: nat)
    requires x == (a + b) % 2
    ensures (x + b) % 2 == a % 2
  {
  }

  /** The payload's length and where it begins (or its mask); none when the field is outside the bytes. */
  function LengthOf(t: seq<byte>): (r: Option<(nat, nat)>)
    requires |t| >= 3
    ensures r.Some? ==> 2 <= r.value.1 <= |t| && r.value.1 <= 10 && r.value.0 < 0x1_0000_0000
  {
    var field := t[1] % 128;
    if field <= 125 then Some((field, 2))
    else if field == 126 then (if |t| < 4 then None else Some((TwoBytes(t[2], t[3]), 4)))
    else if |t| < 10 || t[2..6] != [0, 0, 0, 0] then None
    else Some((FourBytes(t[6], t[7], t[8], t[9]), 10))
  }

  function TwoBytes(a: int, b: int): (n: nat)
    requires 0 <= a < 256 && 0 <= b < 256
    ensures n < 0x1_0000
  {
    a * 0x100 + b
  }

  function FourBytes(a: int, b: int, c: int, d: int): (n: nat)
    requires 0 <= a < 256 && 0 <= b < 256 && 0 <= c < 256 && 0 <= d < 256
    ensures n < 0x1_0000_0000 && (n < 0x8000_0000 <==> a < 128)
  {
    a * 0x100_0000 + b * 0x1_0000 + c * 0x100 + d
  }

  /** What is left of a number in an int of 32 bits. */
  function AsInt(x: int): (r: int)
    ensures -0x8000_0000 <= r < 0x8000_0000 && (r - x) % 0x1_0000_0000 == 0
  {
    var low := x % 0x1_0000_0000;
    if low < 0x8000_0000 then low else low - 0x1_0000_0000
  }

  /** The test that a frame is there. Its sum is an int. */
  predicate LongEnough(n: nat, len: nat, pos: nat)
  {
    n >= AsInt(len + pos)
  }

  /** Once the header is there the test says what it should, or passes because the sum does not fit. */
  lemma {:induction false} LongEnoughExactly(n: nat, len: nat, pos: nat)
    requires len < 0x1_0000_0000 && 2 <= pos <= 10 && pos <= n
    ensures LongEnough(n, len, pos) <==> n >= len + pos || len + pos >= 0x8000_0000
  {
  }

  lemma {:induction false} LongEnoughFits(n: nat, len: nat, pos: nat)
    requires len + pos < 0x8000_0000 && LongEnough(n, len, pos)
    ensures n >= len + pos
  {
  }

  lemma {:induction false} SumAsInt(len: nat, pos: nat)
    ensures AsInt(AsInt(len) + pos) == AsInt(len + pos)
    ensures len < 0x8000_0000 ==> AsInt(len) == len
  {
  }

  /**
   `GetWebSocketFrame` as a function of the bytes in memory, of which the first n were received. The
   length test leaves the mask out, so a masked frame may be taken that goes on past them; and it
   takes a frame whose length with the header does not fit an int.
   */
  function ReadMemory(t: seq<byte>, n: nat): (r: Reading)
    requires n <= |t|
    ensures r.Got? ==> 2 <= r.len <= |t| && r.len < 0x8000_0000
  {
    if n < 3 then Incomplete
    else
      match LengthOf(t)
      case None => OutOfBounds
      case Some((len, pos)) =>
        if !LongEnough(n, len, pos) then Incomplete
        else if len + pos + (if t[1] >= 128 then 4 else 0) >= 0x8000_0000 then Overflow
        else if t[1] >= 128 then
          (if |t| < pos + 4 + len then OutOfBounds
           else Got(KindOf(t[0]), Masked(t[pos + 4..pos + 4 + len], t[pos..pos + 4]), pos + 4 + len))
        else Got(KindOf(t[0]), t[pos..pos + len], pos + len)
  }

  /** Of any bytes, with room for the longest header: incomplete exactly while bytes are missing and the sum fits. */
  lemma {:induction false} IncompleteExactly(t: seq<byte>, n: nat)
    requires 10 <= n <= |t|
    ensures var r := LengthOf(t);
            ReadMemory(t, n) == Incomplete <==> r.Some? && n < r.value.0 + r.value.1 < 0x8000_0000
  {
    hide LengthOf, AsInt, KindOf, Masked;
    match LengthOf(t) {
      case None =>
      case Some((len, pos)) => LongEnoughExactly(n, len, pos);
    }
  }

  /** Eleven bytes that announce a payload of 2^31 - 1: taken for a frame. */
  lemma {:induction false} OverflowWitness()
    ensures LengthOf([0x82, 0x7F, 0, 0, 0, 0, 0x7F, 0xFF, 0xFF, 0xFF, 0]) == Some((0x7FFF_FFFF, 10))
    ensures AsInt(0x7FFF_FFFF + 10) == -0x7FFF_FFF7
    ensures ReadMemory([0x82, 0x7F, 0, 0, 0, 0, 0x7F, 0xFF, 0xFF, 0xFF, 0], 11) == Overflow
  {
    var t: seq<byte> := [0x82, 0x7F, 0, 0, 0, 0, 0x7F, 0xFF, 0xFF, 0xFF, 0];
    assert t[2..6] == [0, 0, 0, 0];
    assert LengthOf(t) == Some((0x7FFF_FFFF, 10));
  }

  /** Where the payload begins, and the payload, for a length and the end of its field. */
  function PayloadStart(t: seq<byte>, pos: nat): (at: nat)
    requires |t| >= 2
  {
    if t[1] >= 128 then pos + 4 else pos
  }

  function PayloadAt(t: seq<byte>, len: nat, pos: nat): (c: seq<byte>)
    requires |t| >= 2 && PayloadStart(t, pos) + len <= |t|
  {
    if t[1] >= 128 then Masked(t[pos + 4..pos + 4 + len], t[pos..pos + 4]) else t[pos..pos + len]
  }

  /** The test as the code makes it, each sum an int. */
  lemma {:induction false} TestedIncomplete(t: seq<byte>, n: nat)
    requires 3 <= n <= |t| && LengthOf(t).Some?
    requires var (len, pos) := LengthOf(t).value; n < AsInt(AsInt(len) + pos)
    ensures ReadMemory(t, n) == Incomplete
  {
    hide LengthOf, KindOf, Masked, AsInt;
    SumAsInt(LengthOf(t).value.0, LengthOf(t).value.1);
  }

  lemma {:induction false} TestedGot(t: seq<byte>, n: nat)
    requires 3 <= n <= |t| && LengthOf(t).Some? && !ReadMemory(t, n).OutOfBounds? && !ReadMemory(t, n).Overflow?
    requires var (len, pos) := LengthOf(t).value; n >= AsInt(AsInt(len) + pos)
    ensures var (len, pos) := LengthOf(t).value;
            && AsInt(len) == len && PayloadStart(t, pos) + len <= |t|
            && ReadMemory(t, n) == Got(KindOf(t[0]), PayloadAt(t, len, pos), PayloadStart(t, pos) + len)
  {
    hide LengthOf, KindOf, Masked, AsInt;
    var (len, pos) := LengthOf(t).value;
    SumAsInt(len, pos);
    LongEnoughFits(n, len, pos);
  }

  lemma {:induction false} LengthIsThere(t: seq<byte>, n: nat)
    requires 3 <= n <= |t| && !ReadMemory(t, n).OutOfBounds?
    ensures LengthOf(t).Some?
  {
    hide LengthOf;
  }

  /** The same when memory ends with what was received. */
  function ReadFrame(t: seq<byte>): (r: Reading)
    ensures r.Got? ==> 2 <= r.len <= |t|
  {
    ReadMemory(t, |t|)
  }

  /** The six types whose first byte tells them again. */
  predicate Survives(kind: int)
  {
    kind in {INCOMPLETE_TEXT_FRAME, INCOMPLETE_BINARY_FRAME, TEXT_FRAME, BINARY_FRAME, PING_FRAME, PONG_FRAME}
  }

  /** Of all the frame types, exactly those six are read back as they were written. */
  lemma {:induction false} KindReturns(kind: int)
    requires IsFrameType(kind)
    ensures KindOf(kind % 0x100) == kind <==> Survives(kind)
  {
  }

  /** Every first byte and the type it tells: last fragment or not, and the opcodes of section 5.2 of RFC 6455. */
  lemma {:induction false} KindExactly(fin: nat, reserved: nat, opcode: nat)
    requires fin < 2 && reserved < 8 && opcode < 16
    ensures KindOf(fin * 128 + reserved * 16 + opcode)
            == match (fin, opcode)
               case (0, 0) => 0x01
               case (0, 1) => 0x01
               case (0, 2) => 0x02
               case (1, 0) => 0x81
               case (1, 1) => 0x81
               case (1, 2) => 0x82
               case (_, 9) => 0x19
               case (_, 10) => 0x1A
               case _ => 0xFF00
  {
    var b := fin * 128 + reserved * 16 + opcode;
    assert b / 128 == fin && b % 16 == opcode;
  }

  /** The length is read as a number with its most significant byte first, in a form of any length. */
  lemma {:induction false} LengthOfExactly(t: seq<byte>)
    requires |t| >= 10
    ensures var field := t[1] % 128;
            LengthOf(t) == if field <= 125 then Some((field, 2))
                           else if field == 126 then Some((BigEndian(t[2..4]), 4))
                           else if BigEndian(t[2..10]) < 0x1_0000_0000 then Some((BigEndian(t[2..10]), 10))
                           else None
  {
    hide BigEndian;
    BigEndianTwo(t[2], t[3]);
    assert t[2..4] == [t[2], t[3]];
    var s := t[2..10];
    BigEndianEight(s);
    BigEndianZero(s[..4]);
    assert s[..4] == t[2..6];
    assert forall i :: 0 <= i < 8 ==> s[i] == t[2 + i];
    FourZeros(s[..4]);
  }

  lemma {:induction false} FourZeros(s: seq<byte>)
    requires |s| == 4
    ensures s == [0, 0, 0, 0] <==> forall i :: 0 <= i < |s| ==> s[i] == 0
  {
  }

  /** The length field is read back, whatever follows it. */
  lemma {:induction false} LengthReturns(b: byte, n: nat, rest: seq<byte>)
    requires n < 0x8000_0000 && |[b] + LengthField(n) + rest| >= 3
    ensures LengthOf([b] + LengthField(n) + rest) == Some((n, 1 + |LengthField(n)|))
    ensures ([b] + LengthField(n) + rest)[1] < 128
  {
    var t := [b] + LengthField(n) + rest;
    var f := LengthField(n);
    assert forall i :: 0 <= i < |f| ==> t[1 + i] == f[i];
    if n > 65535 {
      FourBack(n);
      assert t[2..6] == f[1..5] == [0, 0, 0, 0];
    }
  }

  lemma {:induction false} FourBack(n: nat)
    requires n < 0x8000_0000
    ensures n / 0x100_0000 < 128
    ensures FourBytes(n / 0x100_0000, n / 0x1_0000 % 0x100, n / 0x100 % 0x100, n % 0x100) == n
  {
    var q := n / 0x100;
    var r := q / 0x100;
    assert r == n / 0x1_0000 && r / 0x100 == n / 0x100_0000;
  }

  /**
   A frame at the front of what was received is read back, unless two bytes are all there is or its
   length does not fit an int.
   */
  lemma {:induction false} FrameReturns(kind: int, payload: seq<byte>, rest: seq<byte>)
    requires |payload| < 0x8000_0000
    ensures var t := Frame(kind, payload) + rest;
            ReadFrame(t) == if |t| < 3 then Incomplete
                            else if |Frame(kind, payload)| >= 0x8000_0000 then Overflow
                            else Got(KindOf(kind % 0x100), payload, |Frame(kind, payload)|)
    ensures |Frame(kind, payload) + rest| >= 3 <==> payload != [] || rest != []
  {
    hide LengthField, LengthOf, AsInt, KindOf;
    var t, h := Frame(kind, payload) + rest, Header(kind, |payload|);
    assert t == h + (payload + rest);
    ShortField(|payload|);
    if |t| >= 3 {
      LengthReturns(kind % 0x100, |payload|, payload + rest);
      LongEnoughExactly(|t|, |payload|, |h|);
      assert t[|h|..|h| + |payload|] == payload;
    }
  }

  lemma {:induction false} ShortField(n: nat)
    requires n < 0x8000_0000
    ensures n == 0 ==> |LengthField(n)| == 1
  {
  }

  /**
   Part of a frame, header and at least three bytes there but payload bytes missing, is not yet a
   frame, if and only if its length fits an int.
   */
  lemma {:induction false} PartIsIncomplete(kind: int, payload: seq<byte>, k: nat)
    requires |payload| < 0x8000_0000 && 3 <= k < |Frame(kind, payload)| && |Header(kind, |payload|)| <= k
    ensures ReadFrame(Frame(kind, payload)[..k])
            == if |Frame(kind, payload)| < 0x8000_0000 then Incomplete else Overflow
  {
    hide LengthField, LengthOf, AsInt, KindOf;
    var h := Header(kind, |payload|);
    assert Frame(kind, payload)[..k] == h + payload[..k - |h|];
    LengthReturns(kind % 0x100, |payload|, payload[..k - |h|]);
    LongEnoughExactly(k, |payload|, |h|);
  }

  /** A frame as a client sends it: the mask bit set, the mask, and what it sends for the payload. */
  function ClientFrame(kind: int, mask: seq<byte>, sent: seq<byte>): (t: seq<byte>)
    requires |sent| < 0x8000_0000 && |mask| == 4
  {
    [kind % 0x100] + MaskBit(LengthField(|sent|)) + mask + sent
  }

  function MaskBit(f: seq<byte>): (r: seq<byte>)
    requires |f| > 0
    ensures |r| == |f|
  {
    if f[0] < 128 then f[0 := f[0] + 128] else f
  }

  /** A client's frame is unmasked to the payload it was sent for, if its length fits an int. */
  lemma {:induction false} ClientFrameReturns(kind: int, payload: seq<byte>, mask: seq<byte>, sent: seq<byte>,
                                              rest: seq<byte>)
    requires |sent| < 0x8000_0000 && |mask| == 4 && SentFor(payload, mask, sent)
    ensures ReadFrame(ClientFrame(kind, mask, sent) + rest)
            == if |ClientFrame(kind, mask, sent)| >= 0x8000_0000 then Overflow
               else Got(KindOf(kind % 0x100), payload, |ClientFrame(kind, mask, sent)|)
  {
    hide LengthField, LengthOf, AsInt, KindOf, Masked, SentFor;
    var f := LengthField(|sent|);
    var t := ClientFrame(kind, mask, sent) + rest;
    var pos, n := 1 + |f|, |sent|;
    assert t == [kind % 0x100] + MaskBit(f) + (mask + sent + rest);
    MaskedLengthReturns(kind % 0x100, n, mask + sent + rest);
    LongEnoughExactly(|t|, n, pos);
    assert t[pos..pos + 4] == mask;
    assert t[pos + 4..pos + 4 + n] == sent;
    UnmaskedExactly(payload, mask, sent);
  }

  lemma {:induction false} MaskedLengthReturns(b: byte, n: nat, rest: seq<byte>)
    requires n < 0x8000_0000 && |rest| >= 1
    ensures var t := [b] + MaskBit(LengthField(n)) + rest;
            LengthOf(t) == Some((n, 1 + |LengthField(n)|)) && t[1] >= 128
  {
    hide LengthOf;
    LengthReturns(b, n, rest);
    var f := LengthField(n);
    FieldBelow(n);
    assert MaskBit(f)[1..] == f[1..];
    var t, u := [b] + MaskBit(f) + rest, [b] + f + rest;
    assert t[2..] == MaskBit(f)[1..] + rest && u[2..] == f[1..] + rest;
    SameLength(t, u);
  }

  lemma {:induction false} FieldBelow(n: nat)
    requires n < 0x8000_0000
    ensures LengthField(n)[0] < 128
  {
  }

  lemma {:induction false} SameLength(t: seq<byte>, u: seq<byte>)
    requires |t| >= 3 && |u| >= 3 && t[1] % 128 == u[1] % 128 && t[2..] == u[2..]
    ensures LengthOf(t) == LengthOf(u)
  {
    hide TwoBytes, FourBytes;
    assert forall i :: 2 <= i < |t| ==> t[i] == t[2..][i - 2] == u[i];
    assert |t| == |u|;
    if |t| >= 10 { assert t[2..6] == t[2..][..4] == u[2..6]; }
  }

  /** How many bytes of a frame come before its mask. */
  function HeaderLength(payload: seq<byte>): (h: nat)
    requires |payload| < 0x8000_0000
  {
    1 + |LengthField(|payload|)|
  }

  /**
   Part of a client's frame of which the header and at least one more byte are there. While more than
   four bytes are missing it is reported incomplete, if and only if header and payload fit an int;
   otherwise, and with the last one to four missing, it is taken for a whole frame and read past its
   end, or past the largest int.
   */
  lemma {:induction false} ClientPart(kind: int, mask: seq<byte>, sent: seq<byte>, k: nat)
    requires |sent| < 0x8000_0000 && |mask| == 4
    requires HeaderLength(sent) + 1 <= k < HeaderLength(sent) + 4 + |sent|
    ensures k <= |ClientFrame(kind, mask, sent)|
    ensures ReadFrame(ClientFrame(kind, mask, sent)[..k])
            == if HeaderLength(sent) + |sent| >= 0x8000_0000 then Overflow
               else if k < HeaderLength(sent) + |sent| then Incomplete
               else if HeaderLength(sent) + 4 + |sent| >= 0x8000_0000 then Overflow
               else OutOfBounds
  {
    hide LengthField, LengthOf, AsInt, KindOf, Masked;
    var f := LengthField(|sent|);
    var h, whole := HeaderLength(sent), mask + sent;
    assert ClientFrame(kind, mask, sent) == [kind % 0x100] + MaskBit(f) + whole;
    assert ClientFrame(kind, mask, sent)[..k] == [kind % 0x100] + MaskBit(f) + whole[..k - h];
    MaskedLengthReturns(kind % 0x100, |sent|, whole[..k - h]);
    LongEnoughExactly(k, |sent|, h);
  }

  /**
   What is then taken: the payload's last bytes come from whatever follows in memory, and the length
   reported is beyond what was received.
   */
  lemma {:induction false} ClientPartReadsOn(kind: int, mask: seq<byte>, sent: seq<byte>, k: nat, beyond: seq<byte>)
    requires |sent| < 0x8000_0000 && |mask| == 4 && |beyond| >= 4
    requires HeaderLength(sent) + |sent| <= k < HeaderLength(sent) + 4 + |sent|
    requires HeaderLength(sent) + 1 <= k
    ensures k <= |ClientFrame(kind, mask, sent)|
    ensures var h, t := HeaderLength(sent), ClientFrame(kind, mask, sent)[..k] + beyond;
            if h + 4 + |sent| >= 0x8000_0000 then ReadMemory(t, k) == Overflow
            else
              && ReadMemory(t, k) == Got(KindOf(kind % 0x100), Masked(t[h + 4..h + 4 + |sent|], t[h..h + 4]),
                 h + 4 + |sent|)
              && ReadMemory(t, k).len > k
  {
    hide LengthField, LengthOf, AsInt, KindOf, Masked;
    var f := LengthField(|sent|);
    var h, whole := HeaderLength(sent), mask + sent;
    assert ClientFrame(kind, mask, sent) == [kind % 0x100] + MaskBit(f) + whole;
    var t := ClientFrame(kind, mask, sent)[..k] + beyond;
    assert t == [kind % 0x100] + MaskBit(f) + (whole[..k - h] + beyond);
    MaskedLengthReturns(kind % 0x100, |sent|, whole[..k - h] + beyond);
    LongEnoughExactly(k, |sent|, h);
  }

  /** A client's text frame of one byte, its last byte not yet received and a zero behind it: a byte is made up. */
  lemma {:induction false} LostByteWitness()
    ensures ClientFrame(TEXT_FRAME, [1, 2, 3, 4], [64]) == [0x81, 0x81, 1, 2, 3, 4, 64]
    ensures SentFor([65], [1, 2, 3, 4], [64])
    ensures ReadMemory([0x81, 0x81, 1, 2, 3, 4, 0, 0, 0, 0], 6) == Got(TEXT_FRAME, [1], 7)
  {
    hide ClientFrame, Masked, ReadMemory, SentFor;
    MaskedBytes();
    UnmaskedExactly([65], [1, 2, 3, 4], [64]);
    OneByteSent();
    OneMaskedByte([0x81, 0x81], [1, 2, 3, 4], [0], [0, 0, 0]);
    assert [0x81, 0x81] + [1, 2, 3, 4] + [0] + [0, 0, 0] == [0x81, 0x81, 1, 2, 3, 4, 0, 0, 0, 0];
  }

  lemma {:induction false} MaskedBytes()
    ensures Masked([64], [1, 2, 3, 4]) == [65] && Masked([0], [1, 2, 3, 4]) == [1]
  {
    hide XorByte;
    OneFlip();
    assert Masked([64], [1, 2, 3, 4])[0] == XorByte(64, 1);
    assert Masked([0], [1, 2, 3, 4])[0] == XorByte(0, 1);
  }

  lemma {:induction false} OneByteSent()
    ensures ClientFrame(TEXT_FRAME, [1, 2, 3, 4], [64]) == [0x81, 0x81, 1, 2, 3, 4, 64]
  {
    assert LengthField(1) == [1] && MaskBit([1]) == [0x81];
    hide LengthField, MaskBit;
  }

  lemma {:induction false} OneMaskedByte(head: seq<byte>, mask: seq<byte>, c: seq<byte>, rest: seq<byte>)
    requires head == [0x81, 0x81] && |mask| == 4 && |c| == 1
    ensures ReadMemory(head + mask + c + rest, 6) == Got(TEXT_FRAME, Masked(c, mask), 7)
  {
    hide Masked, AsInt;
    var t := head + mask + c + rest;
    assert t[2..6] == mask && t[6..7] == c;
    assert LengthOf(t) == Some((1, 2)) && KindOf(0x81) == TEXT_FRAME;
    hide LengthOf;
    LongEnoughExactly(6, 1, 2);
  }

  lemma {:induction false} OneFlip()
    ensures XorByte(64, 1) == 65 && XorByte(0, 1) == 1
  {
    assert Xor(1, 0) == 1 && Xor(2, 0) == 2 && Xor(4, 0) == 4 && Xor(8, 0) == 8 && Xor(16, 0) == 16 && Xor(32, 0) == 32;
  }

  // ----- streams -----

  datatype Packet = Packet(kind: int, payload: seq<byte>)

  predicate Sendable(ps: seq<Packet>)
  {
    forall i :: 0 <= i < |ps| ==> Survives(ps[i].kind) && |ps[i].payload| < 0x8000_0000
  }

  /** The frames of the packets, one after the other. */
  function Sent(ps: seq<Packet>): (t: seq<byte>)
    requires Sendable(ps)
  {
    if ps == [] then [] else Frame(ps[0].kind, ps[0].payload) + Sent(ps[1..])
  }

  /** What one client frame carries. */
  datatype Masking = Masking(mask: seq<byte>, sent: seq<byte>)

  /** The same packets as clients send them, each with a mask of its own. */
  ghost predicate Carried(ps: seq<Packet>, ms: seq<Masking>)
  {
    && |ms| == |ps|
    && forall i :: 0 <= i < |ps| ==> |ms[i].mask| == 4 && SentFor(ps[i].payload, ms[i].mask, ms[i].sent)
  }

  ghost function SentMasked(ps: seq<Packet>, ms: seq<Masking>): (t: seq<byte>)
    requires Sendable(ps) && Carried(ps, ms)
  {
    if ps == [] then [] else ClientFrame(ps[0].kind, ms[0].mask, ms[0].sent) + SentMasked(ps[1..], ms[1..])
  }

  /** Frames taken off the front as long as there are any, each dropped by the length reported for it. */
  function Received(t: seq<byte>): (ps: seq<Packet>)
    decreases |t|
  {
    match ReadFrame(t)
    case Got(kind, payload, len) => [Packet(kind, payload)] + Received(t[len..])
    case _ => []
  }

  /** Taking frames off never comes to bytes that would be read past their end, nor to a length beyond an int. */
  predicate Readable(t: seq<byte>)
    decreases |t|
  {
    match ReadFrame(t)
    case Got(kind, payload, len) => Readable(t[len..])
    case Incomplete => true
    case _ => false
  }

  /** Packets without a last one whose payload is empty. */
  function Delivered(ps: seq<Packet>): (r: seq<Packet>)
  {
    if ps != [] && ps[|ps| - 1].payload == [] then ps[..|ps| - 1] else ps
  }

  /** Frames whose lengths fit an int, and so can be read back. */
  predicate Fits(ps: seq<Packet>)
    requires Sendable(ps)
  {
    forall i :: 0 <= i < |ps| ==> HeaderLength(ps[i].payload) + |ps[i].payload| < 0x8000_0000
  }

  /** The same with a mask in each. */
  predicate FitsMasked(ps: seq<Packet>)
    requires Sendable(ps)
  {
    forall i :: 0 <= i < |ps| ==> HeaderLength(ps[i].payload) + 4 + |ps[i].payload| < 0x8000_0000
  }

  /**
   What is sent is what is received, types and payloads, exactly when the lengths fit and the last
   payload is not empty; an empty frame at the end is two bytes, which are never taken for a frame.
   All of it can be read without going past its end exactly when the lengths fit.
   */
  lemma {:induction false} StreamReturns(ps: seq<Packet>)
    requires Sendable(ps)
    ensures Readable(Sent(ps)) <==> Fits(ps)
    ensures Fits(ps) ==> Received(Sent(ps)) == Delivered(ps)
    ensures Received(Sent(ps)) == ps <==> Fits(ps) && (ps == [] || ps[|ps| - 1].payload != [])
    decreases |ps|
  {
    hide Frame, ReadFrame, KindOf, HeaderLength;
    if ps == [] {
      NothingReceived();
    } else {
      var p, rest := ps[0], ps[1..];
      FrameReturns(p.kind, p.payload, Sent(rest));
      FrameLength(p.kind, p.payload);
      KindReturns(p.kind);
      StreamReturns(rest);
      FitsSplit(ps);
      var f := Frame(p.kind, p.payload);
      if rest == [] {
        assert f + [] == f && f[|f|..] == [];
        assert ps == [p] && ps[..0] == [];
        NothingReceived();
      } else {
        SentIsNotEmpty(rest);
        assert (f + Sent(rest))[|f|..] == Sent(rest);
        assert [p] + rest == ps && [p] + rest[..|rest| - 1] == ps[..|ps| - 1];
      }
    }
  }

  lemma {:induction false} FrameLength(kind: int, payload: seq<byte>)
    requires |payload| < 0x8000_0000
    ensures |Frame(kind, payload)| == HeaderLength(payload) + |payload|
    ensures |Frame(kind, payload)| >= 0x8000_0000 ==> payload != []
  {
  }

  lemma {:induction false} FitsSplit(ps: seq<Packet>)
    requires Sendable(ps) && ps != []
    ensures Sendable(ps[1..])
    ensures Fits(ps) <==> HeaderLength(ps[0].payload) + |ps[0].payload| < 0x8000_0000 && Fits(ps[1..])
    ensures FitsMasked(ps) <==> HeaderLength(ps[0].payload) + 4 + |ps[0].payload| < 0x8000_0000 && FitsMasked(ps[1..])
  {
    hide HeaderLength;
    assert forall i :: 1 <= i < |ps| ==> ps[i] == ps[1..][i - 1];
  }

  /** Masked frames are received in full, whatever the masks, empty payloads included, exactly when the lengths fit. */
  lemma {:induction false} ClientStreamReturns(ps: seq<Packet>, ms: seq<Masking>)
    requires Sendable(ps) && Carried(ps, ms)
    ensures Received(SentMasked(ps, ms)) == ps <==> FitsMasked(ps)
    ensures Readable(SentMasked(ps, ms)) <==> FitsMasked(ps)
    decreases |ps|
  {
    hide ClientFrame, ReadFrame, KindOf, HeaderLength, SentFor;
    if ps == [] {
      NothingReceived();
    } else {
      var p, m, rest := ps[0], ms[0], SentMasked(ps[1..], ms[1..]);
      SentLength(p.payload, m.mask, m.sent);
      ClientFrameReturns(p.kind, p.payload, m.mask, m.sent, rest);
      ClientFrameLength(p.kind, p.payload, m.mask, m.sent);
      KindReturns(p.kind);
      ClientStreamReturns(ps[1..], ms[1..]);
      FitsSplit(ps);
      var f := ClientFrame(p.kind, m.mask, m.sent);
      assert (f + rest)[|f|..] == rest;
      assert [p] + ps[1..] == ps;
    }
  }

  lemma {:induction false} SentLength(payload: seq<byte>, mask: seq<byte>, sent: seq<byte>)
    requires |mask| == 4 && SentFor(payload, mask, sent)
    ensures |sent| == |payload|
  {
  }

  lemma {:induction false} ClientFrameLength(kind: int, payload: seq<byte>, mask: seq<byte>, sent: seq<byte>)
    requires |payload| == |sent| < 0x8000_0000 && |mask| == 4
    ensures |ClientFrame(kind, mask, sent)| == HeaderLength(payload) + 4 + |payload|
  {
  }

  /** Another frame set at the end of a message that holds sent packets makes it hold one more. */
  lemma {:induction false} SetAppends(ps: seq<Packet>, p: Packet)
    requires Sendable(ps + [p]) && Sendable(ps)
    ensures Survives(p.kind) && |p.payload| < 0x8000_0000
    ensures Written(File(Sent(ps), |Sent(ps)|), Frame(p.kind, p.payload)) == File(Sent(ps + [p]), |Sent(ps + [p])|)
  {
    hide Frame, Written;
    assert (ps + [p])[|ps|] == p;
    WrittenAtEnd(Sent(ps), Frame(p.kind, p.payload));
    SentOneMore(ps, p);
  }

  lemma {:induction false} SentOneMore(ps: seq<Packet>, p: Packet)
    requires Sendable(ps + [p]) && Sendable(ps) && |p.payload| < 0x8000_0000
    ensures Sent(ps + [p]) == Sent(ps) + Frame(p.kind, p.payload)
    decreases |ps|
  {
    hide Frame;
    var f := Frame(p.kind, p.payload);
    if ps == [] {
      assert [] + [p] == [p] && [p][1..] == [];
      assert f + [] == f && [] + f == f;
    } else {
      assert (ps + [p])[1..] == ps[1..] + [p];
      SentOneMore(ps[1..], p);
      var g := Frame(ps[0].kind, ps[0].payload);
      assert g + (Sent(ps[1..]) + f) == g + Sent(ps[1..]) + f;
    }
  }

  lemma {:induction false} NothingReceived()
    ensures ReadFrame([]) == Incomplete && Received([]) == [] && Readable([])
  {
  }

  lemma {:induction false} SentIsNotEmpty(ps: seq<Packet>)
    requires Sendable(ps) && ps != []
    ensures Sent(ps) != []
  {
  }

  // ----- messages -----

  /** What the length is divided by for its byte i. */
  function ShiftAt(i: nat): (d: nat)
  {
    if i == 0 then 0x100_0000 else if i == 1 then 0x1_0000 else if i == 2 then 0x100 else if i == 3 then 1 else 0
  }

  lemma {:induction false} ShiftedByte(n: nat, i: nat)
    requires n < 0x8000_0000 && i < 4
    ensures ShiftAt(i) > 0
    ensures n / ShiftAt(i) % 0x100
            == [n / 0x100_0000, n / 0x1_0000 % 0x100, n / 0x100 % 0x100, n % 0x100][i]
  {
  }

  lemma {:induction false} TooShort(t: seq<byte>, n: nat)
    requires n <= |t| && n < 3
    ensures ReadMemory(t, n) == Incomplete
  {
  }

  /** The length field as an int, and where what follows it begins. */
  method PayloadLength(t: seq<byte>) returns (payloadLength: int, pos: int)
    requires |t| >= 3 && LengthOf(t).Some?
    ensures payloadLength == AsInt(LengthOf(t).value.0) && pos == LengthOf(t).value.1
  {
    hide AsInt;
    SumAsInt(LengthOf(t).value.0, 0);
    payloadLength, pos := 0, 2;
    var field := t[1] % 128;
    if field <= 125 {
      payloadLength := field;
    } else if field == 126 {
      payloadLength := TwoBytes(t[2], t[3]);
      pos := pos + 2;
    } else {
      payloadLength := AsInt(FourBytes(t[6], t[7], t[8], t[9]));
      pos := pos + 8;
    }
  }

  /** The type from opcode and last-fragment bit. */
  method FrameKind(opcode: int, fin: int) returns (kind: int)
    ensures kind == if opcode == 0 || opcode == 1 then (if fin == 1 then TEXT_FRAME else INCOMPLETE_TEXT_FRAME)
                    else if opcode == 2 then (if fin == 1 then BINARY_FRAME else INCOMPLETE_BINARY_FRAME)
                    else if opcode == 9 then PING_FRAME
                    else if opcode == 10 then PONG_FRAME
                    else ERROR_FRAME
  {
    if opcode == 0 { return if fin == 1 then TEXT_FRAME else INCOMPLETE_TEXT_FRAME; }
    if opcode == 1 { return if fin == 1 then TEXT_FRAME else INCOMPLETE_TEXT_FRAME; }
    if opcode == 2 { return if fin == 1 then BINARY_FRAME else INCOMPLETE_BINARY_FRAME; }
    if opcode == 9 { return PING_FRAME; }
    if opcode == 10 { return PONG_FRAME; }
    return ERROR_FRAME;
  }

  /** A message in writing mode: a stream it is serialised into. */
  class Message {
    const stream: CIMemFile

    ghost predicate Valid()
      reads this, stream, stream.fast
    {
      stream.Valid()
    }

    function Abs(): (f: File)
      requires Valid()
      reads this, stream, stream.fast, stream.fast.Buf()
      ensures f.pos <= |f.bytes|
    {
      stream.Abs()
    }

    constructor ()
      ensures Valid() && Abs() == File([], 0)
      ensures fresh(stream) && fresh(stream.fast) && fresh(stream.fast.arrbuf) && stream.fast.heapbuf == null
    {
      stream := new CIMemFile();
    }

    /** `Serial` of one byte. */
    method SerialByte(b: byte)
      requires Valid()
      modifies stream`curPos, stream.fast`heapbuf, stream.fast`allocLen, stream.fast`cpLen, stream.fast.Buf()
      ensures Valid() && Abs() == Written(old(Abs()), [b])
      ensures stream.fast.Buf() == old(stream.fast.Buf()) || fresh(stream.fast.Buf())
    {
      var _ := stream.Write([b]);
    }

    /** The bytes before the payload. */
    method SerialHeader(kind: int, n: nat)
      requires Valid() && n < 0x8000_0000
      modifies stream`curPos, stream.fast`heapbuf, stream.fast`allocLen, stream.fast`cpLen, stream.fast.Buf()
      ensures Valid() && Abs() == Written(old(Abs()), Header(kind, n))
      ensures stream.fast.Buf() == old(stream.fast.Buf()) || fresh(stream.fast.Buf())
    {
      hide Written;
      ghost var was := Abs();
      ghost var done: seq<byte> := [kind % 0x100];
      SerialByte(kind % 0x100);
      if n <= 125 {
        done := SerialNext(n, was, done);
      } else if n <= 65535 {
        done := SerialNext(126, was, done);
        done := SerialNext(n / 0x100, was, done);
        done := SerialNext(n % 0x100, was, done);
      } else {
        done := SerialNext(127, was, done);
        done := SerialLong(n, was, done);
      }
      assert done == Header(kind, n);
    }

    /** The eight bytes of a long length: four zeros, and the length with its highest byte first. */
    method SerialLong(n: nat, ghost was: File, ghost before: seq<byte>) returns (ghost done: seq<byte>)
      requires n < 0x8000_0000
      requires Valid() && was.pos <= |was.bytes| && Abs() == Written(was, before)
      modifies stream`curPos, stream.fast`heapbuf, stream.fast`allocLen, stream.fast`cpLen, stream.fast.Buf()
      ensures Valid() && Abs() == Written(was, done)
      ensures done == before + [0, 0, 0, 0, n / 0x100_0000, n / 0x1_0000 % 0x100, n / 0x100 % 0x100, n % 0x100]
      ensures stream.fast.Buf() == old(stream.fast.Buf()) || fresh(stream.fast.Buf())
    {
      hide Written;
      done := before;
      for i := 0 to 4
        invariant Valid() && Abs() == Written(was, done)
        invariant done == before + [0, 0, 0, 0][..i]
        invariant stream.fast.Buf() == old(stream.fast.Buf()) || fresh(stream.fast.Buf())
      {
        done := SerialNext(0, was, done);
      }
      ghost var bytes := [n / 0x100_0000, n / 0x1_0000 % 0x100, n / 0x100 % 0x100, n % 0x100];
      ghost var front := done;
      var i, shift := 0, 0x100_0000;
      while i < 4
        invariant 0 <= i <= 4 && shift == ShiftAt(i)
        invariant Valid() && Abs() == Written(was, done)
        invariant done == front + bytes[..i]
        invariant stream.fast.Buf() == old(stream.fast.Buf()) || fresh(stream.fast.Buf())
      {
        ShiftedByte(n, i);
        done := SerialNext(n / shift % 0x100, was, done);
        shift := shift / 0x100;
        i := i + 1;
      }
    }

    /** One more byte after those already written. */
    method SerialNext(b: byte, ghost was: File, ghost done: seq<byte>) returns (ghost now: seq<byte>)
      requires Valid() && was.pos <= |was.bytes| && Abs() == Written(was, done)
      modifies stream`curPos, stream.fast`heapbuf, stream.fast`allocLen, stream.fast`cpLen, stream.fast.Buf()
      ensures Valid() && now == done + [b] && Abs() == Written(was, now)
      ensures stream.fast.Buf() == old(stream.fast.Buf()) || fresh(stream.fast.Buf())
    {
      hide Written;
      SerialByte(b);
      WrittenTwice(was, done, [b]);
      now := done + [b];
    }

    /** `SetWebSocketFrame`: the frame goes in at the cursor; the answer is the message's size. */
    method SetWebSocketFrame(kind: int, msg: seq<byte>) returns (size: int)
      requires Valid() && |msg| < 0x8000_0000
      modifies stream`curPos, stream.fast`heapbuf, stream.fast`allocLen, stream.fast`cpLen, stream.fast.Buf()
      ensures Valid() && Abs() == Written(old(Abs()), Frame(kind, msg)) && size == |Abs().bytes|
      ensures stream.fast.Buf() == old(stream.fast.Buf()) || fresh(stream.fast.Buf())
    {
      hide Written, Header;
      ghost var was := Abs();
      SerialHeader(kind, |msg|);
      var _ := stream.Write(msg);
      WrittenTwice(was, Header(kind, |msg|), msg);
      return stream.fast.cpLen;
    }

    /**
     `GetWebSocketFrame` on memory of which the first n bytes were received: the payload goes in at
     the cursor. Only a frame that goes on past the end of memory, or whose length does not fit an
     int, is outside its contract. `before` is what the length asked for held.
     */
    method GetWebSocketFrame(t: seq<byte>, n: nat, before: int) returns (kind: int, outLen: int)
      requires Valid() && n <= |t| && !ReadMemory(t, n).OutOfBounds? && !ReadMemory(t, n).Overflow?
      modifies stream`curPos, stream.fast`heapbuf, stream.fast`allocLen, stream.fast`cpLen, stream.fast.Buf()
      ensures Valid() && (stream.fast.Buf() == old(stream.fast.Buf()) || fresh(stream.fast.Buf()))
      ensures match ReadMemory(t, n)
              case Got(k, payload, len) => kind == k && outLen == len && Abs() == Written(old(Abs()), payload)
              case _ => kind == INCOMPLETE_FRAME && outLen == before && Abs() == old(Abs())
    {
      hide Written, KindOf, AsInt, ReadMemory, LengthOf, PayloadAt, PayloadStart;
      if n < 3 {
        assert ReadMemory(t, n) == Incomplete by { TooShort(t, n); }
        return INCOMPLETE_FRAME, before;
      }
      LengthIsThere(t, n);
      var payloadLength, pos := PayloadLength(t);
      if n < AsInt(payloadLength + pos) {
        TestedIncomplete(t, n);
        return INCOMPLETE_FRAME, before;
      }
      TestedGot(t, n);
      outLen := WritePayload(t, payloadLength, pos);
      kind := FrameKind(t[0] % 16, t[0] / 128);
      KindCases(t[0]);
    }

    /** The payload goes in at the cursor, unmasked if it has to be; the answer is where it ends. */
    method WritePayload(t: seq<byte>, payloadLength: nat, pos0: nat) returns (outLen: int)
      requires Valid() && |t| >= 2 && PayloadStart(t, pos0) + payloadLength <= |t|
      modifies stream`curPos, stream.fast`heapbuf, stream.fast`allocLen, stream.fast`cpLen, stream.fast.Buf()
      ensures Valid() && (stream.fast.Buf() == old(stream.fast.Buf()) || fresh(stream.fast.Buf()))
      ensures outLen == PayloadStart(t, pos0) + payloadLength
      ensures Abs() == Written(old(Abs()), PayloadAt(t, payloadLength, pos0))
    {
      hide Written, Masked;
      var pos := pos0;
      if t[1] / 128 == 1 {
        var mask := t[pos..pos + 4];
        pos := pos + 4;
        Unmask(t[pos..pos + payloadLength], mask);
      } else {
        var _ := stream.Write(t[pos..pos + payloadLength]);
      }
      outLen := pos + payloadLength;
    }

    /** The unmasking loop, a byte at a time. */
    method Unmask(c: seq<byte>, mask: seq<byte>)
      requires Valid() && |mask| == 4
      modifies stream`curPos, stream.fast`heapbuf, stream.fast`allocLen, stream.fast`cpLen, stream.fast.Buf()
      ensures Valid() && Abs() == Written(old(Abs()), Masked(c, mask))
      ensures stream.fast.Buf() == old(stream.fast.Buf()) || fresh(stream.fast.Buf())
    {
      hide Written, XorByte;
      ghost var was := Abs();
      WrittenNothing(was);
      ghost var done: seq<byte> := [];
      var i := 0;
      while i < |c|
        invariant 0 <= i <= |c|
        invariant Valid() && done == Masked(c, mask)[..i] && Abs() == Written(was, done)
        invariant stream.fast.Buf() == old(stream.fast.Buf()) || fresh(stream.fast.Buf())
      {
        done := SerialNext(XorByte(c[i], mask[i % 4]), was, done);
        i := i + 1;
      }
      assert done == Masked(c, mask);
    }
  }

  /** One turn of taking frames off. */
  lemma {:induction false} ReceivedStep(t: seq<byte>)
    requires Readable(t)
    ensures !ReadFrame(t).OutOfBounds? && !ReadFrame(t).Overflow?
    ensures match ReadFrame(t)
            case Got(kind, payload, len) =>
              Received(t) == [Packet(kind, payload)] + Received(t[len..]) && Readable(t[len..])
            case _ => Received(t) == []
  {
    hide ReadFrame;
  }

  /** Sets the packets into a message, one frame after the other. */
  method Send(ps: seq<Packet>) returns (m: Message)
    requires Sendable(ps)
    ensures m.Valid() && fresh(m.stream) && fresh(m.stream.fast) && fresh(m.stream.fast.Buf())
    ensures m.Abs() == File(Sent(ps), |Sent(ps)|)
  {
    hide Written, Frame;
    m := new Message();
    var i := 0;
    while i < |ps|
      invariant 0 <= i <= |ps| && Sendable(ps[..i])
      invariant m.Valid() && fresh(m.stream) && fresh(m.stream.fast) && fresh(m.stream.fast.Buf())
      invariant m.Abs() == File(Sent(ps[..i]), |Sent(ps[..i])|)
    {
      assert ps[..i + 1] == ps[..i] + [ps[i]];
      SetAppends(ps[..i], ps[i]);
      var _ := m.SetWebSocketFrame(ps[i].kind, ps[i].payload);
      i := i + 1;
    }
    assert ps[..i] == ps;
  }

  /**
   Takes frames off a message that holds received bytes: each is read into a message of its own and
   then dropped from the front, until what is left is not a whole frame.
   */
  method Receive(m: Message) returns (ps: seq<Packet>)
    requires m.Valid() && Readable(m.Abs().bytes)
    modifies m.stream`curPos, m.stream.fast`cpLen, m.stream.fast.Buf()
    ensures m.Valid() && ps == Received(old(m.Abs().bytes))
  {
    hide ReadFrame, Received, Readable, Written;
    ps := [];
    ghost var all := m.Abs().bytes;
    while true
      invariant m.Valid() && Readable(m.Abs().bytes)
      invariant m.stream.fast.Buf() == old(m.stream.fast.Buf())
      invariant ps + Received(m.Abs().bytes) == Received(all)
      decreases |m.Abs().bytes|
    {
      ghost var t := m.Abs().bytes;
      ReceivedStep(t);
      var data := m.stream.fast.Buf()[..m.stream.fast.cpLen];
      assert data == t;
      var out := new Message();
      var kind, len := ReadInto(out, data);
      if kind == INCOMPLETE_FRAME {
        assert ps + [] == ps;
        return;
      }
      var payload := out.stream.fast.Buf()[..out.stream.fast.cpLen];
      m.stream.RemoveHeadBuffer(len);
      assert m.Abs().bytes == t[len..];
      Regrouped(ps, Packet(kind, payload), Received(t[len..]));
      ps := ps + [Packet(kind, payload)];
    }
  }

  lemma {:induction false} Regrouped(ps: seq<Packet>, p: Packet, rest: seq<Packet>)
    ensures ps + ([p] + rest) == ps + [p] + rest
  {
  }

  /** One frame read into an empty message. */
  method ReadInto(out: Message, t: seq<byte>) returns (kind: int, len: int)
    requires out.Valid() && out.Abs() == File([], 0) && !ReadFrame(t).OutOfBounds? && !ReadFrame(t).Overflow?
    modifies out.stream`curPos, out.stream.fast`heapbuf, out.stream.fast`allocLen, out.stream.fast`cpLen,
       out.stream.fast.Buf()
    ensures out.Valid() && (out.stream.fast.Buf() == old(out.stream.fast.Buf()) || fresh(out.stream.fast.Buf()))
    ensures match ReadFrame(t)
            case Got(k, payload, n) =>
              kind == k && kind != INCOMPLETE_FRAME && len == n && out.Abs().bytes == payload
            case _ => kind == INCOMPLETE_FRAME
  {
    hide ReadMemory;
    kind, len := out.GetWebSocketFrame(t, |t|, 0);
    GotIsNotIncomplete(t, |t|);
    if ReadMemory(t, |t|).Got? {
      WrittenAtEnd([], ReadMemory(t, |t|).payload);
      assert [] + ReadMemory(t, |t|).payload == ReadMemory(t, |t|).payload;
    }
  }

  lemma {:induction false} GotIsNotIncomplete(t: seq<byte>, n: nat)
    requires n <= |t|
    ensures ReadMemory(t, n).Got? ==> ReadMemory(t, n).kind != INCOMPLETE_FRAME
  {
    hide LengthOf, Masked;
  }

  /** What one side sends the other receives: every packet, but for a last one with no payload. */
  method Exchange(ps: seq<Packet>) returns (got: seq<Packet>)
    requires Sendable(ps) && Fits(ps)
    ensures got == Delivered(ps)
  {
    hide Received, Readable, Sent;
    var m := Send(ps);
    StreamReturns(ps);
    got := Receive(m);
  }

  lemma {:induction false} KindCases(b: int)
    requires 0 <= b < 256
    ensures var opcode, fin := b % 16, b / 128;
            KindOf(b) == if opcode == 0 || opcode == 1 then (if fin == 1 then TEXT_FRAME else INCOMPLETE_TEXT_FRAME)
                         else if opcode == 2 then (if fin == 1 then BINARY_FRAME else INCOMPLETE_BINARY_FRAME)
                         else if opcode == 9 then PING_FRAME
                         else if opcode == 10 then PONG_FRAME
                         else ERROR_FRAME
  {
  }
}
