/**
 The Base64 filters of `lae/source/mime.c` (section 6.8 of RFC 2045): an encoder and a decoder
 that take a byte at a time, and the line wrapper. What is left of an unfinished group is
 handed to the next call unencoded.
 */
module Base64 {
  import opened Bytes
  import opened MimeText

  // ----- the alphabet -----

  /** `b64base`. */
  function Letter(n: int): (c: byte)
    requires 0 <= n < 64
  {
    if n < 26 then 65 + n
    else if n < 52 then 71 + n
    else if n < 62 then n - 4
    else if n == 62 then 43
    else 47
  }

  /** `b64unbase`: 255 for a byte outside the alphabet, 0 for the padding. */
  function Unletter(c: byte): (v: int)
    ensures 0 <= v < 64 || v == 255
  {
    if 65 <= c <= 90 then c - 65
    else if 97 <= c <= 122 then c - 71
    else if 48 <= c <= 57 then c + 4
    else if c == 43 then 62
    else if c == 47 then 63
    else if c == 61 then 0
    else 255
  }

  lemma {:induction false} LetterBack(n: int)
    requires 0 <= n < 64
    ensures Unletter(Letter(n)) == n && Letter(n) != 61
  {
  }

  // ----- groups -----

  /** Three bytes as four letters, six bits each. */
  function Group(a: int, b: int, c: int): (t: seq<byte>)
    requires 0 <= a < 256 && 0 <= b < 256 && 0 <= c < 256
    ensures |t| == 4
  {
    var v := a * 0x1_0000 + b * 0x100 + c;
    [Letter(v / 0x4_0000), Letter(v / 0x1000 % 0x40), Letter(v / 0x40 % 0x40), Letter(v % 0x40)]
  }

  /** One or two bytes at the end, padded to four letters. */
  function Padded(s: seq<byte>): (t: seq<byte>)
    requires |s| <= 2
    ensures |t| == if |s| == 0 then 0 else 4
  {
    if |s| == 0 then [] else if |s| == 1 then PadOne(s[0]) else PadTwo(s[0], s[1])
  }

  function PadOne(a: int): (t: seq<byte>)
    requires 0 <= a < 256
    ensures |t| == 4
  {
    var v := a * 16;
    [Letter(v / 0x40), Letter(v % 0x40), 61, 61]
  }

  function PadTwo(a: int, b: int): (t: seq<byte>)
    requires 0 <= a < 256 && 0 <= b < 256
    ensures |t| == 4
  {
    var v := (a * 0x100 + b) * 4;
    [Letter(v / 0x1000), Letter(v / 0x40 % 0x40), Letter(v % 0x40), 61]
  }

  /** The encoding of a whole string: every three bytes as a group, and what remains padded. */
  function Encoded(s: seq<byte>): (t: seq<byte>)
  {
    if |s| >= 3 then Group(s[0], s[1], s[2]) + Encoded(s[3..]) else Padded(s)
  }

  /** Four letters as up to three bytes. */
  function Ungroup(a: seq<byte>): (s: seq<byte>)
    requires |a| == 4 && forall i :: 0 <= i < 4 ==> Unletter(a[i]) < 64
  {
    var v := ((Unletter(a[0]) * 0x40 + Unletter(a[1])) * 0x40 + Unletter(a[2])) * 0x40 + Unletter(a[3]);
    [v / 0x1_0000, v / 0x100 % 0x100, v % 0x100][..if a[2] == 61 then 1 else if a[3] == 61 then 2 else 3]
  }

  /** The sextets of a 24-bit value put back together. */
  lemma {:induction false} SextetsBack(v: int)
    requires 0 <= v < 0x100_0000
    ensures v / 0x4_0000 < 64
    ensures ((v / 0x4_0000 * 0x40 + v / 0x1000 % 0x40) * 0x40 + v / 0x40 % 0x40) * 0x40 + v % 0x40 == v
  {
    var q := v / 0x40;
    var r := q / 0x40;
    assert r == v / 0x1000 && r / 0x40 == v / 0x4_0000;
  }

  lemma {:induction false} BytesBack(a: int, b: int, c: int)
    requires 0 <= a < 256 && 0 <= b < 256 && 0 <= c < 256
    ensures var v := a * 0x1_0000 + b * 0x100 + c;
            v / 0x1_0000 == a && v / 0x100 % 0x100 == b && v % 0x100 == c
  {
    var v := a * 0x1_0000 + b * 0x100 + c;
    assert v == (a * 0x100 + b) * 0x100 + c;
    assert v / 0x100 == a * 0x100 + b;
  }

  /** Letters, no padding among them. */
  predicate AllLetters(t: seq<byte>)
  {
    forall i :: 0 <= i < |t| ==> Unletter(t[i]) < 64
  }

  lemma {:induction false} GroupBack(a: int, b: int, c: int)
    requires 0 <= a < 256 && 0 <= b < 256 && 0 <= c < 256
    ensures AllLetters(Group(a, b, c)) && Ungroup(Group(a, b, c)) == [a, b, c]
  {
    hide Letter, Unletter;
    var v := a * 0x1_0000 + b * 0x100 + c;
    SextetsBack(v);
    BytesBack(a, b, c);
    LetterBack(v / 0x4_0000);
    LetterBack(v / 0x1000 % 0x40);
    LetterBack(v / 0x40 % 0x40);
    LetterBack(v % 0x40);
  }

  lemma {:induction false} PaddedBack(s: seq<byte>)
    requires 1 <= |s| <= 2
    ensures AllLetters(Padded(s)) && Ungroup(Padded(s)) == s
  {
    hide PadOne, PadTwo, Ungroup;
    if |s| == 1 { OneBack(s[0]); } else { TwoBack(s[0], s[1]); }
  }

  lemma {:induction false} PadIsZero()
    ensures Unletter(61) == 0
  {
  }

  lemma {:induction false} OneBack(a: int)
    requires 0 <= a < 256
    ensures AllLetters(PadOne(a)) && Ungroup(PadOne(a)) == [a]
  {
    hide Letter, Unletter;
    PadIsZero();
    LetterBack(a * 16 / 0x40);
    LetterBack(a * 16 % 0x40);
    assert (a * 16 / 0x40 * 0x40 + a * 16 % 0x40) * 0x1000 / 0x1_0000 == a;
  }

  lemma {:induction false} TwoBack(a: int, b: int)
    requires 0 <= a < 256 && 0 <= b < 256
    ensures AllLetters(PadTwo(a, b)) && Ungroup(PadTwo(a, b)) == [a, b]
  {
    hide Letter, Unletter;
    PadIsZero();
    var v := (a * 0x100 + b) * 4;
    LetterBack(v / 0x1000);
    LetterBack(v / 0x40 % 0x40);
    LetterBack(v % 0x40);
    var q := v / 0x40;
    assert q / 0x40 == v / 0x1000;
    assert (v / 0x1000 * 0x40 + q % 0x40) * 0x40 + v % 0x40 == v;
    BytesBack(a, b, 0);
  }

  // ----- a byte at a time -----

  /** One byte into an atom of fewer than three: the new atom, and what is put out. */
  function EncodeStep(atom: seq<byte>, c: byte): (r: (seq<byte>, seq<byte>))
    requires |atom| <= 2
    ensures |r.0| <= 2
  {
    if |atom| == 2 then ([], Group(atom[0], atom[1], c)) else (atom + [c], [])
  }

  function EncodeRun(atom: seq<byte>, s: seq<byte>): (r: (seq<byte>, seq<byte>))
    requires |atom| <= 2
    ensures |r.0| <= 2
    decreases |s|
  {
    if s == [] then (atom, [])
    else
      var (a1, o1) := EncodeStep(atom, s[0]);
      var (a2, o2) := EncodeRun(a1, s[1..]);
      (a2, o1 + o2)
  }

  /** One byte into an atom of fewer than four letters; bytes outside the alphabet are passed over. */
  function DecodeStep(atom: seq<byte>, c: byte): (r: (seq<byte>, seq<byte>))
    requires |atom| <= 3 && AllLetters(atom)
    ensures |r.0| <= 3 && AllLetters(r.0)
  {
    if Unletter(c) > 64 then (atom, [])
    else if |atom| == 3 then ([], Ungroup(atom + [c]))
    else (atom + [c], [])
  }

  function DecodeRun(atom: seq<byte>, t: seq<byte>): (r: (seq<byte>, seq<byte>))
    requires |atom| <= 3 && AllLetters(atom)
    ensures |r.0| <= 3 && AllLetters(r.0)
    decreases |t|
  {
    if t == [] then (atom, [])
    else
      var (a1, o1) := DecodeStep(atom, t[0]);
      var (a2, o2) := DecodeRun(a1, t[1..]);
      (a2, o1 + o2)
  }

  /** What a run puts out, followed by the encoding of its atom and more, is the one-shot encoding. */
  lemma {:induction false} RunIsEncoded(atom: seq<byte>, s: seq<byte>, more: seq<byte>)
    requires |atom| <= 2
    ensures var (rest, out) := EncodeRun(atom, s);
            out + Encoded(rest + more) == Encoded(atom + s + more)
    decreases |s|
  {
    hide Group, Encoded;
    if s == [] {
      assert atom + s + more == atom + more;
    } else {
      var (a1, o1) := EncodeStep(atom, s[0]);
      RunIsEncoded(a1, s[1..], more);
      if |atom| == 2 {
        var all := atom + s + more;
        assert all[3..] == [] + s[1..] + more;
        EncodedGroup(all);
      } else {
        assert atom + [s[0]] + s[1..] + more == atom + s + more;
      }
    }
  }

  lemma {:induction false} EncodedGroup(s: seq<byte>)
    requires |s| >= 3
    ensures Encoded(s) == Group(s[0], s[1], s[2]) + Encoded(s[3..])
  {
    hide Group;
  }

  lemma {:induction false} EncodeRunConcat(atom: seq<byte>, a: seq<byte>, b: seq<byte>)
    requires |atom| <= 2
    ensures var (m, o1) := EncodeRun(atom, a);
            var (r, o2) := EncodeRun(m, b);
            EncodeRun(atom, a + b) == (r, o1 + o2)
    decreases |a|
  {
    hide EncodeStep;
    if a == [] {
      assert a + b == b;
      assert [] + EncodeRun(atom, b).1 == EncodeRun(atom, b).1;
    } else {
      assert (a + b)[1..] == a[1..] + b;
      var (a1, o) := EncodeStep(atom, a[0]);
      EncodeRunConcat(a1, a[1..], b);
      Assoc(o, EncodeRun(a1, a[1..]).1, EncodeRun(EncodeRun(a1, a[1..]).0, b).1);
    }
  }

  lemma {:induction false} DecodeRunConcat(atom: seq<byte>, a: seq<byte>, b: seq<byte>)
    requires |atom| <= 3 && AllLetters(atom)
    ensures var (m, o1) := DecodeRun(atom, a);
            var (r, o2) := DecodeRun(m, b);
            DecodeRun(atom, a + b) == (r, o1 + o2)
    decreases |a|
  {
    hide DecodeStep, AllLetters;
    if a == [] {
      assert a + b == b;
      assert [] + DecodeRun(atom, b).1 == DecodeRun(atom, b).1;
    } else {
      assert (a + b)[1..] == a[1..] + b;
      var (a1, o) := DecodeStep(atom, a[0]);
      DecodeRunConcat(a1, a[1..], b);
      Assoc(o, DecodeRun(a1, a[1..]).1, DecodeRun(DecodeRun(a1, a[1..]).0, b).1);
    }
  }

  lemma {:induction false} DecodeLetters(t: seq<byte>)
    requires |t| <= 3 && AllLetters(t)
    ensures DecodeRun([], t) == (t, [])
    decreases |t|
  {
    if |t| > 0 {
      var m := |t| - 1;
      DecodeLetters(t[..m]);
      DecodeRunConcat([], t[..m], [t[m]]);
      DecodeOne(t[..m], t[m]);
      assert t == t[..m] + [t[m]];
    }
  }

  /** Four letters are decoded as a group. */
  lemma {:induction false} DecodeFour(t: seq<byte>)
    requires |t| == 4 && AllLetters(t)
    ensures DecodeRun([], t) == ([], Ungroup(t))
  {
    hide Ungroup, DecodeRun;
    DecodeLetters(t[..3]);
    DecodeRunConcat([], t[..3], [t[3]]);
    DecodeOne(t[..3], t[3]);
    assert t == t[..3] + [t[3]];
    assert [] + Ungroup(t) == Ungroup(t);
  }

  lemma {:induction false} DecodeOne(atom: seq<byte>, c: byte)
    requires |atom| <= 3 && AllLetters(atom) && Unletter(c) < 64
    ensures DecodeRun(atom, [c]) == if |atom| == 3 then ([], Ungroup(atom + [c])) else (atom + [c], [])
  {
    hide Ungroup;
    assert [c][1..] == [];
    assert DecodeStep(atom, c).1 + [] == DecodeStep(atom, c).1;
  }

  /** Decoding an encoding gives the string back, with nothing left over. */
  lemma {:induction false} DecodeEncoded(s: seq<byte>)
    ensures AllLetters(Encoded(s)) && DecodeRun([], Encoded(s)) == ([], s)
    decreases |s|
  {
    hide Group, Ungroup, Unletter, DecodeRun, Padded;
    if |s| >= 3 {
      GroupBack(s[0], s[1], s[2]);
      DecodeFour(Group(s[0], s[1], s[2]));
      DecodeEncoded(s[3..]);
      DecodeRunConcat([], Group(s[0], s[1], s[2]), Encoded(s[3..]));
      assert [s[0], s[1], s[2]] + s[3..] == s;
    } else if |s| > 0 {
      PaddedBack(s);
      DecodeFour(Padded(s));
    } else {
      NothingPadded();
    }
  }

  lemma {:induction false} NothingPadded()
    ensures Padded([]) == [] && DecodeRun([], []) == ([], [])
  {
  }

  // ----- wrapping -----

  /** One turn of the loop of `mime_global_wrp`: what is put out, and the space left in the line. */
  function WrapStep(left: int, c: byte, length: int): (r: (seq<byte>, int))
  {
    if c == 13 then ([], left)
    else if c == 10 then (CRLF, length)
    else if left <= 0 then (CRLF + [c], length - 1)
    else ([c], left - 1)
  }

  /** Line breaks are kept or made, carriage returns of the text itself dropped. */
  function Wrap(left: int, t: seq<byte>, length: int): (r: (seq<byte>, int))
    decreases |t|
  {
    if t == [] then ([], left)
    else
      var (o1, n1) := WrapStep(left, t[0], length);
      var (o2, n2) := Wrap(n1, t[1..], length);
      (o1 + o2, n2)
  }

  /**
   No wrapped line is longer than the length asked for, whatever the text and whatever comes after it
   that fits into the space left.
   */
  lemma {:induction false} WrappedLinesFit(left: int, t: seq<byte>, length: int, after: seq<byte>)
    requires length >= 1 && 0 <= left <= length
    requires LinesFit(after, length - Wrap(left, t, length).1, length)
    ensures LinesFit(Wrap(left, t, length).0 + after, length - left, length)
    ensures 0 <= Wrap(left, t, length).1 <= length
    decreases |t|
  {
    hide LinesFit;
    if t == [] {
      assert [] + after == after;
    } else {
      var (o1, n1) := WrapStep(left, t[0], length);
      WrappedLinesFit(n1, t[1..], length, after);
      var o := Wrap(n1, t[1..], length).0 + after;
      Assoc(o1, Wrap(n1, t[1..], length).0, after);
      if t[0] == 13 {
        assert o1 + o == o;
      } else if t[0] == 10 {
        FitsBreak(o, length - left, length);
      } else if left <= 0 {
        FitsAfter(t[0], o, 0, length);
        FitsBreak([t[0]] + o, length - left, length);
        assert CRLF + [t[0]] + o == CRLF + ([t[0]] + o);
      } else {
        FitsAfter(t[0], o, length - left, length);
      }
    }
  }

  /** What the closing call of `mime_global_wrp` adds. */
  function Closing(left: int, length: int): (t: seq<byte>)
  {
    if left < length then CRLF else []
  }

  /** Text wrapped to its end, closing break included. */
  function Wrapped(left: int, t: seq<byte>, length: int): (r: seq<byte>)
  {
    Wrap(left, t, length).0 + Closing(Wrap(left, t, length).1, length)
  }

  lemma {:induction false} ClosingFits(left: int, length: int, used: int)
    ensures LinesFit(Closing(left, length), used, length)
  {
    hide LinesFit;
    NothingFits(used, length);
    NothingFits(0, length);
    FitsBreak([], used, length);
    assert CRLF + [] == CRLF;
  }

  lemma {:induction false} WrappedFits(left: int, t: seq<byte>, length: int)
    requires length >= 1 && 0 <= left <= length
    ensures LinesFit(Wrapped(left, t, length), length - left, length)
  {
    hide LinesFit, Wrap;
    var n := Wrap(left, t, length).1;
    ClosingFits(n, length, length - n);
    WrappedLinesFit(left, t, length, Closing(n, length));
  }

  /** Wrapping chunk by chunk, carrying the space left, is wrapping the whole. */
  lemma {:induction false} WrapConcat(left: int, a: seq<byte>, b: seq<byte>, length: int)
    ensures var (o1, n1) := Wrap(left, a, length);
            var (o2, n2) := Wrap(n1, b, length);
            Wrap(left, a + b, length) == (o1 + o2, n2)
    decreases |a|
  {
    hide WrapStep;
    if a == [] {
      assert a + b == b;
      assert [] + Wrap(left, b, length).0 == Wrap(left, b, length).0;
    } else {
      assert (a + b)[1..] == a[1..] + b;
      var (o, n) := WrapStep(left, a[0], length);
      WrapConcat(n, a[1..], b, length);
      Assoc(o, Wrap(n, a[1..], length).0, Wrap(Wrap(n, a[1..], length).1, b, length).0);
    }
  }

  /** Wrapping is invisible to the decoder. */
  lemma {:induction false} DecodeWrapped(atom: seq<byte>, left: int, t: seq<byte>, length: int)
    requires |atom| <= 3 && AllLetters(atom)
    ensures DecodeRun(atom, Wrap(left, t, length).0) == DecodeRun(atom, t)
    decreases |t|
  {
    hide Ungroup, AllLetters, WrapStep, DecodeStep;
    if t != [] {
      var (o1, n1) := WrapStep(left, t[0], length);
      var o := Wrap(n1, t[1..], length).0;
      DecodeWrapped(DecodeStep(atom, t[0]).0, n1, t[1..], length);
      DecodeRunConcat(atom, o1, o);
      DecodeWrappedByte(atom, left, t[0], length);
    }
  }

  lemma {:induction false} DecodeWrappedByte(atom: seq<byte>, left: int, c: byte, length: int)
    requires |atom| <= 3 && AllLetters(atom)
    ensures DecodeRun(atom, WrapStep(left, c, length).0) == DecodeStep(atom, c)
  {
    hide Ungroup, AllLetters;
    assert [c][1..] == [];
    assert DecodeStep(atom, c).1 + [] == DecodeStep(atom, c).1;
    if c == 10 {
      DecodeBreak(atom, []);
      assert CRLF + [] == CRLF;
    } else if c != 13 && left <= 0 {
      DecodeBreak(atom, [c]);
    }
  }

  lemma {:induction false} DecodeBreak(atom: seq<byte>, o: seq<byte>)
    requires |atom| <= 3 && AllLetters(atom)
    ensures DecodeRun(atom, CRLF + o) == DecodeRun(atom, o)
  {
    hide Ungroup, AllLetters;
    var r := DecodeRun(atom, o);
    assert (CRLF + o)[1..] == [10] + o;
    assert ([10] + o)[1..] == o;
    assert DecodeRun(atom, [10] + o) == (r.0, [] + r.1);
    assert [] + r.1 == r.1;
    assert DecodeRun(atom, CRLF + o) == (r.0, [] + r.1);
  }

  /**
   Decoding a wrapped encoding, closing break included, gives the string back, and no line is longer
   than the length asked for, provided the first one has no more than that many bytes left.
   */
  lemma {:induction false} WrappedRoundTrip(left: int, s: seq<byte>, length: int)
    ensures var t := Wrapped(left, Encoded(s), length);
            && DecodeRun([], t) == ([], s)
            && (length >= 1 && 0 <= left <= length ==> LinesFit(t, length - left, length))
  {
    hide DecodeRun, Encoded, Wrap, LinesFit;
    var w, n := Wrap(left, Encoded(s), length).0, Wrap(left, Encoded(s), length).1;
    DecodeWrapped([], left, Encoded(s), length);
    DecodeEncoded(s);
    DecodeRunConcat([], w, Closing(n, length));
    ClosingDecodes(n, length);
    assert s + [] == s;
    if length >= 1 && 0 <= left <= length {
      WrappedFits(left, Encoded(s), length);
    }
  }

  lemma {:induction false} ClosingDecodes(left: int, length: int)
    ensures DecodeRun([], Closing(left, length)) == ([], [])
  {
    DecodeBreak([], []);
    assert CRLF + [] == CRLF;
  }

  // ----- what wrapping is -----

  /**
   A line broken into lines: as much as there is room for, and then full lines of the length asked
   for until the rest fits.
   */
  function Broken(u: seq<byte>, room: nat, length: nat): (t: seq<byte>)
    requires length >= 1
    decreases |u|, if room == 0 then 1 else 0
  {
    if |u| <= room then u else u[..room] + CRLF + Broken(u[room..], length, length)
  }

  /** The space left behind it. */
  function RoomAfter(u: seq<byte>, room: nat, length: nat): (n: nat)
    requires length >= 1
    decreases |u|, if room == 0 then 1 else 0
  {
    if |u| <= room then room - |u| else RoomAfter(u[room..], length, length)
  }

  lemma {:induction false} BrokenByte(u: seq<byte>, room: nat, length: nat)
    requires length >= 1 && u != []
    ensures var at := if room == 0 then length else room;
            var rest := u[1..];
            && Broken(u, room, length)
               == (if room == 0 then CRLF else []) + [u[0]] + Broken(rest, at - 1, length)
            && RoomAfter(u, room, length) == RoomAfter(rest, at - 1, length)
    decreases if room == 0 then 1 else 0
  {
    if room == 0 {
      BrokenByte(u, length, length);
      assert u[..0] == [] && u[0..] == u;
      var o := [u[0]] + Broken(u[1..], length - 1, length);
      assert [] + [u[0]] + Broken(u[1..], length - 1, length) == o;
      assert [] + CRLF + o == CRLF + [u[0]] + Broken(u[1..], length - 1, length);
    } else if |u| <= room {
      assert [] + [u[0]] + u[1..] == u;
    } else {
      var rest := u[1..];
      assert rest[room - 1..] == u[room..] && [u[0]] + rest[..room - 1] == u[..room];
      var o := CRLF + Broken(u[room..], length, length);
      assert u[..room] + o == [] + [u[0]] + (rest[..room - 1] + o);
      Assoc(u[..room], CRLF, Broken(u[room..], length, length));
      Assoc(rest[..room - 1], CRLF, Broken(u[room..], length, length));
    }
  }

  /** A line is wrapped to exactly that; with no room at all, or less than none, a break comes first. */
  lemma {:induction false} WrapLine(left: int, u: seq<byte>, length: int)
    requires length >= 1 && OneLine(u)
    ensures var room := if left < 0 then 0 else left;
            && Wrap(left, u, length).0 == Broken(u, room, length)
            && (u != [] || left >= 0 ==> Wrap(left, u, length).1 == RoomAfter(u, room, length))
    decreases |u|
  {
    hide Broken, RoomAfter;
    var room := if left < 0 then 0 else left;
    if u == [] {
      BrokenNothing(room, length);
    } else {
      BrokenByte(u, room, length);
      WrapLine(WrapStep(left, u[0], length).1, u[1..], length);
    }
  }

  lemma {:induction false} BrokenNothing(room: nat, length: nat)
    requires length >= 1
    ensures Broken([], room, length) == [] && RoomAfter([], room, length) == room
  {
  }

  /** What fits is left alone. */
  lemma {:induction false} WrapFitting(left: nat, u: seq<byte>, length: int)
    requires length >= 1 && OneLine(u) && |u| <= left
    ensures Wrap(left, u, length) == (u, left - |u|)
  {
    hide Wrap;
    WrapLine(left, u, length);
    if u == [] { WrapNothing(left, length); }
  }

  /** Lines each broken by itself, only the first into the space left. */
  function BrokenLines(lines: seq<seq<byte>>, room: nat, length: nat): (ts: seq<seq<byte>>)
    requires length >= 1
    ensures |ts| == |lines|
  {
    if lines == [] then [] else [Broken(lines[0], room, length)] + BrokenLines(lines[1..], length, length)
  }

  /** Text in lines that end with a line feed is wrapped line by line. */
  lemma {:induction false} WrapLines(left: int, lines: seq<seq<byte>>, length: int)
    requires length >= 1 && AllLines(lines)
    ensures var room := if left < 0 then 0 else left;
            Wrap(left, Between(lines, [10]), length).0 == Between(BrokenLines(lines, room, length), CRLF)
    decreases |lines|
  {
    hide Wrap, Broken, OneLine;
    var room := if left < 0 then 0 else left;
    var bs := BrokenLines(lines, room, length);
    if lines == [] {
      WrapNothing(left, length);
    } else if |lines| == 1 {
      WrapLine(left, lines[0], length);
      assert Between(bs, CRLF) == bs[0];
    } else {
      var u, rest := lines[0], Between(lines[1..], [10]);
      WrapLine(left, u, length);
      var n := Wrap(left, u, length).1;
      WrapConcat(left, u + [10], rest, length);
      WrapConcat(left, u, [10], length);
      WrapOne(n, 10, length);
      WrapLines(length, lines[1..], length);
      assert bs[1..] == BrokenLines(lines[1..], length, length);
    }
  }

  /** The text without its carriage returns. */
  function Unreturned(t: seq<byte>): (r: seq<byte>)
  {
    if t == [] then [] else (if t[0] == 13 then [] else [t[0]]) + Unreturned(t[1..])
  }

  /** Carriage returns make no difference, so lines may as well end with CRLF. */
  lemma {:induction false} WrapUnreturned(left: int, t: seq<byte>, length: int)
    ensures Wrap(left, t, length) == Wrap(left, Unreturned(t), length)
    decreases |t|
  {
    if t != [] {
      WrapUnreturned(WrapStep(left, t[0], length).1, t[1..], length);
      if t[0] == 13 {
        assert [] + Unreturned(t[1..]) == Unreturned(t[1..]);
        assert [] + Wrap(left, t[1..], length).0 == Wrap(left, t[1..], length).0;
      } else {
        assert ([t[0]] + Unreturned(t[1..]))[1..] == Unreturned(t[1..]);
      }
    }
  }

  /** Wrapping touches nothing but line ends, for every length. */
  lemma {:induction false} WrapKeepsText(left: int, t: seq<byte>, length: int)
    ensures Bare(Wrap(left, t, length).0) == Bare(t)
    decreases |t|
  {
    hide Bare;
    if t != [] {
      var (o, n) := WrapStep(left, t[0], length);
      WrapKeepsText(n, t[1..], length);
      BareConcat(o, Wrap(n, t[1..], length).0);
      BareConcat([t[0]], t[1..]);
      assert [t[0]] + t[1..] == t;
      BareOne(t[0]);
      BareBreak();
      BareConcat(CRLF, [t[0]]);
      BareNothing();
    }
  }

  lemma {:induction false} BareNothing()
    ensures Bare([]) == []
  {
  }

  // ----- what the encoding is -----

  /** Table 1 of RFC 2045: the letter that stands for a value. */
  predicate Stands(c: byte, v: int)
  {
    || ('A' as int <= c <= 'Z' as int && v == c - 'A' as int)
    || ('a' as int <= c <= 'z' as int && v == c - 'a' as int + 26)
    || ('0' as int <= c <= '9' as int && v == c - '0' as int + 52)
    || (c == '+' as int && v == 62)
    || (c == '/' as int && v == 63)
  }

  lemma {:induction false} StandsExactly(c: byte, v: int)
    ensures Stands(c, v) <==> 0 <= v < 64 && c == Letter(v)
  {
  }

  /** The values of n letters, most significant first, make up the number. */
  ghost predicate Worth(t: seq<byte>, v: int)
  {
    if t == [] then v == 0
    else
      var n := |t| - 1;
      var c := t[n];
      exists d :: Stands(c, d) && Worth(t[..n], (v - d) / 64) && (v - d) % 64 == 0
  }

  /**
   The encoding as section 6.8 of RFC 2045 has it: each three bytes are 24 bits, written as four
   letters of six; of a rest of one byte two letters are written and two equals signs, of two bytes
   three letters and one, with zero bits added.
   */
  ghost predicate IsBase64(s: seq<byte>, t: seq<byte>)
    decreases |s|
  {
    if |s| == 0 then t == []
    else if |s| == 1 then |t| == 4 && Worth(t[..2], s[0] as int * 16) && t[2..] == [61, 61]
    else if |s| == 2 then |t| == 4 && Worth(t[..3], (s[0] as int * 256 + s[1]) * 4) && t[3..] == [61]
    else
      && |t| >= 4 && Worth(t[..4], (s[0] as int * 256 + s[1]) * 256 + s[2])
      && IsBase64(s[3..], t[4..])
  }

  lemma {:induction false} WorthStep(t: seq<byte>, c: byte, v: int)
    ensures Worth(t + [c], v) <==> c == Letter(v % 64) && Worth(t, v / 64)
  {
    var u := t + [c];
    assert u[|u| - 1] == c && u[..|u| - 1] == t;
    if Worth(u, v) {
      var d :| Stands(c, d) && Worth(t, (v - d) / 64) && (v - d) % 64 == 0;
      StandsExactly(c, d);
      LastSextet(v, d);
    }
    if c == Letter(v % 64) && Worth(t, v / 64) {
      var d := v % 64;
      StandsExactly(c, d);
      LastSextet(v, d);
    }
  }

  lemma {:induction false} LastSextet(v: int, d: int)
    requires 0 <= d < 64
    ensures (v - d) % 64 == 0 <==> d == v % 64
    ensures (v - d) % 64 == 0 ==> (v - d) / 64 == v / 64
  {
    var q, r := v / 64, v % 64;
    assert v - d == 64 * q + (r - d);
  }

  lemma {:induction false} WorthNothing(v: int)
    ensures Worth([], v) <==> v == 0
  {
  }

  lemma {:induction false} WorthTwo(t: seq<byte>, v: int)
    requires |t| == 2 && 0 <= v < 0x1000
    ensures Worth(t, v) <==> t == [Letter(v / 64), Letter(v % 64)]
  {
    hide Worth, Letter;
    WorthStep(t[..1], t[1], v);
    WorthStep([], t[0], v / 64);
    WorthNothing(v / 64 / 64);
    assert t[..1] + [t[1]] == t && [] + [t[0]] == t[..1];
  }

  lemma {:induction false} WorthThree(t: seq<byte>, v: int)
    requires |t| == 3 && 0 <= v < 0x4_0000
    ensures Worth(t, v) <==> t == [Letter(v / 0x1000), Letter(v / 0x40 % 0x40), Letter(v % 0x40)]
  {
    hide Worth, Letter;
    WorthStep(t[..2], t[2], v);
    WorthTwo(t[..2], v / 64);
    assert t[..2] + [t[2]] == t;
    assert v / 64 / 64 == v / 0x1000;
  }

  lemma {:induction false} WorthFour(t: seq<byte>, v: int)
    requires |t| == 4 && 0 <= v < 0x100_0000
    ensures Worth(t, v) <==>
            t == [Letter(v / 0x4_0000), Letter(v / 0x1000 % 0x40), Letter(v / 0x40 % 0x40), Letter(v % 0x40)]
  {
    hide Worth, Letter;
    WorthStep(t[..3], t[3], v);
    WorthThree(t[..3], v / 64);
    assert t[..3] + [t[3]] == t;
    assert v / 64 / 0x1000 == v / 0x4_0000 && v / 64 / 64 == v / 0x1000;
  }

  /** The code's encoding is the standard's, and there is no other. */
  lemma {:induction false} EncodedExactly(s: seq<byte>, t: seq<byte>)
    ensures IsBase64(s, t) <==> t == Encoded(s)
    decreases |s|
  {
    hide Worth, Letter;
    if |s| == 1 {
      if |t| == 4 { WorthTwo(t[..2], s[0] as int * 16); }
    } else if |s| == 2 {
      if |t| == 4 { WorthThree(t[..3], (s[0] as int * 256 + s[1]) * 4); }
    } else if |s| >= 3 {
      var v := (s[0] as int * 256 + s[1]) * 256 + s[2];
      if |t| >= 4 {
        WorthFour(t[..4], v);
        EncodedExactly(s[3..], t[4..]);
        assert t == t[..4] + t[4..];
      }
    }
  }

  /** The bytes the decoder looks at: letters and the equals sign. */
  ghost predicate Counts(c: byte)
  {
    c == '=' as int || exists v :: Stands(c, v)
  }

  ghost function OnlyLetters(t: seq<byte>): (r: seq<byte>)
  {
    if t == [] then [] else (if Counts(t[0]) then [t[0]] else []) + OnlyLetters(t[1..])
  }

  /** All other bytes are passed over, wherever they stand. */
  lemma {:induction false} DecodeIgnores(atom: seq<byte>, t: seq<byte>)
    requires |atom| <= 3 && AllLetters(atom)
    ensures DecodeRun(atom, t) == DecodeRun(atom, OnlyLetters(t))
    decreases |t|
  {
    hide Ungroup, AllLetters;
    if t != [] {
      CountsExactly(t[0]);
      DecodeIgnores(DecodeStep(atom, t[0]).0, t[1..]);
      var r := OnlyLetters(t[1..]);
      if Counts(t[0]) {
        assert ([t[0]] + r)[1..] == r;
      } else {
        assert [] + r == r;
        assert [] + DecodeRun(atom, r).1 == DecodeRun(atom, r).1;
      }
    }
  }

  lemma {:induction false} CountsExactly(c: byte)
    ensures Counts(c) <==> Unletter(c) < 64
  {
    if Unletter(c) < 64 && c != 61 { assert Stands(c, Unletter(c)); }
  }

  // ----- the filters -----

  /** `mime_global_b64`: the encoding so far and the bytes left over; no second part ends the stream. */
  function Filter(c: Option<seq<byte>>, d: Option<seq<byte>>): (r: (Option<seq<byte>>, Option<seq<byte>>))
    ensures c.Some? && d.Some? ==> r.0.Some? && r.1.Some? && |r.1.value| <= 2
  {
    if c.None? then (None, None)
    else
      var (atom, o1) := EncodeRun([], c.value);
      if d.None? then (NilIfEmpty(o1 + Padded(atom)), None)
      else
        var (rest, o2) := EncodeRun(atom, d.value);
        (Some(o1 + o2), Some(rest))
  }

  /** `mime_global_unb64`. */
  function Unfilter(c: Option<seq<byte>>, d: Option<seq<byte>>): (r: (Option<seq<byte>>, Option<seq<byte>>))
    ensures c.Some? && d.Some? ==> r.0.Some? && r.1.Some? && |r.1.value| <= 3 && AllLetters(r.1.value)
  {
    if c.None? then (None, None)
    else
      var (atom, o1) := DecodeRun([], c.value);
      if d.None? then (NilIfEmpty(o1), None)
      else
        var (rest, o2) := DecodeRun(atom, d.value);
        (Some(o1 + o2), Some(rest))
  }

  /** A stream put through the encoder chunk by chunk, what is left over given back each time. */
  function Streamed(rest: seq<byte>, chunks: seq<seq<byte>>): (t: seq<byte>)
    decreases |chunks|
  {
    if chunks == [] then OrEmpty(Filter(Some(rest), None).0)
    else
      var (a, b) := Filter(Some(rest), Some(chunks[0]));
      a.value + Streamed(b.value, chunks[1..])
  }

  function Unstreamed(rest: seq<byte>, chunks: seq<seq<byte>>): (t: seq<byte>)
    decreases |chunks|
  {
    if chunks == [] then OrEmpty(Unfilter(Some(rest), None).0)
    else
      var (a, b) := Unfilter(Some(rest), Some(chunks[0]));
      a.value + Unstreamed(b.value, chunks[1..])
  }

  lemma {:induction false} EncodedIsNotNil(s: seq<byte>)
    ensures OrEmpty(NilIfEmpty(Encoded(s))) == Encoded(s)
  {
    if s != [] {
      LetterIsNotNil(s);
    }
  }

  lemma {:induction false} LetterIsNotNil(s: seq<byte>)
    requires s != []
    ensures Encoded(s) != [] && Encoded(s)[0] != 0
  {
  }

  /** However the stream is cut into chunks, what comes out is the encoding of the whole. */
  lemma {:induction false} StreamedIsEncoded(rest: seq<byte>, chunks: seq<seq<byte>>)
    ensures Streamed(rest, chunks) == Encoded(rest + Joined(chunks))
    decreases |chunks|
  {
    hide EncodeRun, Encoded, Padded;
    if chunks == [] {
      var (atom, o) := EncodeRun([], rest);
      RunIsEncoded([], rest, []);
      assert [] + rest + [] == rest + Joined(chunks) && atom + [] == atom;
      AtomIsPadded(atom);
      EncodedIsNotNil(rest + Joined(chunks));
    } else {
      var (a, b) := Filter(Some(rest), Some(chunks[0]));
      EncodeRunConcat([], rest, chunks[0]);
      RunIsEncoded([], rest + chunks[0], Joined(chunks[1..]));
      StreamedIsEncoded(b.value, chunks[1..]);
      assert [] + (rest + chunks[0]) + Joined(chunks[1..]) == rest + Joined(chunks);
    }
  }

  lemma {:induction false} AtomIsPadded(atom: seq<byte>)
    requires |atom| <= 2
    ensures Encoded(atom) == Padded(atom)
  {
  }

  /** However the text is cut into chunks, what comes out is the decoding of the whole. */
  lemma {:induction false} UnstreamedIsDecoded(rest: seq<byte>, chunks: seq<seq<byte>>)
    requires |rest| <= 3 && AllLetters(rest)
    ensures Unstreamed(rest, chunks) == DecodeRun(rest, Joined(chunks)).1
    decreases |chunks|
  {
    hide DecodeRun, AllLetters;
    DecodeLetters(rest);
    if chunks == [] {
      DecodeNothing(rest);
    } else {
      var (a, b) := Unfilter(Some(rest), Some(chunks[0]));
      UnstreamedIsDecoded(b.value, chunks[1..]);
      DecodeRunConcat(rest, chunks[0], Joined(chunks[1..]));
      assert [] + DecodeRun(rest, chunks[0]).1 == DecodeRun(rest, chunks[0]).1;
    }
  }

  lemma {:induction false} DecodeNothing(atom: seq<byte>)
    requires |atom| <= 3 && AllLetters(atom)
    ensures DecodeRun(atom, []) == (atom, [])
  {
  }

  /** Encode, wrap to the end, and decode, each in chunks of its own: the stream comes back. */
  lemma {:induction false} StreamRoundTrip(chunks: seq<seq<byte>>, left: int, length: int, parts: seq<seq<byte>>)
    requires Joined(parts) == Wrapped(left, Streamed([], chunks), length)
    ensures Unstreamed([], parts) == Joined(chunks)
    ensures length >= 1 && 0 <= left <= length ==> LinesFit(Joined(parts), length - left, length)
  {
    hide DecodeRun, Encoded, Wrap, Wrapped, LinesFit, Streamed, Unstreamed, Joined;
    StreamedIsEncoded([], chunks);
    assert [] + Joined(chunks) == Joined(chunks);
    WrappedRoundTrip(left, Joined(chunks), length);
    UnstreamedIsDecoded([], parts);
  }

  /**
   Decoding in one call without a second part gives the string back exactly when it is not empty
   and does not begin with a zero byte; otherwise the answer is nil.
   */
  lemma {:induction false} OneCallDecodes(s: seq<byte>)
    ensures Unfilter(Some(Encoded(s)), None).0 == Some(s) <==> s != [] && s[0] != 0
    ensures s == [] || s[0] == 0 ==> Unfilter(Some(Encoded(s)), None).0 == None
  {
    hide DecodeRun, Encoded;
    DecodeEncoded(s);
  }

  // ----- the code -----

  /** `b64encode`, on the atom in place. */
  method EncodeByte(c: byte, input: array<byte>, size: nat, buffer: seq<byte>) returns (n: nat, out: seq<byte>)
    requires input.Length == 3 && size <= 2
    modifies input
    ensures n <= 2
    ensures (input[..n], out) == (EncodeStep(old(input[..size]), c).0, buffer + EncodeStep(old(input[..size]), c).1)
  {
    hide Letter;
    input[size] := c;
    n, out := size + 1, buffer;
    if n == 3 {
      var value: int := 0;
      value := value + input[0];
      value := value * 0x100;
      value := value + input[1];
      value := value * 0x100;
      value := value + input[2];
      var code3 := Letter(value % 0x40);
      var value1 := value / 0x40;
      var code2 := Letter(value1 % 0x40);
      var value2 := value1 / 0x40;
      var code1 := Letter(value2 % 0x40);
      var value3 := value2 / 0x40;
      assert value1 == value / 0x40 && value2 == value / 0x1000 && value3 == value / 0x4_0000;
      out := out + [Letter(value3), code1, code2, code3];
      n := 0;
    } else {
      assert input[..n] == old(input[..size]) + [c];
      assert buffer + [] == buffer;
    }
  }

  /** `b64pad`. */
  method Pad(input: array<byte>, size: nat, buffer: seq<byte>) returns (out: seq<byte>)
    requires input.Length == 3 && size <= 2
    ensures out == buffer + Padded(input[..size])
  {
    hide Letter;
    out := buffer;
    if size == 1 {
      var value: int := input[0];
      value := value * 16;
      out := out + [Letter(value / 0x40), Letter(value % 0x40), 61, 61];
    } else if size == 2 {
      var value: int := input[0];
      value := value * 0x100;
      value := (value + input[1]) * 4;
      var code2 := Letter(value % 0x40);
      var value1 := value / 0x40;
      var code1 := Letter(value1 % 0x40);
      assert value1 / 0x40 == value / 0x1000;
      out := out + [Letter(value1 / 0x40), code1, code2, 61];
    } else {
      assert buffer + [] == buffer;
    }
  }

  /** `b64decode`, on the atom in place. */
  method DecodeByte(c: byte, input: array<byte>, size: nat, buffer: seq<byte>) returns (n: nat, out: seq<byte>)
    requires input.Length == 4 && size <= 3 && AllLetters(input[..size])
    modifies input
    ensures n <= 3
    ensures (input[..n], out) == (DecodeStep(old(input[..size]), c).0, buffer + DecodeStep(old(input[..size]), c).1)
  {
    hide Unletter;
    n, out := size, buffer;
    if Unletter(c) > 64 {
      assert buffer + [] == buffer;
      return;
    }
    input[size] := c;
    n := n + 1;
    assert input[..n] == old(input[..size]) + [c];
    if n == 4 {
      var value := Unletter(input[0]) * 0x40;
      value := (value + Unletter(input[1])) * 0x40;
      value := (value + Unletter(input[2])) * 0x40;
      value := value + Unletter(input[3]);
      var decoded2 := value % 0x100;
      var decoded1 := value / 0x100 % 0x100;
      var decoded0 := value / 0x100 / 0x100;
      assert decoded0 == value / 0x1_0000;
      var valid := if input[2] == 61 then 1 else if input[3] == 61 then 2 else 3;
      out := out + [decoded0, decoded1, decoded2][..valid];
      n := 0;
    } else {
      assert buffer + [] == buffer;
    }
  }

  /** The loop over one part of the input. */
  method EncodePart(s: seq<byte>, input: array<byte>, size: nat, buffer: seq<byte>) returns (n: nat, out: seq<byte>)
    requires input.Length == 3 && size <= 2
    modifies input
    ensures n <= 2
    ensures (input[..n], out) == (EncodeRun(old(input[..size]), s).0, buffer + EncodeRun(old(input[..size]), s).1)
  {
    hide EncodeStep, EncodeRun;
    n, out := size, buffer;
    var i := 0;
    ghost var atom := input[..size];
    EncodeNothing(atom);
    while i < |s|
      invariant 0 <= i <= |s| && n <= 2
      invariant input[..n] == EncodeRun(atom, s[..i]).0 && out == buffer + EncodeRun(atom, s[..i]).1
    {
      assert s[..i + 1] == s[..i] + [s[i]];
      EncodeRunConcat(atom, s[..i], [s[i]]);
      EncodeOne(input[..n], s[i]);
      Assoc(buffer, EncodeRun(atom, s[..i]).1, EncodeStep(input[..n], s[i]).1);
      n, out := EncodeByte(s[i], input, n, out);
      i := i + 1;
    }
    assert s[..i] == s;
  }

  lemma {:induction false} EncodeNothing(atom: seq<byte>)
    requires |atom| <= 2
    ensures EncodeRun(atom, []) == (atom, [])
  {
  }

  lemma {:induction false} EncodeOne(atom: seq<byte>, c: byte)
    requires |atom| <= 2
    ensures EncodeRun(atom, [c]) == EncodeStep(atom, c)
  {
    assert [c][1..] == [];
    assert EncodeStep(atom, c).1 + [] == EncodeStep(atom, c).1;
  }

  method DecodePart(s: seq<byte>, input: array<byte>, size: nat, buffer: seq<byte>) returns (n: nat, out: seq<byte>)
    requires input.Length == 4 && size <= 3 && AllLetters(input[..size])
    modifies input
    ensures n <= 3
    ensures (input[..n], out) == (DecodeRun(old(input[..size]), s).0, buffer + DecodeRun(old(input[..size]), s).1)
  {
    hide DecodeStep, DecodeRun, AllLetters;
    n, out := size, buffer;
    var i := 0;
    ghost var atom := input[..size];
    DecodeNothing(atom);
    while i < |s|
      invariant 0 <= i <= |s| && n <= 3
      invariant input[..n] == DecodeRun(atom, s[..i]).0 && out == buffer + DecodeRun(atom, s[..i]).1
    {
      assert s[..i + 1] == s[..i] + [s[i]];
      DecodeRunConcat(atom, s[..i], [s[i]]);
      DecodeStepIsRun(input[..n], s[i]);
      Assoc(buffer, DecodeRun(atom, s[..i]).1, DecodeStep(input[..n], s[i]).1);
      n, out := DecodeByte(s[i], input, n, out);
      i := i + 1;
    }
    assert s[..i] == s;
  }

  lemma {:induction false} DecodeStepIsRun(atom: seq<byte>, c: byte)
    requires |atom| <= 3 && AllLetters(atom)
    ensures DecodeRun(atom, [c]) == DecodeStep(atom, c)
  {
    assert [c][1..] == [];
    assert DecodeStep(atom, c).1 + [] == DecodeStep(atom, c).1;
  }

  /** `mime_global_b64`. */
  method B64(c: Option<seq<byte>>, d: Option<seq<byte>>) returns (a: Option<seq<byte>>, b: Option<seq<byte>>)
    ensures (a, b) == Filter(c, d)
  {
    hide EncodeRun, Padded;
    if c.None? { return None, None; }
    var atom := new byte[3](_ => 0);
    var asize, buffer := EncodePart(c.value, atom, 0, []);
    assert [] + EncodeRun([], c.value).1 == EncodeRun([], c.value).1;
    if d.None? {
      buffer := Pad(atom, asize, buffer);
      return NilIfEmpty(buffer), None;
    }
    asize, buffer := EncodePart(d.value, atom, asize, buffer);
    return Some(buffer), Some(atom[..asize]);
  }

  /** `mime_global_unb64`. */
  method UnB64(c: Option<seq<byte>>, d: Option<seq<byte>>) returns (a: Option<seq<byte>>, b: Option<seq<byte>>)
    ensures (a, b) == Unfilter(c, d)
  {
    hide DecodeRun;
    if c.None? { return None, None; }
    var atom := new byte[4](_ => 0);
    var asize, buffer := DecodePart(c.value, atom, 0, []);
    assert [] + DecodeRun([], c.value).1 == DecodeRun([], c.value).1;
    if d.None? {
      return NilIfEmpty(buffer), None;
    }
    asize, buffer := DecodePart(d.value, atom, asize, buffer);
    return Some(buffer), Some(atom[..asize]);
  }

  /** `mime_global_wrp`; without input it closes a line that is not empty. */
  method Wrp(l: int, t: Option<seq<byte>>, length: int) returns (a: Option<seq<byte>>, n: int)
    ensures t.Some? ==> (a, n) == (Some(Wrap(l, t.value, length).0), Wrap(l, t.value, length).1)
    ensures t.None? ==> a == (if l < length then Some(CRLF) else None) && n == length
  {
    hide Wrap;
    if t.None? {
      return (if l < length then Some(CRLF) else None), length;
    }
    var s, left, buffer, i := t.value, l, [], 0;
    WrapNothing(l, length);
    while i < |s|
      invariant 0 <= i <= |s|
      invariant (buffer, left) == Wrap(l, s[..i], length)
    {
      assert s[..i + 1] == s[..i] + [s[i]];
      WrapConcat(l, s[..i], [s[i]], length);
      WrapOne(left, s[i], length);
      assert buffer + [] == buffer;
      assert buffer + CRLF + [s[i]] == buffer + (CRLF + [s[i]]);
      if s[i] == 13 {
      } else if s[i] == 10 {
        buffer := buffer + CRLF;
        left := length;
      } else {
        if left <= 0 {
          left := length;
          buffer := buffer + CRLF;
        }
        buffer := buffer + [s[i]];
        left := left - 1;
      }
      i := i + 1;
    }
    assert s[..i] == s;
    return Some(buffer), left;
  }

  lemma {:induction false} WrapNothing(left: int, length: int)
    ensures Wrap(left, [], length) == ([], left)
  {
  }

  lemma {:induction false} WrapOne(left: int, c: byte, length: int)
    ensures Wrap(left, [c], length) == WrapStep(left, c, length)
  {
    assert [c][1..] == [];
    assert WrapStep(left, c, length).0 + [] == WrapStep(left, c, length).0;
  }
}
