/**
 What quoted-printable text is by section 6.7 of RFC 2045, said byte by byte and apart from the code,
 and that the filters of `lae/source/mime.c` write it, read it and break it into lines.
 */
module QpStandard {
  import opened Bytes
  import opened MimeText
  import opened QuotedPrintable

  // ----- one byte as =XX -----

  /** A digit of the alphabet "0123456789ABCDEF" and its value. */
  predicate UpperDigit(c: byte, v: int)
  {
    || ('0' as int <= c <= '9' as int && v == c - '0' as int)
    || ('A' as int <= c <= 'F' as int && v == c - 'A' as int + 10)
  }

  /** The same, lower case letters allowed. */
  predicate AnyDigit(c: byte, v: int)
  {
    UpperDigit(c, v) || ('a' as int <= c <= 'f' as int && v == c - 'a' as int + 10)
  }

  lemma {:induction false} UpperExactly(c: byte, v: int)
    ensures UpperDigit(c, v) <==> 0 <= v < 16 && c == HexLetter(v)
  {
  }

  lemma {:induction false} AnyExactly(c: byte, v: int)
    ensures AnyDigit(c, v) <==> v < 16 && HexValue(c) == v
  {
  }

  /** An equals sign and two digits for the byte. */
  ghost predicate IsQuoted(t: seq<byte>, c: byte)
  {
    |t| == 3 && t[0] == '=' as int && exists h, l :: UpperDigit(t[1], h) && UpperDigit(t[2], l) && c == 16 * h + l
  }

  /** The code's form is that, and there is no other. */
  lemma {:induction false} QuoteExactly(t: seq<byte>, c: byte)
    ensures IsQuoted(t, c) <==> t == Quote(c)
  {
    hide HexLetter;
    if IsQuoted(t, c) {
      var h, l :| UpperDigit(t[1], h) && UpperDigit(t[2], l) && c == 16 * h + l;
      UpperExactly(t[1], h);
      UpperExactly(t[2], l);
      assert c / 16 == h && c % 16 == l;
    }
    if t == Quote(c) {
      UpperExactly(t[1], c / 16);
      UpperExactly(t[2], c % 16);
      assert c == 16 * (c / 16) + c % 16;
    }
  }

  // ----- the encoded text -----

  /** Bytes that may always stand for themselves. */
  predicate Literal(c: byte)
  {
    33 <= c <= 60 || 62 <= c <= 126
  }

  predicate Blank(c: byte)
  {
    c == 9 || c == 32
  }

  predicate BreakAt(s: seq<byte>, p: nat)
  {
    p + 1 < |s| && s[p] == 13 && s[p + 1] == 10
  }

  /**
   What the byte at p becomes: a line break becomes the marker; a blank stands for itself unless a
   line break follows, or fewer than two bytes do; everything not literal is quoted.
   */
  function UnitAt(s: seq<byte>, p: nat, marker: seq<byte>): (t: seq<byte>)
    requires p < |s|
  {
    if p > 0 && BreakAt(s, p - 1) then []
    else if BreakAt(s, p) then marker
    else if Literal(s[p]) || (Blank(s[p]) && p + 2 < |s| && !BreakAt(s, p + 1)) then [s[p]]
    else Quote(s[p])
  }

  function UnitsFrom(s: seq<byte>, p: nat, marker: seq<byte>): (t: seq<byte>)
    requires p <= |s|
    decreases |s| - p
  {
    if p == |s| then [] else UnitAt(s, p, marker) + UnitsFrom(s, p + 1, marker)
  }

  /** A string whose last bytes could not be told until its end was known. */
  predicate EndsOpen(s: seq<byte>)
  {
    var n := |s|;
    n > 0 && (s[n - 1] == 13 || Blank(s[n - 1]) || (n > 1 && Blank(s[n - 2])))
  }

  lemma {:induction false} ClassIs(c: byte)
    ensures ClassOf(c)
            == if c == 13 then Return else if Blank(c) then IfLast else if Literal(c) then Ordinary else Quoted
  {
  }

  /** Not between the two bytes of a line break. */
  predicate Boundary(s: seq<byte>, p: nat)
  {
    p == 0 || !BreakAt(s, p - 1)
  }

  /** What is at the front of a rest of the string, said of the string. */
  lemma {:induction false} HeadIs(s: seq<byte>, p: nat, marker: seq<byte>)
    requires p < |s| && Boundary(s, p) && Head(s[p..]) > 0
    ensures var n := Head(s[p..]);
            && n == (if BreakAt(s, p) then 2 else if Blank(s[p]) && BreakAt(s, p + 1) then 3 else 1)
            && p + n <= |s|
            && (s[p] == 13 ==> p + 1 < |s|) && (Blank(s[p]) ==> p + 2 < |s|)
            && HeadText(s[p..], marker)
               == if BreakAt(s, p) then marker
                  else if Blank(s[p]) && BreakAt(s, p + 1) then Quote(s[p]) + marker
                  else if Blank(s[p]) || Literal(s[p]) then [s[p]]
                  else Quote(s[p])
  {
    hide Quote;
    var r := s[p..];
    ClassIs(r[0]);
    assert r[0] == s[p] && (|r| > 1 ==> r[1] == s[p + 1]) && (|r| > 2 ==> r[2] == s[p + 2]);
  }

  lemma {:induction false} OpenStays(r: seq<byte>, n: nat)
    requires 1 <= n <= |r| && (Blank(r[n - 1]) ==> n + 2 <= |r|) && (r[n - 1] == 13 ==> n + 1 <= |r|)
    requires n > 1 ==> !Blank(r[n - 2]) || n < |r|
    ensures EndsOpen(r) <==> EndsOpen(r[n..])
  {
    var q, m := r[n..], |r|;
    assert |q| > 0 ==> q[|q| - 1] == r[m - 1];
    assert |q| > 1 ==> q[|q| - 2] == r[m - 2];
  }

  lemma {:induction false} BreakUnits(s: seq<byte>, p: nat, marker: seq<byte>)
    requires Boundary(s, p) && BreakAt(s, p)
    ensures UnitsFrom(s, p, marker) == marker + UnitsFrom(s, p + 2, marker)
  {
    hide UnitsFrom;
    UnitsStep(s, p, marker);
    UnitsStep(s, p + 1, marker);
    assert UnitAt(s, p, marker) == marker && UnitAt(s, p + 1, marker) == [];
    assert [] + UnitsFrom(s, p + 2, marker) == UnitsFrom(s, p + 2, marker);
  }

  /** The bytes at the front that can be told become the units at their places. */
  lemma {:induction false} HeadSpells(s: seq<byte>, p: nat, marker: seq<byte>)
    requires p < |s| && Boundary(s, p) && Head(s[p..]) > 0
    ensures var n := Head(s[p..]);
            && p + n <= |s| && Boundary(s, p + n)
            && UnitsFrom(s, p, marker) == HeadText(s[p..], marker) + UnitsFrom(s, p + n, marker)
            && (EndsOpen(s[p..]) <==> EndsOpen(s[p + n..]))
  {
    hide Quote, Head, HeadText, EndsOpen, UnitsFrom, Literal, UnitAt;
    var n := Head(s[p..]);
    HeadIs(s, p, marker);
    if n == 2 {
      BreakUnits(s, p, marker);
    } else {
      UnitsStep(s, p, marker);
      OneUnit(s, p, marker);
      if n == 3 {
        BreakUnits(s, p + 1, marker);
        Assoc(Quote(s[p]), marker, UnitsFrom(s, p + 3, marker));
      }
    }
    var r := s[p..];
    assert r[n - 1] == s[p + n - 1] && (n > 1 ==> r[n - 2] == s[p + n - 2]) && r[n..] == s[p + n..];
    OpenStays(r, n);
  }

  lemma {:induction false} OneUnit(s: seq<byte>, p: nat, marker: seq<byte>)
    requires p < |s| && Boundary(s, p) && !BreakAt(s, p) && (Blank(s[p]) ==> p + 2 < |s|)
    ensures UnitAt(s, p, marker)
            == if Blank(s[p]) && BreakAt(s, p + 1) then Quote(s[p])
               else if Blank(s[p]) || Literal(s[p]) then [s[p]]
               else Quote(s[p])
  {
    hide Quote;
    if Blank(s[p]) { BlankIsNotLiteral(s[p]); }
  }

  lemma {:induction false} BlankIsNotLiteral(c: byte)
    requires Blank(c)
    ensures !Literal(c)
  {
  }

  lemma {:induction false} UnitsStep(s: seq<byte>, p: nat, marker: seq<byte>)
    requires p < |s|
    ensures UnitsFrom(s, p, marker) == UnitAt(s, p, marker) + UnitsFrom(s, p + 1, marker)
  {
    hide UnitAt;
  }

  /** The bytes kept to the end become the units at their places as well. */
  lemma {:induction false} RestSpells(s: seq<byte>, p: nat, marker: seq<byte>)
    requires p <= |s| && Boundary(s, p) && AtRest(s[p..])
    ensures PadBytes(s[p..]) == UnitsFrom(s, p, marker)
    ensures EndsOpen(s[p..]) <==> s[p..] != []
  {
    hide Quote, UnitsFrom, PadBytes, UnitAt, EndsOpen;
    var r := s[p..];
    NoUnits(s, marker);
    RestIsOpen(r);
    if |r| > 0 {
      UnitsStep(s, p, marker);
      PadStep(r);
      LateUnit(s, p, marker);
      if |r| == 1 {
        assert r[1..] == [];
      } else {
        UnitsStep(s, p + 1, marker);
        PadStep(r[1..]);
        LateUnit(s, p + 1, marker);
        assert r[1..][1..] == [] && r[1..][0] == s[p + 1];
      }
    }
  }

  lemma {:induction false} NoUnits(s: seq<byte>, marker: seq<byte>)
    ensures UnitsFrom(s, |s|, marker) == [] && PadBytes([]) == []
  {
  }

  lemma {:induction false} PadStep(r: seq<byte>)
    requires r != []
    ensures PadBytes(r) == PadByte(r[0]) + PadBytes(r[1..])
  {
    hide Quote;
  }

  lemma {:induction false} RestIsOpen(r: seq<byte>)
    requires AtRest(r)
    ensures EndsOpen(r) <==> r != []
  {
    if r != [] { ClassIs(r[0]); }
  }

  /** One of the last two bytes. */
  lemma {:induction false} LateUnit(s: seq<byte>, p: nat, marker: seq<byte>)
    requires |s| - 2 <= p < |s| && Boundary(s, p) && !BreakAt(s, p)
    ensures UnitAt(s, p, marker) == PadByte(s[p])
  {
    hide Quote;
    ClassIs(s[p]);
  }

  lemma {:induction false} ResolveSpells(s: seq<byte>, p: nat, marker: seq<byte>)
    requires p <= |s| && Boundary(s, p)
    ensures var (a, o) := Resolve(s[p..], marker);
            o + PadBytes(a) == UnitsFrom(s, p, marker) && (a != [] <==> EndsOpen(s[p..]))
    decreases |s| - p
  {
    hide Resolve, Head, HeadText, PadBytes, UnitsFrom, EndsOpen, Boundary;
    var r := s[p..];
    ResolveHead(r, marker);
    var n := Head(r);
    if n == 0 {
      RestSpells(s, p, marker);
      assert [] + PadBytes(r) == PadBytes(r);
    } else {
      HeadSpells(s, p, marker);
      assert r[n..] == s[p + n..];
      ResolveSpells(s, p + n, marker);
      var (a, o) := Resolve(r[n..], marker);
      Assoc(HeadText(r, marker), o, PadBytes(a));
    }
  }

  /** The encoding, for any marker: each byte's unit in turn, and a soft break behind an open end. */
  lemma {:induction false} EncodedExactly(s: seq<byte>, marker: seq<byte>)
    ensures Encoded(s, marker) == UnitsFrom(s, 0, marker) + (if EndsOpen(s) then [61, 13, 10] else [])
  {
    hide Resolve, PadBytes, UnitsFrom, EndsOpen;
    assert s[0..] == s;
    ResolveSpells(s, 0, marker);
    var (a, o) := Resolve(s, marker);
    Assoc(o, PadBytes(a), if a != [] then EQCRLF else []);
  }

  // ----- decoding any text -----

  /** What an equals sign and two bytes stand for. */
  function Escaped(a: byte, b: byte): (s: seq<byte>)
  {
    if a == 13 && b == 10 then []
    else if HexValue(a) < 16 && HexValue(b) < 16 then [16 * HexValue(a) + HexValue(b)]
    else [61, a, b]
  }

  /**
   The bytes a text stands for, up to an unfinished unit at its end: quoted bytes in either case of
   letters, soft breaks dropped, line breaks kept, a lone carriage return dropped with the byte behind
   it, invalid escapes kept, and of all other bytes those that may stand in a text.
   */
  function Undone(t: seq<byte>): (s: seq<byte>)
    decreases |t|
  {
    if t == [] then []
    else if t[0] == 61 then
      if |t| < 3 then []
      else Escaped(t[1], t[2]) + Undone(t[3..])
    else if t[0] == 13 then
      if |t| < 2 then [] else (if t[1] == 10 then [13, 10] else []) + Undone(t[2..])
    else (if t[0] == 9 || 32 <= t[0] <= 126 then [t[0]] else []) + Undone(t[1..])
  }

  lemma {:induction false} StepWaits(a: seq<byte>, c: byte)
    requires |a| <= 2 && (a == [] ==> c == 61 || c == 13) && (a != [] ==> a[0] == 61 && |a| == 1)
    ensures DecodeStep(a, c) == (a + [c], [])
  {
  }

  lemma {:induction false} StepEnds(a: seq<byte>, c: byte)
    requires |a| == 2 && a[0] == 61
    ensures DecodeStep(a, c) == ([], Escaped(a[1], c))
  {
    hide HexValue;
    assert a + [c] == [61, a[1], c];
  }

  lemma {:induction false} StepReturns(c: byte)
    ensures DecodeStep([13], c) == ([], if c == 10 then [13, 10] else [])
  {
    assert [13] + [c] == [13, c] && [13, c][..2] == [13, c];
  }

  lemma {:induction false} RunStep(atom: seq<byte>, t: seq<byte>)
    requires |atom| <= 2 && t != []
    ensures DecodeRun(atom, t).1 == DecodeStep(atom, t[0]).1 + DecodeRun(DecodeStep(atom, t[0]).0, t[1..]).1
  {
    hide DecodeStep;
  }

  lemma {:induction false} RunOfEscape(t: seq<byte>)
    requires t != [] && t[0] == 61
    ensures DecodeRun([], t).1 == if |t| < 3 then [] else Escaped(t[1], t[2]) + DecodeRun([], t[3..]).1
  {
    hide DecodeRun, DecodeStep, Escaped;
    RunStep([], t);
    StepWaits([], 61);
    assert [] + [61] == [61];
    if |t| == 1 {
      assert t[1..] == [];
      DecodeNothing([61]);
    } else {
      assert t[1..][0] == t[1] && t[1..][1..] == t[2..];
      RunStep([61], t[1..]);
      StepWaits([61], t[1]);
      assert [61] + [t[1]] == [61, t[1]];
      if |t| == 2 {
        assert t[2..] == [];
        DecodeNothing([61, t[1]]);
      } else {
        assert t[2..][0] == t[2] && t[2..][1..] == t[3..];
        RunStep([61, t[1]], t[2..]);
        StepEnds([61, t[1]], t[2]);
        var o := Escaped(t[1], t[2]) + DecodeRun([], t[3..]).1;
        assert [] + ([] + o) == o;
      }
    }
  }

  lemma {:induction false} RunOfReturn(t: seq<byte>)
    requires t != [] && t[0] == 13
    ensures DecodeRun([], t).1
            == if |t| < 2 then [] else (if t[1] == 10 then [13, 10] else []) + DecodeRun([], t[2..]).1
  {
    hide DecodeRun, DecodeStep;
    RunStep([], t);
    StepWaits([], 13);
    assert [] + [13] == [13];
    if |t| == 1 {
      assert t[1..] == [];
      DecodeNothing([13]);
    } else {
      assert t[1..][0] == t[1] && t[1..][1..] == t[2..];
      RunStep([13], t[1..]);
      StepReturns(t[1]);
      var o := DecodeStep([13], t[1]).1 + DecodeRun([], t[2..]).1;
      assert [] + o == o;
    }
  }

  /** The decoder computes that for every text. */
  lemma {:induction false} DecodeIsUndone(t: seq<byte>)
    ensures DecodeRun([], t).1 == Undone(t)
    decreases |t|
  {
    hide DecodeRun, DecodeStep, Escaped;
    if t == [] {
      DecodeNothing([]);
    } else if t[0] == 61 {
      RunOfEscape(t);
      if |t| >= 3 { DecodeIsUndone(t[3..]); }
    } else if t[0] == 13 {
      RunOfReturn(t);
      if |t| >= 2 { DecodeIsUndone(t[2..]); }
    } else {
      RunStep([], t);
      StepPlain(t[0]);
      DecodeIsUndone(t[1..]);
    }
  }

  lemma {:induction false} StepPlain(c: byte)
    requires c != 61 && c != 13
    ensures DecodeStep([], c) == ([], if c == 9 || 32 <= c <= 126 then [c] else [])
  {
    assert [] + [c] == [c];
  }

  // ----- breaking into lines -----

  /** The columns a unit is given room for: what begins with an equals sign is given three. */
  function Width(k: Token): (w: nat)
  {
    if k.Plain? then 1 else 3
  }

  /**
   Units put into lines as they come: a soft break is made before a unit exactly when it and the
   equals sign of a soft break behind it would not fit any more.
   */
  function Greedy(ks: seq<Token>, used: int, length: int): (w: seq<Token>)
    decreases |ks|
  {
    if ks == [] then []
    else if ks[0] == Hard then [Hard] + Greedy(ks[1..], 0, length)
    else
      var full := used + Width(ks[0]) + 1 > length;
      var after := if ks[0] == Soft then 0 else (if full then 0 else used) + Width(ks[0]);
      (if full then [Soft, ks[0]] else [ks[0]]) + Greedy(ks[1..], after, length)
  }

  lemma {:induction false} TokensAreGreedy(left: int, ks: seq<Token>, length: int)
    ensures WrapTokens(left, ks, length).0 == Greedy(ks, length - left, length)
    decreases |ks|
  {
    if ks != [] { TokensAreGreedy(WrapToken(left, ks[0], length).1, ks[1..], length); }
  }

  /** Encoded text is broken so, for every string and both markers, with nothing else changed. */
  lemma {:induction false} WrapExactly(left: int, s: seq<byte>, binary: bool, length: int)
    requires length >= 4
    ensures Wrap(left, Encoded(s, Marker(binary)), length).0 == Text(Greedy(Tokens(s, binary), length - left, length))
  {
    hide Wrap, WrapTokens, Greedy, Text, Tokens, Encoded, Proper;
    EncodedIsText(s, binary);
    TokensAreProper(s, binary);
    WrapText(left, Tokens(s, binary), length);
    TokensAreGreedy(left, Tokens(s, binary), length);
  }
}
