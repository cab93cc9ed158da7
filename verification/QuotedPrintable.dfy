/**
 The quoted-printable filters of `lae/source/mime.c` (section 6.7 of RFC 2045): an encoder that
 waits until it can tell how to write a byte, a decoder, and the line wrapper.
 */
module QuotedPrintable {
  import opened Bytes
  import opened MimeText

  const EQCRLF: seq<byte> := [61, 13, 10]

  datatype Class = Ordinary | Quoted | Return | IfLast

  /** `qpclass`. */
  function ClassOf(c: byte): (k: Class)
  {
    if c == 13 then Return
    else if c == 9 || c == 32 then IfLast
    else if 33 <= c <= 60 || 62 <= c <= 126 then Ordinary
    else Quoted
  }

  /** `qpbase`. */
  function HexLetter(n: int): (c: byte)
    requires 0 <= n < 16
  {
    if n < 10 then 48 + n else 55 + n
  }

  /** `qpunbase`: 255 for what is not a hexadecimal digit. */
  function HexValue(c: byte): (v: int)
    ensures 0 <= v < 16 || v == 255
  {
    if 48 <= c <= 57 then c - 48
    else if 65 <= c <= 70 then c - 55
    else if 97 <= c <= 102 then c - 87
    else 255
  }

  /** One byte as =XX. */
  function Quote(c: byte): (t: seq<byte>)
    ensures |t| == 3
  {
    [61, HexLetter(c / 16), HexLetter(c % 16)]
  }

  // ----- encoding: a byte at a time -----

  /** The loop of `qpencode`: what can be told is put out, the atom keeps the rest. */
  function Drain(atom: seq<byte>, marker: seq<byte>): (r: (seq<byte>, seq<byte>))
    requires |atom| <= 3
    ensures |r.0| <= 2
    decreases |atom|
  {
    if atom == [] then ([], [])
    else
      match ClassOf(atom[0])
      case Return =>
        if |atom| < 2 then (atom, [])
        else if atom[1] == 10 then ([], marker)
        else var (a, o) := Drain(atom[1..], marker); (a, Quote(atom[0]) + o)
      case IfLast =>
        if |atom| < 3 then (atom, [])
        else if atom[1] == 13 && atom[2] == 10 then ([], Quote(atom[0]) + marker)
        else var (a, o) := Drain(atom[1..], marker); (a, [atom[0]] + o)
      case Quoted =>
        var (a, o) := Drain(atom[1..], marker); (a, Quote(atom[0]) + o)
      case Ordinary =>
        var (a, o) := Drain(atom[1..], marker); (a, [atom[0]] + o)
  }

  function EncodeRun(atom: seq<byte>, s: seq<byte>, marker: seq<byte>): (r: (seq<byte>, seq<byte>))
    requires |atom| <= 2
    ensures |r.0| <= 2
    decreases |s|
  {
    if s == [] then (atom, [])
    else
      var (a1, o1) := Drain(atom + [s[0]], marker);
      var (a2, o2) := EncodeRun(a1, s[1..], marker);
      (a2, o1 + o2)
  }

  /** One byte at the end of the input. */
  function PadByte(c: byte): (t: seq<byte>)
  {
    if ClassOf(c) == Ordinary then [c] else Quote(c)
  }

  function PadBytes(atom: seq<byte>): (t: seq<byte>)
  {
    if atom == [] then [] else PadByte(atom[0]) + PadBytes(atom[1..])
  }

  /** `qppad`: the undecided bytes, quoted unless ordinary, and a soft line break. */
  function Padded(atom: seq<byte>): (t: seq<byte>)
  {
    PadBytes(atom) + (if |atom| > 0 then EQCRLF else [])
  }

  // ----- encoding: the whole string -----

  /** Reading the whole string ahead: what its bytes become, up to those that cannot be told yet. */
  function Resolve(s: seq<byte>, marker: seq<byte>): (r: (seq<byte>, seq<byte>))
    ensures |r.0| <= 2
    decreases |s|
  {
    if s == [] then ([], [])
    else
      match ClassOf(s[0])
      case Return =>
        if |s| < 2 then (s, [])
        else if s[1] == 10 then var (a, o) := Resolve(s[2..], marker); (a, marker + o)
        else var (a, o) := Resolve(s[1..], marker); (a, Quote(s[0]) + o)
      case IfLast =>
        if |s| < 3 then (s, [])
        else if s[1] == 13 && s[2] == 10 then
          var (a, o) := Resolve(s[3..], marker); (a, Quote(s[0]) + marker + o)
        else var (a, o) := Resolve(s[1..], marker); (a, [s[0]] + o)
      case Quoted =>
        var (a, o) := Resolve(s[1..], marker); (a, Quote(s[0]) + o)
      case Ordinary =>
        var (a, o) := Resolve(s[1..], marker); (a, [s[0]] + o)
  }

  function Encoded(s: seq<byte>, marker: seq<byte>): (t: seq<byte>)
  {
    Resolve(s, marker).1 + Padded(Resolve(s, marker).0)
  }

  /** What an atom holds between two bytes: nothing, a carriage return, or a blank with or without a byte after it. */
  predicate AtRest(a: seq<byte>)
  {
    a == [] || a == [13] || (1 <= |a| <= 2 && ClassOf(a[0]) == IfLast)
  }

  lemma {:induction false} RestIsKept(a: seq<byte>, marker: seq<byte>)
    requires AtRest(a)
    ensures Resolve(a, marker) == (a, [])
  {
  }

  lemma {:induction false} ResolveRests(s: seq<byte>, marker: seq<byte>)
    ensures AtRest(Resolve(s, marker).0)
    decreases |s|
  {
    hide Quote;
    if s != [] && !AtRest(s) {
      if ClassOf(s[0]) == Return && s[1] == 10 {
        ResolveRests(s[2..], marker);
      } else if ClassOf(s[0]) == IfLast && s[1] == 13 && s[2] == 10 {
        ResolveRests(s[3..], marker);
      } else {
        ResolveRests(s[1..], marker);
      }
    }
  }

  /** How many bytes at the front can be told now, and what they become; 0 when none can. */
  function Head(s: seq<byte>): (n: nat)
    ensures n <= |s|
    ensures n == 0 <==> AtRest(s)
  {
    if AtRest(s) then 0
    else
      match ClassOf(s[0])
      case Return => if s[1] == 10 then 2 else 1
      case IfLast => if s[1] == 13 && s[2] == 10 then 3 else 1
      case _ => 1
  }

  function HeadText(s: seq<byte>, marker: seq<byte>): (t: seq<byte>)
    requires Head(s) > 0
  {
    match ClassOf(s[0])
    case Return => if s[1] == 10 then marker else Quote(s[0])
    case IfLast => if s[1] == 13 && s[2] == 10 then Quote(s[0]) + marker else [s[0]]
    case Quoted => Quote(s[0])
    case Ordinary => [s[0]]
  }

  lemma {:induction false} ResolveHead(s: seq<byte>, marker: seq<byte>)
    ensures Head(s) == 0 ==> Resolve(s, marker) == (s, [])
    ensures Head(s) > 0 ==>
              var (a, o) := Resolve(s[Head(s)..], marker);
              Resolve(s, marker) == (a, HeadText(s, marker) + o)
  {
    hide Quote;
  }

  /** What can be told of a string can be told the same when more follows. */
  lemma {:induction false} HeadMore(a: seq<byte>, b: seq<byte>, marker: seq<byte>)
    requires Head(a) > 0
    ensures Head(a + b) == Head(a) && HeadText(a + b, marker) == HeadText(a, marker)
    ensures (a + b)[Head(a)..] == a[Head(a)..] + b
  {
    hide Quote;
  }

  /** Resolving in two pieces, the bytes left over put before the second, is resolving the whole. */
  lemma {:induction false} ResolveConcat(a: seq<byte>, b: seq<byte>, marker: seq<byte>)
    ensures var (m, o1) := Resolve(a, marker);
            var (r, o2) := Resolve(m + b, marker);
            Resolve(a + b, marker) == (r, o1 + o2)
    decreases |a|
  {
    hide Resolve, Head, HeadText;
    ResolveHead(a, marker);
    var n := Head(a);
    if n == 0 {
      assert [] + Resolve(a + b, marker).1 == Resolve(a + b, marker).1;
    } else {
      HeadMore(a, b, marker);
      ResolveHead(a + b, marker);
      ResolveConcat(a[n..], b, marker);
      var (m, o) := Resolve(a[n..], marker);
      Assoc(HeadText(a, marker), o, Resolve(m + b, marker).1);
    }
  }

  lemma {:induction false} DrainIsResolve(atom: seq<byte>, c: byte, marker: seq<byte>)
    requires AtRest(atom)
    ensures Drain(atom + [c], marker) == Resolve(atom + [c], marker)
  {
    hide Quote;
    var s := atom + [c];
    assert marker + [] == marker && Resolve([], marker) == ([], []);
    if |s| == 1 {
      DrainOne(c, marker);
    } else if |s| == 2 {
      assert s[1..] == [c] && s[2..] == [];
      DrainOne(c, marker);
    } else {
      var t := s[1..];
      assert t == [atom[1], c] && t[1..] == [c] && s[3..] == [] && t[2..] == [];
      DrainOne(c, marker);
      if !(s[1] == 13 && s[2] == 10) {
        DrainTwo(atom[1], c, marker);
      } else {
        assert Quote(s[0]) + marker + [] == Quote(s[0]) + marker;
      }
    }
  }

  lemma {:induction false} DrainOne(c: byte, marker: seq<byte>)
    ensures Drain([c], marker) == Resolve([c], marker)
  {
    hide Quote;
    assert [c][1..] == [];
  }

  lemma {:induction false} DrainTwo(b: byte, c: byte, marker: seq<byte>)
    requires !(b == 13 && c == 10)
    ensures Drain([b, c], marker) == Resolve([b, c], marker)
  {
    hide Quote;
    assert [b, c][1..] == [c];
    DrainOne(c, marker);
  }

  /** The byte-at-a-time encoder computes what reading ahead computes. */
  lemma {:induction false} RunIsResolve(atom: seq<byte>, s: seq<byte>, marker: seq<byte>)
    requires AtRest(atom)
    ensures EncodeRun(atom, s, marker) == Resolve(atom + s, marker)
    decreases |s|
  {
    hide Drain, Resolve;
    if s == [] {
      assert atom + s == atom;
      RestIsKept(atom, marker);
    } else {
      DrainIsResolve(atom, s[0], marker);
      ResolveRests(atom + [s[0]], marker);
      RunIsResolve(Drain(atom + [s[0]], marker).0, s[1..], marker);
      assert atom + [s[0]] + s[1..] == atom + s;
      ResolveConcat(atom + [s[0]], s[1..], marker);
    }
  }

  // ----- tokens of encoded text -----

  /** Encoded text in its units: a byte as itself, a byte as =XX, a line break, a soft line break. */
  datatype Token = Plain(c: byte) | Hex(c: byte) | Hard | Soft

  function TokenText(k: Token): (t: seq<byte>)
  {
    match k
    case Plain(c) => [c]
    case Hex(c) => Quote(c)
    case Hard => CRLF
    case Soft => EQCRLF
  }

  function Text(ks: seq<Token>): (t: seq<byte>)
  {
    if ks == [] then [] else TokenText(ks[0]) + Text(ks[1..])
  }

  /** The bytes one token stands for. */
  function Sense(k: Token): (s: seq<byte>)
  {
    match k
    case Plain(c) => [c]
    case Hex(c) => [c]
    case Hard => CRLF
    case Soft => []
  }

  function Meaning(ks: seq<Token>): (s: seq<byte>)
  {
    if ks == [] then [] else Sense(ks[0]) + Meaning(ks[1..])
  }

  predicate IsBlank(k: Token)
  {
    k.Plain? && (k.c == 9 || k.c == 32)
  }

  /**
   Only bytes that may stand for themselves do, and no blank stands for itself at the end of a
   line or of the text.
   */
  predicate Proper(ks: seq<Token>)
  {
    ks == []
    || (&& (ks[0].Plain? ==> ClassOf(ks[0].c) == Ordinary || ClassOf(ks[0].c) == IfLast)
        && (IsBlank(ks[0]) ==> |ks| > 1 && ks[1] != Hard)
        && Proper(ks[1..]))
  }

  lemma {:induction false} TextConcat(a: seq<Token>, b: seq<Token>)
    ensures Text(a + b) == Text(a) + Text(b)
    decreases |a|
  {
    hide TokenText;
    if a == [] {
      assert a + b == b;
      assert [] + Text(b) == Text(b);
    } else {
      assert (a + b)[1..] == a[1..] + b;
      TextConcat(a[1..], b);
      Assoc(TokenText(a[0]), Text(a[1..]), Text(b));
    }
  }

  /** The two markers in use: a line break for text, and both its bytes quoted for binary data. */
  function MarkerTokens(binary: bool): (ks: seq<Token>)
    ensures |ks| > 0
  {
    if binary then [Hex(13), Hex(10)] else [Hard]
  }

  function Marker(binary: bool): (t: seq<byte>)
  {
    if binary then [61, 48, 68, 61, 48, 65] else CRLF
  }

  lemma {:induction false} MarkerText(binary: bool)
    ensures Text(MarkerTokens(binary)) == Marker(binary)
  {
    var ks := MarkerTokens(binary);
    assert ks[1..] == if binary then [Hex(10)] else [];
    assert [Hex(10)][1..] == [];
  }

  function PadTokens(s: seq<byte>): (ks: seq<Token>)
  {
    if s == [] then [Soft]
    else [if ClassOf(s[0]) == Ordinary then Plain(s[0]) else Hex(s[0])] + PadTokens(s[1..])
  }

  /** The tokens that begin the encoding of a string of which something can be told. */
  function HeadTokens(s: seq<byte>, binary: bool): (ks: seq<Token>)
    requires Head(s) > 0
    ensures |ks| > 0
  {
    match ClassOf(s[0])
    case Return => if s[1] == 10 then MarkerTokens(binary) else [Hex(s[0])]
    case IfLast => if s[1] == 13 && s[2] == 10 then [Hex(s[0])] + MarkerTokens(binary) else [Plain(s[0])]
    case Quoted => [Hex(s[0])]
    case Ordinary => [Plain(s[0])]
  }

  function Tokens(s: seq<byte>, binary: bool): (ks: seq<Token>)
    decreases |s|
  {
    if s == [] then []
    else if Head(s) == 0 then PadTokens(s)
    else HeadTokens(s, binary) + Tokens(s[Head(s)..], binary)
  }

  lemma {:induction false} OneToken(k: Token)
    ensures Text([k]) == TokenText(k)
  {
    assert [k][1..] == [];
    assert TokenText(k) + [] == TokenText(k);
  }

  lemma {:induction false} HeadIsText(s: seq<byte>, binary: bool)
    requires Head(s) > 0
    ensures Text(HeadTokens(s, binary)) == HeadText(s, Marker(binary))
  {
    hide Text, Quote, Marker, MarkerTokens;
    MarkerText(binary);
    OneToken(Hex(s[0]));
    OneToken(Plain(s[0]));
    TextConcat([Hex(s[0])], MarkerTokens(binary));
  }

  lemma {:induction false} PadIsText(s: seq<byte>)
    ensures Text(PadTokens(s)) == PadBytes(s) + EQCRLF
    decreases |s|
  {
    hide Quote;
    if s == [] {
      OneToken(Soft);
      assert [] + EQCRLF == EQCRLF;
    } else {
      PadIsText(s[1..]);
      assert PadTokens(s)[1..] == PadTokens(s[1..]);
      Assoc(PadByte(s[0]), PadBytes(s[1..]), EQCRLF);
    }
  }

  /** The encoding is the text of the tokens. */
  lemma {:induction false} EncodedIsText(s: seq<byte>, binary: bool)
    ensures Encoded(s, Marker(binary)) == Text(Tokens(s, binary))
    decreases |s|
  {
    hide Resolve, Marker, Head, HeadText, HeadTokens, PadBytes, PadTokens;
    var m := Marker(binary);
    ResolveHead(s, m);
    if s == [] {
      RestIsKept(s, m);
      PadNothing();
    } else if Head(s) == 0 {
      PadIsText(s);
      assert [] + Padded(s) == Padded(s);
    } else {
      var rest := s[Head(s)..];
      EncodedIsText(rest, binary);
      HeadIsText(s, binary);
      TextConcat(HeadTokens(s, binary), Tokens(rest, binary));
      var (a, o) := Resolve(rest, m);
      Assoc(HeadText(s, m), o, Padded(a));
    }
  }

  lemma {:induction false} PadNothing()
    ensures Padded([]) == []
  {
  }

  lemma {:induction false} MeaningConcat(a: seq<Token>, b: seq<Token>)
    ensures Meaning(a + b) == Meaning(a) + Meaning(b)
    decreases |a|
  {
    hide Meaning, Sense;
    if a == [] {
      assert a + b == b;
      NoMeaning();
      assert [] + Meaning(b) == Meaning(b);
    } else {
      assert (a + b)[1..] == a[1..] + b && (a + b)[0] == a[0];
      MeaningStep(a);
      MeaningStep(a + b);
      MeaningConcat(a[1..], b);
      Assoc(Sense(a[0]), Meaning(a[1..]), Meaning(b));
    }
  }

  lemma {:induction false} MeaningStep(ks: seq<Token>)
    requires ks != []
    ensures Meaning(ks) == Sense(ks[0]) + Meaning(ks[1..])
  {
  }

  lemma {:induction false} HeadMeans(s: seq<byte>, binary: bool)
    requires Head(s) > 0
    ensures Meaning(HeadTokens(s, binary)) == s[..Head(s)]
  {
    hide AtRest;
    assert Meaning([]) == [];
    assert [Hex(s[0])][1..] == [] && [Plain(s[0])][1..] == [];
    MarkerMeans(binary);
    MeaningConcat([Hex(s[0])], MarkerTokens(binary));
  }

  lemma {:induction false} MarkerMeans(binary: bool)
    ensures Meaning(MarkerTokens(binary)) == CRLF
  {
    var ks := MarkerTokens(binary);
    assert ks[1..] == if binary then [Hex(10)] else [];
    assert [Hex(10)][1..] == [];
  }

  lemma {:induction false} PadMeans(s: seq<byte>)
    ensures Meaning(PadTokens(s)) == s
    decreases |s|
  {
    if s == [] {
      assert [Soft][1..] == [];
    } else {
      PadMeans(s[1..]);
      assert PadTokens(s)[1..] == PadTokens(s[1..]);
    }
  }

  /** The tokens stand for the string. */
  lemma {:induction false} TokensMean(s: seq<byte>, binary: bool)
    ensures Meaning(Tokens(s, binary)) == s
    decreases |s|
  {
    hide Head, HeadTokens, PadTokens, Meaning;
    if s == [] {
      NoMeaning();
    } else if Head(s) == 0 {
      PadMeans(s);
    } else {
      HeadMeans(s, binary);
      TokensMean(s[Head(s)..], binary);
      MeaningConcat(HeadTokens(s, binary), Tokens(s[Head(s)..], binary));
    }
  }

  lemma {:induction false} NoMeaning()
    ensures Meaning([]) == []
  {
  }

  lemma {:induction false} PadIsProper(s: seq<byte>)
    ensures Proper(PadTokens(s))
    decreases |s|
  {
    if s == [] {
      assert [Soft][1..] == [];
    } else {
      PadIsProper(s[1..]);
      assert PadTokens(s)[1..] == PadTokens(s[1..]);
    }
  }

  /** Encoded text is proper; it begins with a line break only when the string does. */
  lemma {:induction false} TokensAreProper(s: seq<byte>, binary: bool)
    ensures Proper(Tokens(s, binary))
    ensures |Tokens(s, binary)| > 0 <==> s != []
    ensures s != [] && Tokens(s, binary)[0] == Hard ==> |s| >= 2 && s[0] == 13 && s[1] == 10
    decreases |s|
  {
    hide Proper, HeadTokens, Head;
    if s == [] {
      ProperNothing();
    } else if Head(s) == 0 {
      PadIsProper(s);
    } else {
      TokensAreProper(s[Head(s)..], binary);
      HeadIsProper(s, binary, Tokens(s[Head(s)..], binary));
    }
  }

  /** The first tokens of a string's encoding, put before proper ones. */
  lemma {:induction false} HeadIsProper(s: seq<byte>, binary: bool, rest: seq<Token>)
    requires Head(s) > 0 && Proper(rest) && (|rest| > 0 <==> |s| > Head(s))
    requires rest != [] && rest[0] == Hard ==> |s| >= Head(s) + 2 && s[Head(s)] == 13 && s[Head(s) + 1] == 10
    ensures Proper(HeadTokens(s, binary) + rest)
    ensures HeadTokens(s, binary)[0] == Hard ==> |s| >= 2 && s[0] == 13 && s[1] == 10
  {
    hide Proper, MarkerTokens;
    MarkerIsProper(binary, rest);
    var ks := HeadTokens(s, binary);
    if ClassOf(s[0]) == IfLast && s[1] == 13 && s[2] == 10 {
      ProperStep(Hex(s[0]), MarkerTokens(binary) + rest);
      assert ks + rest == [Hex(s[0])] + (MarkerTokens(binary) + rest);
    } else if !(ClassOf(s[0]) == Return && s[1] == 10) {
      ProperStep(ks[0], rest);
      assert ks + rest == [ks[0]] + rest;
    }
  }

  lemma {:induction false} MarkerIsProper(binary: bool, rest: seq<Token>)
    requires Proper(rest)
    ensures Proper(MarkerTokens(binary) + rest)
  {
    hide Proper;
    ProperStep(Hard, rest);
    ProperStep(Hex(10), rest);
    ProperStep(Hex(13), [Hex(10)] + rest);
    assert [Hex(13), Hex(10)] + rest == [Hex(13)] + ([Hex(10)] + rest);
  }

  lemma {:induction false} ProperNothing()
    ensures Proper([])
  {
  }

  lemma {:induction false} ProperStep(k: Token, rest: seq<Token>)
    requires Proper(rest)
    requires k.Plain? ==> ClassOf(k.c) == Ordinary || ClassOf(k.c) == IfLast
    requires IsBlank(k) ==> |rest| > 0 && rest[0] != Hard
    ensures Proper([k] + rest)
  {
    assert ([k] + rest)[1..] == rest;
  }

  // ----- decoding -----

  /** `qpdecode`: one byte into an atom of fewer than three. */
  function DecodeStep(atom: seq<byte>, c: byte): (r: (seq<byte>, seq<byte>))
    requires |atom| <= 2
    ensures |r.0| <= 2
  {
    var a := atom + [c];
    if a[0] == 61 then
      if |a| < 3 then (a, [])
      else if a[1] == 13 && a[2] == 10 then ([], [])
      else if HexValue(a[1]) > 15 || HexValue(a[2]) > 15 then ([], a)
      else ([], [HexValue(a[1]) * 16 + HexValue(a[2])])
    else if a[0] == 13 then
      if |a| < 2 then (a, [])
      else ([], if a[1] == 10 then a[..2] else [])
    else ([], if a[0] == 9 || 31 < a[0] < 127 then [a[0]] else [])
  }

  function DecodeRun(atom: seq<byte>, t: seq<byte>): (r: (seq<byte>, seq<byte>))
    requires |atom| <= 2
    ensures |r.0| <= 2
    decreases |t|
  {
    if t == [] then (atom, [])
    else
      var (a1, o1) := DecodeStep(atom, t[0]);
      var (a2, o2) := DecodeRun(a1, t[1..]);
      (a2, o1 + o2)
  }

  lemma {:induction false} DecodeRunConcat(atom: seq<byte>, a: seq<byte>, b: seq<byte>)
    requires |atom| <= 2
    ensures var (m, o1) := DecodeRun(atom, a);
            var (r, o2) := DecodeRun(m, b);
            DecodeRun(atom, a + b) == (r, o1 + o2)
    decreases |a|
  {
    hide DecodeStep;
    if a == [] {
      assert a + b == b;
      assert [] + DecodeRun(atom, b).1 == DecodeRun(atom, b).1;
    } else {
      assert (a + b)[1..] == a[1..] + b;
      var (a1, o) := DecodeStep(atom, a[0]);
      DecodeRunConcat(a1, a[1..], b);
      Assoc(o, DecodeRun(a1, a[1..]).1, DecodeRun(DecodeRun(a1, a[1..]).0, b).1);
    }
  }

  lemma {:induction false} DecodeOne(atom: seq<byte>, c: byte)
    requires |atom| <= 2
    ensures DecodeRun(atom, [c]) == DecodeStep(atom, c)
  {
    hide DecodeStep;
    assert [c][1..] == [];
    assert DecodeStep(atom, c).1 + [] == DecodeStep(atom, c).1;
  }

  lemma {:induction false} HexLetterBack(n: int)
    requires 0 <= n < 16
    ensures HexValue(HexLetter(n)) == n && HexLetter(n) != 13
  {
  }

  lemma {:induction false} DecodeTwo(b: byte, c: byte)
    ensures DecodeRun([], [b, c])
            == (var (a1, o1) := DecodeStep([], b); var (a2, o2) := DecodeStep(a1, c); (a2, o1 + o2))
  {
    hide DecodeStep;
    assert [b, c] == [b] + [c];
    DecodeRunConcat([], [b], [c]);
    DecodeOne([], b);
    DecodeOne(DecodeStep([], b).0, c);
  }

  lemma {:induction false} DecodeThree(b: byte, c: byte)
    ensures DecodeRun([], [61, b, c]) == DecodeStep([61, b], c)
  {
    assert [61, b, c] == [61, b] + [c];
    DecodeRunConcat([], [61, b], [c]);
    DecodeTwo(61, b);
    DecodeOne([61, b], c);
    assert [] + [61] == [61] && [61] + [b] == [61, b];
    assert DecodeStep([], 61) == ([61], []) && DecodeStep([61], b) == ([61, b], []);
    assert [] + DecodeStep([61, b], c).1 == DecodeStep([61, b], c).1;
  }

  lemma {:induction false} QuotedBack(a: byte, b: byte, c: byte)
    requires HexValue(a) == c / 16 && HexValue(b) == c % 16 && a != 13
    ensures DecodeStep([61, a], b) == ([], [c])
  {
    hide HexValue;
    assert [61, a] + [b] == [61, a, b];
    assert c / 16 * 16 + c % 16 == c;
  }

  lemma {:induction false} DecodeHex(c: byte)
    ensures DecodeRun([], Quote(c)) == ([], [c])
  {
    hide DecodeRun;
    DecodeThree(HexLetter(c / 16), HexLetter(c % 16));
    HexLetterBack(c / 16);
    HexLetterBack(c % 16);
    QuotedBack(HexLetter(c / 16), HexLetter(c % 16), c);
    assert Quote(c) == [61, HexLetter(c / 16), HexLetter(c % 16)];
  }

  lemma {:induction false} DecodePlain(c: byte)
    requires ClassOf(c) == Ordinary || ClassOf(c) == IfLast
    ensures DecodeRun([], [c]) == ([], [c])
  {
    hide DecodeRun;
    DecodeOne([], c);
    assert [] + [c] == [c];
  }

  lemma {:induction false} DecodeSoft()
    ensures DecodeRun([], EQCRLF) == ([], [])
  {
    hide DecodeRun;
    DecodeThree(13, 10);
    assert [61, 13] + [10] == EQCRLF;
    assert DecodeStep([61, 13], 10) == ([], []);
  }

  lemma {:induction false} DecodeHard()
    ensures DecodeRun([], CRLF) == ([], CRLF)
  {
    DecodeTwo(13, 10);
    assert [] + [13] == [13] && [13] + [10] == CRLF;
    assert DecodeStep([], 13) == ([13], []);
    assert ([13] + [10])[..2] == CRLF;
    assert DecodeStep([13], 10) == ([], CRLF);
    assert [] + CRLF == CRLF;
  }

  /** Every token is decoded to what it stands for, leaving nothing behind. */
  lemma {:induction false} DecodeToken(k: Token)
    requires k.Plain? ==> ClassOf(k.c) == Ordinary || ClassOf(k.c) == IfLast
    ensures DecodeRun([], TokenText(k)) == ([], Meaning([k]))
  {
    hide DecodeRun, Quote, DecodeStep;
    assert [k][1..] == [];
    match k
    case Plain(c) =>
      DecodePlain(c);
      assert Meaning([k]) == [c];
      assert TokenText(k) == [c];
    case Hex(c) =>
      DecodeHex(c);
      assert Meaning([k]) == [c];
      assert TokenText(k) == Quote(c);
    case Hard =>
      DecodeHard();
      assert Meaning([k]) == CRLF;
      assert TokenText(k) == CRLF;
    case Soft =>
      DecodeSoft();
      assert Meaning([k]) == [];
      assert TokenText(k) == EQCRLF;
  }

  lemma {:induction false} DecodeTokens(ks: seq<Token>)
    requires Proper(ks)
    ensures DecodeRun([], Text(ks)) == ([], Meaning(ks))
    decreases |ks|
  {
    hide DecodeRun, Meaning, TokenText;
    if ks == [] {
      DecodeNothing([]);
      NoMeaning();
    } else {
      DecodeToken(ks[0]);
      DecodeTokens(ks[1..]);
      DecodeRunConcat([], TokenText(ks[0]), Text(ks[1..]));
      MeaningConcat([ks[0]], ks[1..]);
      assert [ks[0]] + ks[1..] == ks;
    }
  }

  lemma {:induction false} DecodeNothing(atom: seq<byte>)
    requires |atom| <= 2
    ensures DecodeRun(atom, []) == (atom, [])
  {
  }

  // ----- wrapping -----

  /** One turn of the loop of `mime_global_qpwrp`. */
  function WrapStep(left: int, c: byte, length: int): (r: (seq<byte>, int))
  {
    if c == 13 then ([], left)
    else if c == 10 then (CRLF, length)
    else if c == 61 then (if left <= 3 then (EQCRLF + [c], length - 1) else ([c], left - 1))
    else if left <= 1 then (EQCRLF + [c], length - 1)
    else ([c], left - 1)
  }

  function Wrap(left: int, t: seq<byte>, length: int): (r: (seq<byte>, int))
    decreases |t|
  {
    if t == [] then ([], left)
    else
      var (o1, n1) := WrapStep(left, t[0], length);
      var (o2, n2) := Wrap(n1, t[1..], length);
      (o1 + o2, n2)
  }

  /** Wrapping chunk by chunk, carrying the space left, is wrapping the whole. */
  lemma {:induction false} WrapConcat(left: int, a: seq<byte>, b: seq<byte>, length: int)
    ensures var (o1, n1) := Wrap(left, a, length);
            var (o2, n2) := Wrap(n1, b, length);
            Wrap(left, a + b, length) == (o1 + o2, n2)
    decreases |a|
  {
    hide WrapStep;
    if a == [] {
      assert a + b == b;
      assert [] + Wrap(left, b, length).0 == Wrap(left, b, length).0;
    } else {
      assert (a + b)[1..] == a[1..] + b;
      var (o, n) := WrapStep(left, a[0], length);
      WrapConcat(n, a[1..], b, length);
      Assoc(o, Wrap(n, a[1..], length).0, Wrap(Wrap(n, a[1..], length).1, b, length).0);
    }
  }

  lemma {:induction false} FitsSoft(o: seq<byte>, used: int, length: int)
    requires used < length
    ensures LinesFit(EQCRLF + o, used, length) == LinesFit(o, 0, length)
  {
    hide LinesFit;
    assert EQCRLF + o == [61] + (CRLF + o);
    FitsAfter(61, CRLF + o, used, length);
    FitsBreak(o, used + 1, length);
  }

  /**
   No wrapped line is longer than the length asked for, the soft break included, whatever the text and
   whatever comes after it that fits into the space left.
   */
  lemma {:induction false} WrappedLinesFit(left: int, t: seq<byte>, length: int, after: seq<byte>)
    requires length >= 4 && 1 <= left <= length
    requires LinesFit(after, length - Wrap(left, t, length).1, length)
    ensures LinesFit(Wrap(left, t, length).0 + after, length - left, length)
    ensures 1 <= Wrap(left, t, length).1 <= length
    decreases |t|
  {
    hide LinesFit;
    if t == [] {
      assert [] + after == after;
    } else {
      var (o1, n1) := WrapStep(left, t[0], length);
      WrappedLinesFit(n1, t[1..], length, after);
      var o := Wrap(n1, t[1..], length).0 + after;
      Assoc(o1, Wrap(n1, t[1..], length).0, after);
      if t[0] == 13 {
        assert o1 + o == o;
      } else if t[0] == 10 {
        FitsBreak(o, length - left, length);
      } else if |o1| > 1 {
        FitsAfter(t[0], o, 0, length);
        FitsSoft([t[0]] + o, length - left, length);
        assert EQCRLF + [t[0]] + o == EQCRLF + ([t[0]] + o);
      } else {
        FitsAfter(t[0], o, length - left, length);
      }
    }
  }

  /** What the closing call of `mime_global_qpwrp` adds. */
  function Closing(left: int, length: int): (t: seq<byte>)
  {
    if left < length then EQCRLF else []
  }

  /** Text wrapped to its end, closing break included. */
  function Wrapped(left: int, t: seq<byte>, length: int): (r: seq<byte>)
  {
    Wrap(left, t, length).0 + Closing(Wrap(left, t, length).1, length)
  }

  lemma {:induction false} ClosingFits(left: int, length: int)
    requires 1 <= left <= length
    ensures LinesFit(Closing(left, length), length - left, length)
  {
    hide LinesFit;
    NothingFits(length - left, length);
    NothingFits(0, length);
    if left < length {
      FitsSoft([], length - left, length);
      assert EQCRLF + [] == EQCRLF;
    }
  }

  lemma {:induction false} LeftInRange(left: int, t: seq<byte>, length: int)
    requires length >= 4 && 1 <= left <= length
    ensures 1 <= Wrap(left, t, length).1 <= length
    decreases |t|
  {
    if t != [] { LeftInRange(WrapStep(left, t[0], length).1, t[1..], length); }
  }

  lemma {:induction false} WrappedFits(left: int, t: seq<byte>, length: int)
    requires length >= 4 && 1 <= left <= length
    ensures LinesFit(Wrapped(left, t, length), length - left, length)
  {
    hide LinesFit, Wrap;
    LeftInRange(left, t, length);
    ClosingFits(Wrap(left, t, length).1, length);
    WrappedLinesFit(left, t, length, Closing(Wrap(left, t, length).1, length));
  }

  /** What wrapping does to one token: a soft break before it when it does not fit, never inside it. */
  function WrapToken(left: int, k: Token, length: int): (r: (seq<Token>, int))
  {
    match k
    case Plain(_) => if left <= 1 then ([Soft, k], length - 1) else ([k], left - 1)
    case Hex(_) => if left <= 3 then ([Soft, k], length - 3) else ([k], left - 3)
    case Hard => ([k], length)
    case Soft => (if left <= 3 then [Soft, k] else [k], length)
  }

  function WrapTokens(left: int, ks: seq<Token>, length: int): (r: (seq<Token>, int))
    decreases |ks|
  {
    if ks == [] then ([], left)
    else
      var (o1, n1) := WrapToken(left, ks[0], length);
      var (o2, n2) := WrapTokens(n1, ks[1..], length);
      (o1 + o2, n2)
  }

  lemma {:induction false} WrapOne(left: int, c: byte, length: int)
    ensures Wrap(left, [c], length) == WrapStep(left, c, length)
  {
    hide WrapStep;
    assert [c][1..] == [];
    assert WrapStep(left, c, length).0 + [] == WrapStep(left, c, length).0;
  }

  lemma {:induction false} WrapThree(left: int, a: byte, b: byte, c: byte, length: int)
    ensures Wrap(left, [a, b, c], length)
            == (var (o1, n1) := WrapStep(left, a, length);
                var (o2, n2) := WrapStep(n1, b, length);
                var (o3, n3) := WrapStep(n2, c, length);
                (o1 + o2 + o3, n3))
  {
    hide WrapStep;
    assert [a, b, c] == [a] + [b] + [c];
    WrapConcat(left, [a] + [b], [c], length);
    WrapConcat(left, [a], [b], length);
    WrapOne(left, a, length);
    WrapOne(WrapStep(left, a, length).1, b, length);
    WrapOne(WrapStep(WrapStep(left, a, length).1, b, length).1, c, length);
  }

  /** Wrapping the text of a token is wrapping the token. */
  lemma {:induction false} WrapTokenText(left: int, k: Token, length: int)
    requires length >= 4
    requires k.Plain? ==> ClassOf(k.c) == Ordinary || ClassOf(k.c) == IfLast
    ensures Wrap(left, TokenText(k), length) == (Text(WrapToken(left, k, length).0), WrapToken(left, k, length).1)
  {
    hide Wrap;
    OneToken(k);
    TwoTokens(Soft, k);
    match k
    case Plain(c) =>
      WrapOne(left, c, length);
    case Hex(c) =>
      HexIsPlain(c / 16);
      HexIsPlain(c % 16);
      WrapThree(left, 61, HexLetter(c / 16), HexLetter(c % 16), length);
      assert EQCRLF + [61] + [HexLetter(c / 16)] + [HexLetter(c % 16)] == EQCRLF + Quote(c);
      assert [61] + [HexLetter(c / 16)] + [HexLetter(c % 16)] == Quote(c);
    case Hard =>
      WrapConcat(left, [13], [10], length);
      WrapOne(left, 13, length);
      WrapOne(left, 10, length);
      assert [13] + [10] == CRLF && [] + CRLF == CRLF;
    case Soft =>
      WrapThree(left, 61, 13, 10, length);
      assert EQCRLF + [61] + [] + CRLF == EQCRLF + EQCRLF;
      assert [61] + [] + CRLF == EQCRLF;
  }

  lemma {:induction false} HexIsPlain(n: int)
    requires 0 <= n < 16
    ensures HexLetter(n) !in [13, 10, 61]
  {
  }

  lemma {:induction false} TwoTokens(a: Token, b: Token)
    ensures Text([a, b]) == TokenText(a) + TokenText(b)
  {
    hide Text;
    assert [a, b] == [a] + [b];
    TextConcat([a], [b]);
    OneToken(a);
    OneToken(b);
  }

  lemma {:induction false} WrapText(left: int, ks: seq<Token>, length: int)
    requires length >= 4 && Proper(ks)
    ensures Wrap(left, Text(ks), length) == (Text(WrapTokens(left, ks, length).0), WrapTokens(left, ks, length).1)
    decreases |ks|
  {
    hide Wrap, WrapToken, TokenText;
    if ks == [] {
      WrapNothing(left, length);
    } else {
      var (o, n) := WrapToken(left, ks[0], length);
      WrapTokenText(left, ks[0], length);
      WrapText(n, ks[1..], length);
      WrapConcat(left, TokenText(ks[0]), Text(ks[1..]), length);
      TextConcat(o, WrapTokens(n, ks[1..], length).0);
    }
  }

  lemma {:induction false} WrapNothing(left: int, length: int)
    ensures Wrap(left, [], length) == ([], left)
  {
  }

  /** The tokens that are not soft line breaks. */
  function Firm(ks: seq<Token>): (r: seq<Token>)
  {
    if ks == [] then [] else (if ks[0] == Soft then [] else [ks[0]]) + Firm(ks[1..])
  }

  /** Wrapping only adds soft line breaks, and leaves no blank at the end of a line. */
  lemma {:induction false} WrapOnlyBreaks(left: int, ks: seq<Token>, length: int)
    requires Proper(ks)
    ensures var w := WrapTokens(left, ks, length).0;
            && Firm(w) == Firm(ks) && Meaning(w) == Meaning(ks) && Proper(w)
            && (ks != [] ==> |w| > 0 && (w[0] == Hard ==> ks[0] == Hard))
    decreases |ks|
  {
    hide Proper, Firm, Meaning, WrapToken;
    if ks == [] {
      ProperNothing();
    } else {
      ProperHead(ks);
      var k := ks[0];
      var (o, n) := WrapToken(left, k, length);
      WrapOnlyBreaks(n, ks[1..], length);
      var rest := WrapTokens(n, ks[1..], length).0;
      ProperStep(k, rest);
      FirmStep(k, rest);
      FirmStep(k, ks[1..]);
      assert [k] + ks[1..] == ks;
      OneOrTwo(left, k, length);
      if |o| == 2 {
        SoftBefore([k] + rest);
        assert [Soft, k] + rest == [Soft] + ([k] + rest);
      }
    }
  }

  lemma {:induction false} OneOrTwo(left: int, k: Token, length: int)
    ensures var o := WrapToken(left, k, length).0; o == [k] || o == [Soft, k]
  {
  }

  lemma {:induction false} SoftBefore(ks: seq<Token>)
    requires Proper(ks)
    ensures Proper([Soft] + ks) && Firm([Soft] + ks) == Firm(ks) && Meaning([Soft] + ks) == Meaning(ks)
  {
    hide Proper, Firm, Meaning;
    ProperStep(Soft, ks);
    FirmStep(Soft, ks);
  }

  lemma {:induction false} ProperHead(ks: seq<Token>)
    requires Proper(ks) && ks != []
    ensures Proper(ks[1..])
    ensures ks[0].Plain? ==> ClassOf(ks[0].c) == Ordinary || ClassOf(ks[0].c) == IfLast
    ensures IsBlank(ks[0]) ==> |ks| > 1 && ks[1] != Hard
  {
  }

  lemma {:induction false} FirmStep(k: Token, rest: seq<Token>)
    ensures Firm([k] + rest) == (if k == Soft then [] else [k]) + Firm(rest)
    ensures Meaning([k] + rest) == Meaning([k]) + Meaning(rest)
    ensures k == Soft ==> Firm([k] + rest) == Firm(rest) && Meaning([k] + rest) == Meaning(rest)
  {
    assert ([k] + rest)[1..] == rest;
    assert [k][1..] == [];
    MeaningConcat([k], rest);
  }

  /**
   For every string, either marker, and every line length of at least four: decoding the wrapped
   encoding, closing break included, gives the string back; the wrapped text is the encoding's own
   tokens, whole and in order, with soft line breaks between them; and no line is longer than the
   length provided the first one has between 1 and that many bytes left.
   */
  lemma {:induction false} WrappedRoundTrip(s: seq<byte>, binary: bool, left: int, length: int)
    requires length >= 4
    ensures var t := Wrapped(left, Encoded(s, Marker(binary)), length);
            && DecodeRun([], t) == ([], s)
            && DecodeRun([], Wrap(left, Encoded(s, Marker(binary)), length).0) == ([], s)
            && (1 <= left <= length ==> LinesFit(t, length - left, length))
            && exists ks :: t == Text(ks) && Proper(ks) && Firm(ks) == Firm(Tokens(s, binary))
  {
    hide DecodeRun, Wrap, LinesFit, Text, Tokens, WrapTokens, Encoded, Proper, Firm, Meaning, Marker, Wrapped;
    var ks := Tokens(s, binary);
    EncodedIsText(s, binary);
    TokensAreProper(s, binary);
    TokensMean(s, binary);
    WrapText(left, ks, length);
    WrapOnlyBreaks(left, ks, length);
    var w, n := WrapTokens(left, ks, length).0, WrapTokens(left, ks, length).1;
    DecodeTokens(w);
    CloseTokens(w, n, length);
    var c := w + (if n < length then [Soft] else []);
    DecodeTokens(c);
    WrappedIs(left, Encoded(s, Marker(binary)), length, w, n);
    if 1 <= left <= length {
      WrappedFits(left, Encoded(s, Marker(binary)), length);
    }
  }

  lemma {:induction false} WrappedIs(left: int, t: seq<byte>, length: int, w: seq<Token>, n: int)
    requires Wrap(left, t, length) == (Text(w), n)
    ensures Wrapped(left, t, length) == Text(w) + Closing(n, length)
  {
  }

  /** The closing break is one more soft line break. */
  lemma {:induction false} CloseTokens(w: seq<Token>, n: int, length: int)
    requires Proper(w)
    ensures var c := w + (if n < length then [Soft] else []);
            Text(c) == Text(w) + Closing(n, length) && Proper(c) && Firm(c) == Firm(w) && Meaning(c) == Meaning(w)
    decreases |w|
  {
    hide TokenText;
    if n < length {
      TextConcat(w, [Soft]);
      OneToken(Soft);
      SoftText();
      MeaningConcat(w, [Soft]);
      assert [Soft][1..] == [];
      assert Meaning([Soft]) == [];
      assert Meaning(w) + [] == Meaning(w);
      ProperThenSoft(w);
    } else {
      assert w + [] == w && Text(w) + [] == Text(w);
    }
  }

  lemma {:induction false} SoftText()
    ensures TokenText(Soft) == EQCRLF
  {
  }

  lemma {:induction false} ProperThenSoft(w: seq<Token>)
    requires Proper(w)
    ensures Proper(w + [Soft]) && Firm(w + [Soft]) == Firm(w)
    decreases |w|
  {
    if w == [] {
      assert [] + [Soft] == [Soft] && [Soft][1..] == [];
    } else {
      assert (w + [Soft])[1..] == w[1..] + [Soft];
      ProperThenSoft(w[1..]);
    }
  }

  /** Three bytes are too short a line: an =XX is split, and the string does not come back. */
  lemma {:induction false} LengthThreeSplits()
    ensures DecodeRun([], Wrap(3, Encoded([61], CRLF), 3).0) == ([], [61, 51, 61, 13, 10, 68])
  {
    hide DecodeRun, Wrap, Encoded;
    EqualsEncoded();
    WrapThree(3, 61, 51, 68, 3);
    var t := EQCRLF + [61, 51] + EQCRLF + [68];
    assert EQCRLF + [61] + [51] + (EQCRLF + [68]) == t;
    var a, b, c, d: seq<byte> := EQCRLF, [61, 51, 61], CRLF, [68];
    assert t == a + b + c + d;
    DecodeSoft();
    DecodeInvalid(51, 61);
    DecodeHard();
    DecodePlain(68);
    DecodeFour(a, b, c, d);
    assert [] + b + c + d == [61, 51, 61, 13, 10, 68];
  }

  /** So is anything shorter, down to lengths that are not positive. */
  lemma {:induction false} ShorterSplits(length: int)
    requires length <= 2
    ensures DecodeRun([], Wrap(length, Encoded([61], CRLF), length).0) == ([], [61, 61, 13, 51, 68])
  {
    hide DecodeRun, Wrap, Encoded;
    EqualsEncoded();
    WrapThree(length, 61, 51, 68, length);
    var t := EQCRLF + [61] + (EQCRLF + [51]) + (EQCRLF + [68]);
    var a, b, c, d: seq<byte> := EQCRLF, [61, 61, 13], [10, 51], EQCRLF + [68];
    assert t == a + b + c + d;
    DecodeSoft();
    DecodeInvalid(61, 13);
    DecodeTwo(10, 51);
    assert [] + [10] == [10] && [] + [51] == [51];
    assert DecodeStep([], 10) == ([], []) && DecodeStep([], 51) == ([], [51]);
    DecodeRunConcat([], EQCRLF, [68]);
    DecodePlain(68);
    assert [] + [68] == [68];
    DecodeFour(a, b, c, d);
    assert [] + b + [51] + [68] == [61, 61, 13, 51, 68];
  }

  lemma {:induction false} EqualsEncoded()
    ensures Encoded([61], CRLF) == [61, 51, 68]
  {
    ResolveHead([61], CRLF);
    assert [61][1..] == [];
    RestIsKept([], CRLF);
  }

  lemma {:induction false} DecodeInvalid(b: byte, c: byte)
    requires !(b == 13 && c == 10) && (HexValue(b) > 15 || HexValue(c) > 15)
    ensures DecodeRun([], [61, b, c]) == ([], [61, b, c])
  {
    hide DecodeRun;
    DecodeThree(b, c);
    assert [61, b] + [c] == [61, b, c];
  }

  lemma {:induction false} DecodeFour(a: seq<byte>, b: seq<byte>, c: seq<byte>, d: seq<byte>)
    requires DecodeRun([], a).0 == [] && DecodeRun([], b).0 == [] && DecodeRun([], c).0 == []
    ensures DecodeRun([], a + b + c + d)
            == (DecodeRun([], d).0, DecodeRun([], a).1 + DecodeRun([], b).1 + DecodeRun([], c).1 + DecodeRun([], d).1)
  {
    hide DecodeRun;
    DecodeRunConcat([], a + b + c, d);
    DecodeRunConcat([], a + b, c);
    DecodeRunConcat([], a, b);
  }

  /** Every string comes back, with either marker and from any space left. */
  ghost predicate LengthWorks(length: int)
  {
    forall s, binary, left ::
      DecodeRun([], Wrap(left, Encoded(s, Marker(binary)), length).0) == ([], s)
  }

  /** A line length works if and only if it is at least four. */
  lemma {:induction false} LengthFourExactly(length: int)
    ensures LengthWorks(length) <==> length >= 4
  {
    hide DecodeRun, Wrap, Encoded;
    if length >= 4 {
      forall s, binary, left
        ensures DecodeRun([], Wrap(left, Encoded(s, Marker(binary)), length).0) == ([], s)
      {
        WrappedRoundTrip(s, binary, left, length);
      }
    } else {
      assert Marker(false) == CRLF;
      if length == 3 { LengthThreeSplits(); } else { ShorterSplits(length); }
      assert [61] != [61, 51, 61, 13, 10, 68] && [61] != [61, 61, 13, 51, 68];
      assert DecodeRun([], Wrap(length, Encoded([61], Marker(false)), length).0) != ([], [61]);
    }
  }

  // ----- the filters -----

  /** `mime_global_qp`: the encoding so far and the bytes left over; no second part ends the stream. */
  function Filter(c: Option<seq<byte>>, d: Option<seq<byte>>, marker: seq<byte>)
    : (r: (Option<seq<byte>>, Option<seq<byte>>))
    ensures c.Some? && d.Some? ==> r.0.Some? && r.1.Some? && |r.1.value| <= 2
  {
    if c.None? then (None, None)
    else
      var (atom, o1) := EncodeRun([], c.value, marker);
      if d.None? then (NilIfEmpty(o1 + Padded(atom)), None)
      else
        var (rest, o2) := EncodeRun(atom, d.value, marker);
        (Some(o1 + o2), Some(rest))
  }

  /** `mime_global_unqp`: at the end of the stream an unfinished unit is dropped. */
  function Unfilter(c: Option<seq<byte>>, d: Option<seq<byte>>): (r: (Option<seq<byte>>, Option<seq<byte>>))
    ensures c.Some? && d.Some? ==> r.0.Some? && r.1.Some? && |r.1.value| <= 2
  {
    if c.None? then (None, None)
    else
      var (atom, o1) := DecodeRun([], c.value);
      if d.None? then (NilIfEmpty(o1), None)
      else
        var (rest, o2) := DecodeRun(atom, d.value);
        (Some(o1 + o2), Some(rest))
  }

  /** A stream put through the encoder chunk by chunk, what is left over given back each time. */
  function Streamed(rest: seq<byte>, chunks: seq<seq<byte>>, marker: seq<byte>): (t: seq<byte>)
    decreases |chunks|
  {
    if chunks == [] then OrEmpty(Filter(Some(rest), None, marker).0)
    else
      var (a, b) := Filter(Some(rest), Some(chunks[0]), marker);
      a.value + Streamed(b.value, chunks[1..], marker)
  }

  function Unstreamed(rest: seq<byte>, chunks: seq<seq<byte>>): (t: seq<byte>)
    decreases |chunks|
  {
    if chunks == [] then OrEmpty(Unfilter(Some(rest), None).0)
    else
      var (a, b) := Unfilter(Some(rest), Some(chunks[0]));
      a.value + Unstreamed(b.value, chunks[1..])
  }

  lemma {:induction false} PaddedIsNotNil(atom: seq<byte>)
    ensures OrEmpty(NilIfEmpty(Padded(atom))) == Padded(atom)
  {
  }

  /** However the stream is cut into chunks, and whatever the marker, the encoding of the whole comes out. */
  lemma {:induction false} StreamedIsEncoded(rest: seq<byte>, chunks: seq<seq<byte>>, marker: seq<byte>)
    requires AtRest(rest)
    ensures Streamed(rest, chunks, marker) == Encoded(rest + Joined(chunks), marker)
    decreases |chunks|
  {
    hide EncodeRun, Resolve, Padded, AtRest, NilIfEmpty;
    RunIsResolve([], rest, marker) by { EmptyRests(); }
    RestIsKept(rest, marker);
    assert [] + rest == rest;
    if chunks == [] {
      assert rest + Joined(chunks) == rest;
      assert [] + Padded(rest) == Padded(rest);
      PaddedIsNotNil(rest);
    } else {
      RunIsResolve(rest, chunks[0], marker);
      var (m, o) := Resolve(rest + chunks[0], marker);
      ResolveRests(rest + chunks[0], marker);
      assert [] + o == o;
      StreamedIsEncoded(m, chunks[1..], marker);
      ResolveConcat(rest + chunks[0], Joined(chunks[1..]), marker);
      assert rest + chunks[0] + Joined(chunks[1..]) == rest + Joined(chunks);
      var (r, o2) := Resolve(m + Joined(chunks[1..]), marker);
      Assoc(o, o2, Padded(r));
    }
  }

  lemma {:induction false} EmptyRests()
    ensures AtRest([])
  {
  }

  /** What the decoder holds between two bytes. */
  predicate Unfinished(a: seq<byte>)
  {
    a == [] || a == [13] || (1 <= |a| <= 2 && a[0] == 61)
  }

  lemma {:induction false} UnfinishedIsKept(a: seq<byte>)
    requires Unfinished(a)
    ensures DecodeRun([], a) == (a, [])
  {
    if |a| == 1 {
      DecodeOne([], a[0]);
      assert [] + a == a && [a[0]] == a;
    } else if |a| == 2 {
      DecodeTwo(a[0], a[1]);
      assert [] + [a[0]] == [a[0]] && [a[0]] + [a[1]] == a && a == [a[0], a[1]];
      assert DecodeStep([], a[0]) == ([a[0]], []) && DecodeStep([a[0]], a[1]) == (a, []);
      var none: seq<byte> := [];
      assert none + none == none;
    }
  }

  lemma {:induction false} RunLeavesUnfinished(atom: seq<byte>, t: seq<byte>)
    requires Unfinished(atom)
    ensures Unfinished(DecodeRun(atom, t).0)
    decreases |t|
  {
    if t != [] {
      StepLeavesUnfinished(atom, t[0]);
      RunLeavesUnfinished(DecodeStep(atom, t[0]).0, t[1..]);
    }
  }

  lemma {:induction false} StepLeavesUnfinished(atom: seq<byte>, c: byte)
    requires Unfinished(atom)
    ensures Unfinished(DecodeStep(atom, c).0)
  {
  }

  /** However the text is cut into chunks, the decoding of the whole comes out. */
  lemma {:induction false} UnstreamedIsDecoded(rest: seq<byte>, chunks: seq<seq<byte>>)
    requires Unfinished(rest)
    ensures Unstreamed(rest, chunks) == DecodeRun(rest, Joined(chunks)).1
    decreases |chunks|
  {
    hide DecodeRun, Unfinished;
    UnfinishedIsKept(rest);
    if chunks == [] {
      UnfinishedIsShort(rest);
      DecodeNothing(rest);
    } else {
      var (a, b) := Unfilter(Some(rest), Some(chunks[0]));
      RunLeavesUnfinished(rest, chunks[0]);
      UnstreamedIsDecoded(b.value, chunks[1..]);
      UnfinishedIsShort(rest);
      DecodeRunConcat(rest, chunks[0], Joined(chunks[1..]));
      assert [] + DecodeRun(rest, chunks[0]).1 == DecodeRun(rest, chunks[0]).1;
    }
  }

  lemma {:induction false} UnfinishedIsShort(a: seq<byte>)
    requires Unfinished(a)
    ensures |a| <= 2
  {
  }

  /** Encode, wrap to the end, and decode, each in chunks of its own: the stream comes back. */
  lemma {:induction false} StreamRoundTrip(chunks: seq<seq<byte>>, binary: bool, left: int, length: int,
                                           parts: seq<seq<byte>>)
    requires length >= 4
    requires Joined(parts) == Wrapped(left, Streamed([], chunks, Marker(binary)), length)
    ensures Unstreamed([], parts) == Joined(chunks)
    ensures 1 <= left <= length ==> LinesFit(Joined(parts), length - left, length)
  {
    hide DecodeRun, Encoded, Wrap, Wrapped, LinesFit, Streamed, Unstreamed, Joined, Marker, Text, Tokens, Proper, Firm;
    StreamedIsEncoded([], chunks, Marker(binary));
    assert [] + Joined(chunks) == Joined(chunks);
    WrappedRoundTrip(Joined(chunks), binary, left, length);
    UnstreamedIsDecoded([], parts);
  }

  /**
   Decoding in one call without a second part gives the string back exactly when it is not empty
   and does not begin with a zero byte; otherwise the answer is nil.
   */
  lemma {:induction false} OneCallDecodes(s: seq<byte>, binary: bool)
    ensures var r := Unfilter(Some(Encoded(s, Marker(binary))), None).0;
            && (r == Some(s) <==> s != [] && s[0] != 0)
            && (s == [] || s[0] == 0 ==> r == None)
  {
    hide DecodeRun, Encoded, Text, Tokens, Proper, Meaning, Marker;
    EncodedIsText(s, binary);
    TokensAreProper(s, binary);
    TokensMean(s, binary);
    DecodeTokens(Tokens(s, binary));
  }

  // ----- the code -----

  /** `qpencode`, on the atom in place. */
  method EncodeByte(c: byte, input: array<byte>, size: nat, marker: seq<byte>, buffer: seq<byte>)
    returns (n: nat, out: seq<byte>)
    requires input.Length == 3 && size <= 2
    modifies input
    ensures n <= 2
    ensures var r := Drain(old(input[..size]) + [c], marker); input[..n] == r.0 && out == buffer + r.1
  {
    hide Quote, Drain;
    input[size] := c;
    n, out := size + 1, buffer;
    assert input[..n] == old(input[..size]) + [c];
    ghost var all := Drain(input[..n], marker);
    assert buffer + all.1 == out + Drain(input[..n], marker).1;
    while n > 0
      invariant 0 <= n <= 3
      invariant Drain(input[..n], marker).0 == all.0 && out + Drain(input[..n], marker).1 == buffer + all.1
      decreases n
    {
      ghost var atom, was := input[..n], out;
      DrainTurn(atom, marker);
      match ClassOf(input[0]) {
        case Return =>
          if n < 2 { assert out + [] == out; return; }
          if input[1] == 10 {
            out := out + marker;
            n := 0;
            return;
          }
          out := out + Quote(input[0]);
        case IfLast =>
          if n < 3 { assert out + [] == out; return; }
          if input[1] == 13 && input[2] == 10 {
            out := out + Quote(input[0]) + marker;
            n := 0;
            return;
          }
          out := out + [input[0]];
        case Quoted =>
          out := out + Quote(input[0]);
        case Ordinary =>
          out := out + [input[0]];
      }
      input[0], input[1] := input[1], input[2];
      n := n - 1;
      assert input[..n] == atom[1..];
      Assoc(was, if ClassOf(atom[0]).Quoted? || ClassOf(atom[0]).Return? then Quote(atom[0]) else [atom[0]],
            Drain(atom[1..], marker).1);
    }
    DrainNothing(marker);
    assert out + [] == out;
  }

  lemma {:induction false} DrainNothing(marker: seq<byte>)
    ensures Drain([], marker) == ([], [])
  {
  }

  /** One turn of the loop of `qpencode`. */
  lemma {:induction false} DrainTurn(a: seq<byte>, marker: seq<byte>)
    requires 1 <= |a| <= 3
    ensures var r := Drain(a, marker);
            match ClassOf(a[0])
            case Return =>
              if |a| < 2 then r == (a, [])
              else if a[1] == 10 then r == ([], marker)
              else r == (Drain(a[1..], marker).0, Quote(a[0]) + Drain(a[1..], marker).1)
            case IfLast =>
              if |a| < 3 then r == (a, [])
              else if a[1] == 13 && a[2] == 10 then r == ([], Quote(a[0]) + marker)
              else r == (Drain(a[1..], marker).0, [a[0]] + Drain(a[1..], marker).1)
            case Quoted => r == (Drain(a[1..], marker).0, Quote(a[0]) + Drain(a[1..], marker).1)
            case Ordinary => r == (Drain(a[1..], marker).0, [a[0]] + Drain(a[1..], marker).1)
  {
    hide Quote, ClassOf;
  }

  /** `qppad`. */
  method Pad(input: array<byte>, size: nat, buffer: seq<byte>) returns (out: seq<byte>)
    requires input.Length == 3 && size <= 2
    ensures out == buffer + Padded(input[..size])
  {
    hide Quote;
    out := buffer;
    assert buffer + PadBytes([]) == buffer;
    for i := 0 to size
      invariant out == buffer + PadBytes(input[..i])
    {
      PadMore(input[..i], input[i]);
      assert input[..i + 1] == input[..i] + [input[i]];
      Assoc(buffer, PadBytes(input[..i]), PadByte(input[i]));
      out := out + (if ClassOf(input[i]) == Ordinary then [input[i]] else Quote(input[i]));
    }
    if size > 0 {
      out := out + EQCRLF;
      Assoc(buffer, PadBytes(input[..size]), EQCRLF);
    } else {
      assert Padded([]) == [];
    }
  }

  lemma {:induction false} PadMore(a: seq<byte>, c: byte)
    ensures PadBytes(a + [c]) == PadBytes(a) + PadByte(c)
    decreases |a|
  {
    if a == [] {
      assert [] + [c] == [c] && [c][1..] == [];
      assert PadByte(c) + [] == PadByte(c) && [] + PadByte(c) == PadByte(c);
    } else {
      assert (a + [c])[1..] == a[1..] + [c];
      PadMore(a[1..], c);
      Assoc(PadByte(a[0]), PadBytes(a[1..]), PadByte(c));
    }
  }

  /** `qpdecode`, on the atom in place. */
  method DecodeByte(c: byte, input: array<byte>, size: nat, buffer: seq<byte>) returns (n: nat, out: seq<byte>)
    requires input.Length == 3 && size <= 2
    modifies input
    ensures n <= 2
    ensures var r := DecodeStep(old(input[..size]), c); input[..n] == r.0 && out == buffer + r.1
  {
    hide HexValue;
    input[size] := c;
    n, out := size + 1, buffer;
    ghost var a := old(input[..size]) + [c];
    assert input[..n] == a;
    assert buffer + [] == buffer;
    if input[0] == 61 {
      if n < 3 { return; }
      if input[1] == 13 && input[2] == 10 { return 0, out; }
      var high, low := HexValue(input[1]), HexValue(input[2]);
      if high > 15 || low > 15 {
        return 0, out + input[..];
      }
      return 0, out + [high * 16 + low];
    } else if input[0] == 13 {
      if n < 2 { return; }
      if input[1] == 10 {
        assert a[..2] == input[..2];
        return 0, out + input[..2];
      }
      return 0, out;
    } else {
      if input[0] == 9 || 31 < input[0] < 127 {
        return 0, out + [input[0]];
      }
      return 0, out;
    }
  }

  /** The loop over one part of the input. */
  method EncodePart(s: seq<byte>, input: array<byte>, size: nat, marker: seq<byte>, buffer: seq<byte>)
    returns (n: nat, out: seq<byte>)
    requires input.Length == 3 && size <= 2
    modifies input
    ensures n <= 2
    ensures var r := EncodeRun(old(input[..size]), s, marker); input[..n] == r.0 && out == buffer + r.1
  {
    hide Drain, EncodeRun;
    n, out := size, buffer;
    var i := 0;
    ghost var atom := input[..size];
    EncodeNothing(atom, marker);
    while i < |s|
      invariant 0 <= i <= |s| && n <= 2
      invariant input[..n] == EncodeRun(atom, s[..i], marker).0 && out == buffer + EncodeRun(atom, s[..i], marker).1
    {
      assert s[..i + 1] == s[..i] + [s[i]];
      EncodeRunMore(atom, s[..i], s[i], marker);
      Assoc(buffer, EncodeRun(atom, s[..i], marker).1, Drain(input[..n] + [s[i]], marker).1);
      n, out := EncodeByte(s[i], input, n, marker, out);
      i := i + 1;
    }
    assert s[..i] == s;
  }

  lemma {:induction false} EncodeNothing(atom: seq<byte>, marker: seq<byte>)
    requires |atom| <= 2
    ensures EncodeRun(atom, [], marker) == (atom, [])
  {
  }

  lemma {:induction false} EncodeRunMore(atom: seq<byte>, s: seq<byte>, c: byte, marker: seq<byte>)
    requires |atom| <= 2
    ensures var (m, o1) := EncodeRun(atom, s, marker);
            var (r, o2) := Drain(m + [c], marker);
            EncodeRun(atom, s + [c], marker) == (r, o1 + o2)
    decreases |s|
  {
    hide Drain;
    if s == [] {
      assert s + [c] == [c] && [c][1..] == [];
      var o := Drain(atom + [c], marker).1;
      assert o + [] == o && [] + o == o;
    } else {
      assert (s + [c])[1..] == s[1..] + [c];
      var (a1, o) := Drain(atom + [s[0]], marker);
      EncodeRunMore(a1, s[1..], c, marker);
      Assoc(o, EncodeRun(a1, s[1..], marker).1, Drain(EncodeRun(a1, s[1..], marker).0 + [c], marker).1);
    }
  }

  method DecodePart(s: seq<byte>, input: array<byte>, size: nat, buffer: seq<byte>) returns (n: nat, out: seq<byte>)
    requires input.Length == 3 && size <= 2
    modifies input
    ensures n <= 2
    ensures var r := DecodeRun(old(input[..size]), s); input[..n] == r.0 && out == buffer + r.1
  {
    hide DecodeStep, DecodeRun;
    n, out := size, buffer;
    var i := 0;
    ghost var atom := input[..size];
    DecodeNothing(atom);
    while i < |s|
      invariant 0 <= i <= |s| && n <= 2
      invariant input[..n] == DecodeRun(atom, s[..i]).0 && out == buffer + DecodeRun(atom, s[..i]).1
    {
      assert s[..i + 1] == s[..i] + [s[i]];
      DecodeRunConcat(atom, s[..i], [s[i]]);
      DecodeOne(input[..n], s[i]);
      Assoc(buffer, DecodeRun(atom, s[..i]).1, DecodeStep(input[..n], s[i]).1);
      n, out := DecodeByte(s[i], input, n, out);
      i := i + 1;
    }
    assert s[..i] == s;
  }

  /** `mime_global_qp`. */
  method Qp(c: Option<seq<byte>>, d: Option<seq<byte>>, marker: seq<byte>)
    returns (a: Option<seq<byte>>, b: Option<seq<byte>>)
    ensures (a, b) == Filter(c, d, marker)
  {
    hide EncodeRun, Padded;
    if c.None? { return None, None; }
    var atom := new byte[3](_ => 0);
    var asize, buffer := EncodePart(c.value, atom, 0, marker, []);
    assert atom[..0] == [];
    assert [] + EncodeRun([], c.value, marker).1 == EncodeRun([], c.value, marker).1;
    if d.None? {
      buffer := Pad(atom, asize, buffer);
      return NilIfEmpty(buffer), None;
    }
    asize, buffer := EncodePart(d.value, atom, asize, marker, buffer);
    return Some(buffer), Some(atom[..asize]);
  }

  /** `mime_global_unqp`. */
  method UnQp(c: Option<seq<byte>>, d: Option<seq<byte>>) returns (a: Option<seq<byte>>, b: Option<seq<byte>>)
    ensures (a, b) == Unfilter(c, d)
  {
    hide DecodeRun;
    if c.None? { return None, None; }
    var atom := new byte[3](_ => 0);
    var asize, buffer := DecodePart(c.value, atom, 0, []);
    assert [] + DecodeRun([], c.value).1 == DecodeRun([], c.value).1;
    if d.None? {
      return NilIfEmpty(buffer), None;
    }
    asize, buffer := DecodePart(d.value, atom, asize, buffer);
    return Some(buffer), Some(atom[..asize]);
  }

  /** `mime_global_qpwrp`; without input it closes a line that is not empty. */
  method QpWrp(l: int, t: Option<seq<byte>>, length: int) returns (a: Option<seq<byte>>, n: int)
    ensures t.Some? ==> (a, n) == (Some(Wrap(l, t.value, length).0), Wrap(l, t.value, length).1)
    ensures t.None? ==> a == (if l < length then Some(EQCRLF) else None) && n == length
  {
    hide Wrap;
    if t.None? {
      return (if l < length then Some(EQCRLF) else None), length;
    }
    var s, left, buffer, i := t.value, l, [], 0;
    WrapNothing(l, length);
    while i < |s|
      invariant 0 <= i <= |s|
      invariant (buffer, left) == Wrap(l, s[..i], length)
    {
      assert s[..i + 1] == s[..i] + [s[i]];
      WrapConcat(l, s[..i], [s[i]], length);
      WrapOne(left, s[i], length);
      assert buffer + [] == buffer;
      assert buffer + EQCRLF + [s[i]] == buffer + (EQCRLF + [s[i]]);
      if s[i] == 13 {
      } else if s[i] == 10 {
        left := length;
        buffer := buffer + CRLF;
      } else {
        if left <= (if s[i] == 61 then 3 else 1) {
          left := length;
          buffer := buffer + EQCRLF;
        }
        buffer := buffer + [s[i]];
        left := left - 1;
      }
      i := i + 1;
    }
    assert s[..i] == s;
    return Some(buffer), left;
  }
}
