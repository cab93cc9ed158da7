/**
 What the encoder of `lae/source/lua_cjson.c` writes is JSON for the value it was given, so that decoding
 gives the value back.
 */
module JsonRoundTrip {
  import opened Bytes
  import opened Json
  import opened JsonGrammar
  import opened JsonAccepts

  // ----- strings -----

  /** How the encoder writes a byte, as a character of the grammar. */
  function CharOf(c: byte): (r: Char)
  {
    if c == 0x08 then Short('b' as int)
    else if c == 0x09 then Short('t' as int)
    else if c == 0x0A then Short('n' as int)
    else if c == 0x0C then Short('f' as int)
    else if c == 0x0D then Short('r' as int)
    else if c == '"' as int || c == '/' as int || c == '\\' as int then Short(c)
    else if c < 0x20 || c == 0x7F then Unit(['0' as int, '0' as int, HexDigit(c / 16), HexDigit(c % 16)])
    else Raw(c)
  }

  function CharsOf(s: seq<byte>): (cs: seq<Char>)
    ensures |cs| == |s|
  {
    if s == [] then [] else [CharOf(s[0])] + CharsOf(s[1..])
  }

  lemma {:induction false} HexDigitsBack(c: byte)
    ensures Digit(HexDigit(c / 16)) == c / 16 && Digit(HexDigit(c % 16)) == c % 16 && Digit('0' as int) == 0
  {
  }

  /** The encoder's escape for a byte is JSON for that byte. */
  lemma {:induction false} EscapeIsChar(c: byte)
    ensures CharOk(CharOf(c), true) && CharOk(CharOf(c), false)
    ensures CharText(CharOf(c)) == Escape(c) && CharSense(CharOf(c)) == [c]
  {
    hide HexDigit, Digit;
    HexDigitsBack(c);
    var h := ['0' as int, '0' as int, HexDigit(c / 16), HexDigit(c % 16)];
    if CharOf(c).Unit? {
      assert FourDigits(h) && CodeUnit(h) == c / 16 * 16 + c % 16 == c;
      assert [92, 117] + h == [92, 117, 48, 48, HexDigit(c / 16), HexDigit(c % 16)];
    }
  }

  lemma {:induction false} EscapesAreChars(s: seq<byte>)
    ensures CharsOk(CharsOf(s), true) && CharsOk(CharsOf(s), false)
    ensures CharsText(CharsOf(s)) == EscapeAll(s) && CharsSense(CharsOf(s)) == s
    decreases |s|
  {
    hide CharOk, CharText, CharSense, CharOf, Escape;
    if s != [] {
      EscapeIsChar(s[0]);
      EscapesAreChars(s[1..]);
      assert CharsOf(s)[1..] == CharsOf(s[1..]);
      assert [s[0]] + s[1..] == s;
    }
  }

  lemma {:induction false} QuoteIsString(s: seq<byte>)
    ensures CharsOk(CharsOf(s), true) && CharsOk(CharsOf(s), false)
    ensures Quoted(CharsOf(s)) == QuoteText(s) && CharsSense(CharsOf(s)) == s
  {
    hide CharsOk, CharsText, CharsSense, CharsOf, EscapeAll;
    EscapesAreChars(s);
  }

  /** A quoted string, whatever its bytes, is read back as one string token. */
  lemma {:induction false} QuoteReturns(cfg: Config, cv: Conv, d: seq<byte>, i: nat, s: seq<byte>)
    requires i <= |d| && ScanOk(cv) && Starts(d, i, QuoteText(s))
    ensures NextToken(cfg, cv, d, i) == (StrTok(s), i + |QuoteText(s)|)
  {
    hide Starts, NextToken, Quoted, QuoteText, CharsOk, CharsSense, CharsOf;
    QuoteIsString(s);
    StringReads(cfg, cv, d, i, CharsOf(s));
  }

  /** Text that may stand between quotes as it is. */
  predicate Plainly(t: seq<byte>)
  {
    forall i :: 0 <= i < |t| ==> t[i] >= 0x20 && t[i] != 0x22 && t[i] != 0x5C
  }

  function RawChars(t: seq<byte>): (cs: seq<Char>)
    ensures |cs| == |t|
  {
    if t == [] then [] else [Raw(t[0])] + RawChars(t[1..])
  }

  lemma {:induction false} PlainIsString(t: seq<byte>)
    requires Plainly(t)
    ensures CharsOk(RawChars(t), true) && CharsOk(RawChars(t), false)
    ensures CharsText(RawChars(t)) == t && CharsSense(RawChars(t)) == t
    decreases |t|
  {
    if t != [] {
      PlainIsString(t[1..]);
      assert RawChars(t)[1..] == RawChars(t[1..]);
      assert [t[0]] + t[1..] == t;
    }
  }

  // ----- the document an encoding is -----

  /** The string that a key becomes. */
  function KeyName(cfg: Config, cv: Conv, k: Key): (s: seq<byte>)
  {
    match k
    case StrKey(s) => s
    case NumKey(n) => (match NumberText(cfg, cv, n) case Text(t) => t case Failed => [])
    case OtherKey => []
  }

  ghost function KeyDoc(cfg: Config, cv: Conv, k: Key): (d: Doc)
  {
    String(if k.StrKey? then CharsOf(k.s) else RawChars(KeyName(cfg, cv, k)))
  }

  /** What a number is written as: its text, or null in its place. */
  ghost function NumberDoc(cfg: Config, cv: Conv, n: Lnum): (d: Doc)
  {
    if !n.Finite? && cfg.encodeInvalid >= 2 then Null
    else Number(if n.NotANumber? then Ascii("nan") else cv.fmt(n), n)
  }

  ghost function DocOf(cfg: Config, cv: Conv, h: Heap, v: Val, depth: nat): (d: Doc)
    requires depth <= cfg.encodeMaxDepth
    decreases cfg.encodeMaxDepth - depth, 0, 0
  {
    match v
    case Bool(b) => Truth(b)
    case Num(n) => NumberDoc(cfg, cv, n)
    case Str(s) => String(CharsOf(s))
    case Table(ref) =>
      if depth + 1 > cfg.encodeMaxDepth then Null
      else
        var es := Entries(h, ref);
        (match ShapeOf(cfg, es)
         case TooSparse => Null
         case ArrayOf(n) => Array([], ItemDocs(cfg, cv, h, es, 1, n, depth + 1))
         case ObjectShape => Object([], MemberDocs(cfg, cv, h, es, 0, depth + 1)))
    case _ => Null
  }

  ghost function ItemDocs(cfg: Config, cv: Conv, h: Heap, es: seq<(Key, Val)>, i: nat, n: nat, depth: nat): (r: Items)
    requires depth <= cfg.encodeMaxDepth
    ensures r.NoItems? <==> i > n
    decreases cfg.encodeMaxDepth - depth, 1, if i <= n then n + 1 - i else 0
  {
    if i > n then NoItems
    else Items([], DocOf(cfg, cv, h, RawGet(es, i), depth), [], ItemDocs(cfg, cv, h, es, i + 1, n, depth))
  }

  ghost function MemberDocs(cfg: Config, cv: Conv, h: Heap, es: seq<(Key, Val)>, j: nat, depth: nat): (r: Members)
    requires depth <= cfg.encodeMaxDepth && j <= |es|
    ensures r.NoMembers? <==> j == |es|
    decreases cfg.encodeMaxDepth - depth, 1, |es| - j
  {
    if j == |es| then NoMembers
    else Members([], KeyDoc(cfg, cv, es[j].0), [], [], DocOf(cfg, cv, h, es[j].1, depth), [],
                 MemberDocs(cfg, cv, h, es, j + 1, depth))
  }

  /** Every number's text may stand between quotes. */
  ghost predicate PlainTexts(cfg: Config, cv: Conv)
  {
    forall n :: NumberText(cfg, cv, n).Text? ==> Plainly(NumberText(cfg, cv, n).t)
  }

  lemma {:induction false} NumberIsDoc(cfg: Config, cv: Conv, n: Lnum)
    ensures var e := NumberText(cfg, cv, n); e.Text? ==> Render(NumberDoc(cfg, cv, n)) == e.t
  {
    hide Ascii;
    WordsAre();
  }

  lemma {:induction false} KeyIsDoc(cfg: Config, cv: Conv, k: Key)
    requires k.NumKey? && NumberText(cfg, cv, k.n).Text? ==> Plainly(NumberText(cfg, cv, k.n).t)
    ensures var e := KeyText(cfg, cv, k);
            e.Text? ==> e.t == Render(KeyDoc(cfg, cv, k)) + [58]
    ensures var cs := KeyDoc(cfg, cv, k).cs;
            KeyText(cfg, cv, k).Text? ==>
              CharsOk(cs, true) && CharsOk(cs, false) && CharsSense(cs) == KeyName(cfg, cv, k)
  {
    hide NumberText, CharsOk, CharsSense, CharsOf, RawChars, CharsText, QuoteText, Plainly;
    match k
    case StrKey(s) => QuoteIsString(s);
    case NumKey(n) =>
      if NumberText(cfg, cv, n).Text? {
        var t := NumberText(cfg, cv, n).t;
        PlainIsString(t);
        assert [34] + t + [34, 58] == [34] + t + [34] + [58];
      }
    case OtherKey =>
  }

  lemma {:induction false} KeyIsPlain(cfg: Config, cv: Conv, k: Key)
    requires PlainTexts(cfg, cv)
    ensures k.NumKey? && NumberText(cfg, cv, k.n).Text? ==> Plainly(NumberText(cfg, cv, k.n).t)
  {
    hide NumberText, Plainly;
  }

  /** Every text the encoder produces is the text of that document. */
  lemma {:induction false} EncodingIsDoc(cfg: Config, cv: Conv, h: Heap, v: Val, depth: nat)
    requires depth <= cfg.encodeMaxDepth && PlainTexts(cfg, cv)
    ensures var e := Encode(cfg, cv, h, v, depth); e.Text? ==> Render(DocOf(cfg, cv, h, v, depth)) == e.t
    decreases cfg.encodeMaxDepth - depth, 0, 0
  {
    hide PlainTexts, NumberText, NumberDoc, QuoteText, Quoted, CharsOf, Ascii, EncodeItems, EncodeEntries, ItemDocs,
      MemberDocs, ShapeOf, RenderItems, RenderMembers;
    WordsAre();
    match v
    case Num(n) => NumberIsDoc(cfg, cv, n);
    case Str(s) => QuoteIsString(s);
    case Table(ref) =>
      if depth + 1 <= cfg.encodeMaxDepth {
        var es := Entries(h, ref);
        match ShapeOf(cfg, es)
        case TooSparse =>
        case ArrayOf(n) =>
          ItemsAreDocs(cfg, cv, h, es, 1, n, depth + 1);
          NoDocs();
        case ObjectShape =>
          MembersAreDocs(cfg, cv, h, es, 0, depth + 1);
          NoDocs();
      }
    case _ =>
  }

  lemma {:induction false} NoDocs()
    ensures RenderMembers(NoMembers) == [] && RenderItems(NoItems) == []
  {
  }

  lemma {:induction false} ItemsAreDocs(cfg: Config, cv: Conv, h: Heap, es: seq<(Key, Val)>, i: nat, n: nat, depth: nat)
    requires depth <= cfg.encodeMaxDepth && PlainTexts(cfg, cv) && i >= 1
    ensures var e, r := EncodeItems(cfg, cv, h, es, i, n, depth), ItemDocs(cfg, cv, h, es, i, n, depth);
            e.Text? ==> e.t == if i == 1 || r.NoItems? then RenderItems(r) else [44] + RenderItems(r)
    decreases cfg.encodeMaxDepth - depth, 1, if i <= n then n + 1 - i else 0
  {
    hide PlainTexts, Encode, DocOf, Render, RawGet, Ascii;
    WordsAre();
    if i <= n && EncodeItems(cfg, cv, h, es, i, n, depth).Text? {
      EncodingIsDoc(cfg, cv, h, RawGet(es, i), depth);
      ItemsAreDocs(cfg, cv, h, es, i + 1, n, depth);
      EmptyItem(Render(DocOf(cfg, cv, h, RawGet(es, i), depth)), EncodeItems(cfg, cv, h, es, i + 1, n, depth).t);
    }
  }

  lemma {:induction false} EmptyItem(item: seq<byte>, rest: seq<byte>)
    ensures [] + item + [] + rest == [] + item + rest
    ensures [44] + ([] + item + [] + rest) == [44] + item + rest
  {
  }

  lemma {:induction false} MembersAreDocs(cfg: Config, cv: Conv, h: Heap, es: seq<(Key, Val)>, j: nat, depth: nat)
    requires depth <= cfg.encodeMaxDepth && PlainTexts(cfg, cv) && j <= |es|
    ensures var e, r := EncodeEntries(cfg, cv, h, es, j, depth), MemberDocs(cfg, cv, h, es, j, depth);
            e.Text? ==> e.t == if j == 0 || r.NoMembers? then RenderMembers(r) else [44] + RenderMembers(r)
    decreases cfg.encodeMaxDepth - depth, 1, |es| - j
  {
    hide PlainTexts, Encode, DocOf, Render, KeyText, KeyDoc, Ascii;
    WordsAre();
    if j < |es| && EncodeEntries(cfg, cv, h, es, j, depth).Text? {
      EncodingIsDoc(cfg, cv, h, es[j].1, depth);
      MembersAreDocs(cfg, cv, h, es, j + 1, depth);
      KeyIsPlain(cfg, cv, es[j].0);
      KeyIsDoc(cfg, cv, es[j].0);
      var key, item := Render(KeyDoc(cfg, cv, es[j].0)), Render(DocOf(cfg, cv, h, es[j].1, depth));
      var rest := EncodeEntries(cfg, cv, h, es, j + 1, depth).t;
      EmptySpaces(key, item, rest);
    }
  }

  lemma {:induction false} EmptySpaces(key: seq<byte>, item: seq<byte>, rest: seq<byte>)
    ensures [] + key + [] + [58] + [] + item + [] + rest == [] + (key + [58]) + item + rest
    ensures [44] + ([] + key + [] + [58] + [] + item + [] + rest) == [44] + (key + [58]) + item + rest
  {
  }

  // ----- every encoding is JSON -----

  /** Numbers that are finite are printed as the standard has them. */
  ghost predicate PrintsNumbers(cv: Conv)
  {
    forall n: Lnum :: n.Finite? ==> RfcNumber(cv.fmt(n))
  }

  ghost function PrintRule(cv: Conv): (rule: NumberRule)
  {
    (t: seq<byte>, n: Lnum) => n.Finite? && t == cv.fmt(n)
  }

  lemma {:induction false} PlainJoin(a: seq<byte>, b: seq<byte>)
    requires Plainly(a) && Plainly(b)
    ensures Plainly(a + b)
  {
  }

  lemma {:induction false} DigitsArePlain(t: seq<byte>)
    requires Digits(t)
    ensures Plainly(t)
  {
  }

  lemma {:induction false} FracIsPlain(f: seq<byte>)
    requires FracPart(f)
    ensures Plainly(f)
  {
    if f != [] {
      DigitsArePlain(f[1..]);
      assert f == [f[0]] + f[1..];
      PlainJoin([f[0]], f[1..]);
    }
  }

  lemma {:induction false} ExpIsPlain(e: seq<byte>)
    requires ExpPart(e)
    ensures Plainly(e)
  {
    if e != [] {
      var k := if e[1] == '+' as int || e[1] == '-' as int then 2 else 1;
      DigitsArePlain(e[k..]);
      assert e == e[..k] + e[k..];
      PlainJoin(e[..k], e[k..]);
    }
  }

  lemma {:induction false} RfcIsPlain(t: seq<byte>)
    requires RfcNumber(t)
    ensures Plainly(t)
  {
    hide FracPart, ExpPart, Digits, Plainly;
    var s, i, f, e :| SignPart(s) && IntPart(i) && FracPart(f) && ExpPart(e) && t == s + i + f + e;
    SignIsPlain(s);
    DigitsArePlain(i);
    FracIsPlain(f);
    ExpIsPlain(e);
    PlainJoin(s, i);
    PlainJoin(s + i, f);
    PlainJoin(s + i + f, e);
  }

  lemma {:induction false} SignIsPlain(s: seq<byte>)
    requires SignPart(s)
    ensures Plainly(s)
  {
  }

  lemma {:induction false} TextsArePlain(cfg: Config, cv: Conv)
    requires PrintsNumbers(cv) && cfg.encodeInvalid != 1
    ensures PlainTexts(cfg, cv)
  {
    forall n | NumberText(cfg, cv, n).Text? ensures Plainly(NumberText(cfg, cv, n).t) {
      if n.Finite? { RfcIsPlain(cv.fmt(n)); }
    }
  }

  /**
   Unless invalid numbers are to be written as they are, every text the encoder produces is a JSON text:
   a document of the standard, its numbers printed by the library.
   */
  lemma {:induction false} EncodingIsJson(cfg: Config, cv: Conv, h: Heap, v: Val)
    requires PrintsNumbers(cv) && cfg.encodeInvalid != 1
    ensures var e, d := Encode(cfg, cv, h, v, 0), DocOf(cfg, cv, h, v, 0);
            e.Text? ==> IsText(e.t, [], d, []) && DocOk(d, true, PrintRule(cv))
    ensures forall t, n :: PrintRule(cv)(t, n) ==> RfcNumber(t)
  {
    hide Encode, DocOf, DocOk, Render, RfcNumber;
    TextsArePlain(cfg, cv);
    EncodingIsDoc(cfg, cv, h, v, 0);
    EncodedDocOk(cfg, cv, h, v, 0);
    NoSpace();
    var r := Render(DocOf(cfg, cv, h, v, 0));
    assert [] + r + [] == r;
  }

  lemma {:induction false} EncodedDocOk(cfg: Config, cv: Conv, h: Heap, v: Val, depth: nat)
    requires depth <= cfg.encodeMaxDepth && PlainTexts(cfg, cv) && cfg.encodeInvalid != 1
    ensures Encode(cfg, cv, h, v, depth).Text? ==> DocOk(DocOf(cfg, cv, h, v, depth), true, PrintRule(cv))
    decreases cfg.encodeMaxDepth - depth, 0, 0
  {
    hide PlainTexts, QuoteText, CharsOk, CharsOf, EncodeItems, EncodeEntries, ItemDocs, MemberDocs, ShapeOf;
    match v
    case Str(s) => QuoteIsString(s);
    case Table(ref) =>
      NoSpace();
      if depth + 1 <= cfg.encodeMaxDepth {
        var es := Entries(h, ref);
        match ShapeOf(cfg, es)
        case TooSparse =>
        case ArrayOf(n) => EncodedItemsOk(cfg, cv, h, es, 1, n, depth + 1);
        case ObjectShape => EncodedMembersOk(cfg, cv, h, es, 0, depth + 1);
      }
    case _ =>
  }

  lemma {:induction false} EncodedItemsOk(cfg: Config, cv: Conv, h: Heap, es: seq<(Key, Val)>, i: nat, n: nat,
                                          depth: nat)
    requires depth <= cfg.encodeMaxDepth && PlainTexts(cfg, cv) && cfg.encodeInvalid != 1
    ensures EncodeItems(cfg, cv, h, es, i, n, depth).Text? ==>
              ItemsOk(ItemDocs(cfg, cv, h, es, i, n, depth), true, PrintRule(cv))
    decreases cfg.encodeMaxDepth - depth, 1, if i <= n then n + 1 - i else 0
  {
    hide PlainTexts, Encode, DocOf, DocOk, RawGet, PrintRule;
    NoSpace();
    if i <= n {
      EncodedDocOk(cfg, cv, h, RawGet(es, i), depth);
      EncodedItemsOk(cfg, cv, h, es, i + 1, n, depth);
    }
  }

  lemma {:induction false} EncodedMembersOk(cfg: Config, cv: Conv, h: Heap, es: seq<(Key, Val)>, j: nat, depth: nat)
    requires depth <= cfg.encodeMaxDepth && PlainTexts(cfg, cv) && cfg.encodeInvalid != 1 && j <= |es|
    ensures EncodeEntries(cfg, cv, h, es, j, depth).Text? ==>
              MembersOk(MemberDocs(cfg, cv, h, es, j, depth), true, PrintRule(cv))
    decreases cfg.encodeMaxDepth - depth, 1, |es| - j
  {
    hide PlainTexts, Encode, DocOf, KeyText, PrintRule, CharsOk, CharsSense, KeyName, CharsOf, RawChars, Quoted;
    NoSpace();
    if j < |es| {
      EncodedDocOk(cfg, cv, h, es[j].1, depth);
      EncodedMembersOk(cfg, cv, h, es, j + 1, depth);
      KeyIsPlain(cfg, cv, es[j].0);
      KeyIsDoc(cfg, cv, es[j].0);
    }
  }

  /** A text whose first byte is an n is null, if it is a document at all. */
  lemma {:induction false} OnlyNull(cv: Conv, doc: Doc)
    requires DocOk(doc, true, RfcRule(cv))
    ensures doc == Null || (Render(doc) != [] && Render(doc)[0] != 'n' as int)
  {
    hide CharsText, RenderItems, RenderMembers, GoodStart, RfcNumber, Ascii;
    WordsAre();
    if doc.Number? {
      RfcStartsWell(doc.t);
      StartsWithDigit(doc.t);
    }
  }

  lemma {:induction false} StartsWithDigit(t: seq<byte>)
    requires GoodStart(t)
    ensures t != [] && t[0] != 'n' as int
  {
  }

  /** With invalid numbers written as they are, one that is not a number is written as what is not JSON. */
  lemma {:induction false} NanIsNotJson(cfg: Config, cv: Conv, h: Heap, before: seq<byte>, doc: Doc, after: seq<byte>)
    requires cfg.encodeInvalid == 1
    ensures Encode(cfg, cv, h, Num(NotANumber), 0) == Text(Ascii("nan"))
    ensures !(IsText(Ascii("nan"), before, doc, after) && DocOk(doc, true, RfcRule(cv)))
  {
    hide DocOk, RfcRule, Render, White, Ascii;
    WordsAre();
    if IsText(Ascii("nan"), before, doc, after) && DocOk(doc, true, RfcRule(cv)) {
      OnlyNull(cv, doc);
      NullText();
      FirstOf(before, Render(doc), after);
    }
  }

  lemma {:induction false} FirstOf(before: seq<byte>, r: seq<byte>, after: seq<byte>)
    requires White(before) && before + r + after == NAN_TEXT && r != []
    ensures r[0] == 110 && |r| <= 3
  {
    WhiteIsNoLetter(before, r + after);
    assert before + r + after == before + (r + after);
    assert r[0] == (r + after)[0];
  }

  lemma {:induction false} WhiteIsNoLetter(w: seq<byte>, t: seq<byte>)
    requires White(w) && w + t == NAN_TEXT
    ensures w == [] && t == NAN_TEXT
  {
    FirstIsWhite(w, t, w + t);
    assert w == [] ==> w + t == t;
  }

  lemma {:induction false} FirstIsWhite(w: seq<byte>, t: seq<byte>, u: seq<byte>)
    requires White(w) && u == w + t
    ensures w != [] ==> u[0] < 0x21
  {
  }

  lemma {:induction false} NullText()
    ensures |Render(Null)| == 4
  {
  }

  // ----- which values are encoded -----

  predicate NumberEncodes(cfg: Config, n: Lnum)
  {
    n.Finite? || cfg.encodeInvalid != 0
  }

  predicate KeyEncodes(cfg: Config, k: Key)
  {
    k.StrKey? || (k.NumKey? && NumberEncodes(cfg, k.n))
  }

  /**
   A value the encoder takes: no function, thread or userdata in it, no key but strings and numbers, no
   number that may not be written, no array with too many holes, and not nested beyond the limit.
   */
  ghost predicate Encodable(cfg: Config, h: Heap, v: Val, depth: nat)
    requires depth <= cfg.encodeMaxDepth
    decreases cfg.encodeMaxDepth - depth
  {
    match v
    case Num(n) => NumberEncodes(cfg, n)
    case Table(ref) =>
      && depth + 1 <= cfg.encodeMaxDepth
      && var es := Entries(h, ref);
         (match ShapeOf(cfg, es)
          case ArrayOf(n) => forall i: nat :: 1 <= i <= n ==> Encodable(cfg, h, RawGet(es, i), depth + 1)
          case ObjectShape =>
            forall j :: 0 <= j < |es| ==> KeyEncodes(cfg, es[j].0) && Encodable(cfg, h, es[j].1, depth + 1)
          case TooSparse => false)
    case Unsupported => false
    case _ => true
  }

  ghost predicate ItemsEncodable(cfg: Config, h: Heap, es: seq<(Key, Val)>, i: nat, n: nat, depth: nat)
    requires depth <= cfg.encodeMaxDepth
  {
    forall k: nat :: i <= k <= n ==> Encodable(cfg, h, RawGet(es, k), depth)
  }

  /** Encoding succeeds exactly for such values. */
  lemma {:induction false} EncodesExactly(cfg: Config, cv: Conv, h: Heap, v: Val, depth: nat)
    requires depth <= cfg.encodeMaxDepth
    ensures Encode(cfg, cv, h, v, depth).Text? <==> Encodable(cfg, h, v, depth)
    decreases cfg.encodeMaxDepth - depth, 0, 0
  {
    hide EncodeItems, EncodeEntries, ShapeOf, RawGet, KeyEncodes;
    if v.Table? && depth + 1 <= cfg.encodeMaxDepth {
      var es := Entries(h, v.ref);
      match ShapeOf(cfg, es)
      case TooSparse =>
      case ArrayOf(n) => ItemsExactly(cfg, cv, h, es, 1, n, depth + 1);
      case ObjectShape => EntriesExactly(cfg, cv, h, es, 0, depth + 1);
    }
  }

  lemma {:induction false} ItemsExactly(cfg: Config, cv: Conv, h: Heap, es: seq<(Key, Val)>, i: nat, n: nat, depth: nat)
    requires depth <= cfg.encodeMaxDepth
    ensures EncodeItems(cfg, cv, h, es, i, n, depth).Text? <==> ItemsEncodable(cfg, h, es, i, n, depth)
    decreases cfg.encodeMaxDepth - depth, 1, if i <= n then n + 1 - i else 0
  {
    hide Encode, Encodable, RawGet;
    if i <= n {
      EncodesExactly(cfg, cv, h, RawGet(es, i), depth);
      ItemsExactly(cfg, cv, h, es, i + 1, n, depth);
    }
  }

  lemma {:induction false} EntriesExactly(cfg: Config, cv: Conv, h: Heap, es: seq<(Key, Val)>, j: nat, depth: nat)
    requires depth <= cfg.encodeMaxDepth && j <= |es|
    ensures EncodeEntries(cfg, cv, h, es, j, depth).Text? <==>
            forall k :: j <= k < |es| ==> KeyEncodes(cfg, es[k].0) && Encodable(cfg, h, es[k].1, depth)
    decreases cfg.encodeMaxDepth - depth, 1, |es| - j
  {
    hide Encode, Encodable, KeyText, KeyEncodes;
    if j < |es| {
      EncodesExactly(cfg, cv, h, es[j].1, depth);
      EntriesExactly(cfg, cv, h, es, j + 1, depth);
      KeyExactly(cfg, cv, es[j].0);
    }
  }

  lemma {:induction false} KeyExactly(cfg: Config, cv: Conv, k: Key)
    ensures KeyText(cfg, cv, k).Text? <==> KeyEncodes(cfg, k)
  {
    hide QuoteText;
  }

  // ----- the values that come back -----

  /** A number whose text scans back to it, whatever delimiter follows. */
  ghost predicate ScansBack(cv: Conv, n: Lnum)
  {
    n.Finite? && ScannedAs(cv, cv.fmt(n), n)
  }

  /** Such a number, with text short enough to be read as a number. */
  ghost predicate NumberReturns(cv: Conv, n: Lnum)
  {
    ScansBack(cv, n) && |cv.fmt(n)| <= 14
  }

  /** A string, or a number whose text may stand between quotes. */
  predicate KeyReturns(cfg: Config, cv: Conv, k: Key)
  {
    k.StrKey? || (k.NumKey? && k.n.Finite? && Plainly(cv.fmt(k.n)))
  }

  /** Keys that come back, no two as the same string. */
  ghost predicate Keyed(cfg: Config, cv: Conv, es: seq<(Key, Val)>)
  {
    && (forall j :: 0 <= j < |es| ==> KeyReturns(cfg, cv, es[j].0))
    && (forall j, k :: 0 <= j < k < |es| ==> KeyName(cfg, cv, es[j].0) != KeyName(cfg, cv, es[k].0))
  }

  /**
   The values a round trip is promised for: nil and null, booleans, byte strings, numbers that scan
   back, arrays whether or not they have holes, and tables with string and number keys, nested within
   both limits.
   */
  ghost predicate Returnable(cfg: Config, cv: Conv, h: Heap, v: Val, depth: nat)
    requires depth <= cfg.encodeMaxDepth
    decreases cfg.encodeMaxDepth - depth
  {
    match v
    case Num(n) => NumberReturns(cv, n)
    case Table(ref) =>
      && depth + 1 <= cfg.encodeMaxDepth && depth + 1 <= cfg.decodeMaxDepth
      && var es := Entries(h, ref);
         (match ShapeOf(cfg, es)
          case ArrayOf(n) => forall i :: 1 <= i <= n ==> Returnable(cfg, cv, h, RawGet(es, i), depth + 1)
          case ObjectShape =>
            Keyed(cfg, cv, es) && forall j :: 0 <= j < |es| ==> Returnable(cfg, cv, h, es[j].1, depth + 1)
          case TooSparse => false)
    case Unsupported => false
    case _ => true
  }

  /** What such a value is as a tree; the order of a table's entries leaves no trace in it. */
  ghost function Meaning(cfg: Config, cv: Conv, h: Heap, v: Val, depth: nat): (t: Tree)
    requires depth <= cfg.encodeMaxDepth
    decreases cfg.encodeMaxDepth - depth, 0, 0
  {
    match v
    case Bool(b) => TBool(b)
    case Str(s) => TStr(s)
    case Num(n) => TNum(n)
    case Table(ref) =>
      if depth + 1 > cfg.encodeMaxDepth then TNull
      else
        var es := Entries(h, ref);
        (match ShapeOf(cfg, es)
         case ArrayOf(n) => TTable(FromItems(ItemTrees(cfg, cv, h, es, n, depth + 1)))
         case ObjectShape => TTable(MemberTrees(cfg, cv, h, es, |es|, depth + 1))
         case TooSparse => TNull)
    case _ => TNull
  }

  ghost function ItemTrees(cfg: Config, cv: Conv, h: Heap, es: seq<(Key, Val)>, n: nat, depth: nat): (ts: seq<Tree>)
    requires depth <= cfg.encodeMaxDepth
    ensures |ts| == n
    decreases cfg.encodeMaxDepth - depth, 1, n
  {
    if n == 0 then [] else ItemTrees(cfg, cv, h, es, n - 1, depth) + [Meaning(cfg, cv, h, RawGet(es, n), depth)]
  }

  ghost function MemberTrees(cfg: Config, cv: Conv, h: Heap, es: seq<(Key, Val)>, n: nat,
                             depth: nat): (m: map<TKey, Tree>)
    requires depth <= cfg.encodeMaxDepth && n <= |es|
    decreases cfg.encodeMaxDepth - depth, 1, n
  {
    if n == 0 then map[]
    else MemberTrees(cfg, cv, h, es, n - 1, depth)[KStr(KeyName(cfg, cv, es[n - 1].0))
                                                   := Meaning(cfg, cv, h, es[n - 1].1, depth)]
  }

  /** A table's tree holds exactly its entries, under the strings of their keys. */
  lemma {:induction false} MembersAreEntries(cfg: Config, cv: Conv, h: Heap, es: seq<(Key, Val)>, n: nat, depth: nat)
    requires depth <= cfg.encodeMaxDepth && n <= |es| && Keyed(cfg, cv, es)
    ensures var m := MemberTrees(cfg, cv, h, es, n, depth);
            && (forall j :: 0 <= j < n ==>
                  var k := KStr(KeyName(cfg, cv, es[j].0)); k in m && m[k] == Meaning(cfg, cv, h, es[j].1, depth))
            && (forall k :: k in m ==> exists j :: 0 <= j < n && k == KStr(KeyName(cfg, cv, es[j].0)))
  {
    hide Meaning, KeyName, KeyReturns;
    if n > 0 {
      MembersAreEntries(cfg, cv, h, es, n - 1, depth);
      var m0, m := MemberTrees(cfg, cv, h, es, n - 1, depth), MemberTrees(cfg, cv, h, es, n, depth);
      forall j | 0 <= j < n
        ensures var k := KStr(KeyName(cfg, cv, es[j].0)); k in m && m[k] == Meaning(cfg, cv, h, es[j].1, depth)
      {
        if j < n - 1 { assert KeyName(cfg, cv, es[j].0) != KeyName(cfg, cv, es[n - 1].0); }
      }
      forall k | k in m ensures exists j :: 0 <= j < n && k == KStr(KeyName(cfg, cv, es[j].0)) {
        if k in m0 {
          var j :| 0 <= j < n - 1 && k == KStr(KeyName(cfg, cv, es[j].0));
        } else {
          assert k == KStr(KeyName(cfg, cv, es[n - 1].0));
        }
      }
    }
  }

  lemma {:induction false} ItemTreesStep(cfg: Config, cv: Conv, h: Heap, es: seq<(Key, Val)>, n: nat, depth: nat)
    requires depth <= cfg.encodeMaxDepth && n > 0
    ensures ItemTrees(cfg, cv, h, es, n, depth)
            == ItemTrees(cfg, cv, h, es, n - 1, depth) + [Meaning(cfg, cv, h, RawGet(es, n), depth)]
  {
    hide Meaning;
  }

  /** Every such value is encoded without an error. */
  lemma {:induction false} ReturnableEncodes(cfg: Config, cv: Conv, h: Heap, v: Val, depth: nat)
    requires depth <= cfg.encodeMaxDepth && Returnable(cfg, cv, h, v, depth)
    ensures Encode(cfg, cv, h, v, depth).Text?
    decreases cfg.encodeMaxDepth - depth, 0, 0
  {
    hide EncodeItems, EncodeEntries, ShapeOf, Keyed, ScannedAs;
    if v.Table? {
      var es := Entries(h, v.ref);
      match ShapeOf(cfg, es)
      case ArrayOf(n) => ItemsEncode(cfg, cv, h, es, 1, n, depth + 1);
      case ObjectShape => EntriesEncode(cfg, cv, h, es, 0, depth + 1);
    }
  }

  lemma {:induction false} ItemsEncode(cfg: Config, cv: Conv, h: Heap, es: seq<(Key, Val)>, k: nat, n: nat, depth: nat)
    requires depth <= cfg.encodeMaxDepth && 1 <= k <= n + 1
    requires forall i :: k <= i <= n ==> Returnable(cfg, cv, h, RawGet(es, i), depth)
    ensures EncodeItems(cfg, cv, h, es, k, n, depth).Text?
    decreases cfg.encodeMaxDepth - depth, 1, n + 1 - k
  {
    hide Encode, Returnable, RawGet;
    if k <= n {
      ReturnableEncodes(cfg, cv, h, RawGet(es, k), depth);
      ItemsEncode(cfg, cv, h, es, k + 1, n, depth);
    }
  }

  lemma {:induction false} EntriesEncode(cfg: Config, cv: Conv, h: Heap, es: seq<(Key, Val)>, j: nat, depth: nat)
    requires depth <= cfg.encodeMaxDepth && j <= |es| && Keyed(cfg, cv, es)
    requires forall i :: j <= i < |es| ==> Returnable(cfg, cv, h, es[i].1, depth)
    ensures EncodeEntries(cfg, cv, h, es, j, depth).Text?
    decreases cfg.encodeMaxDepth - depth, 1, |es| - j
  {
    hide Encode, Returnable, KeyName;
    if j < |es| {
      assert KeyReturns(cfg, cv, es[j].0);
      ReturnableEncodes(cfg, cv, h, es[j].1, depth);
      EntriesEncode(cfg, cv, h, es, j + 1, depth);
    }
  }

  // ----- the round trip -----

  /** Numbers that scan back. */
  ghost function ScanRule(cv: Conv): (rule: NumberRule)
  {
    (t, n) => ScannedAs(cv, t, n)
  }

  lemma {:induction false} ScanRuleScans(cv: Conv)
    ensures RuleScans(cv, ScanRule(cv))
  {
    hide ScannedAs;
  }

  /** The document of an encoded value: its text, its value, and its depth. */
  ghost predicate Stands(cfg: Config, cv: Conv, doc: Doc, e: Encoded, v: Tree, depth: nat)
  {
    && e.Text? && Render(doc) == e.t && Good(doc, ScanRule(cv)) && Sense(doc, ScanRule(cv)) == v
    && (Height(doc) == 0 || depth + Height(doc) <= cfg.decodeMaxDepth)
  }

  ghost predicate ValueOk(cfg: Config, cv: Conv, h: Heap, v: Val, depth: nat)
    requires depth <= cfg.encodeMaxDepth
  {
    Stands(cfg, cv, DocOf(cfg, cv, h, v, depth), Encode(cfg, cv, h, v, depth), Meaning(cfg, cv, h, v, depth), depth)
  }

  lemma {:induction false} ScalarStands(cfg: Config, cv: Conv, h: Heap, v: Val, depth: nat)
    requires depth <= cfg.encodeMaxDepth && Returnable(cfg, cv, h, v, depth) && !v.Table?
    ensures ValueOk(cfg, cv, h, v, depth)
  {
    hide ScannedAs, CharsOk, CharsSense, CharsOf, QuoteText, Quoted, Ascii;
    WordsAre();
    match v
    case Str(s) => QuoteIsString(s);
    case _ =>
  }

  /** Such a value's encoding is a document for it. */
  lemma {:induction false} ValueStands(cfg: Config, cv: Conv, h: Heap, v: Val, depth: nat)
    requires depth <= cfg.encodeMaxDepth && Returnable(cfg, cv, h, v, depth)
    ensures ValueOk(cfg, cv, h, v, depth)
    decreases cfg.encodeMaxDepth - depth, 0, 1
  {
    hide ValueOk, Returnable;
    if v.Table? {
      TableUnfolds(cfg, cv, h, v.ref, depth);
      match ShapeOf(cfg, Entries(h, v.ref))
      case ArrayOf(n) => ArrayStands(cfg, cv, h, v.ref, n, depth);
      case ObjectShape => ObjectStands(cfg, cv, h, v.ref, depth);
    } else {
      ScalarStands(cfg, cv, h, v, depth);
    }
  }

  /** What a table is promised, encoded to and means, by its shape. */
  lemma {:induction false} TableUnfolds(cfg: Config, cv: Conv, h: Heap, ref: nat, depth: nat)
    requires depth <= cfg.encodeMaxDepth
    ensures var es := Entries(h, ref);
            Returnable(cfg, cv, h, Table(ref), depth) <==>
              && depth + 1 <= cfg.encodeMaxDepth && depth + 1 <= cfg.decodeMaxDepth
              && ShapeOf(cfg, es) != TooSparse && ChildrenReturn(cfg, cv, h, es, depth + 1)
    ensures depth + 1 <= cfg.encodeMaxDepth ==>
              var es := Entries(h, ref);
              Meaning(cfg, cv, h, Table(ref), depth)
              == match ShapeOf(cfg, es)
                 case ArrayOf(n) => TTable(FromItems(ItemTrees(cfg, cv, h, es, n, depth + 1)))
                 case ObjectShape => TTable(MemberTrees(cfg, cv, h, es, |es|, depth + 1))
                 case TooSparse => TNull
  {
    hide ShapeOf, Keyed, ItemTrees, MemberTrees, FromItems, RawGet;
  }

  /** The children of a table, whichever shape it has. */
  ghost predicate ChildrenReturn(cfg: Config, cv: Conv, h: Heap, es: seq<(Key, Val)>, depth: nat)
    requires depth <= cfg.encodeMaxDepth
  {
    match ShapeOf(cfg, es)
    case ArrayOf(n) => forall i :: 1 <= i <= n ==> Returnable(cfg, cv, h, RawGet(es, i), depth)
    case ObjectShape =>
      Keyed(cfg, cv, es) && forall j :: 0 <= j < |es| ==> Returnable(cfg, cv, h, es[j].1, depth)
    case TooSparse => false
  }

  lemma {:induction false} ArrayStands(cfg: Config, cv: Conv, h: Heap, ref: nat, n: nat, depth: nat)
    requires depth + 1 <= cfg.encodeMaxDepth && depth + 1 <= cfg.decodeMaxDepth
    requires var es := Entries(h, ref); ShapeOf(cfg, es) == ArrayOf(n) && ChildrenReturn(cfg, cv, h, es, depth + 1)
    ensures ValueOk(cfg, cv, h, Table(ref), depth)
    decreases cfg.encodeMaxDepth - depth, 0, 0
  {
    hide ShapeOf, EncodeItems, EncodeEntries, ItemDocs, MemberDocs, ItemTrees, MemberTrees, FromItems, RawGet, Sense,
      Render, RenderItems, ItemSenses, White, ScanRule, Returnable;
    var es, rule := Entries(h, ref), ScanRule(cv);
    ItemsStand(cfg, cv, h, es, 1, n, depth + 1);
    NoItemTrees(cfg, cv, h, es, depth + 1);
    var items := ItemDocs(cfg, cv, h, es, 1, n, depth + 1);
    NoSpace();
    NoDocs();
    ArrayIs([], items, rule);
    assert [] + ItemSenses(items, rule) == ItemSenses(items, rule);
    EncodesArray(cfg, cv, h, ref, n, depth);
  }

  lemma {:induction false} EncodesArray(cfg: Config, cv: Conv, h: Heap, ref: nat, n: nat, depth: nat)
    requires depth + 1 <= cfg.encodeMaxDepth && ShapeOf(cfg, Entries(h, ref)) == ArrayOf(n)
    requires EncodeItems(cfg, cv, h, Entries(h, ref), 1, n, depth + 1).Text?
    ensures Encode(cfg, cv, h, Table(ref), depth)
            == Text([91] + EncodeItems(cfg, cv, h, Entries(h, ref), 1, n, depth + 1).t + [93])
  {
    hide ShapeOf, EncodeItems, EncodeEntries;
  }

  lemma {:induction false} EncodesObject(cfg: Config, cv: Conv, h: Heap, ref: nat, depth: nat)
    requires depth + 1 <= cfg.encodeMaxDepth && ShapeOf(cfg, Entries(h, ref)) == ObjectShape
    requires EncodeEntries(cfg, cv, h, Entries(h, ref), 0, depth + 1).Text?
    ensures Encode(cfg, cv, h, Table(ref), depth)
            == Text([123] + EncodeEntries(cfg, cv, h, Entries(h, ref), 0, depth + 1).t + [125])
  {
    hide ShapeOf, EncodeItems, EncodeEntries;
  }

  lemma {:induction false} NoItemTrees(cfg: Config, cv: Conv, h: Heap, es: seq<(Key, Val)>, depth: nat)
    requires depth <= cfg.encodeMaxDepth
    ensures ItemTrees(cfg, cv, h, es, 0, depth) == []
  {
  }

  /** Items, and the text they are behind the first or behind others. */
  ghost predicate ItemsGood(cfg: Config, cv: Conv, r: Items, e: Encoded, first: bool, depth: nat)
  {
    && e.Text? && e.t == (if first || r.NoItems? then RenderItems(r) else [44] + RenderItems(r))
    && ItemsOk(r, true, ScanRule(cv)) && ItemsOk(r, false, ScanRule(cv))
    && depth + ItemsHeight(r) <= cfg.decodeMaxDepth
  }

  lemma {:induction false} ItemStep(cfg: Config, cv: Conv, doc: Doc, e: Encoded, v: Tree, rest: Items, e': Encoded,
                                    first: bool, depth: nat, ts: seq<Tree>)
    requires depth <= cfg.decodeMaxDepth && Stands(cfg, cv, doc, e, v, depth)
    requires ItemsGood(cfg, cv, rest, e', false, depth)
    ensures var r := Items([], doc, [], rest);
            && ItemsGood(cfg, cv, r, Joined(Joined(Comma(first), e), e'), first, depth)
            && ts + ItemSenses(r, ScanRule(cv)) == ts + [v] + ItemSenses(rest, ScanRule(cv))
  {
    hide DocOk, Sense, Render, Height, ScanRule, White, ItemSenses, ItemsOk, RenderItems, ItemsHeight;
    ItemIs(cv, doc, rest);
    EmptyItem(Render(doc), e'.t);
    TreesAssoc(ts, v, ItemSenses(rest, ScanRule(cv)));
  }

  lemma {:induction false} TreesAssoc(ts: seq<Tree>, v: Tree, vs: seq<Tree>)
    ensures ts + ([v] + vs) == ts + [v] + vs
  {
  }

  lemma {:induction false} ItemIs(cv: Conv, doc: Doc, rest: Items)
    requires Good(doc, ScanRule(cv)) && ItemsOk(rest, true, ScanRule(cv)) && ItemsOk(rest, false, ScanRule(cv))
    ensures var r := Items([], doc, [], rest);
            && ItemsOk(r, true, ScanRule(cv)) && ItemsOk(r, false, ScanRule(cv))
            && RenderItems(r) == [] + Render(doc) + [] + (if rest.NoItems? then [] else [44] + RenderItems(rest))
            && RenderItems(NoItems) == [] && ItemsHeight(r) == Higher(Height(doc), ItemsHeight(rest))
            && ItemSenses(r, ScanRule(cv)) == [Sense(doc, ScanRule(cv))] + ItemSenses(rest, ScanRule(cv))
  {
    hide DocOk, Sense, Render, ScanRule, Ascii, Height;
    WordsAre();
    NoSpace();
  }

  /** The items from i on. */
  lemma {:induction false} ItemsStand(cfg: Config, cv: Conv, h: Heap, es: seq<(Key, Val)>, i: nat, n: nat, depth: nat)
    requires 1 <= i <= n + 1 && depth <= cfg.encodeMaxDepth && depth <= cfg.decodeMaxDepth
    requires forall k :: 1 <= k <= n ==> Returnable(cfg, cv, h, RawGet(es, k), depth)
    ensures var e, r := EncodeItems(cfg, cv, h, es, i, n, depth), ItemDocs(cfg, cv, h, es, i, n, depth);
            && ItemsGood(cfg, cv, r, e, i == 1, depth)
            && ItemTrees(cfg, cv, h, es, i - 1, depth) + ItemSenses(r, ScanRule(cv))
               == ItemTrees(cfg, cv, h, es, n, depth)
    decreases cfg.encodeMaxDepth - depth, 1, n + 1 - i
  {
    hide Encode, DocOf, Meaning, Returnable, RawGet, ItemTrees, ScanRule, Stands, Comma, Joined, ItemDocs, EncodeItems,
      ItemsGood, ItemSenses;
    ItemsUnfold(cfg, cv, h, es, i, n, depth);
    var ts := ItemTrees(cfg, cv, h, es, i - 1, depth);
    if i <= n {
      var x := RawGet(es, i);
      ValueStands(cfg, cv, h, x, depth);
      ItemsStand(cfg, cv, h, es, i + 1, n, depth);
      ItemTreesStep(cfg, cv, h, es, i, depth);
      var rest, e' := ItemDocs(cfg, cv, h, es, i + 1, n, depth), EncodeItems(cfg, cv, h, es, i + 1, n, depth);
      var v := Meaning(cfg, cv, h, x, depth);
      ItemStep(cfg, cv, DocOf(cfg, cv, h, x, depth), Encode(cfg, cv, h, x, depth), v, rest, e', i == 1, depth, ts);
    } else {
      NoItemsGood(cfg, cv, i == 1, depth);
      assert ts + [] == ts;
    }
  }

  lemma {:induction false} ItemsUnfold(cfg: Config, cv: Conv, h: Heap, es: seq<(Key, Val)>, i: nat, n: nat, depth: nat)
    requires depth <= cfg.encodeMaxDepth
    ensures var e, r := EncodeItems(cfg, cv, h, es, i, n, depth), ItemDocs(cfg, cv, h, es, i, n, depth);
            if i > n then e == Text([]) && r == NoItems
            else
              && e == Joined(Joined(Comma(i == 1), Encode(cfg, cv, h, RawGet(es, i), depth)),
                             EncodeItems(cfg, cv, h, es, i + 1, n, depth))
              && r == Items([], DocOf(cfg, cv, h, RawGet(es, i), depth), [], ItemDocs(cfg, cv, h, es, i + 1, n, depth))
  {
    hide Encode, DocOf, RawGet, Comma, Joined;
  }

  lemma {:induction false} NoItemsGood(cfg: Config, cv: Conv, first: bool, depth: nat)
    requires depth <= cfg.decodeMaxDepth
    ensures ItemsGood(cfg, cv, NoItems, Text([]), first, depth) && ItemSenses(NoItems, ScanRule(cv)) == []
  {
  }

  lemma {:induction false} ObjectStands(cfg: Config, cv: Conv, h: Heap, ref: nat, depth: nat)
    requires depth + 1 <= cfg.encodeMaxDepth && depth + 1 <= cfg.decodeMaxDepth
    requires var es := Entries(h, ref); ShapeOf(cfg, es) == ObjectShape && ChildrenReturn(cfg, cv, h, es, depth + 1)
    ensures ValueOk(cfg, cv, h, Table(ref), depth)
    decreases cfg.encodeMaxDepth - depth, 0, 0
  {
    hide ShapeOf, EncodeItems, EncodeEntries, ItemDocs, MemberDocs, ItemTrees, MemberTrees, FromItems, RawGet, Sense,
      Render, RenderMembers, MemberSenses, White, ScanRule, Returnable, Keyed;
    var es, rule := Entries(h, ref), ScanRule(cv);
    NoMemberTrees(cfg, cv, h, es, depth + 1);
    MembersStand(cfg, cv, h, es, 0, depth + 1);
    var members := MemberDocs(cfg, cv, h, es, 0, depth + 1);
    NoSpace();
    NoDocs();
    ObjectIs([], members, rule);
    EncodesObject(cfg, cv, h, ref, depth);
  }

  lemma {:induction false} NoMemberTrees(cfg: Config, cv: Conv, h: Heap, es: seq<(Key, Val)>, depth: nat)
    requires depth <= cfg.encodeMaxDepth
    ensures MemberTrees(cfg, cv, h, es, 0, depth) == map[]
  {
  }

  lemma {:induction false} MemberTreesStep(cfg: Config, cv: Conv, h: Heap, es: seq<(Key, Val)>, j: nat, depth: nat)
    requires depth <= cfg.encodeMaxDepth && j < |es|
    ensures MemberTrees(cfg, cv, h, es, j + 1, depth)
            == MemberTrees(cfg, cv, h, es, j, depth)[KStr(KeyName(cfg, cv, es[j].0))
                                                     := Meaning(cfg, cv, h, es[j].1, depth)]
  {
    hide Meaning, KeyName;
  }

  ghost predicate MembersGood(cfg: Config, cv: Conv, r: Members, e: Encoded, first: bool, depth: nat)
  {
    && e.Text? && e.t == (if first || r.NoMembers? then RenderMembers(r) else [44] + RenderMembers(r))
    && MembersOk(r, true, ScanRule(cv)) && MembersOk(r, false, ScanRule(cv))
    && depth + MembersHeight(r) <= cfg.decodeMaxDepth
  }

  lemma {:induction false} MemberStep(cfg: Config, cv: Conv, k: Key, doc: Doc, e: Encoded, v: Tree, rest: Members,
                                      e': Encoded, first: bool, depth: nat, m: map<TKey, Tree>)
    requires depth <= cfg.decodeMaxDepth && KeyReturns(cfg, cv, k) && Stands(cfg, cv, doc, e, v, depth)
    requires MembersGood(cfg, cv, rest, e', false, depth)
    ensures var r := Members([], KeyDoc(cfg, cv, k), [], [], doc, [], rest);
            && MembersGood(cfg, cv, r, Joined(Joined(Joined(Comma(first), KeyText(cfg, cv, k)), e), e'), first, depth)
            && MemberSenses(r, ScanRule(cv), m)
               == MemberSenses(rest, ScanRule(cv), m[KStr(KeyName(cfg, cv, k)) := v])
  {
    hide DocOk, Sense, Render, Height, ScanRule, Ascii, KeyText, KeyName, KeySense, KeyDoc;
    WordsAre();
    NoSpace();
    KeyStands(cfg, cv, k);
    EmptySpaces(Render(KeyDoc(cfg, cv, k)), Render(doc), e'.t);
  }

  /** The members from j on. */
  lemma {:induction false} MembersStand(cfg: Config, cv: Conv, h: Heap, es: seq<(Key, Val)>, j: nat, depth: nat)
    requires j <= |es| && depth <= cfg.encodeMaxDepth && depth <= cfg.decodeMaxDepth && Keyed(cfg, cv, es)
    requires forall k :: 0 <= k < |es| ==> Returnable(cfg, cv, h, es[k].1, depth)
    ensures var e, r := EncodeEntries(cfg, cv, h, es, j, depth), MemberDocs(cfg, cv, h, es, j, depth);
            && MembersGood(cfg, cv, r, e, j == 0, depth)
            && MemberSenses(r, ScanRule(cv), MemberTrees(cfg, cv, h, es, j, depth))
               == MemberTrees(cfg, cv, h, es, |es|, depth)
    decreases cfg.encodeMaxDepth - depth, 1, |es| - j
  {
    hide Encode, DocOf, Meaning, Returnable, MemberTrees, ScanRule, Stands, Comma, Joined, KeyText, KeyName, KeyDoc,
      KeyReturns, MemberDocs, EncodeEntries, MembersGood, MemberSenses;
    MembersUnfold(cfg, cv, h, es, j, depth);
    var m := MemberTrees(cfg, cv, h, es, j, depth);
    if j < |es| {
      var k, x := es[j].0, es[j].1;
      ValueStands(cfg, cv, h, x, depth);
      MembersStand(cfg, cv, h, es, j + 1, depth);
      MemberTreesStep(cfg, cv, h, es, j, depth);
      assert KeyReturns(cfg, cv, k);
      var rest, e' := MemberDocs(cfg, cv, h, es, j + 1, depth), EncodeEntries(cfg, cv, h, es, j + 1, depth);
      MemberStep(cfg, cv, k, DocOf(cfg, cv, h, x, depth), Encode(cfg, cv, h, x, depth), Meaning(cfg, cv, h, x, depth),
                 rest, e', j == 0, depth, m);
    } else {
      NoMembersGood(cfg, cv, j == 0, depth, m);
    }
  }

  lemma {:induction false} MembersUnfold(cfg: Config, cv: Conv, h: Heap, es: seq<(Key, Val)>, j: nat, depth: nat)
    requires depth <= cfg.encodeMaxDepth && j <= |es|
    ensures var e, r := EncodeEntries(cfg, cv, h, es, j, depth), MemberDocs(cfg, cv, h, es, j, depth);
            if j == |es| then e == Text([]) && r == NoMembers
            else
              && e == Joined(Joined(Joined(Comma(j == 0), KeyText(cfg, cv, es[j].0)),
                                    Encode(cfg, cv, h, es[j].1, depth)), EncodeEntries(cfg, cv, h, es, j + 1, depth))
              && r == Members([], KeyDoc(cfg, cv, es[j].0), [], [], DocOf(cfg, cv, h, es[j].1, depth), [],
                              MemberDocs(cfg, cv, h, es, j + 1, depth))
  {
    hide Encode, DocOf, KeyText, KeyDoc, Comma, Joined;
  }

  lemma {:induction false} NoMembersGood(cfg: Config, cv: Conv, first: bool, depth: nat, m: map<TKey, Tree>)
    requires depth <= cfg.decodeMaxDepth
    ensures MembersGood(cfg, cv, NoMembers, Text([]), first, depth) && MemberSenses(NoMembers, ScanRule(cv), m) == m
  {
  }

  lemma {:induction false} KeyStands(cfg: Config, cv: Conv, k: Key)
    requires KeyReturns(cfg, cv, k)
    ensures var e, d := KeyText(cfg, cv, k), KeyDoc(cfg, cv, k);
            && e.Text? && e.t == Render(d) + [58] && KeyOk(d, true) && KeyOk(d, false)
            && DocOk(d, true, ScanRule(cv)) && DocOk(d, false, ScanRule(cv))
            && KeySense(d, ScanRule(cv)) == KeyName(cfg, cv, k)
  {
    hide CharsOk, CharsSense, CharsOf, RawChars, QuoteText, Plainly, Quoted;
    KeyIsDoc(cfg, cv, k);
  }

  /**
   The round trip: encoding succeeds, and decoding the text gives exactly the value that was
   encoded, whatever order its tables' entries come in.
   */
  lemma {:induction false} RoundTrip(cfg: Config, cv: Conv, h: Heap, v: Val)
    requires ScanOk(cv) && Returnable(cfg, cv, h, v, 0)
    ensures var e := Encode(cfg, cv, h, v, 0);
            e.Text? && Decode(cfg, cv, e.t) == Some(Meaning(cfg, cv, h, v, 0))
  {
    hide Decode, Returnable, Meaning, Encode, DocOf, Render, Sense, DocOk, ScanRule, Height;
    ValueStands(cfg, cv, h, v, 0);
    ScanRuleScans(cv);
    NoSpace();
    var doc := DocOf(cfg, cv, h, v, 0);
    assert [] + Render(doc) + [] == Render(doc);
    TextDecodes(cfg, cv, ScanRule(cv), Render(doc), [], doc, []);
  }

  /**
   The same with white space put in: whatever document differs from the encoding in white space only
   decodes to the same value.
   */
  lemma {:induction false} SpacedRoundTrip(cfg: Config, cv: Conv, h: Heap, v: Val, t: seq<byte>, before: seq<byte>,
                                           doc: Doc, after: seq<byte>)
    requires ScanOk(cv) && Returnable(cfg, cv, h, v, 0)
    requires Respaced(DocOf(cfg, cv, h, v, 0), doc) && IsText(t, before, doc, after)
    ensures Decode(cfg, cv, t) == Some(Meaning(cfg, cv, h, v, 0))
  {
    hide Decode, Returnable, Meaning, Encode, DocOf, Render, Sense, DocOk, ScanRule, Height, White, Respaced;
    ValueStands(cfg, cv, h, v, 0);
    ScanRuleScans(cv);
    RespacedSame(DocOf(cfg, cv, h, v, 0), doc, ScanRule(cv));
    TextDecodes(cfg, cv, ScanRule(cv), t, before, doc, after);
  }

  /**
   A number alone comes back as that number exactly when its text is at most 14 bytes long; a
   longer one comes back as the string of its digits.
   */
  lemma {:induction false} NumberReturnsExactly(cfg: Config, cv: Conv, h: Heap, n: Lnum)
    requires ScanOk(cv) && ScansBack(cv, n)
    ensures var e := Encode(cfg, cv, h, Num(n), 0);
            && e.Text?
            && (Decode(cfg, cv, e.t) == Some(TNum(n)) <==> |cv.fmt(n)| <= 14)
            && (|cv.fmt(n)| > 14 ==> Decode(cfg, cv, e.t) == Some(TStr(cv.fmt(n))))
  {
    hide ScannedAs, Decode;
    var doc, t := Number(cv.fmt(n), n), cv.fmt(n);
    ScanRuleScans(cv);
    NoSpace();
    assert [] + t + [] == t;
    TextDecodes(cfg, cv, ScanRule(cv), t, [], doc, []);
  }
}
