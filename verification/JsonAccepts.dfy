/**
 The decoder of `lae/source/lua_cjson.c` takes every text of the grammar of RFC 8259 that is within its
 depth limit, and gives the value the grammar says.
 */
module JsonAccepts {
  import opened Bytes
  import opened Json
  import opened JsonGrammar

  // ----- texts inside a text -----

  lemma StartsPrefix(d: seq<byte>, i: nat, a: seq<byte>, b: seq<byte>)
    requires i <= |d| && Starts(d, i, a + b)
    ensures Starts(d, i, a) && i + |a| <= |d| && Starts(d, i + |a|, b)
  {
    assert d[i..i + |a|] == (a + b)[..|a|];
    assert d[i + |a|..i + |a| + |b|] == (a + b)[|a|..];
  }

  lemma {:induction false} FirstByte(d: seq<byte>, i: nat, w: seq<byte>)
    requires i <= |d| && Starts(d, i, w) && |w| > 0
    ensures i < |d| && d[i] == w[0]
  {
    assert d[i] == d[i..i + |w|][0];
  }

  // ----- white space -----

  lemma {:induction false} SkipWhite(d: seq<byte>, i: nat, w: seq<byte>)
    requires i <= |d| && Starts(d, i, w) && White(w)
    ensures i + |w| <= |d| && SkipSpace(d, i) == SkipSpace(d, i + |w|)
    decreases |w|
  {
    if w != [] {
      FirstByte(d, i, w);
      assert w == [w[0]] + w[1..];
      StartsPrefix(d, i, [w[0]], w[1..]);
      SkipWhite(d, i + 1, w[1..]);
    }
  }

  /** White space before a token makes no difference. */
  lemma {:induction false} TokenAfterWhite(cfg: Config, cv: Conv, d: seq<byte>, i: nat, w: seq<byte>)
    requires i <= |d| && ScanOk(cv) && Starts(d, i, w) && White(w)
    ensures i + |w| <= |d| && NextToken(cfg, cv, d, i) == NextToken(cfg, cv, d, i + |w|)
  {
    hide White, Starts, NextToken, SkipSpace;
    SkipWhite(d, i, w);
    SameSkip(cfg, cv, d, i, i + |w|);
  }

  lemma {:induction false} SameSkip(cfg: Config, cv: Conv, d: seq<byte>, i: nat, j: nat)
    requires i <= |d| && j <= |d| && ScanOk(cv) && SkipSpace(d, i) == SkipSpace(d, j)
    ensures NextToken(cfg, cv, d, i) == NextToken(cfg, cv, d, j)
  {
    hide StringBody, BadNumber, NumberToken, Starts, SkipSpace, SingleToken;
  }

  // ----- strings -----

  lemma {:induction false} DigitIs(c: byte)
    ensures HexValue(c) == Digit(c)
  {
  }

  lemma {:induction false} FourRead(d: seq<byte>, i: nat, h: seq<byte>)
    requires i <= |d| && Starts(d, i, h) && FourDigits(h)
    ensures Hex4(d, i) == CodeUnit(h)
  {
    hide HexValue, Digit;
    assert forall j :: 0 <= j < 4 ==> d[i + j] == d[i..i + 4][j] == h[j];
    DigitIs(h[0]);
    DigitIs(h[1]);
    DigitIs(h[2]);
    DigitIs(h[3]);
  }

  lemma {:induction false} NamedIs(e: byte)
    ensures Named(e).Some? ==> Unescape(e) == Named(e).value && Unescape(e) != 117 && Unescape(e) != 0
    ensures Named(e).None? && e != 117 ==> Unescape(e) == 0
  {
  }

  /** A character of a string is read as what it stands for. */
  lemma {:induction false} CharReads(d: seq<byte>, p: nat, c: Char)
    requires p <= |d| && Starts(d, p, CharText(c)) && CharOk(c, false)
    ensures p < |d| && d[p] != 0 && d[p] != 34
    ensures StringUnit(d, p) == Some((CharSense(c), |CharText(c)|))
  {
    hide Named, Unescape, Hex4, CodeUnit, Utf8, Starts;
    FirstByte(d, p, CharText(c));
    match c
    case Raw(_) =>
    case Short(e) =>
      NamedIs(e);
      assert CharText(c) == [92] + [e];
      StartsPrefix(d, p, [92], [e]);
      FirstByte(d, p + 1, [e]);
    case Unit(h) => UnitReads(d, p, h);
    case Pair(h, l) => PairReads(d, p, h, l);
  }

  lemma {:induction false} EscapeIsUnicode(d: seq<byte>, p: nat)
    requires p + 1 < |d| && d[p] == 92 && d[p + 1] == 117
    ensures StringUnit(d, p) == UnicodeEscape(d, p)
  {
    hide UnicodeEscape;
  }

  lemma {:induction false} BackslashU(d: seq<byte>, p: nat, h: seq<byte>, more: seq<byte>)
    requires p <= |d| && Starts(d, p, [92, 117] + h + more) && FourDigits(h)
    ensures p + 6 <= |d| && d[p] == 92 && d[p + 1] == 117 && Hex4(d, p + 2) == CodeUnit(h)
    ensures Starts(d, p + 6, more)
  {
    hide Hex4, CodeUnit, Starts;
    assert [92, 117] + h + more == [92] + ([117] + (h + more));
    FirstByte(d, p, [92] + ([117] + (h + more)));
    StartsPrefix(d, p, [92], [117] + (h + more));
    FirstByte(d, p + 1, [117] + (h + more));
    StartsPrefix(d, p + 1, [117], h + more);
    StartsPrefix(d, p + 2, h, more);
    FourRead(d, p + 2, h);
  }

  lemma {:induction false} UnitReads(d: seq<byte>, p: nat, h: seq<byte>)
    requires p <= |d| && Starts(d, p, CharText(Unit(h))) && CharOk(Unit(h), false)
    ensures StringUnit(d, p) == Some((CharSense(Unit(h)), 6))
  {
    hide Hex4, CodeUnit, Utf8, Starts, StringUnit;
    assert [92, 117] + h == [92, 117] + h + [];
    BackslashU(d, p, h, []);
    EscapeIsUnicode(d, p);
  }

  lemma {:induction false} PairReads(d: seq<byte>, p: nat, h: seq<byte>, l: seq<byte>)
    requires p <= |d| && Starts(d, p, CharText(Pair(h, l))) && CharOk(Pair(h, l), false)
    ensures StringUnit(d, p) == Some((CharSense(Pair(h, l)), 12))
  {
    hide Hex4, CodeUnit, Utf8, Starts, StringUnit, UnicodeEscape;
    Regrouped([92, 117], h, [92, 117], l);
    BackslashU(d, p, h, [92, 117] + l + []);
    BackslashU(d, p + 6, l, []);
    EscapeIsUnicode(d, p);
    PairEscape(d, p, CodeUnit(h), CodeUnit(l));
  }

  lemma {:induction false} Regrouped(a: seq<byte>, b: seq<byte>, c: seq<byte>, e: seq<byte>)
    ensures a + b + c + e == a + b + (c + e + [])
  {
  }

  lemma {:induction false} PairEscape(d: seq<byte>, p: nat, high: int, low: int)
    requires p + 12 <= |d| && d[p + 6] == 92 && d[p + 7] == 117
    requires Hex4(d, p + 2) == high && Hex4(d, p + 8) == low && 0xD800 <= high < 0xDC00 && 0xDC00 <= low < 0xE000
    ensures UnicodeEscape(d, p) == Some((Utf8(0x1_0000 + (high - 0xD800) * 0x400 + (low - 0xDC00)), 12))
  {
    hide Hex4, Utf8;
  }

  lemma {:induction false} CharNotEmpty(c: Char)
    requires CharOk(c, false)
    ensures |CharText(c)| > 0
  {
  }

  lemma {:induction false} BodyReads(d: seq<byte>, p: nat, cs: seq<Char>, acc: seq<byte>)
    requires p <= |d| && Starts(d, p, CharsText(cs) + [34]) && CharsOk(cs, false)
    ensures StringBody(d, p, acc) == Some((acc + CharsSense(cs), p + |CharsText(cs)| + 1))
    decreases |cs|
  {
    hide Starts, StringUnit, CharText, CharSense, CharOk;
    if cs == [] {
      FirstByte(d, p, CharsText(cs) + [34]);
      assert acc + [] == acc;
    } else {
      var t, rest := CharText(cs[0]), CharsText(cs[1..]) + [34];
      assert CharsText(cs) + [34] == t + rest;
      StartsPrefix(d, p, t, rest);
      CharReads(d, p, cs[0]);
      CharNotEmpty(cs[0]);
      BodyReads(d, p + |t|, cs[1..], acc + CharSense(cs[0]));
      assert acc + CharSense(cs[0]) + CharsSense(cs[1..]) == acc + (CharSense(cs[0]) + CharsSense(cs[1..]));
    }
  }

  /** A string of the grammar is read as one token. */
  lemma {:induction false} StringReads(cfg: Config, cv: Conv, d: seq<byte>, i: nat, cs: seq<Char>)
    requires i <= |d| && ScanOk(cv) && Starts(d, i, Quoted(cs)) && CharsOk(cs, false)
    ensures NextToken(cfg, cv, d, i) == (StrTok(CharsSense(cs)), i + |Quoted(cs)|)
  {
    hide Starts, StringBody, CharsText, CharsSense, CharsOk, BadNumber, NumberToken;
    assert Quoted(cs) == [34] + (CharsText(cs) + [34]);
    FirstByte(d, i, Quoted(cs));
    StartsPrefix(d, i, [34], CharsText(cs) + [34]);
    BodyReads(d, i + 1, cs, []);
    assert [] + CharsSense(cs) == CharsSense(cs);
    assert SkipSpace(d, i) == i;
  }

  // ----- other tokens -----

  lemma {:induction false} SingleReturns(cfg: Config, cv: Conv, d: seq<byte>, i: nat)
    requires i < |d| && ScanOk(cv) && d[i] in [123, 125, 91, 93, 44, 58]
    ensures NextToken(cfg, cv, d, i) == (SingleToken(d[i]).value, i + 1)
  {
    assert SkipSpace(d, i) == i;
  }

  lemma {:induction false} EndReturns(cfg: Config, cv: Conv, d: seq<byte>)
    requires ScanOk(cv)
    ensures NextToken(cfg, cv, d, |d|) == (EndTok, |d|)
  {
  }

  /** A structural character with white space before it. */
  lemma {:induction false} MarkReads(cfg: Config, cv: Conv, d: seq<byte>, i: nat, w: seq<byte>, c: byte,
                                     more: seq<byte>)
    requires i <= |d| && ScanOk(cv) && White(w) && c in [123, 125, 91, 93, 44, 58] && Starts(d, i, w + [c] + more)
    ensures i + |w| + 1 <= |d| && Starts(d, i + |w| + 1, more)
    ensures NextToken(cfg, cv, d, i) == (SingleToken(c).value, i + |w| + 1)
  {
    hide Starts, NextToken, SingleToken, White;
    assert w + [c] + more == w + ([c] + more);
    StartsPrefix(d, i, w, [c] + more);
    StartsPrefix(d, i + |w|, [c], more);
    FirstByte(d, i + |w|, [c]);
    TokenAfterWhite(cfg, cv, d, i, w);
    SingleReturns(cfg, cv, d, i + |w|);
  }

  lemma {:induction false} WordReturns(cfg: Config, cv: Conv, d: seq<byte>, i: nat, w: seq<byte>)
    requires i <= |d| && ScanOk(cv) && Starts(d, i, w)
    requires w == TRUE_TEXT || w == FALSE_TEXT || w == NULL_TEXT
    ensures NextToken(cfg, cv, d, i)
            == (if w == TRUE_TEXT then BoolTok(true) else if w == FALSE_TEXT then BoolTok(false) else NullTok, i + |w|)
  {
    FirstByte(d, i, w);
    assert SkipSpace(d, i) == i;
  }

  lemma {:induction false} WordsAre()
    ensures Ascii("true") == TRUE_TEXT && Ascii("false") == FALSE_TEXT && Ascii("null") == NULL_TEXT
    ensures Ascii("nan") == NAN_TEXT
    ensures Ascii("[") == [91] && Ascii("]") == [93] && Ascii("{") == [123] && Ascii("}") == [125]
    ensures Ascii(",") == [44] && Ascii(":") == [58]
  {
  }

  // ----- numbers -----

  /** What can follow a number in a text. */
  predicate Delimits(rest: seq<byte>)
  {
    rest == [] || rest[0] in [0x20, 0x09, 0x0A, 0x0D, ',' as int, ']' as int, '}' as int]
  }

  /** Number text as JSON starts it: a digit after an optional minus, no leading zero, no hexadecimal. */
  predicate GoodStart(t: seq<byte>)
  {
    && |t| > 0
    && var p := if t[0] == 45 then 1 else 0;
       && p < |t| && 48 <= t[p] <= 57
       && (t[p] == 48 && p + 1 < |t| ==> !(48 <= t[p + 1] <= 57) && t[p + 1] != 120 && t[p + 1] != 88)
  }

  /** A text that starts so and is scanned to its end as the number, whatever delimiter follows. */
  ghost predicate ScannedAs(cv: Conv, t: seq<byte>, n: Lnum)
  {
    && GoodStart(t) && 0 !in t
    && forall rest :: Delimits(rest) ==> cv.scan(t + rest) == (n, |t|)
  }

  lemma {:induction false} GoodStartIsGood(d: seq<byte>, i: nat, t: seq<byte>)
    requires i <= |d| && Starts(d, i, t) && GoodStart(t) && Delimits(d[i + |t|..])
    ensures !BadNumber(d, i)
  {
    assert forall j :: 0 <= j < |t| ==> d[i + j] == d[i..i + |t|][j] == t[j];
    var p := if t[0] == 45 then 1 else 0;
    assert d[i] == t[0] && d[i + p] == t[p];
    if p + 1 < |t| {
      assert d[i + p + 1] == t[p + 1];
    } else if i + |t| < |d| {
      assert d[i + p + 1] == d[i + |t|..][0];
    }
  }

  /** A number comes back as one token: the number, or its text when that is over 14 bytes. */
  lemma {:induction false} NumberReads(cfg: Config, cv: Conv, d: seq<byte>, i: nat, t: seq<byte>, n: Lnum)
    requires i <= |d| && ScanOk(cv) && ScannedAs(cv, t, n) && Starts(d, i, t) && Delimits(d[i + |t|..])
    ensures NextToken(cfg, cv, d, i) == (if |t| <= 14 then NumTok(n) else StrTok(t), i + |t|)
  {
    GoodStartIsGood(d, i, t);
    FirstByte(d, i, t);
    assert d[i..] == t + d[i + |t|..];
    assert d[i..i + |t|] == t;
    hide Starts, BadNumber, Delimits;
    assert SkipSpace(d, i) == i;
  }

  /** A letter in either case. */
  predicate Letter(d: seq<byte>, i: nat, lower: byte, upper: byte)
  {
    i < |d| && (d[i] == lower || d[i] == upper)
  }

  /**
   Numbers that JSON does not have: with a plus sign, hexadecimal, with a leading zero, infinities, and
   what is not a number, each of the last four also with a minus sign.
   */
  predicate Invalid(d: seq<byte>, i: nat)
  {
    || (i < |d| && d[i] == '+' as int)
    || (var p := if i < |d| && d[i] == '-' as int then i + 1 else i;
        || (p < |d| && d[p] == '0' as int && Letter(d, p + 1, 'x' as int, 'X' as int))
        || (p + 1 < |d| && d[p] == '0' as int && '0' as int <= d[p + 1] <= '9' as int)
        || (Letter(d, p, 'i' as int, 'I' as int) && Letter(d, p + 1, 'n' as int, 'N' as int)
            && Letter(d, p + 2, 'f' as int, 'F' as int))
        || (Letter(d, p, 'n' as int, 'N' as int) && Letter(d, p + 1, 'a' as int, 'A' as int)
            && Letter(d, p + 2, 'n' as int, 'N' as int)))
  }

  lemma {:induction false} BadExactly(d: seq<byte>, i: nat)
    requires i < |d|
    ensures BadNumber(d, i) <==> Invalid(d, i)
  {
  }

  /** They are an error, or left to the scanner when the setting allows them. */
  lemma {:induction false} InvalidNumbers(cfg: Config, cv: Conv, d: seq<byte>, i: nat)
    requires i < |d| && ScanOk(cv) && Invalid(d, i)
    ensures NextToken(cfg, cv, d, i) == if cfg.decodeInvalid then NumberToken(cv, d, i) else (ErrTok, i)
  {
    hide StringBody, NumberToken, BadNumber;
    BadExactly(d, i);
    NoWord(d, i);
    assert SkipSpace(d, i) == i;
  }

  lemma {:induction false} NoWord(d: seq<byte>, i: nat)
    requires i < |d| && Invalid(d, i)
    ensures !Starts(d, i, TRUE_TEXT) && !Starts(d, i, FALSE_TEXT) && !Starts(d, i, NULL_TEXT)
    ensures d[i] in [105, 73, 110, 78, 43, 45] || d[i] == 48
  {
    hide Starts;
    if Starts(d, i, TRUE_TEXT) { FirstTwo(d, i, TRUE_TEXT); }
    if Starts(d, i, FALSE_TEXT) { FirstTwo(d, i, FALSE_TEXT); }
    if Starts(d, i, NULL_TEXT) { FirstTwo(d, i, NULL_TEXT); }
  }

  lemma {:induction false} FirstTwo(d: seq<byte>, i: nat, w: seq<byte>)
    requires i <= |d| && Starts(d, i, w) && |w| > 1
    ensures i + 1 < |d| && d[i] == w[0] && d[i + 1] == w[1]
  {
    assert d[i] == d[i..i + |w|][0] && d[i + 1] == d[i..i + |w|][1];
  }

  // ----- values -----

  /** A token that can begin a value. */
  predicate Begins(t: Token)
  {
    t.StrTok? || t.NumTok? || t.BoolTok? || t == NullTok || t == ArrBegin || t == ObjBegin
  }

  /** The value at i, read from its first token. */
  function ReadAt(cfg: Config, cv: Conv, d: seq<byte>, i: nat, depth: nat): (r: Parsed)
    requires i <= |d| && ScanOk(cv)
  {
    var (t, j) := NextToken(cfg, cv, d, i);
    if Begins(t) then ParseValue(cfg, cv, d, t, j, depth) else Bad
  }

  lemma {:induction false} ReadAtIs(cfg: Config, cv: Conv, d: seq<byte>, i: nat, depth: nat)
    requires i <= |d| && ScanOk(cv) && ReadAt(cfg, cv, d, i, depth).Value?
    ensures var (t, j) := NextToken(cfg, cv, d, i);
            Begins(t) && ParseValue(cfg, cv, d, t, j, depth) == ReadAt(cfg, cv, d, i, depth)
  {
    hide NextToken, ParseValue;
  }

  /** The rule's numbers are scanned as they should be. */
  ghost predicate RuleScans(cv: Conv, rule: NumberRule)
  {
    forall t, n :: rule(t, n) ==> ScannedAs(cv, t, n)
  }

  /** The texts and the rules this is about. */
  ghost predicate Good(d: Doc, rule: NumberRule)
  {
    DocOk(d, true, rule) && DocOk(d, false, rule)
  }

  /** Anywhere in a text, before a delimiter, a document is read as the value it stands for. */
  lemma {:induction false} DocReads(cfg: Config, cv: Conv, rule: NumberRule, d: seq<byte>, i: nat, doc: Doc, depth: nat)
    requires i <= |d| && ScanOk(cv) && RuleScans(cv, rule) && Good(doc, rule)
    requires Starts(d, i, Render(doc)) && Delimits(d[i + |Render(doc)|..])
    requires depth + Height(doc) <= cfg.decodeMaxDepth
    ensures ReadAt(cfg, cv, d, i, depth) == Value(Sense(doc, rule), i + |Render(doc)|)
    decreases doc, 1
  {
    hide Starts, Delimits, NextToken, RuleScans, ScannedAs, Quoted, ReadAt, White;
    WordsAre();
    match doc
    case Array(space, items) => ArrayReads(cfg, cv, rule, d, i, space, items, depth);
    case Object(space, members) => ObjectReads(cfg, cv, rule, d, i, space, members, depth);
    case _ => ScalarReads(cfg, cv, rule, d, i, doc, depth);
  }

  lemma {:induction false} ScalarReads(cfg: Config, cv: Conv, rule: NumberRule, d: seq<byte>, i: nat, doc: Doc,
                                       depth: nat)
    requires i <= |d| && ScanOk(cv) && RuleScans(cv, rule) && Good(doc, rule) && !doc.Array? && !doc.Object?
    requires Starts(d, i, Render(doc)) && Delimits(d[i + |Render(doc)|..])
    ensures ReadAt(cfg, cv, d, i, depth) == Value(Sense(doc, rule), i + |Render(doc)|)
  {
    hide Starts, Delimits, NextToken, ScannedAs, Quoted, Ascii, CharsSense;
    WordsAre();
    match doc
    case Null => WordReturns(cfg, cv, d, i, NULL_TEXT);
    case Truth(b) => WordReturns(cfg, cv, d, i, if b then TRUE_TEXT else FALSE_TEXT);
    case Number(t, n) =>
      assert ScannedAs(cv, t, n);
      NumberReads(cfg, cv, d, i, t, n);
    case String(cs) => StringReads(cfg, cv, d, i, cs);
  }

  lemma {:induction false} NumberedIs(vs: seq<Tree>)
    ensures Numbered(vs) == FromItems(vs)
  {
    var a, b := Numbered(vs), FromItems(vs);
    forall k | k in a ensures k in b && b[k] == a[k] { assert k == KInt(k.i); }
    forall k | k in b ensures k in a { assert k == KInt(k.i); }
  }

  /** An opening bracket, and what the first token behind it leads to. */
  lemma {:induction false} ArrayOpens(cfg: Config, cv: Conv, d: seq<byte>, i: nat, depth: nat)
    requires i < |d| && ScanOk(cv) && NextToken(cfg, cv, d, i) == (ArrBegin, i + 1) && depth + 1 <= cfg.decodeMaxDepth
    ensures var (t, j) := NextToken(cfg, cv, d, i + 1);
            && (t == ArrEnd ==> ReadAt(cfg, cv, d, i, depth) == Value(TTable(map[]), j))
            && (Begins(t) ==> ReadAt(cfg, cv, d, i, depth) == ParseItems(cfg, cv, d, t, j, [], depth + 1))
  {
    hide NextToken, ParseItems, ParseMembers;
  }

  lemma {:induction false} ObjectOpens(cfg: Config, cv: Conv, d: seq<byte>, i: nat, depth: nat)
    requires i < |d| && ScanOk(cv) && NextToken(cfg, cv, d, i) == (ObjBegin, i + 1) && depth + 1 <= cfg.decodeMaxDepth
    ensures var (t, j) := NextToken(cfg, cv, d, i + 1);
            && (t == ObjEnd ==> ReadAt(cfg, cv, d, i, depth) == Value(TTable(map[]), j))
            && (t.StrTok? ==> ReadAt(cfg, cv, d, i, depth) == ParseMembers(cfg, cv, d, t, j, map[], depth + 1))
  {
    hide NextToken, ParseItems, ParseMembers;
  }

  lemma {:induction false} ArrayIs(space: seq<byte>, items: Items, rule: NumberRule)
    requires DocOk(Array(space, items), false, rule)
    ensures White(space) && ItemsOk(items, false, rule)
    ensures Render(Array(space, items)) == [91] + (if items.NoItems? then space else RenderItems(items)) + [93]
    ensures Sense(Array(space, items), rule) == TTable(FromItems(ItemSenses(items, rule)))
    ensures Height(Array(space, items)) == 1 + ItemsHeight(items)
  {
    hide White, Ascii, Numbered, FromItems;
    WordsAre();
    NumberedIs(ItemSenses(items, rule));
  }

  lemma {:induction false} ObjectIs(space: seq<byte>, members: Members, rule: NumberRule)
    requires DocOk(Object(space, members), false, rule)
    ensures White(space) && MembersOk(members, false, rule)
    ensures Render(Object(space, members))
            == [123] + (if members.NoMembers? then space else RenderMembers(members)) + [125]
    ensures Sense(Object(space, members), rule) == TTable(MemberSenses(members, rule, map[]))
    ensures Height(Object(space, members)) == 1 + MembersHeight(members)
  {
    hide White, Ascii;
    WordsAre();
  }

  lemma {:induction false} OpensWith(cfg: Config, cv: Conv, d: seq<byte>, i: nat, c: byte, inner: seq<byte>, e: byte)
    requires i <= |d| && ScanOk(cv) && (c == 91 || c == 123) && Starts(d, i, [c] + inner + [e])
    ensures i < |d| && Starts(d, i + 1, inner + [e])
    ensures NextToken(cfg, cv, d, i) == (if c == 91 then ArrBegin else ObjBegin, i + 1)
  {
    hide Starts, NextToken;
    assert [c] + inner + [e] == [] + [c] + (inner + [e]);
    NoSpace();
    MarkReads(cfg, cv, d, i, [], c, inner + [e]);
  }

  lemma {:induction false} ArrayReads(cfg: Config, cv: Conv, rule: NumberRule, d: seq<byte>, i: nat, space: seq<byte>,
                                      items: Items, depth: nat)
    requires i <= |d| && ScanOk(cv) && RuleScans(cv, rule) && Good(Array(space, items), rule)
    requires Starts(d, i, Render(Array(space, items)))
    requires depth + Height(Array(space, items)) <= cfg.decodeMaxDepth
    ensures ReadAt(cfg, cv, d, i, depth)
            == Value(Sense(Array(space, items), rule), i + |Render(Array(space, items))|)
    decreases items, 2
  {
    hide Starts, NextToken, ParseItems, RuleScans, White, Render, RenderItems, Sense, ItemSenses, FromItems, ReadAt,
      Height, ItemsHeight;
    ArrayIs(space, items, rule);
    var inner := if items.NoItems? then space else RenderItems(items);
    OpensWith(cfg, cv, d, i, 91, inner, 93);
    ArrayOpens(cfg, cv, d, i, depth);
    if items.NoItems? {
      assert inner + [93] == space + [93] + [];
      MarkReads(cfg, cv, d, i + 1, space, 93, []);
      NothingInside(rule);
    } else {
      ItemsRead(cfg, cv, rule, d, i + 1, items, [], depth + 1);
      assert [] + ItemSenses(items, rule) == ItemSenses(items, rule);
    }
  }

  lemma {:induction false} NoSpace()
    ensures White([])
  {
  }

  lemma {:induction false} NothingInside(rule: NumberRule)
    ensures FromItems([]) == map[] && ItemSenses(NoItems, rule) == []
    ensures MemberSenses(NoMembers, rule, map[]) == map[]
  {
  }

  /** A value in its white space, a structural character, and more. */
  function Laid(before: seq<byte>, doc: seq<byte>, after: seq<byte>, c: byte, more: seq<byte>): (t: seq<byte>)
  {
    before + (doc + (after + [c] + more))
  }

  /** The first item and the text behind it, up to the closing bracket. */
  lemma {:induction false} ItemsLayout(items: Items, rule: NumberRule)
    requires items.Items? && ItemsOk(items, false, rule)
    ensures var last := items.rest.NoItems?;
            var more := if last then [] else RenderItems(items.rest) + [93];
            && RenderItems(items) + [93]
               == Laid(items.before, Render(items.doc), items.after, if last then 93 else 44, more)
            && |RenderItems(items)| + 1 == |items.before| + |Render(items.doc)| + |items.after| + 1 + |more|
    ensures ItemSenses(items, rule) == [Sense(items.doc, rule)] + ItemSenses(items.rest, rule)
    ensures items.rest.NoItems? ==> ItemSenses(items.rest, rule) == []
    ensures Height(items.doc) <= ItemsHeight(items) && ItemsHeight(items.rest) <= ItemsHeight(items)
  {
    hide Render, Sense, Ascii, Height;
    WordsAre();
    var b, r, a := items.before, Render(items.doc), items.after;
    if items.rest.NoItems? {
      assert b + r + a + [] + [93] == b + (r + (a + [93] + []));
    } else {
      var t := RenderItems(items.rest);
      assert b + r + a + ([44] + t) + [93] == b + (r + (a + [44] + (t + [93])));
    }
  }

  /** Items from the first on, read by the array loop that already has the ones before. */
  lemma {:induction false} ItemsRead(cfg: Config, cv: Conv, rule: NumberRule, d: seq<byte>, i: nat, items: Items,
                                     acc: seq<Tree>, depth: nat)
    requires i <= |d| && ScanOk(cv) && RuleScans(cv, rule) && items.Items?
    requires ItemsOk(items, true, rule) && ItemsOk(items, false, rule)
    requires Starts(d, i, RenderItems(items) + [93]) && depth + ItemsHeight(items) <= cfg.decodeMaxDepth
    ensures var (t, p) := NextToken(cfg, cv, d, i);
            && Begins(t)
            && ParseItems(cfg, cv, d, t, p, acc, depth)
               == Value(TTable(FromItems(acc + ItemSenses(items, rule))), i + |RenderItems(items)| + 1)
    decreases items, 1
  {
    hide Starts, NextToken, ParseItems, ParseValue, RuleScans, White, FromItems, Delimits, ReadAt, Sense, DocOk, Render,
      RenderItems, ItemSenses, Height, ItemsHeight, Begins;
    ItemsLayout(items, rule);
    var last := items.rest.NoItems?;
    var c: byte := if last then 93 else 44;
    var more := if last then [] else RenderItems(items.rest) + [93];
    var v := Sense(items.doc, rule);
    var q := ValueAt(cfg, cv, rule, d, i, items.before, items.doc, items.after, c, more, depth);
    var (t, j) := NextToken(cfg, cv, d, i);
    ItemTurn(cfg, cv, d, t, j, acc, depth);
    if last {
      assert acc + [v] == acc + ([v] + []);
    } else {
      ItemsRead(cfg, cv, rule, d, q + |items.after| + 1, items.rest, acc + [v], depth);
      assert acc + [v] + ItemSenses(items.rest, rule) == acc + ([v] + ItemSenses(items.rest, rule));
    }
  }

  /** A value between white space, and the structural character behind it. */
  lemma {:induction false} ValueAt(cfg: Config, cv: Conv, rule: NumberRule, d: seq<byte>, i: nat, before: seq<byte>,
                                   doc: Doc, after: seq<byte>, c: byte, more: seq<byte>, depth: nat)
    returns (q: nat)
    requires i <= |d| && ScanOk(cv) && RuleScans(cv, rule) && c in [93, 125, 44]
    requires White(before) && White(after) && Good(doc, rule)
    requires Starts(d, i, Laid(before, Render(doc), after, c, more))
    requires depth + Height(doc) <= cfg.decodeMaxDepth
    ensures q == i + |before| + |Render(doc)| && q + |after| + 1 <= |d|
    ensures Starts(d, q + |after| + 1, more)
    ensures var (t, j) := NextToken(cfg, cv, d, i);
            Begins(t) && ParseValue(cfg, cv, d, t, j, depth) == Value(Sense(doc, rule), q)
    ensures NextToken(cfg, cv, d, q) == (SingleToken(c).value, q + |after| + 1)
    decreases doc, 2
  {
    hide Starts, NextToken, ParseValue, RuleScans, White, Delimits, ReadAt, Sense, DocOk, Render, Height, Begins;
    StartsPrefix(d, i, before, Render(doc) + (after + [c] + more));
    TokenAfterWhite(cfg, cv, d, i, before);
    var p := i + |before|;
    StartsPrefix(d, p, Render(doc), after + [c] + more);
    q := p + |Render(doc)|;
    DelimiterNext(d, q, after, c, more);
    DocReads(cfg, cv, rule, d, p, doc, depth);
    ReadAtIs(cfg, cv, d, p, depth);
    MarkReads(cfg, cv, d, q, after, c, more);
  }

  lemma {:induction false} DelimiterNext(d: seq<byte>, q: nat, after: seq<byte>, c: byte, more: seq<byte>)
    requires q <= |d| && Starts(d, q, after + [c] + more) && White(after) && c in [44, 93, 125]
    ensures Delimits(d[q..])
  {
    FirstByte(d, q, after + [c] + more);
    assert d[q..][0] == d[q];
    if after != [] { assert (after + [c] + more)[0] == after[0]; } else { assert (after + [c] + more)[0] == c; }
  }

  lemma {:induction false} ObjectReads(cfg: Config, cv: Conv, rule: NumberRule, d: seq<byte>, i: nat, space: seq<byte>,
                                       members: Members, depth: nat)
    requires i <= |d| && ScanOk(cv) && RuleScans(cv, rule) && Good(Object(space, members), rule)
    requires Starts(d, i, Render(Object(space, members)))
    requires depth + Height(Object(space, members)) <= cfg.decodeMaxDepth
    ensures ReadAt(cfg, cv, d, i, depth)
            == Value(Sense(Object(space, members), rule), i + |Render(Object(space, members))|)
    decreases members, 2
  {
    hide Starts, NextToken, ParseMembers, RuleScans, White, Render, RenderMembers, Sense, MemberSenses, ReadAt, Height,
      MembersHeight;
    ObjectIs(space, members, rule);
    var inner := if members.NoMembers? then space else RenderMembers(members);
    OpensWith(cfg, cv, d, i, 123, inner, 125);
    ObjectOpens(cfg, cv, d, i, depth);
    if members.NoMembers? {
      assert inner + [125] == space + [125] + [];
      MarkReads(cfg, cv, d, i + 1, space, 125, []);
      NothingInside(rule);
    } else {
      MembersRead(cfg, cv, rule, d, i + 1, members, map[], depth + 1);
    }
  }

  /** The first member and the text behind it, up to the closing brace. */
  lemma {:induction false} MembersLayout(members: Members, rule: NumberRule, m: map<TKey, Tree>)
    requires members.Members? && MembersOk(members, false, rule)
    ensures var last := members.rest.NoMembers?;
            var more := if last then [] else RenderMembers(members.rest) + [125];
            var tail := Laid(members.value, Render(members.doc), members.after, if last then 125 else 44, more);
            && RenderMembers(members) + [125] == Laid(members.before, Render(members.key), members.colon, 58, tail)
            && |RenderMembers(members)| + 1
               == |members.before| + |Render(members.key)| + |members.colon| + 1 + |members.value|
                  + |Render(members.doc)| + |members.after| + 1 + |more|
    ensures MemberSenses(members, rule, m)
            == MemberSenses(members.rest, rule, m[KStr(KeySense(members.key, rule)) := Sense(members.doc, rule)])
    ensures forall m' :: MemberSenses(NoMembers, rule, m') == m'
    ensures Height(members.doc) <= MembersHeight(members) && MembersHeight(members.rest) <= MembersHeight(members)
  {
    hide Render, Sense, KeySense, Ascii, Height, Laid, White;
    WordsAre();
    var b, k, o, v, r, a :=
      members.before, Render(members.key), members.colon, members.value, Render(members.doc), members.after;
    if members.rest.NoMembers? {
      LaidLast(b, k, o, v, r, a);
    } else {
      LaidMore(b, k, o, v, r, a, RenderMembers(members.rest));
    }
  }

  lemma {:induction false} LaidLast(b: seq<byte>, k: seq<byte>, o: seq<byte>, v: seq<byte>, r: seq<byte>, a: seq<byte>)
    ensures b + k + o + [58] + v + r + a + [] + [125] == Laid(b, k, o, 58, Laid(v, r, a, 125, []))
  {
  }

  lemma {:induction false} LaidMore(b: seq<byte>, k: seq<byte>, o: seq<byte>, v: seq<byte>, r: seq<byte>, a: seq<byte>,
                                    t: seq<byte>)
    ensures b + k + o + [58] + v + r + a + ([44] + t) + [125] == Laid(b, k, o, 58, Laid(v, r, a, 44, t + [125]))
  {
  }

  /** Members from the first on, read by the object loop that already has the ones before. */
  lemma {:induction false} MembersRead(cfg: Config, cv: Conv, rule: NumberRule, d: seq<byte>, i: nat, members: Members,
                                       m: map<TKey, Tree>, depth: nat)
    requires i <= |d| && ScanOk(cv) && RuleScans(cv, rule) && members.Members?
    requires MembersOk(members, true, rule) && MembersOk(members, false, rule)
    requires Starts(d, i, RenderMembers(members) + [125]) && depth + MembersHeight(members) <= cfg.decodeMaxDepth
    ensures var (t, p) := NextToken(cfg, cv, d, i);
            && t.StrTok?
            && ParseMembers(cfg, cv, d, t, p, m, depth)
               == Value(TTable(MemberSenses(members, rule, m)), i + |RenderMembers(members)| + 1)
    decreases members, 1
  {
    hide Starts, NextToken, ParseMembers, ParseValue, RuleScans, White, Delimits, ReadAt, Sense, DocOk, Render,
      RenderMembers, MemberSenses, Height, MembersHeight, KeySense, Begins, Laid;
    MembersLayout(members, rule, m);
    var last := members.rest.NoMembers?;
    var c: byte := if last then 125 else 44;
    var more := if last then [] else RenderMembers(members.rest) + [125];
    var tail := Laid(members.value, Render(members.doc), members.after, c, more);
    var l, u := KeyAt(cfg, cv, rule, d, i, members.before, members.key, members.colon, tail);
    var q := ValueAt(cfg, cv, rule, d, u, members.value, members.doc, members.after, c, more, depth);
    MemberTurn(cfg, cv, d, StrTok(KeySense(members.key, rule)), l, m, depth);
    var m' := m[KStr(KeySense(members.key, rule)) := Sense(members.doc, rule)];
    if !last { MembersRead(cfg, cv, rule, d, q + |members.after| + 1, members.rest, m', depth); }
  }

  /** A key up to l, and its colon up to u. */
  lemma {:induction false} KeyAt(cfg: Config, cv: Conv, rule: NumberRule, d: seq<byte>, i: nat, before: seq<byte>,
                                 key: Doc, colon: seq<byte>, tail: seq<byte>)
    returns (l: nat, u: nat)
    requires i <= |d| && ScanOk(cv) && White(before) && White(colon)
    requires KeyOk(key, true) && KeyOk(key, false) && DocOk(key, false, rule)
    requires Starts(d, i, Laid(before, Render(key), colon, 58, tail))
    ensures l == i + |before| + |Render(key)| && u == l + |colon| + 1 <= |d| && Starts(d, u, tail)
    ensures NextToken(cfg, cv, d, i) == (StrTok(KeySense(key, rule)), l)
    ensures NextToken(cfg, cv, d, l) == (Colon, u)
  {
    hide Starts, NextToken, White, DocOk, Render, KeySense;
    StartsPrefix(d, i, before, Render(key) + (colon + [58] + tail));
    TokenAfterWhite(cfg, cv, d, i, before);
    var k := i + |before|;
    StartsPrefix(d, k, Render(key), colon + [58] + tail);
    KeyReads(cfg, cv, rule, d, k, key);
    l := k + |Render(key)|;
    MarkReads(cfg, cv, d, l, colon, 58, tail);
    u := l + |colon| + 1;
  }

  lemma {:induction false} KeyReads(cfg: Config, cv: Conv, rule: NumberRule, d: seq<byte>, i: nat, key: Doc)
    requires i <= |d| && ScanOk(cv) && KeyOk(key, true) && KeyOk(key, false) && DocOk(key, false, rule)
    requires Starts(d, i, Render(key))
    ensures NextToken(cfg, cv, d, i) == (StrTok(KeySense(key, rule)), i + |Render(key)|)
  {
    hide Starts, NextToken, Quoted, CharsSense;
    StringReads(cfg, cv, d, i, key.cs);
  }

  // ----- whole texts -----

  lemma {:induction false} NoTerminator(doc: Doc, rule: NumberRule, cv: Conv)
    requires DocOk(doc, true, rule) && RuleScans(cv, rule)
    ensures 0 !in Render(doc)
    decreases doc, 0
  {
    hide Ascii, Quoted, RuleScans, CharsOk, White, ScannedAs;
    WordsAre();
    match doc
    case Number(t, n) => NumberHasNone(cv, rule, t, n);
    case String(cs) => QuotedHasNone(cs);
    case Array(space, items) =>
      WhiteHasNone(space);
      ItemsHaveNone(items, rule, cv);
    case Object(space, members) =>
      WhiteHasNone(space);
      MembersHaveNone(members, rule, cv);
    case _ =>
  }

  lemma {:induction false} NumberHasNone(cv: Conv, rule: NumberRule, t: seq<byte>, n: Lnum)
    requires RuleScans(cv, rule) && rule(t, n)
    ensures 0 !in t
  {
    assert ScannedAs(cv, t, n);
  }

  lemma {:induction false} WhiteHasNone(w: seq<byte>)
    requires White(w)
    ensures 0 !in w
  {
  }

  lemma {:induction false} QuotedHasNone(cs: seq<Char>)
    requires CharsOk(cs, true)
    ensures 0 !in Quoted(cs)
  {
    CharsHaveNone(cs);
  }

  lemma {:induction false} CharsHaveNone(cs: seq<Char>)
    requires CharsOk(cs, true)
    ensures 0 !in CharsText(cs)
    decreases |cs|
  {
    if cs != [] {
      CharHasNone(cs[0]);
      CharsHaveNone(cs[1..]);
    }
  }

  lemma {:induction false} CharHasNone(c: Char)
    requires CharOk(c, true)
    ensures 0 !in CharText(c)
  {
    hide CodeUnit;
    assert Digit(0) == -1 && Named(0).None?;
  }

  lemma {:induction false} ItemsHaveNone(items: Items, rule: NumberRule, cv: Conv)
    requires ItemsOk(items, true, rule) && RuleScans(cv, rule)
    ensures 0 !in RenderItems(items)
    decreases items, 0
  {
    hide Ascii, White, DocOk, Render, RuleScans;
    WordsAre();
    if items.Items? {
      WhiteHasNone(items.before);
      WhiteHasNone(items.after);
      NoTerminator(items.doc, rule, cv);
      ItemsHaveNone(items.rest, rule, cv);
    }
  }

  lemma {:induction false} MembersHaveNone(members: Members, rule: NumberRule, cv: Conv)
    requires MembersOk(members, true, rule) && RuleScans(cv, rule)
    ensures 0 !in RenderMembers(members)
    decreases members, 0
  {
    hide Ascii, White, DocOk, Render, RuleScans;
    WordsAre();
    if members.Members? {
      WhiteHasNone(members.before);
      WhiteHasNone(members.colon);
      WhiteHasNone(members.value);
      WhiteHasNone(members.after);
      NoTerminator(members.key, rule, cv);
      NoTerminator(members.doc, rule, cv);
      MembersHaveNone(members.rest, rule, cv);
    }
  }

  /**
   Every text of the grammar nested within the limit is decoded, to the value the grammar says,
   wherever there is white space in it and however its characters are written.
   */
  lemma {:induction false} TextDecodes(cfg: Config, cv: Conv, rule: NumberRule, t: seq<byte>, before: seq<byte>,
                                       doc: Doc, after: seq<byte>)
    requires ScanOk(cv) && RuleScans(cv, rule) && Good(doc, rule) && Height(doc) <= cfg.decodeMaxDepth
    requires IsText(t, before, doc, after)
    ensures Decode(cfg, cv, t) == Some(Sense(doc, rule))
  {
    hide NextToken, ParseValue, Starts, Render, Sense, RuleScans, White, DocOk, Delimits, ReadAt, Begins, Height;
    var r := Render(doc);
    var p := |before|;
    var q := p + |r|;
    TextHasNone(cv, rule, t, before, doc, after);
    TextSplits(cfg, cv, t, before, r, after);
    DocReads(cfg, cv, rule, t, p, doc, 0);
    ReadAtIs(cfg, cv, t, p, 0);
  }

  lemma {:induction false} TextHasNone(cv: Conv, rule: NumberRule, t: seq<byte>, before: seq<byte>, doc: Doc,
                                       after: seq<byte>)
    requires RuleScans(cv, rule) && DocOk(doc, true, rule) && IsText(t, before, doc, after)
    ensures 0 !in t
  {
    hide Render, RuleScans, DocOk, White;
    NoTerminator(doc, rule, cv);
    WhiteHasNone(before);
    WhiteHasNone(after);
  }

  lemma {:induction false} TextSplits(cfg: Config, cv: Conv, t: seq<byte>, before: seq<byte>, r: seq<byte>,
                                      after: seq<byte>)
    requires ScanOk(cv) && t == before + r + after && White(before) && White(after)
    ensures Starts(t, |before|, r) && Delimits(t[|before| + |r|..])
    ensures NextToken(cfg, cv, t, 0) == NextToken(cfg, cv, t, |before|)
    ensures NextToken(cfg, cv, t, |before| + |r|) == (EndTok, |t|)
  {
    hide NextToken, Starts, Delimits, White;
    PartsOf(t, before, r, after);
    TokenAfterWhite(cfg, cv, t, 0, before);
    EndDelimits(t, |before| + |r|, after);
    TokenAfterWhite(cfg, cv, t, |before| + |r|, after);
    EndReturns(cfg, cv, t);
  }

  lemma {:induction false} PartsOf(t: seq<byte>, before: seq<byte>, r: seq<byte>, after: seq<byte>)
    requires t == before + r + after
    ensures Starts(t, 0, before) && Starts(t, |before|, r) && Starts(t, |before| + |r|, after)
    ensures t[|before| + |r|..] == after
  {
  }

  lemma {:induction false} EndDelimits(t: seq<byte>, q: nat, after: seq<byte>)
    requires q <= |t| && t[q..] == after && White(after)
    ensures Delimits(t[q..])
  {
  }

  // ----- RFC 8259 -----

  /** Numbers as section 6 has them, each for the number the scanner makes of it. */
  ghost function RfcRule(cv: Conv): (rule: NumberRule)
  {
    (t, n) => RfcNumber(t) && n == cv.scan(t).0
  }

  /** The scanner stops at the end of such a number, before a delimiter. */
  ghost predicate ScansNumbers(cv: Conv)
  {
    forall t, rest :: RfcNumber(t) && Delimits(rest) ==> cv.scan(t + rest) == (cv.scan(t).0, |t|)
  }

  lemma {:induction false} RfcStartsWell(t: seq<byte>)
    requires RfcNumber(t)
    ensures GoodStart(t) && 0 !in t
  {
    var s, i, f, e :| SignPart(s) && IntPart(i) && FracPart(f) && ExpPart(e) && t == s + i + f + e;
    var p := |s|;
    assert t[p] == i[0];
    if s != [] { assert t[0] == s[0]; } else { assert t[0] == i[0]; }
    if |i| > 1 {
      assert t[p + 1] == i[1];
    } else if f != [] {
      assert t[p + 1] == f[0];
    } else if e != [] {
      assert t[p + 1] == e[0];
    }
    PartsHaveNone(s, i, f, e);
  }

  lemma {:induction false} PartsHaveNone(s: seq<byte>, i: seq<byte>, f: seq<byte>, e: seq<byte>)
    requires SignPart(s) && IntPart(i) && FracPart(f) && ExpPart(e)
    ensures 0 !in s + i + f + e
  {
    if f != [] { assert f == [f[0]] + f[1..]; }
    if e != [] {
      assert e == [e[0], e[1]] + e[2..];
      assert e[1..] == [e[1]] + e[2..];
    }
  }

  lemma {:induction false} RfcRuleScans(cv: Conv)
    requires ScansNumbers(cv)
    ensures RuleScans(cv, RfcRule(cv))
  {
    forall t, n | RfcRule(cv)(t, n) ensures ScannedAs(cv, t, n) {
      RfcStartsWell(t);
    }
  }

  /** The same for the numbers of the standard. */
  lemma {:induction false} RfcTextDecodes(cfg: Config, cv: Conv, t: seq<byte>, before: seq<byte>, doc: Doc,
                                          after: seq<byte>)
    requires ScanOk(cv) && ScansNumbers(cv) && DocOk(doc, true, RfcRule(cv)) && Height(doc) <= cfg.decodeMaxDepth
    requires IsText(t, before, doc, after)
    ensures DocOk(doc, false, RfcRule(cv)) && Decode(cfg, cv, t) == Some(Sense(doc, RfcRule(cv)))
  {
    hide DocOk, Sense, RfcRule, Decode, Render;
    DocRelaxes(doc, RfcRule(cv), RfcRule(cv));
    RfcRuleScans(cv);
    TextDecodes(cfg, cv, RfcRule(cv), t, before, doc, after);
  }
}
