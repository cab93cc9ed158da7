/**
 What the decoder of `lae/source/lua_cjson.c` takes is a text of the grammar, with the value it gives,
 but for what it allows beyond the standard: control characters in strings, numbers as the library
 scans them, a long number for a key, and anything behind a terminator.
 */
module JsonSound {
  import opened Bytes
  import opened Json
  import opened JsonGrammar
  import opened JsonAccepts

  /** Number text is what the scanner took, somewhere, for that number. */
  ghost predicate ReadAs(cv: Conv, t: seq<byte>, n: Lnum)
  {
    |t| > 0 && exists rest :: cv.scan(t + rest) == (n, |t|)
  }

  ghost function ReadRule(cv: Conv): (rule: NumberRule)
  {
    (t, n) => ReadAs(cv, t, n)
  }

  lemma {:induction false} Slices(d: seq<byte>, a: nat, b: nat, c: nat)
    requires a <= b <= c <= |d|
    ensures d[a..b] + d[b..c] == d[a..c]
  {
  }

  // ----- tokens -----

  lemma {:induction false} SkippedIsWhite(d: seq<byte>, i: nat)
    requires i <= |d|
    ensures White(d[i..SkipSpace(d, i)])
    decreases |d| - i
  {
    if IsSpace(Ch(d, i)) {
      SkippedIsWhite(d, i + 1);
      var j := SkipSpace(d, i);
      assert d[i..j] == [d[i]] + d[i + 1..j];
    }
  }

  lemma {:induction false} UnicodeSound(d: seq<byte>, p: nat) returns (c: Char)
    requires p + 2 <= |d| && d[p] == 92 && d[p + 1] == 117 && UnicodeEscape(d, p).Some?
    ensures var (u, len) := UnicodeEscape(d, p).value;
            CharOk(c, false) && CharText(c) == d[p..p + len] && CharSense(c) == u
  {
    hide Hex4, CodeUnit, Utf8;
    var h := HexSound(d, p + 2);
    if 0xD800 <= CodeUnit(h) < 0xE000 {
      assert p + 8 <= |d| && d[p + 6] == 92 && d[p + 7] == 117;
      var l := HexSound(d, p + 8);
      PairEscape(d, p, CodeUnit(h), CodeUnit(l));
      c := Pair(h, l);
      assert d[p..p + 12] == [92, 117] + h + [92, 117] + l;
    } else {
      c := Unit(h);
      assert d[p..p + 6] == [92, 117] + h;
    }
  }

  lemma {:induction false} HexSound(d: seq<byte>, i: nat) returns (h: seq<byte>)
    requires i <= |d| && Hex4(d, i) >= 0
    ensures FourDigits(h) && i + 4 <= |d| && h == d[i..i + 4] && CodeUnit(h) == Hex4(d, i)
  {
    hide HexValue, Digit;
    h := d[i..i + 4];
    DigitIs(d[i]);
    DigitIs(d[i + 1]);
    DigitIs(d[i + 2]);
    DigitIs(d[i + 3]);
  }

  lemma {:induction false} CharSound(d: seq<byte>, p: nat) returns (c: Char)
    requires p < |d| && d[p] != 0 && d[p] != 34 && StringUnit(d, p).Some?
    ensures var (u, len) := StringUnit(d, p).value;
            CharOk(c, false) && CharText(c) == d[p..p + len] && CharSense(c) == u
  {
    hide UnicodeEscape, Unescape, Named, CodeUnit, Utf8;
    if d[p] != 92 {
      c := Raw(d[p]);
    } else {
      var e := Ch(d, p + 1);
      NamedIs(e);
      ZeroIsNoEscape();
      UIsUnicode();
      if e == 117 {
        EscapeIsUnicode(d, p);
        c := UnicodeSound(d, p);
      } else {
        c := Short(e);
        assert d[p..p + 2] == [92, e];
      }
    }
  }

  lemma {:induction false} ZeroIsNoEscape()
    ensures Unescape(0) == 0 && Named(0).None?
  {
  }

  lemma {:induction false} UIsUnicode()
    ensures Unescape(117) == 117 && Named(117).None?
  {
  }

  lemma {:induction false} BodySound(d: seq<byte>, i: nat, acc: seq<byte>) returns (cs: seq<Char>)
    requires i <= |d| && StringBody(d, i, acc).Some?
    ensures var (s, j) := StringBody(d, i, acc).value;
            CharsOk(cs, false) && CharsText(cs) + [34] == d[i..j] && s == acc + CharsSense(cs)
    decreases |d| - i
  {
    hide StringUnit, CharOk, CharText, CharSense;
    if d[i] == 34 {
      cs := [];
      assert d[i..i + 1] == [] + [34];
      assert acc + [] == acc;
    } else {
      var c := CharSound(d, i);
      var (u, len) := StringUnit(d, i).value;
      var rest := BodySound(d, i + len, acc + u);
      cs := [c] + rest;
      assert cs[1..] == rest;
      var (s, j) := StringBody(d, i, acc).value;
      Slices(d, i, i + len, j);
      assert CharText(c) + CharsText(rest) + [34] == CharText(c) + (CharsText(rest) + [34]);
      assert acc + u + CharsSense(rest) == acc + (u + CharsSense(rest));
    }
  }

  /** A structural character with the white space before it. */
  lemma {:induction false} MarkSound(cfg: Config, cv: Conv, d: seq<byte>, i: nat, c: byte)
    requires i <= |d| && ScanOk(cv) && c in [123, 125, 91, 93, 44, 58]
    requires NextToken(cfg, cv, d, i).0 == SingleToken(c).value
    ensures var k := SkipSpace(d, i);
            k < |d| && d[k] == c && NextToken(cfg, cv, d, i).1 == k + 1
  {
    hide StringBody, BadNumber, Starts, StartsAnyCase;
    var k := SkipSpace(d, i);
    var e := Ch(d, k);
    SinglesDiffer(c, e);
  }

  lemma {:induction false} SinglesDiffer(c: byte, e: byte)
    requires c in [123, 125, 91, 93, 44, 58] && SingleToken(e) == SingleToken(c)
    ensures e == c
  {
  }

  /** The tokens that are values by themselves. */
  predicate Scalar(t: Token)
  {
    t.StrTok? || t.NumTok? || t.BoolTok? || t == NullTok
  }

  function ScalarValue(t: Token): (v: Tree)
    requires Scalar(t)
  {
    match t
    case StrTok(s) => TStr(s)
    case NumTok(n) => TNum(n)
    case BoolTok(b) => TBool(b)
    case NullTok => TNull
  }

  /** A document for a value that by itself is a token, written as this text. */
  ghost predicate From(doc: Doc, cv: Conv, text: seq<byte>, t: Token)
  {
    && Scalar(t) && DocOk(doc, false, ReadRule(cv)) && Render(doc) == text
    && Sense(doc, ReadRule(cv)) == ScalarValue(t) && Height(doc) == 0
    && (t.StrTok? ==> KeyOk(doc, false) && KeySense(doc, ReadRule(cv)) == t.s)
  }

  lemma {:induction false} NumberSound(cv: Conv, d: seq<byte>, i: nat) returns (doc: Doc)
    requires i <= |d| && ScanOk(cv) && NumberToken(cv, d, i).0 != ErrTok
    ensures From(doc, cv, d[i..NumberToken(cv, d, i).1], NumberToken(cv, d, i).0)
  {
    var (n, len) := cv.scan(d[i..]);
    var t := d[i..i + len];
    assert d[i..] == t + d[i + len..];
    assert ReadAs(cv, t, n);
    doc := Number(t, n);
  }

  lemma {:induction false} StringSound(cv: Conv, d: seq<byte>, k: nat) returns (doc: Doc)
    requires k < |d| && d[k] == 34 && StringBody(d, k + 1, []).Some?
    ensures var (s, j) := StringBody(d, k + 1, []).value; From(doc, cv, d[k..j], StrTok(s))
  {
    hide StringBody, CharsOk, CharsSense, CharsText, ReadRule;
    var cs := BodySound(d, k + 1, []);
    var (s, j) := StringBody(d, k + 1, []).value;
    doc := String(cs);
    assert [34] + CharsText(cs) + [34] == [34] + (CharsText(cs) + [34]);
    Slices(d, k, k + 1, j);
    assert d[k..k + 1] == [34];
    assert [] + CharsSense(cs) == CharsSense(cs);
  }

  lemma {:induction false} WordSound(cv: Conv)
    ensures From(Truth(true), cv, TRUE_TEXT, BoolTok(true)) && From(Truth(false), cv, FALSE_TEXT, BoolTok(false))
    ensures From(Null, cv, NULL_TEXT, NullTok)
  {
    hide Ascii, ReadRule;
    WordsAre();
  }

  /** How a token that is a value comes about. */
  lemma {:induction false} TokenCases(cfg: Config, cv: Conv, d: seq<byte>, i: nat)
    requires i <= |d| && ScanOk(cv) && Scalar(NextToken(cfg, cv, d, i).0)
    ensures var (t, j) := NextToken(cfg, cv, d, i);
            var k := SkipSpace(d, i);
            || (k < |d| && d[k] == 34 && StringBody(d, k + 1, []).Some?
                && (t, j) == (StrTok(StringBody(d, k + 1, []).value.0), StringBody(d, k + 1, []).value.1))
            || NumberToken(cv, d, k) == (t, j)
            || (Starts(d, k, TRUE_TEXT) && (t, j) == (BoolTok(true), k + 4))
            || (Starts(d, k, FALSE_TEXT) && (t, j) == (BoolTok(false), k + 5))
            || (Starts(d, k, NULL_TEXT) && (t, j) == (NullTok, k + 4))
  {
    hide StringBody, BadNumber, NumberToken, Starts;
    SinglesAreNone(Ch(d, SkipSpace(d, i)));
  }

  lemma {:induction false} SinglesAreNone(c: byte)
    ensures SingleToken(c).Some? ==> !Scalar(SingleToken(c).value)
  {
  }

  /** A token that is a value comes from a document for that value. */
  lemma {:induction false} ScalarSound(cfg: Config, cv: Conv, d: seq<byte>, i: nat) returns (doc: Doc)
    requires i <= |d| && ScanOk(cv) && Scalar(NextToken(cfg, cv, d, i).0)
    ensures var (t, j) := NextToken(cfg, cv, d, i);
            SkipSpace(d, i) <= j && From(doc, cv, d[SkipSpace(d, i)..j], t)
  {
    hide StringBody, NumberToken, NextToken, From;
    TokenCases(cfg, cv, d, i);
    WordSound(cv);
    var k := SkipSpace(d, i);
    var (t, j) := NextToken(cfg, cv, d, i);
    if && k < |d| && d[k] == 34 && StringBody(d, k + 1, []).Some?
       && (t, j) == (StrTok(StringBody(d, k + 1, []).value.0), StringBody(d, k + 1, []).value.1) {
      doc := StringSound(cv, d, k);
    } else if NumberToken(cv, d, k) == (t, j) {
      doc := NumberSound(cv, d, k);
    } else {
      doc := if t == NullTok then Null else Truth(t.b);
    }
  }

  // ----- values -----

  ghost predicate Within(doc: Doc, depth: nat, limit: nat)
  {
    Height(doc) == 0 || depth + Height(doc) <= limit
  }

  /** A document for a value, written from k on. */
  ghost predicate Found(doc: Doc, cv: Conv, d: seq<byte>, k: nat, r: Parsed)
  {
    && r.Value? && k <= r.at <= |d| && DocOk(doc, false, ReadRule(cv)) && Render(doc) == d[k..r.at]
    && Sense(doc, ReadRule(cv)) == r.v
  }

  lemma {:induction false} ScalarFound(doc: Doc, cv: Conv, d: seq<byte>, k: nat, t: Token, j: nat, depth: nat,
                                       limit: nat)
    requires k <= j <= |d| && From(doc, cv, d[k..j], t)
    ensures Found(doc, cv, d, k, Value(ScalarValue(t), j)) && Within(doc, depth, limit)
  {
  }

  lemma {:induction false} ScalarParsed(cfg: Config, cv: Conv, d: seq<byte>, t: Token, j: nat, depth: nat)
    requires j <= |d| && ScanOk(cv) && Scalar(t)
    ensures ParseValue(cfg, cv, d, t, j, depth) == Value(ScalarValue(t), j)
  {
  }

  /** A value that was read comes from a document for it, behind white space. */
  lemma {:induction false} ValueSound(cfg: Config, cv: Conv, d: seq<byte>, i: nat, depth: nat) returns (doc: Doc)
    requires i <= |d| && ScanOk(cv)
    requires var (t, j) := NextToken(cfg, cv, d, i); ParseValue(cfg, cv, d, t, j, depth).Value?
    ensures var (t, j) := NextToken(cfg, cv, d, i);
            Found(doc, cv, d, SkipSpace(d, i), ParseValue(cfg, cv, d, t, j, depth))
    ensures Within(doc, depth, cfg.decodeMaxDepth)
    decreases |d| - i, 0, 1
  {
    hide NextToken, ParseValue, From, Found, Within;
    var (t, j) := NextToken(cfg, cv, d, i);
    ValueTokens(cfg, cv, d, t, j, depth);
    if Scalar(t) {
      doc := ScalarSound(cfg, cv, d, i);
      ScalarFound(doc, cv, d, SkipSpace(d, i), t, j, depth, cfg.decodeMaxDepth);
      ScalarParsed(cfg, cv, d, t, j, depth);
    } else if t == ArrBegin {
      doc := ArraySound(cfg, cv, d, i, depth);
    } else {
      doc := ObjectSound(cfg, cv, d, i, depth);
    }
  }

  lemma {:induction false} ValueTokens(cfg: Config, cv: Conv, d: seq<byte>, t: Token, j: nat, depth: nat)
    requires j <= |d| && ScanOk(cv) && ParseValue(cfg, cv, d, t, j, depth).Value?
    ensures Scalar(t) || t == ArrBegin || t == ObjBegin
    ensures t == ArrBegin || t == ObjBegin ==> depth + 1 <= cfg.decodeMaxDepth
  {
    hide NextToken, ParseItems, ParseMembers;
  }

  /** How an array that was read comes about. */
  lemma {:induction false} ArrayCases(cfg: Config, cv: Conv, d: seq<byte>, i: nat, depth: nat)
    requires i <= |d| && ScanOk(cv) && ParseValue(cfg, cv, d, ArrBegin, i, depth).Value?
    ensures var (t, j) := NextToken(cfg, cv, d, i);
            if t == ArrEnd then ParseValue(cfg, cv, d, ArrBegin, i, depth) == Value(TTable(map[]), j)
            else
              && depth + 1 <= cfg.decodeMaxDepth
              && ParseValue(cfg, cv, d, ArrBegin, i, depth) == ParseItems(cfg, cv, d, t, j, [], depth + 1)
  {
    hide NextToken, ParseItems, ParseMembers;
  }

  lemma {:induction false} ObjectCases(cfg: Config, cv: Conv, d: seq<byte>, i: nat, depth: nat)
    requires i <= |d| && ScanOk(cv) && ParseValue(cfg, cv, d, ObjBegin, i, depth).Value?
    ensures var (t, j) := NextToken(cfg, cv, d, i);
            if t == ObjEnd then ParseValue(cfg, cv, d, ObjBegin, i, depth) == Value(TTable(map[]), j)
            else
              && depth + 1 <= cfg.decodeMaxDepth
              && ParseValue(cfg, cv, d, ObjBegin, i, depth) == ParseMembers(cfg, cv, d, t, j, map[], depth + 1)
  {
    hide NextToken, ParseItems, ParseMembers;
  }

  lemma {:induction false} Bracketed(d: seq<byte>, k: nat, inner: seq<byte>, at: nat)
    requires k < at <= |d| && inner == d[k + 1..at]
    ensures [d[k]] + inner == d[k..at]
  {
  }

  lemma {:induction false} ArraySound(cfg: Config, cv: Conv, d: seq<byte>, i: nat, depth: nat) returns (doc: Doc)
    requires i <= |d| && ScanOk(cv) && NextToken(cfg, cv, d, i).0 == ArrBegin && depth + 1 <= cfg.decodeMaxDepth
    requires ParseValue(cfg, cv, d, ArrBegin, NextToken(cfg, cv, d, i).1, depth).Value?
    ensures Found(doc, cv, d, SkipSpace(d, i), ParseValue(cfg, cv, d, ArrBegin, NextToken(cfg, cv, d, i).1, depth))
    ensures Within(doc, depth, cfg.decodeMaxDepth)
    decreases |d| - i, 0, 0
  {
    hide NextToken, ParseValue, ParseItems, White, Found, FoundItems, Height;
    MarkSound(cfg, cv, d, i, 91);
    var k := SkipSpace(d, i);
    ArrayCases(cfg, cv, d, k + 1, depth);
    var (t, j) := NextToken(cfg, cv, d, k + 1);
    if t == ArrEnd {
      MarkSound(cfg, cv, d, k + 1, 93);
      SkippedIsWhite(d, k + 1);
      doc := EmptyArray(cv, d, k, j);
    } else {
      var items := ItemsSound(cfg, cv, d, k + 1, [], depth + 1);
      doc := ArrayFrom(cv, d, k, items, ParseItems(cfg, cv, d, t, j, [], depth + 1));
    }
  }

  lemma {:induction false} EmptyArray(cv: Conv, d: seq<byte>, k: nat, j: nat) returns (doc: Doc)
    requires k + 1 < j <= |d| && d[k] == 91 && d[j - 1] == 93 && White(d[k + 1..j - 1])
    ensures Found(doc, cv, d, k, Value(TTable(map[]), j)) && Height(doc) == 1
  {
    hide ReadRule, White, Sense, Render, ItemSenses, FromItems;
    var space := d[k + 1..j - 1];
    doc := Array(space, NoItems);
    ArrayIs(space, NoItems, ReadRule(cv));
    NothingInside(ReadRule(cv));
    assert d[k + 1..j] == space + [93];
    Bracketed(d, k, space + [93], j);
    assert [91] + space + [93] == [91] + (space + [93]);
  }

  lemma {:induction false} ArrayFrom(cv: Conv, d: seq<byte>, k: nat, items: Items, r: Parsed) returns (doc: Doc)
    requires k < |d| && d[k] == 91 && FoundItems(items, cv, d, k + 1, r, [])
    ensures Found(doc, cv, d, k, r) && Height(doc) == 1 + ItemsHeight(items)
  {
    hide ReadRule, White, Sense, Render, RenderItems, ItemSenses, FromItems;
    NoSpace();
    doc := Array([], items);
    ArrayIs([], items, ReadRule(cv));
    assert [] + ItemSenses(items, ReadRule(cv)) == ItemSenses(items, ReadRule(cv));
    assert [91] + RenderItems(items) + [93] == [91] + (RenderItems(items) + [93]);
    Bracketed(d, k, RenderItems(items) + [93], r.at);
  }

  /** Items that were read, from i up to the closing bracket. */
  ghost predicate FoundItems(items: Items, cv: Conv, d: seq<byte>, i: nat, r: Parsed, acc: seq<Tree>)
  {
    && r.Value? && i <= r.at <= |d| && items.Items? && ItemsOk(items, false, ReadRule(cv))
    && RenderItems(items) + [93] == d[i..r.at]
    && r.v == TTable(FromItems(acc + ItemSenses(items, ReadRule(cv))))
  }

  lemma {:induction false} ItemsSound(cfg: Config, cv: Conv, d: seq<byte>, i: nat, acc: seq<Tree>, depth: nat)
    returns (items: Items)
    requires i <= |d| && ScanOk(cv) && depth <= cfg.decodeMaxDepth
    requires var (t, j) := NextToken(cfg, cv, d, i); ParseItems(cfg, cv, d, t, j, acc, depth).Value?
    ensures var (t, j) := NextToken(cfg, cv, d, i);
            FoundItems(items, cv, d, i, ParseItems(cfg, cv, d, t, j, acc, depth), acc)
    ensures items.Items? && depth + ItemsHeight(items) <= cfg.decodeMaxDepth
    decreases |d| - i, 1
  {
    hide NextToken, ParseItems, ParseValue, Found, FoundItems, White;
    var (t, j) := NextToken(cfg, cv, d, i);
    ItemTurn(cfg, cv, d, t, j, acc, depth);
    var doc := ValueSound(cfg, cv, d, i, depth);
    var r := ParseValue(cfg, cv, d, t, j, depth);
    var (t2, p) := NextToken(cfg, cv, d, r.at);
    MarkSound(cfg, cv, d, r.at, if t2 == ArrEnd then 93 else 44);
    if t2 == ArrEnd {
      items := OneItem(cv, d, i, doc, r, acc, NoItems, ParseItems(cfg, cv, d, t, j, acc, depth));
    } else {
      var rest := ItemsSound(cfg, cv, d, p, acc + [r.v], depth);
      var (t3, p3) := NextToken(cfg, cv, d, p);
      items := OneItem(cv, d, i, doc, r, acc, rest, ParseItems(cfg, cv, d, t3, p3, acc + [r.v], depth));
    }
  }

  /** An item in front of those behind it, if any. */
  lemma {:induction false} OneItem(cv: Conv, d: seq<byte>, i: nat, doc: Doc, r: Parsed, acc: seq<Tree>, rest: Items,
                                   r': Parsed)
    returns (items: Items)
    requires i <= |d| && Found(doc, cv, d, SkipSpace(d, i), r)
    requires SkipSpace(d, r.at) < |d| && d[SkipSpace(d, r.at)] == (if rest.NoItems? then 93 else 44)
    requires var p := SkipSpace(d, r.at) + 1;
             if rest.NoItems? then r' == Value(TTable(FromItems(acc + [r.v])), p)
             else FoundItems(rest, cv, d, p, r', acc + [r.v])
    ensures FoundItems(items, cv, d, i, r', acc)
    ensures items.Items? && items.doc == doc && items.rest == rest
  {
    hide White, DocOk, Sense, Render, RenderItems, FromItems, ReadRule, ItemSenses, SkipSpace, Height, Laid;
    var k, q, l := SkipSpace(d, i), r.at, SkipSpace(d, r.at);
    SkippedIsWhite(d, i);
    SkippedIsWhite(d, q);
    items := Items(d[i..k], doc, d[q..l], rest);
    ItemsLayout(items, ReadRule(cv));
    var vs := ItemSenses(rest, ReadRule(cv));
    assert acc + [r.v] + vs == acc + ([r.v] + vs) && acc + [r.v] + [] == acc + [r.v];
    Tail(d, i, k, q, l, r'.at);
    if rest.NoItems? { assert d[l + 1..l + 1] == []; }
  }

  lemma {:induction false} Tail(d: seq<byte>, i: nat, k: nat, q: nat, l: nat, at: nat)
    requires i <= k <= q <= l < at <= |d|
    ensures d[i..at] == Laid(d[i..k], d[k..q], d[q..l], d[l], d[l + 1..at])
  {
    assert d[k..at] == d[k..q] + (d[q..l] + [d[l]] + d[l + 1..at]);
    Slices(d, i, k, at);
  }

  lemma {:induction false} ObjectSound(cfg: Config, cv: Conv, d: seq<byte>, i: nat, depth: nat) returns (doc: Doc)
    requires i <= |d| && ScanOk(cv) && NextToken(cfg, cv, d, i).0 == ObjBegin && depth + 1 <= cfg.decodeMaxDepth
    requires ParseValue(cfg, cv, d, ObjBegin, NextToken(cfg, cv, d, i).1, depth).Value?
    ensures Found(doc, cv, d, SkipSpace(d, i), ParseValue(cfg, cv, d, ObjBegin, NextToken(cfg, cv, d, i).1, depth))
    ensures Within(doc, depth, cfg.decodeMaxDepth)
    decreases |d| - i, 0, 0
  {
    hide NextToken, ParseValue, ParseMembers, White, Found, FoundMembers, Height;
    MarkSound(cfg, cv, d, i, 123);
    var k := SkipSpace(d, i);
    ObjectCases(cfg, cv, d, k + 1, depth);
    var (t, j) := NextToken(cfg, cv, d, k + 1);
    if t == ObjEnd {
      MarkSound(cfg, cv, d, k + 1, 125);
      SkippedIsWhite(d, k + 1);
      doc := EmptyObject(cv, d, k, j);
    } else {
      var members := MembersSound(cfg, cv, d, k + 1, map[], depth + 1);
      doc := ObjectOf(cv, d, k, members, ParseMembers(cfg, cv, d, t, j, map[], depth + 1));
    }
  }

  lemma {:induction false} EmptyObject(cv: Conv, d: seq<byte>, k: nat, j: nat) returns (doc: Doc)
    requires k + 1 < j <= |d| && d[k] == 123 && d[j - 1] == 125 && White(d[k + 1..j - 1])
    ensures Found(doc, cv, d, k, Value(TTable(map[]), j)) && Height(doc) == 1
  {
    hide ReadRule, White, Sense, Render, MemberSenses;
    var space := d[k + 1..j - 1];
    doc := Object(space, NoMembers);
    ObjectIs(space, NoMembers, ReadRule(cv));
    NothingInside(ReadRule(cv));
    assert d[k + 1..j] == space + [125];
    Bracketed(d, k, space + [125], j);
    assert [123] + space + [125] == [123] + (space + [125]);
  }

  lemma {:induction false} ObjectOf(cv: Conv, d: seq<byte>, k: nat, members: Members, r: Parsed) returns (doc: Doc)
    requires k < |d| && d[k] == 123 && FoundMembers(members, cv, d, k + 1, r, map[])
    ensures Found(doc, cv, d, k, r) && Height(doc) == 1 + MembersHeight(members)
  {
    hide ReadRule, White, Sense, Render, RenderMembers, MemberSenses;
    NoSpace();
    doc := Object([], members);
    ObjectIs([], members, ReadRule(cv));
    assert [123] + RenderMembers(members) + [125] == [123] + (RenderMembers(members) + [125]);
    Bracketed(d, k, RenderMembers(members) + [125], r.at);
  }

  /** Members that were read, from i up to the closing brace. */
  ghost predicate FoundMembers(members: Members, cv: Conv, d: seq<byte>, i: nat, r: Parsed, m: map<TKey, Tree>)
  {
    && r.Value? && i <= r.at <= |d| && members.Members? && MembersOk(members, false, ReadRule(cv))
    && RenderMembers(members) + [125] == d[i..r.at]
    && r.v == TTable(MemberSenses(members, ReadRule(cv), m))
  }

  lemma {:induction false} MembersSound(cfg: Config, cv: Conv, d: seq<byte>, i: nat, m: map<TKey, Tree>, depth: nat)
    returns (members: Members)
    requires i <= |d| && ScanOk(cv) && depth <= cfg.decodeMaxDepth
    requires var (t, j) := NextToken(cfg, cv, d, i); ParseMembers(cfg, cv, d, t, j, m, depth).Value?
    ensures var (t, j) := NextToken(cfg, cv, d, i);
            FoundMembers(members, cv, d, i, ParseMembers(cfg, cv, d, t, j, m, depth), m)
    ensures members.Members? && depth + MembersHeight(members) <= cfg.decodeMaxDepth
    decreases |d| - i, 1
  {
    hide NextToken, ParseMembers, ParseValue, Found, FoundMembers, White, From;
    var (t, j) := NextToken(cfg, cv, d, i);
    MemberTurn(cfg, cv, d, t, j, m, depth);
    var key := ScalarSound(cfg, cv, d, i);
    MarkSound(cfg, cv, d, j, 58);
    var u := SkipSpace(d, j);
    var doc := ValueSound(cfg, cv, d, u + 1, depth);
    var (tv, jv) := NextToken(cfg, cv, d, u + 1);
    var r := ParseValue(cfg, cv, d, tv, jv, depth);
    var (t2, p) := NextToken(cfg, cv, d, r.at);
    MarkSound(cfg, cv, d, r.at, if t2 == ObjEnd then 125 else 44);
    var m' := m[KStr(t.s) := r.v];
    if t2 == ObjEnd {
      members := OneMember(cv, d, i, key, t, j, doc, r, NoMembers, Value(TTable(m'), p), m);
    } else {
      var rest := MembersSound(cfg, cv, d, p, m', depth);
      var (t3, p3) := NextToken(cfg, cv, d, p);
      members := OneMember(cv, d, i, key, t, j, doc, r, rest, ParseMembers(cfg, cv, d, t3, p3, m', depth), m);
    }
  }

  /** A member in front of those behind it, if any. */
  lemma {:induction false} OneMember(cv: Conv, d: seq<byte>, i: nat, key: Doc, t: Token, j: nat, doc: Doc, r: Parsed,
                                     rest: Members, r': Parsed, m: map<TKey, Tree>)
    returns (members: Members)
    requires i <= |d| && SkipSpace(d, i) <= j <= |d| && t.StrTok? && From(key, cv, d[SkipSpace(d, i)..j], t)
    requires SkipSpace(d, j) < |d| && d[SkipSpace(d, j)] == 58
    requires Found(doc, cv, d, SkipSpace(d, SkipSpace(d, j) + 1), r)
    requires SkipSpace(d, r.at) < |d| && d[SkipSpace(d, r.at)] == (if rest.NoMembers? then 125 else 44)
    requires var m', p := m[KStr(t.s) := r.v], SkipSpace(d, r.at) + 1;
             if rest.NoMembers? then r' == Value(TTable(m'), p) else FoundMembers(rest, cv, d, p, r', m')
    ensures FoundMembers(members, cv, d, i, r', m)
    ensures members.Members? && members.doc == doc && members.rest == rest
  {
    hide White, From, Found, FoundMembers, SkipSpace;
    FoundAt(doc, cv, d, SkipSpace(d, SkipSpace(d, j) + 1), r);
    var k, u, q := SkipSpace(d, i), SkipSpace(d, j), r.at;
    var s, l := SkipSpace(d, u + 1), SkipSpace(d, q);
    SkippedIsWhite(d, i);
    SkippedIsWhite(d, j);
    SkippedIsWhite(d, u + 1);
    SkippedIsWhite(d, q);
    members := MemberBuilt(cv, d, i, k, j, u, s, l, key, t, doc, r, rest, r', m);
  }

  lemma {:induction false} FoundAt(doc: Doc, cv: Conv, d: seq<byte>, k: nat, r: Parsed)
    requires Found(doc, cv, d, k, r)
    ensures r.Value? && k <= r.at <= |d|
  {
  }

  lemma {:induction false} MemberBuilt(cv: Conv, d: seq<byte>, i: nat, k: nat, j: nat, u: nat, s: nat, l: nat, key: Doc,
                                       t: Token, doc: Doc, r: Parsed, rest: Members, r': Parsed, m: map<TKey, Tree>)
    returns (members: Members)
    requires i <= k <= j <= u && u + 1 <= s && r.Value? && s <= r.at <= l < |d|
    requires White(d[i..k]) && White(d[j..u]) && White(d[u + 1..s]) && White(d[r.at..l])
    requires d[u] == 58 && d[l] == (if rest.NoMembers? then 125 else 44)
    requires t.StrTok? && From(key, cv, d[k..j], t) && Found(doc, cv, d, s, r)
    requires var m', p := m[KStr(t.s) := r.v], l + 1;
             if rest.NoMembers? then r' == Value(TTable(m'), p) else FoundMembers(rest, cv, d, p, r', m')
    ensures FoundMembers(members, cv, d, i, r', m)
    ensures members.Members? && members.doc == doc && members.rest == rest
  {
    hide White, DocOk, Sense, Render, RenderMembers, ReadRule, MemberSenses, KeySense, Height, Laid, MembersOk, From,
      Found;
    var q := r.at;
    members := Members(d[i..k], key, d[j..u], d[u + 1..s], doc, d[q..l], rest);
    RestIs(cv, d, l + 1, rest, r', m[KStr(t.s) := r.v]);
    MemberIsOk(cv, members, d[k..j], t, d, s, r);
    MembersLayout(members, ReadRule(cv), m);
    MemberSpelled(d, i, k, j, u, s, q, l, r'.at);
  }

  lemma {:induction false} MemberSpelled(d: seq<byte>, i: nat, k: nat, j: nat, u: nat, s: nat, q: nat, l: nat, at: nat)
    requires i <= k <= j <= u && u + 1 <= s <= q <= l < at <= |d|
    ensures d[i..at]
            == Laid(d[i..k], d[k..j], d[j..u], d[u], Laid(d[u + 1..s], d[s..q], d[q..l], d[l], d[l + 1..at]))
  {
    hide Laid;
    Tail(d, i, k, j, u, at);
    Tail(d, u + 1, s, q, l, at);
  }

  /** The members behind one, or none. */
  lemma {:induction false} RestIs(cv: Conv, d: seq<byte>, p: nat, rest: Members, r': Parsed, m: map<TKey, Tree>)
    requires p <= |d|
    requires if rest.NoMembers? then r' == Value(TTable(m), p) else FoundMembers(rest, cv, d, p, r', m)
    ensures r'.Value? && p <= r'.at <= |d| && MembersOk(rest, false, ReadRule(cv))
    ensures (if rest.NoMembers? then [] else RenderMembers(rest) + [125]) == d[p..r'.at]
    ensures r'.v == TTable(MemberSenses(rest, ReadRule(cv), m))
  {
  }

  lemma {:induction false} MemberIsOk(cv: Conv, members: Members, text: seq<byte>, t: Token, d: seq<byte>, s: nat,
                                      r: Parsed)
    requires members.Members? && t.StrTok? && From(members.key, cv, text, t) && Found(members.doc, cv, d, s, r)
    requires White(members.before) && White(members.colon) && White(members.value) && White(members.after)
    requires MembersOk(members.rest, false, ReadRule(cv))
    ensures MembersOk(members, false, ReadRule(cv))
    ensures Render(members.key) == text && KeySense(members.key, ReadRule(cv)) == t.s
    ensures r.at <= |d| && s <= r.at && Render(members.doc) == d[s..r.at] && Sense(members.doc, ReadRule(cv)) == r.v
  {
    hide White, DocOk, Sense, Render, ReadRule, KeySense, Height;
  }

  // ----- whole texts -----

  /**
   A text that is decoded is a document with white space around it, up to its end or to a terminator; its value
   is the document's, and its depth is within the limit.
   */
  lemma {:induction false} DecodeSound(cfg: Config, cv: Conv, t: seq<byte>)
    returns (before: seq<byte>, doc: Doc, after: seq<byte>, rest: seq<byte>)
    requires ScanOk(cv) && Decode(cfg, cv, t).Some?
    ensures White(before) && White(after) && t == before + Render(doc) + after + rest
    ensures rest == [] || rest[0] == 0
    ensures DocOk(doc, false, ReadRule(cv)) && Some(Sense(doc, ReadRule(cv))) == Decode(cfg, cv, t)
    ensures Height(doc) <= cfg.decodeMaxDepth
  {
    hide NextToken, ParseValue, ReadRule, DocOk, Sense, Render, Height, White, SkipSpace;
    doc := ValueSound(cfg, cv, t, 0, 0);
    var (tok, i) := NextToken(cfg, cv, t, 0);
    var q := ParseValue(cfg, cv, t, tok, i, 0).at;
    var k, l := SkipSpace(t, 0), SkipSpace(t, q);
    SkippedIsWhite(t, 0);
    SkippedIsWhite(t, q);
    EndSound(cfg, cv, t, q);
    before, after, rest := t[0..k], t[q..l], t[l..];
    InFour(t, k, q, l);
  }

  lemma {:induction false} InFour(t: seq<byte>, k: nat, q: nat, l: nat)
    requires k <= q <= l <= |t|
    ensures t[0..k] + t[k..q] + t[q..l] + t[l..] == t
  {
  }

  lemma {:induction false} EndSound(cfg: Config, cv: Conv, d: seq<byte>, i: nat)
    requires i <= |d| && ScanOk(cv) && NextToken(cfg, cv, d, i).0 == EndTok
    ensures var l := SkipSpace(d, i); l == |d| || d[l] == 0
  {
    hide StringBody, BadNumber, Starts, StartsAnyCase;
  }
}
