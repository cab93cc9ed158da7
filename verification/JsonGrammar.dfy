/**
 JSON texts as RFC 8259 defines them, apart from any encoder or decoder: a document with its white
 space and its ways of writing characters, the text it is, and the value it stands for.
 */
module JsonGrammar {
  import opened Bytes
  import opened Json

  // ----- white space, words, numbers -----

  /** The `ws` of section 2: spaces, tabs, line feeds and carriage returns. */
  predicate White(w: seq<byte>)
  {
    forall i :: 0 <= i < |w| ==> w[i] == 0x20 || w[i] == 0x09 || w[i] == 0x0A || w[i] == 0x0D
  }

  /** The bytes of ASCII characters. */
  function Ascii(s: string): (t: seq<byte>)
    requires forall i :: 0 <= i < |s| ==> s[i] < 128 as char
  {
    seq(|s|, i requires 0 <= i < |s| => s[i] as int)
  }

  predicate Digits(t: seq<byte>)
  {
    |t| > 0 && forall i :: 0 <= i < |t| ==> '0' as int <= t[i] <= '9' as int
  }

  /** `int`, `frac` and `exp` of section 6; a missing part is empty. */
  predicate IntPart(t: seq<byte>)
  {
    Digits(t) && (t[0] == '0' as int ==> |t| == 1)
  }

  predicate FracPart(t: seq<byte>)
  {
    t == [] || (t[0] == '.' as int && Digits(t[1..]))
  }

  predicate ExpPart(t: seq<byte>)
  {
    t == []
    || (&& (t[0] == 'e' as int || t[0] == 'E' as int)
        && |t| > 1
        && Digits(if t[1] == '+' as int || t[1] == '-' as int then t[2..] else t[1..]))
  }

  predicate SignPart(t: seq<byte>)
  {
    t == [] || t == ['-' as int]
  }

  ghost predicate RfcNumber(t: seq<byte>)
  {
    exists s, i, f, e :: SignPart(s) && IntPart(i) && FracPart(f) && ExpPart(e) && t == s + i + f + e
  }

  // ----- strings -----

  /** One character of a string: as itself, by a letter, by its code unit, or by two surrogates. */
  datatype Char = Raw(c: byte) | Short(e: byte) | Unit(hex: seq<byte>) | Pair(high: seq<byte>, low: seq<byte>)

  function Digit(c: byte): (v: int)
    ensures -1 <= v < 16
  {
    if '0' as int <= c <= '9' as int then c - '0' as int
    else if 'a' as int <= c <= 'f' as int then c - 'a' as int + 10
    else if 'A' as int <= c <= 'F' as int then c - 'A' as int + 10
    else -1
  }

  predicate FourDigits(h: seq<byte>)
  {
    |h| == 4 && forall i :: 0 <= i < 4 ==> Digit(h[i]) >= 0
  }

  function CodeUnit(h: seq<byte>): (u: int)
    requires FourDigits(h)
    ensures 0 <= u < 0x1_0000
  {
    ((Digit(h[0]) * 16 + Digit(h[1])) * 16 + Digit(h[2])) * 16 + Digit(h[3])
  }

  /** The letters after a reverse solidus, and what they stand for. */
  function Named(e: byte): (c: Option<byte>)
  {
    if e == '"' as int then Some(0x22)
    else if e == '\\' as int then Some(0x5C)
    else if e == '/' as int then Some(0x2F)
    else if e == 'b' as int then Some(0x08)
    else if e == 'f' as int then Some(0x0C)
    else if e == 'n' as int then Some(0x0A)
    else if e == 'r' as int then Some(0x0D)
    else if e == 't' as int then Some(0x09)
    else None
  }

  /**
   A character the grammar allows. Not strictly, everything but the quotation mark, the reverse solidus and a
   terminator may stand for itself.
   */
  predicate CharOk(c: Char, strict: bool)
  {
    match c
    case Raw(b) => b != 0x22 && b != 0x5C && if strict then b >= 0x20 else b != 0
    case Short(e) => Named(e).Some?
    case Unit(h) => FourDigits(h) && !(0xD800 <= CodeUnit(h) < 0xE000)
    case Pair(h, l) =>
      FourDigits(h) && FourDigits(l) && 0xD800 <= CodeUnit(h) < 0xDC00 && 0xDC00 <= CodeUnit(l) < 0xE000
  }

  function CharText(c: Char): (t: seq<byte>)
  {
    match c
    case Raw(b) => [b]
    case Short(e) => ['\\' as int, e]
    case Unit(h) => ['\\' as int, 'u' as int] + h
    case Pair(h, l) => ['\\' as int, 'u' as int] + h + ['\\' as int, 'u' as int] + l
  }

  function CharSense(c: Char): (s: seq<byte>)
    requires CharOk(c, false)
  {
    match c
    case Raw(b) => [b]
    case Short(e) => [Named(e).value]
    case Unit(h) => Utf8(CodeUnit(h))
    case Pair(h, l) => Utf8(0x1_0000 + (CodeUnit(h) - 0xD800) * 0x400 + (CodeUnit(l) - 0xDC00))
  }

  predicate CharsOk(cs: seq<Char>, strict: bool)
  {
    forall i :: 0 <= i < |cs| ==> CharOk(cs[i], strict)
  }

  lemma {:induction false} StrictIsOk(c: Char)
    requires CharOk(c, true)
    ensures CharOk(c, false)
  {
  }

  function CharsText(cs: seq<Char>): (t: seq<byte>)
  {
    if cs == [] then [] else CharText(cs[0]) + CharsText(cs[1..])
  }

  function CharsSense(cs: seq<Char>): (s: seq<byte>)
    requires CharsOk(cs, false)
  {
    if cs == [] then [] else CharSense(cs[0]) + CharsSense(cs[1..])
  }

  function Quoted(cs: seq<Char>): (t: seq<byte>)
  {
    ['"' as int] + CharsText(cs) + ['"' as int]
  }

  // ----- documents -----

  /** A value, with the white space inside it; a number with the number it is. */
  datatype Doc =
    | Null
    | Truth(b: bool)
    | Number(t: seq<byte>, n: Lnum)
    | String(cs: seq<Char>)
    | Array(space: seq<byte>, items: Items)        // the space counts when there are no items
    | Object(space: seq<byte>, members: Members)

  datatype Items = NoItems | Items(before: seq<byte>, doc: Doc, after: seq<byte>, rest: Items)

  datatype Members =
    | NoMembers
    | Members(before: seq<byte>, key: Doc, colon: seq<byte>, value: seq<byte>, doc: Doc, after: seq<byte>,
              rest: Members)

  function Render(d: Doc): (t: seq<byte>)
  {
    match d
    case Null => Ascii("null")
    case Truth(b) => if b then Ascii("true") else Ascii("false")
    case Number(t, _) => t
    case String(cs) => Quoted(cs)
    case Array(space, items) => Ascii("[") + (if items.NoItems? then space else RenderItems(items)) + Ascii("]")
    case Object(space, members) =>
      Ascii("{") + (if members.NoMembers? then space else RenderMembers(members)) + Ascii("}")
  }

  function RenderItems(items: Items): (t: seq<byte>)
  {
    match items
    case NoItems => []
    case Items(before, doc, after, rest) =>
      before + Render(doc) + after + (if rest.NoItems? then [] else Ascii(",") + RenderItems(rest))
  }

  function RenderMembers(members: Members): (t: seq<byte>)
  {
    match members
    case NoMembers => []
    case Members(before, key, colon, value, doc, after, rest) =>
      before + Render(key) + colon + Ascii(":") + value + Render(doc) + after
      + (if rest.NoMembers? then [] else Ascii(",") + RenderMembers(rest))
  }

  /** Which number texts are allowed, and for which numbers. */
  type NumberRule = (seq<byte>, Lnum) -> bool

  /** What may stand for a key: strictly, a string. */
  predicate KeyOk(key: Doc, strict: bool)
  {
    key.String? || (!strict && key.Number? && |key.t| > 14)
  }

  ghost predicate DocOk(d: Doc, strict: bool, rule: NumberRule)
  {
    match d
    case Null => true
    case Truth(_) => true
    case Number(t, n) => rule(t, n)
    case String(cs) => CharsOk(cs, strict)
    case Array(space, items) => White(space) && ItemsOk(items, strict, rule)
    case Object(space, members) => White(space) && MembersOk(members, strict, rule)
  }

  ghost predicate ItemsOk(items: Items, strict: bool, rule: NumberRule)
  {
    match items
    case NoItems => true
    case Items(before, doc, after, rest) =>
      White(before) && White(after) && DocOk(doc, strict, rule) && ItemsOk(rest, strict, rule)
  }

  ghost predicate MembersOk(members: Members, strict: bool, rule: NumberRule)
  {
    match members
    case NoMembers => true
    case Members(before, key, colon, value, doc, after, rest) =>
      && White(before) && White(colon) && White(value) && White(after)
      && KeyOk(key, strict) && DocOk(key, strict, rule)
      && DocOk(doc, strict, rule) && MembersOk(rest, strict, rule)
  }

  /** How deeply arrays and objects are nested. */
  function Height(d: Doc): (n: nat)
  {
    match d
    case Array(_, items) => 1 + ItemsHeight(items)
    case Object(_, members) => 1 + MembersHeight(members)
    case _ => 0
  }

  function ItemsHeight(items: Items): (n: nat)
  {
    if items.NoItems? then 0 else Higher(Height(items.doc), ItemsHeight(items.rest))
  }

  function MembersHeight(members: Members): (n: nat)
  {
    if members.NoMembers? then 0 else Higher(Height(members.doc), MembersHeight(members.rest))
  }

  function Higher(a: nat, b: nat): (m: nat)
  {
    if a > b then a else b
  }

  // ----- what documents stand for -----

  /**
   The value of a document: items are numbered from 1, of members with one name the last counts, and a
   number with more than 14 bytes of text stands for that text.
   */
  ghost function Sense(d: Doc, rule: NumberRule): (v: Tree)
    requires DocOk(d, false, rule)
    decreases d
  {
    match d
    case Null => TNull
    case Truth(b) => TBool(b)
    case Number(t, n) => if |t| <= 14 then TNum(n) else TStr(t)
    case String(cs) => TStr(CharsSense(cs))
    case Array(_, items) => TTable(Numbered(ItemSenses(items, rule)))
    case Object(_, members) => TTable(MemberSenses(members, rule, map[]))
  }

  function Numbered(vs: seq<Tree>): (m: map<TKey, Tree>)
  {
    map i | 1 <= i <= |vs| :: KInt(i) := vs[i - 1]
  }

  ghost function ItemSenses(items: Items, rule: NumberRule): (vs: seq<Tree>)
    requires ItemsOk(items, false, rule)
    decreases items
  {
    if items.NoItems? then [] else [Sense(items.doc, rule)] + ItemSenses(items.rest, rule)
  }

  ghost function KeySense(key: Doc, rule: NumberRule): (s: seq<byte>)
    requires KeyOk(key, false) && DocOk(key, false, rule)
  {
    if key.String? then CharsSense(key.cs) else key.t
  }

  ghost function MemberSenses(members: Members, rule: NumberRule, m: map<TKey, Tree>): (r: map<TKey, Tree>)
    requires MembersOk(members, false, rule)
    decreases members
  {
    if members.NoMembers? then m
    else MemberSenses(members.rest, rule, m[KStr(KeySense(members.key, rule)) := Sense(members.doc, rule)])
  }

  /** A whole text: a value with white space around it. */
  ghost predicate IsText(t: seq<byte>, before: seq<byte>, d: Doc, after: seq<byte>)
  {
    White(before) && White(after) && t == before + Render(d) + after
  }

  // ----- from strict to lenient -----

  lemma {:induction false} CharsRelax(cs: seq<Char>)
    requires CharsOk(cs, true)
    ensures CharsOk(cs, false)
  {
    forall i | 0 <= i < |cs| ensures CharOk(cs[i], false) { StrictIsOk(cs[i]); }
  }

  ghost predicate RuleBelow(a: NumberRule, b: NumberRule)
  {
    forall t, n :: a(t, n) ==> b(t, n)
  }

  /** What a narrower rule allows strictly, a wider one allows at all. */
  lemma {:induction false} DocRelaxes(d: Doc, a: NumberRule, b: NumberRule)
    requires DocOk(d, true, a) && RuleBelow(a, b)
    ensures DocOk(d, false, b)
    decreases d
  {
    hide CharsOk, White;
    match d
    case String(cs) => CharsRelax(cs);
    case Array(_, items) => ItemsRelax(items, a, b);
    case Object(_, members) => MembersRelax(members, a, b);
    case _ =>
  }

  lemma {:induction false} ItemsRelax(items: Items, a: NumberRule, b: NumberRule)
    requires ItemsOk(items, true, a) && RuleBelow(a, b)
    ensures ItemsOk(items, false, b)
    decreases items
  {
    hide White;
    if items.Items? {
      DocRelaxes(items.doc, a, b);
      ItemsRelax(items.rest, a, b);
    }
  }

  lemma {:induction false} MembersRelax(members: Members, a: NumberRule, b: NumberRule)
    requires MembersOk(members, true, a) && RuleBelow(a, b)
    ensures MembersOk(members, false, b)
    decreases members
  {
    hide White;
    if members.Members? {
      DocRelaxes(members.key, a, b);
      DocRelaxes(members.doc, a, b);
      MembersRelax(members.rest, a, b);
    }
  }

  // ----- white space makes no difference -----

  /** The same document but for its white space. */
  ghost predicate Respaced(a: Doc, b: Doc)
    decreases a
  {
    match a
    case Array(_, items) => b.Array? && White(b.space) && RespacedItems(items, b.items)
    case Object(_, members) => b.Object? && White(b.space) && RespacedMembers(members, b.members)
    case _ => a == b
  }

  ghost predicate RespacedItems(a: Items, b: Items)
    decreases a
  {
    if a.NoItems? then b.NoItems?
    else b.Items? && White(b.before) && White(b.after) && Respaced(a.doc, b.doc) && RespacedItems(a.rest, b.rest)
  }

  ghost predicate RespacedMembers(a: Members, b: Members)
    decreases a
  {
    if a.NoMembers? then b.NoMembers?
    else
      && b.Members? && White(b.before) && White(b.colon) && White(b.value) && White(b.after)
      && b.key == a.key && Respaced(a.doc, b.doc) && RespacedMembers(a.rest, b.rest)
  }

  /** It is allowed as the other is, and has its value and depth. */
  lemma {:induction false} RespacedSame(a: Doc, b: Doc, rule: NumberRule)
    requires Respaced(a, b) && DocOk(a, true, rule) && DocOk(a, false, rule)
    ensures DocOk(b, true, rule) && DocOk(b, false, rule) && Sense(b, rule) == Sense(a, rule) && Height(b) == Height(a)
    decreases a
  {
    hide White, CharsOk, CharsSense, Numbered;
    match a
    case Array(_, items) => ItemsRespaced(items, b.items, rule);
    case Object(_, members) => MembersRespaced(members, b.members, rule, map[]);
    case _ =>
  }

  lemma {:induction false} ItemsRespaced(a: Items, b: Items, rule: NumberRule)
    requires RespacedItems(a, b) && ItemsOk(a, true, rule) && ItemsOk(a, false, rule)
    ensures ItemsOk(b, true, rule) && ItemsOk(b, false, rule)
    ensures ItemSenses(b, rule) == ItemSenses(a, rule) && ItemsHeight(b) == ItemsHeight(a)
    decreases a
  {
    hide White, Sense, DocOk, Height;
    if a.Items? {
      RespacedSame(a.doc, b.doc, rule);
      ItemsRespaced(a.rest, b.rest, rule);
    }
  }

  lemma {:induction false} MembersRespaced(a: Members, b: Members, rule: NumberRule, m: map<TKey, Tree>)
    requires RespacedMembers(a, b) && MembersOk(a, true, rule) && MembersOk(a, false, rule)
    ensures MembersOk(b, true, rule) && MembersOk(b, false, rule)
    ensures MemberSenses(b, rule, m) == MemberSenses(a, rule, m) && MembersHeight(b) == MembersHeight(a)
    decreases a
  {
    hide White, Sense, DocOk, Height, KeySense;
    if a.Members? {
      RespacedSame(a.doc, b.doc, rule);
      MembersRespaced(a.rest, b.rest, rule, m[KStr(KeySense(a.key, rule)) := Sense(a.doc, rule)]);
    }
  }
}
