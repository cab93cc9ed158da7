/** Depth limits and code points of `lae/source/lua_cjson.c`. */
module JsonLimits {
  import opened Bytes
  import opened Json

  // ----- tables nested too deeply, and cyclic ones -----

  /** No table has two entries under one key. */
  ghost predicate UniqueKeys(h: Heap)
  {
    forall ref, i, j :: 0 <= i < j < |Entries(h, ref)| ==> Entries(h, ref)[i].0 != Entries(h, ref)[j].0
  }

  /** The table `to` is one of the values of the table `from`. */
  predicate Holds(h: Heap, from: nat, to: nat)
  {
    exists j :: 0 <= j < |Entries(h, from)| && Entries(h, from)[j].1 == Table(to)
  }

  /** A walk from table to table through values. */
  predicate Walk(h: Heap, path: seq<nat>)
  {
    forall i :: 0 <= i < |path| - 1 ==> Holds(h, path[i], path[i + 1])
  }

  lemma {:induction false} ItemsFail(cfg: Config, cv: Conv, h: Heap, es: seq<(Key, Val)>, i: nat, n: nat, at: nat,
                                     depth: nat)
    requires depth <= cfg.encodeMaxDepth && i <= at <= n && Encode(cfg, cv, h, RawGet(es, at), depth).Failed?
    ensures EncodeItems(cfg, cv, h, es, i, n, depth).Failed?
    decreases at - i
  {
    hide Encode, RawGet;
    if i < at { ItemsFail(cfg, cv, h, es, i + 1, n, at, depth); }
  }

  lemma {:induction false} EntriesFail(cfg: Config, cv: Conv, h: Heap, es: seq<(Key, Val)>, j: nat, at: nat, depth: nat)
    requires depth <= cfg.encodeMaxDepth && j <= at < |es| && Encode(cfg, cv, h, es[at].1, depth).Failed?
    ensures EncodeEntries(cfg, cv, h, es, j, depth).Failed?
    decreases at - j
  {
    hide Encode, KeyText;
    if j < at { EntriesFail(cfg, cv, h, es, j + 1, at, depth); }
  }

  lemma {:induction false} RawGetFinds(es: seq<(Key, Val)>, j: nat)
    requires j < |es| && IsIndex(es[j].0)
    requires forall a, b :: 0 <= a < b < |es| ==> es[a].0 != es[b].0
    ensures RawGet(es, IndexOf(es[j].0)) == es[j].1
  {
    assert es[j].0 == NumKey(Finite(IndexOf(es[j].0) as real));
    if j > 0 {
      assert es[0].0 != es[j].0;
      assert es[1..][j - 1] == es[j];
      RawGetFinds(es[1..], j - 1);
    }
  }

  /** One value that cannot be encoded makes its whole table fail. */
  lemma {:induction false} ChildFails(cfg: Config, cv: Conv, h: Heap, ref: nat, j: nat, depth: nat)
    requires depth + 1 <= cfg.encodeMaxDepth && UniqueKeys(h) && j < |Entries(h, ref)|
    requires Encode(cfg, cv, h, Entries(h, ref)[j].1, depth + 1).Failed?
    ensures Encode(cfg, cv, h, Table(ref), depth).Failed?
  {
    hide EncodeItems, EncodeEntries, MaxIndex, IndexOf, RawGet;
    var es := Entries(h, ref);
    EntriesFail(cfg, cv, h, es, 0, j, depth + 1);
    if AllIndices(es) {
      RawGetFinds(es, j);
      assert 1 <= IndexOf(es[j].0) <= MaxIndex(es);
      ItemsFail(cfg, cv, h, es, 1, MaxIndex(es), IndexOf(es[j].0), depth + 1);
    }
  }

  /** A table from which a walk leads deeper than the limit is never encoded. */
  lemma {:induction false} DeepFails(cfg: Config, cv: Conv, h: Heap, path: seq<nat>, depth: nat)
    requires depth <= cfg.encodeMaxDepth && UniqueKeys(h) && Walk(h, path)
    requires |path| > cfg.encodeMaxDepth - depth
    ensures Encode(cfg, cv, h, Table(path[0]), depth).Failed?
    decreases |path|
  {
    hide UniqueKeys;
    if depth < cfg.encodeMaxDepth {
      assert Holds(h, path[0], path[1]);
      var j :| 0 <= j < |Entries(h, path[0])| && Entries(h, path[0])[j].1 == Table(path[1]);
      WalkOn(h, path);
      DeepFails(cfg, cv, h, path[1..], depth + 1);
      hide Encode;
      ChildFails(cfg, cv, h, path[0], j, depth);
    }
  }

  lemma {:induction false} WalkOn(h: Heap, path: seq<nat>)
    requires Walk(h, path) && |path| > 0
    ensures Walk(h, path[1..])
  {
    hide Holds;
    forall i | 0 <= i < |path[1..]| - 1 ensures Holds(h, path[1..][i], path[1..][i + 1]) {
      assert Holds(h, path[i + 1], path[i + 2]);
    }
  }

  /** Going round a cycle from one of its tables as far as wanted. */
  function Round(cycle: seq<nat>, k: nat, n: nat): (path: seq<nat>)
    requires k < |cycle|
    ensures |path| == n
    decreases n
  {
    if n == 0 then [] else [cycle[k]] + Round(cycle, if k + 1 < |cycle| then k + 1 else 0, n - 1)
  }

  lemma {:induction false} RoundWalks(h: Heap, cycle: seq<nat>, k: nat, n: nat)
    requires k < |cycle| && Walk(h, cycle + [cycle[0]])
    ensures Walk(h, Round(cycle, k, n))
    decreases n
  {
    hide Holds;
    if n > 1 {
      var next, c := if k + 1 < |cycle| then k + 1 else 0, cycle + [cycle[0]];
      RoundWalks(h, cycle, next, n - 1);
      assert Holds(h, c[k], c[k + 1]);
      var path, rest := Round(cycle, k, n), Round(cycle, next, n - 1);
      forall i | 0 <= i < |path| - 1 ensures Holds(h, path[i], path[i + 1]) {
        if i > 0 { assert Holds(h, rest[i - 1], rest[i]); }
      }
    }
  }

  /** A table that is inside itself, however indirectly, is never encoded. */
  lemma {:induction false} CyclicFails(cfg: Config, cv: Conv, h: Heap, cycle: seq<nat>, depth: nat)
    requires depth <= cfg.encodeMaxDepth && UniqueKeys(h)
    requires |cycle| > 0 && Walk(h, cycle + [cycle[0]])
    ensures Encode(cfg, cv, h, Table(cycle[0]), depth).Failed?
  {
    hide UniqueKeys, Walk, Encode;
    var n := cfg.encodeMaxDepth - depth + 1;
    RoundWalks(h, cycle, 0, n);
    assert Round(cycle, 0, n)[0] == cycle[0];
    DeepFails(cfg, cv, h, Round(cycle, 0, n), depth);
  }

  // ----- how deep encoded text nests -----

  /** Reading text for its nesting: the brackets open so far, outside strings only, and whether each closer fitted. */
  datatype Reading = Reading(inString: bool, escaped: bool, open: seq<byte>, deepest: nat, matched: bool)

  /** The closer of `[` is `]`, the closer of `{` is `}`. */
  predicate Closes(open: byte, close: byte)
  {
    (open == 91 && close == 93) || (open == 123 && close == 125)
  }

  function ReadByte(st: Reading, c: byte): (r: Reading)
  {
    if st.inString then
      if st.escaped then st.(escaped := false)
      else if c == 92 then st.(escaped := true)
      else if c == 34 then st.(inString := false)
      else st
    else if c == 34 then st.(inString := true)
    else if c == 91 || c == 123 then Deeper(st, c)
    else if c == 93 || c == 125 then
      var n := |st.open|;
      if n > 0 && Closes(st.open[n - 1], c) then st.(open := st.open[..n - 1]) else st.(matched := false)
    else st
  }

  function Deeper(st: Reading, open: byte): (r: Reading)
  {
    st.(open := st.open + [open], deepest := Larger(st.deepest, |st.open| + 1))
  }

  function ReadText(st: Reading, t: seq<byte>): (r: Reading)
    decreases |t|
  {
    if t == [] then st else ReadText(ReadByte(st, t[0]), t[1..])
  }

  lemma {:induction false} ReadConcat(st: Reading, a: seq<byte>, b: seq<byte>)
    ensures ReadText(st, a + b) == ReadText(ReadText(st, a), b)
    decreases |a|
  {
    hide ReadByte;
    if a == [] {
      assert a + b == b;
    } else {
      assert (a + b)[1..] == a[1..] + b;
      ReadConcat(ReadByte(st, a[0]), a[1..], b);
    }
  }

  lemma {:induction false} ReadOne(st: Reading, c: byte)
    ensures ReadText(st, [c]) == ReadByte(st, c)
  {
    assert [c][1..] == [];
  }

  /** Number text has no quote, backslash or bracket in it. */
  ghost predicate PlainNumbers(cv: Conv)
  {
    forall n :: Plain(cv.fmt(n))
  }

  predicate Plain(t: seq<byte>)
  {
    forall i :: 0 <= i < |t| ==> t[i] !in [34, 92, 91, 93, 123, 125]
  }

  lemma {:induction false} PlainReads(st: Reading, t: seq<byte>)
    requires Plain(t) && !st.escaped
    ensures ReadText(st, t) == st
    decreases |t|
  {
    if t != [] { PlainReads(st, t[1..]); }
  }

  lemma {:induction false} EscapeReads(st: Reading, c: byte)
    requires st.inString && !st.escaped
    ensures ReadText(st, Escape(c)) == st
  {
    var e := Escape(c);
    if |e| == 1 {
      assert e[1..] == [];
    } else {
      assert e[1..][0] == e[1];
      assert ReadByte(ReadByte(st, e[0]), e[1]) == st;
      assert Plain(e[2..]);
      assert e[1..][1..] == e[2..];
      PlainReads(st, e[2..]);
      assert ReadText(st, e) == ReadText(ReadByte(st, e[0]), e[1..]);
    }
  }

  lemma {:induction false} EscapesRead(st: Reading, s: seq<byte>)
    requires st.inString && !st.escaped
    ensures ReadText(st, EscapeAll(s)) == st
    decreases |s|
  {
    hide Escape;
    if s != [] {
      EscapeReads(st, s[0]);
      EscapesRead(st, s[1..]);
      ReadConcat(st, Escape(s[0]), EscapeAll(s[1..]));
    }
  }

  /** Text that leaves the nesting as it was, going at most `room` levels deeper on the way. */
  ghost predicate Nests(t: seq<byte>, room: nat)
  {
    forall st: Reading :: !st.inString && !st.escaped && |st.open| <= st.deepest ==> NestsFrom(st, t, room)
  }

  predicate NestsFrom(st: Reading, t: seq<byte>, room: nat)
  {
    && ReadText(st, t) == st.(deepest := ReadText(st, t).deepest)
    && st.deepest <= ReadText(st, t).deepest <= Larger(st.deepest, |st.open| + room)
  }

  lemma {:induction false} NestsJoin(a: seq<byte>, b: seq<byte>, room: nat)
    requires Nests(a, room) && Nests(b, room)
    ensures Nests(a + b, room)
  {
    hide ReadText, NestsFrom;
    forall st: Reading | !st.inString && !st.escaped && |st.open| <= st.deepest
      ensures NestsFrom(st, a + b, room)
    {
      assert NestsFrom(st, a, room);
      NestsKeeps(st, a, room);
      assert NestsFrom(ReadText(st, a), b, room);
      JoinFrom(st, a, b, room);
    }
  }

  lemma {:induction false} NestsKeeps(st: Reading, t: seq<byte>, room: nat)
    requires NestsFrom(st, t, room)
    ensures var r := ReadText(st, t);
            r.inString == st.inString && r.escaped == st.escaped && r.open == st.open && st.deepest <= r.deepest
  {
    hide ReadText;
  }

  lemma {:induction false} JoinFrom(st: Reading, a: seq<byte>, b: seq<byte>, room: nat)
    requires NestsFrom(st, a, room) && NestsFrom(ReadText(st, a), b, room)
    ensures NestsFrom(st, a + b, room)
  {
    hide ReadText;
    ReadConcat(st, a, b);
  }

  /** Brackets around text cost one level. */
  lemma {:induction false} NestsBracketed(open: byte, t: seq<byte>, close: byte, room: nat)
    requires Closes(open, close) && Nests(t, room)
    ensures Nests([open] + t + [close], room + 1)
  {
    hide ReadText, NestsFrom;
    forall st: Reading | !st.inString && !st.escaped && |st.open| <= st.deepest
      ensures NestsFrom(st, [open] + t + [close], room + 1)
    {
      assert NestsFrom(Deeper(st, open), t, room);
      BracketedFrom(st, open, t, close, room);
    }
  }

  lemma {:induction false} BracketedFrom(st: Reading, open: byte, t: seq<byte>, close: byte, room: nat)
    requires Closes(open, close)
    requires !st.inString && !st.escaped && |st.open| <= st.deepest
    requires NestsFrom(Deeper(st, open), t, room)
    ensures NestsFrom(st, [open] + t + [close], room + 1)
  {
    hide ReadText;
    var st1 := Deeper(st, open);
    ReadConcat(st, [open] + t, [close]);
    ReadConcat(st, [open], t);
    ReadOne(st, open);
    assert ReadByte(st, open) == st1;
    var st2 := ReadText(st1, t);
    ReadOne(st2, close);
    assert st2.open == st.open + [open];
    assert ReadByte(st2, close) == st2.(open := st.open);
  }

  lemma {:induction false} NestsPlain(t: seq<byte>, room: nat)
    requires Plain(t)
    ensures Nests(t, room)
  {
    forall st: Reading | !st.inString && !st.escaped && |st.open| <= st.deepest ensures NestsFrom(st, t, room) {
      PlainReads(st, t);
    }
  }

  /** Text between quotes, read as part of a string, does not nest. */
  lemma {:induction false} NestsQuoted(t: seq<byte>, room: nat)
    requires forall st: Reading :: st.inString && !st.escaped ==> ReadText(st, t) == st
    ensures Nests([34] + t + [34], room)
  {
    forall st: Reading | !st.inString && !st.escaped && |st.open| <= st.deepest
      ensures NestsFrom(st, [34] + t + [34], room)
    {
      var st1 := ReadByte(st, 34);
      ReadConcat(st, [34] + t, [34]);
      ReadConcat(st, [34], t);
      ReadOne(st, 34);
      ReadOne(st1, 34);
    }
  }

  lemma {:induction false} StringNests(s: seq<byte>, room: nat)
    ensures Nests(QuoteText(s), room)
  {
    hide Nests, EscapeAll;
    forall st: Reading | st.inString && !st.escaped ensures ReadText(st, EscapeAll(s)) == st {
      EscapesRead(st, s);
    }
    NestsQuoted(EscapeAll(s), room);
  }

  lemma {:induction false} NumberIsPlain(cfg: Config, cv: Conv, n: Lnum)
    requires PlainNumbers(cv)
    ensures NumberText(cfg, cv, n).Text? ==> Plain(NumberText(cfg, cv, n).t)
  {
    assert Plain(cv.fmt(n));
  }

  lemma {:induction false} KeyNests(cfg: Config, cv: Conv, k: Key, room: nat)
    requires PlainNumbers(cv)
    ensures KeyText(cfg, cv, k).Text? ==> Nests(KeyText(cfg, cv, k).t, room)
  {
    hide Nests, QuoteText, NumberText, PlainNumbers;
    if KeyText(cfg, cv, k).Text? {
      NestsPlain([58], room);
      match k
      case StrKey(s) =>
        StringNests(s, room);
        NestsJoin(QuoteText(s), [58], room);
      case NumKey(n) =>
        NumberIsPlain(cfg, cv, n);
        var t := NumberText(cfg, cv, n).t;
        forall st: Reading | st.inString && !st.escaped ensures ReadText(st, t) == st {
          PlainReads(st, t);
        }
        NestsQuoted(t, room);
        NestsJoin([34] + t + [34], [58], room);
        assert [34] + t + [34, 58] == [34] + t + [34] + [58];
    }
  }

  /** Encoded text nests no deeper than the levels still allowed where it begins. */
  lemma {:induction false} EncodingNests(cfg: Config, cv: Conv, h: Heap, v: Val, depth: nat)
    requires depth <= cfg.encodeMaxDepth && PlainNumbers(cv)
    ensures var e := Encode(cfg, cv, h, v, depth); e.Text? ==> Nests(e.t, cfg.encodeMaxDepth - depth)
    decreases cfg.encodeMaxDepth - depth, 0, 0
  {
    hide Nests, PlainNumbers, EncodeItems, EncodeEntries, QuoteText, NumberText, ShapeOf;
    var room := cfg.encodeMaxDepth - depth;
    match v
    case Str(s) => StringNests(s, room);
    case Num(n) =>
      NumberIsPlain(cfg, cv, n);
      if NumberText(cfg, cv, n).Text? { NestsPlain(NumberText(cfg, cv, n).t, room); }
    case Table(ref) =>
      if room > 0 {
        var es := Entries(h, ref);
        match ShapeOf(cfg, es)
        case TooSparse =>
        case ArrayOf(n) =>
          ItemsNest(cfg, cv, h, es, 1, n, depth + 1);
          if EncodeItems(cfg, cv, h, es, 1, n, depth + 1).Text? {
            NestsBracketed(91, EncodeItems(cfg, cv, h, es, 1, n, depth + 1).t, 93, room - 1);
          }
        case ObjectShape =>
          EntriesNest(cfg, cv, h, es, 0, depth + 1);
          if EncodeEntries(cfg, cv, h, es, 0, depth + 1).Text? {
            NestsBracketed(123, EncodeEntries(cfg, cv, h, es, 0, depth + 1).t, 125, room - 1);
          }
      }
    case Bool(b) => NestsPlain(if b then TRUE_TEXT else FALSE_TEXT, room);
    case Nil => NestsPlain(NULL_TEXT, room);
    case NullPointer => NestsPlain(NULL_TEXT, room);
    case Unsupported =>
  }

  lemma {:induction false} ItemsNest(cfg: Config, cv: Conv, h: Heap, es: seq<(Key, Val)>, i: nat, n: nat, depth: nat)
    requires depth <= cfg.encodeMaxDepth && PlainNumbers(cv)
    ensures var e := EncodeItems(cfg, cv, h, es, i, n, depth); e.Text? ==> Nests(e.t, cfg.encodeMaxDepth - depth)
    decreases cfg.encodeMaxDepth - depth, 1, if i <= n then n + 1 - i else 0
  {
    hide Nests, PlainNumbers, Encode, RawGet;
    var room := cfg.encodeMaxDepth - depth;
    if i > n {
      NestsPlain([], room);
    } else if EncodeItems(cfg, cv, h, es, i, n, depth).Text? {
      EncodingNests(cfg, cv, h, RawGet(es, i), depth);
      ItemsNest(cfg, cv, h, es, i + 1, n, depth);
      var comma, item := Comma(i == 1).t, Encode(cfg, cv, h, RawGet(es, i), depth).t;
      NestsPlain(comma, room);
      NestsJoin(comma, item, room);
      NestsJoin(comma + item, EncodeItems(cfg, cv, h, es, i + 1, n, depth).t, room);
    }
  }

  lemma {:induction false} EntriesNest(cfg: Config, cv: Conv, h: Heap, es: seq<(Key, Val)>, j: nat, depth: nat)
    requires depth <= cfg.encodeMaxDepth && PlainNumbers(cv) && j <= |es|
    ensures var e := EncodeEntries(cfg, cv, h, es, j, depth); e.Text? ==> Nests(e.t, cfg.encodeMaxDepth - depth)
    decreases cfg.encodeMaxDepth - depth, 1, |es| - j
  {
    hide Nests, PlainNumbers, Encode, KeyText;
    var room := cfg.encodeMaxDepth - depth;
    if j == |es| {
      NestsPlain([], room);
    } else if EncodeEntries(cfg, cv, h, es, j, depth).Text? {
      EncodingNests(cfg, cv, h, es[j].1, depth);
      EntriesNest(cfg, cv, h, es, j + 1, depth);
      KeyNests(cfg, cv, es[j].0, room);
      var comma, key, item := Comma(j == 0).t, KeyText(cfg, cv, es[j].0).t, Encode(cfg, cv, h, es[j].1, depth).t;
      NestsPlain(comma, room);
      NestsJoin(comma, key, room);
      NestsJoin(comma + key, item, room);
      NestsJoin(comma + key + item, EncodeEntries(cfg, cv, h, es, j + 1, depth).t, room);
    }
  }

  /**
   In every text the encoder produces each closing bracket closes the last one open, which is of its
   kind; all are closed at the end; and they are never nested beyond the limit.
   */
  lemma {:induction false} TextWithinLimit(cfg: Config, cv: Conv, h: Heap, v: Val)
    requires PlainNumbers(cv)
    ensures var e := Encode(cfg, cv, h, v, 0);
            e.Text? ==> var r := ReadText(Reading(false, false, [], 0, true), e.t);
                        r.matched && r.open == [] && !r.inString && r.deepest <= cfg.encodeMaxDepth
  {
    hide Encode, PlainNumbers, ReadText;
    EncodingNests(cfg, cv, h, v, 0);
    var e := Encode(cfg, cv, h, v, 0);
    if e.Text? { assert NestsFrom(Reading(false, false, [], 0, true), e.t, cfg.encodeMaxDepth); }
  }

  // ----- code points -----

  /** Reads one code point of UTF-8 (section 3 of RFC 3629), and how many bytes it takes. */
  function FromUtf8(t: seq<byte>): (r: Option<(int, nat)>)
  {
    if |t| >= 1 && t[0] < 0x80 then Some((t[0], 1))
    else if |t| >= 2 && 0xC2 <= t[0] < 0xE0 && Follows(t, 1) then
      Some((Payload(t, 0, 0xC0) * 0x40 + Payload(t, 1, 0x80), 2))
    else if |t| >= 3 && 0xE0 <= t[0] < 0xF0 && Follows(t, 1) && Follows(t, 2) then
      Shortest(Payload(t, 0, 0xE0) * 0x1000 + Payload(t, 1, 0x80) * 0x40 + Payload(t, 2, 0x80), 0x800, 3)
    else if |t| >= 4 && 0xF0 <= t[0] < 0xF8 && Follows(t, 1) && Follows(t, 2) && Follows(t, 3) then
      Shortest(Payload(t, 0, 0xF0) * 0x4_0000 + Payload(t, 1, 0x80) * 0x1000 + Payload(t, 2, 0x80) * 0x40
               + Payload(t, 3, 0x80), 0x1_0000, 4)
    else None
  }

  /** A code point in a form of this length, which is not for those below a bound. */
  function Shortest(c: int, least: int, len: nat): (r: Option<(int, nat)>)
  {
    if c < least then None else Some((c, len))
  }

  predicate Follows(t: seq<byte>, i: nat)
    requires i < |t|
  {
    0x80 <= t[i] < 0xC0
  }

  /** A byte without its marker bits. */
  function Payload(t: seq<byte>, i: nat, marker: int): (v: int)
    requires i < |t|
  {
    var b: int := t[i];
    b - marker
  }

  lemma {:induction false} Utf8Returns(c: int)
    requires 0 <= c < 0x20_0000
    ensures FromUtf8(Utf8(c)) == Some((c, |Utf8(c)|))
  {
    hide Utf8, FromUtf8;
    if c < 0x800 {
      NarrowReturns(c);
    } else if c < 0x1_0000 {
      ThreeReturn(c / 0x1000, c / 0x40 % 0x40, c % 0x40);
      Sextets(c);
    } else {
      FourReturn(c / 0x4_0000, c / 0x1000 % 0x40, c / 0x40 % 0x40, c % 0x40);
      Sextets(c);
    }
  }

  lemma {:induction false} NarrowReturns(c: int)
    requires 0 <= c < 0x800
    ensures FromUtf8(Utf8(c)) == Some((c, |Utf8(c)|))
  {
  }

  lemma {:induction false} Sextets(c: int)
    requires 0 <= c < 0x20_0000
    ensures c == c / 0x1000 * 0x1000 + c / 0x40 % 0x40 * 0x40 + c % 0x40
    ensures c == c / 0x4_0000 * 0x4_0000 + c / 0x1000 % 0x40 * 0x1000 + c / 0x40 % 0x40 * 0x40 + c % 0x40
  {
    var q := c / 0x40;
    var r := q / 0x40;
    assert r == c / 0x1000 && r / 0x40 == c / 0x4_0000;
  }

  lemma {:induction false} ThreeReturn(a: int, b: int, e: int)
    requires 0 <= a < 0x10 && 0 <= b < 0x40 && 0 <= e < 0x40
    requires var c := a * 0x1000 + b * 0x40 + e; c >= 0x800
    ensures var c := a * 0x1000 + b * 0x40 + e; FromUtf8(Utf8(c)) == Some((c, |Utf8(c)|))
  {
    var c := a * 0x1000 + b * 0x40 + e;
    var q := a * 0x40 + b;
    assert c / 0x40 == q && c % 0x40 == e;
    assert c / 0x1000 == a && q % 0x40 == b;
    assert Utf8(c) == [a + 0xE0, b + 0x80, e + 0x80];
    hide Utf8;
  }

  lemma {:induction false} FourReturn(f: int, a: int, b: int, e: int)
    requires 0 <= f < 8 && 0 <= a < 0x40 && 0 <= b < 0x40 && 0 <= e < 0x40
    requires var c := f * 0x4_0000 + a * 0x1000 + b * 0x40 + e; c >= 0x1_0000
    ensures var c := f * 0x4_0000 + a * 0x1000 + b * 0x40 + e; FromUtf8(Utf8(c)) == Some((c, |Utf8(c)|))
  {
    var c := f * 0x4_0000 + a * 0x1000 + b * 0x40 + e;
    var p := f * 0x40 + a;
    var q := p * 0x40 + b;
    assert c == q * 0x40 + e;
    assert c / 0x40 == q && c % 0x40 == e;
    assert c / 0x1000 == p && q % 0x40 == b;
    assert c / 0x4_0000 == f && p % 0x40 == a;
    assert Utf8(c) == [f + 0xF0, a + 0x80, b + 0x80, e + 0x80];
    hide Utf8;
  }

  /**
   What a \u escape stands for: a code unit by itself, or two surrogates that together name a
   code point from 0x1_0000 on; a surrogate on its own is an error.
   */
  lemma {:induction false} EscapeNamesCodePoint(d: seq<byte>, i: nat)
    requires i + 2 <= |d|
    ensures var r, high := UnicodeEscape(d, i), Hex4(d, i + 2);
            && (high < 0 || 0xDC00 <= high <= 0xDFFF ==> r.None?)
            && (0 <= high < 0xD800 || high > 0xDFFF ==>
                  r.Some? && r.value.1 == 6 && FromUtf8(r.value.0) == Some((high, |r.value.0|)))
            && (0xD800 <= high < 0xDC00 ==>
                  if Ch(d, i + 6) == 92 && Ch(d, i + 7) == 117 && 0xDC00 <= Hex4(d, i + 8) <= 0xDFFF
                  then r.Some? && r.value.1 == 12 && |r.value.0| == 4
                       && FromUtf8(r.value.0) == Some((0x1_0000 + (high - 0xD800) * 0x400 + (Hex4(d,
                          i + 8) - 0xDC00), 4))
                  else r.None?)
  {
    hide Hex4, FromUtf8, Utf8;
    var high := Hex4(d, i + 2);
    if high >= 0 { Utf8Returns(high); Utf8Width(high); }
    if 0xD800 <= high < 0xDC00 && Ch(d, i + 6) == 92 && Ch(d, i + 7) == 117 {
      var low := Hex4(d, i + 8);
      if 0xDC00 <= low <= 0xDFFF {
        Utf8Returns((high - 0xD800) * 0x400 + (low - 0xDC00) + 0x1_0000);
        Utf8Width((high - 0xD800) * 0x400 + (low - 0xDC00) + 0x1_0000);
      }
    }
  }

  lemma {:induction false} Utf8Width(c: int)
    requires 0 <= c < 0x20_0000
    ensures c >= 0x1_0000 ==> |Utf8(c)| == 4
  {
  }
}
