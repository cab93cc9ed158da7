/**
 What the JSON encoder and decoder of `lae/source/lua_cjson.c` compute, as functions of a heap of Lua
 tables and of a text.

 Numbers are printed and scanned by library code, which enters as the two functions of
 `Conv`; what a round trip needs of them is stated as a condition on the number.
 */
module Json {
  import opened Bytes

  // ----- Lua values -----

  /** A Lua number: a double is a real, an infinity, or not a number. */
  datatype Lnum = Finite(r: real) | Infinite(neg: bool) | NotANumber

  /** A table key as the encoder sees it. */
  datatype Key = StrKey(s: seq<byte>) | NumKey(n: Lnum) | OtherKey

  /** A value on the Lua stack; tables are references into a heap and may be cyclic. */
  datatype Val =
    | Nil
    | NullPointer                 // light userdata NULL, `cjson.null`
    | Bool(b: bool)
    | Num(n: Lnum)
    | Str(s: seq<byte>)
    | Table(ref: nat)
    | Unsupported                 // functions, threads, userdata

  /** The entries of every table, in the order `lua_next` visits them. */
  type Heap = map<nat, seq<(Key, Val)>>

  function Entries(h: Heap, ref: nat): (es: seq<(Key, Val)>)
  {
    if ref in h then h[ref] else []
  }

  /** A value the decoder builds: tables with string keys or keys 1, 2, ... */
  datatype Tree =
    | TNull
    | TBool(b: bool)
    | TNum(n: Lnum)
    | TStr(s: seq<byte>)
    | TTable(m: map<TKey, Tree>)

  datatype TKey = KStr(s: seq<byte>) | KInt(i: nat)

  datatype Config = Config(sparseConvert: bool, sparseRatio: int, sparseSafe: int, encodeMaxDepth: nat,
                           encodeInvalid: nat, decodeInvalid: bool, decodeMaxDepth: nat)

  /** Number printing, and number scanning: the value and how many bytes it took. */
  datatype Conv = Conv(fmt: Lnum -> seq<byte>, scan: seq<byte> -> (Lnum, nat))

  datatype Encoded = Text(t: seq<byte>) | Failed

  // ----- encoding -----

  function HexDigit(n: int): (c: byte)
    requires 0 <= n < 16
  {
    if n < 10 then 48 + n else 87 + n
  }

  /** The `char2escape` table. */
  function Escape(c: byte): (t: seq<byte>)
    ensures 1 <= |t| <= 6
  {
    if c == 8 then [92, 98]
    else if c == 9 then [92, 116]
    else if c == 10 then [92, 110]
    else if c == 12 then [92, 102]
    else if c == 13 then [92, 114]
    else if c == 34 || c == 47 || c == 92 then [92, c]
    else if c < 32 || c == 127 then [92, 117, 48, 48, HexDigit(c / 16), HexDigit(c % 16)]
    else [c]
  }

  function EscapeAll(s: seq<byte>): (t: seq<byte>)
    ensures |t| <= 6 * |s|
  {
    if |s| == 0 then [] else Escape(s[0]) + EscapeAll(s[1..])
  }

  function QuoteText(s: seq<byte>): (t: seq<byte>)
  {
    [34] + EscapeAll(s) + [34]
  }

  const NULL_TEXT: seq<byte> := [110, 117, 108, 108]
  const TRUE_TEXT: seq<byte> := [116, 114, 117, 101]
  const FALSE_TEXT: seq<byte> := [102, 97, 108, 115, 101]
  const NAN_TEXT: seq<byte> := [110, 97, 110]

  function NumberText(cfg: Config, cv: Conv, n: Lnum): (e: Encoded)
  {
    if cfg.encodeInvalid == 0 then (if n.Finite? then Text(cv.fmt(n)) else Failed)
    else if cfg.encodeInvalid == 1 then Text(if n.NotANumber? then NAN_TEXT else cv.fmt(n))
    else Text(if n.Finite? then cv.fmt(n) else NULL_TEXT)
  }

  /** A positive whole number used as an array index. */
  predicate IsIndex(k: Key)
  {
    k.NumKey? && k.n.Finite? && k.n.r >= 1.0 && k.n.r.Floor as real == k.n.r
  }

  function IndexOf(k: Key): (i: int)
    requires IsIndex(k)
    ensures i >= 1
  {
    k.n.r.Floor
  }

  function Larger(a: int, b: int): (m: int)
  {
    if a > b then a else b
  }

  /** The largest index among entries that are all indices. */
  function MaxIndex(es: seq<(Key, Val)>): (m: int)
    requires AllIndices(es)
    ensures m >= 0
    ensures forall j :: 0 <= j < |es| ==> IndexOf(es[j].0) <= m
  {
    if |es| == 0 then 0 else Larger(MaxIndex(es[..|es| - 1]), IndexOf(es[|es| - 1].0))
  }

  predicate AllIndices(es: seq<(Key, Val)>)
  {
    forall j :: 0 <= j < |es| ==> IsIndex(es[j].0)
  }

  /** `lua_array_length`: an array's length, an object, or an excessively sparse array. */
  datatype Shape = ArrayOf(n: nat) | ObjectShape | TooSparse

  function ShapeOf(cfg: Config, es: seq<(Key, Val)>): (sh: Shape)
  {
    if !AllIndices(es) then ObjectShape
    else
      var max := MaxIndex(es);
      if cfg.sparseRatio > 0 && max > |es| * cfg.sparseRatio && max > cfg.sparseSafe then
        (if cfg.sparseConvert then ObjectShape else TooSparse)
      else if max > 0 then ArrayOf(max)
      else ObjectShape
  }

  /** `lua_rawgeti`: the value under an index, or nil. */
  function RawGet(es: seq<(Key, Val)>, i: nat): (v: Val)
  {
    if |es| == 0 then Nil
    else if es[0].0 == NumKey(Finite(i as real)) then es[0].1
    else RawGet(es[1..], i)
  }

  function Joined(a: Encoded, b: Encoded): (r: Encoded)
  {
    if a.Failed? || b.Failed? then Failed else Text(a.t + b.t)
  }

  function KeyText(cfg: Config, cv: Conv, k: Key): (e: Encoded)
  {
    match k
    case StrKey(s) => Text(QuoteText(s) + [58])
    case NumKey(n) => Joined(Joined(Text([34]), NumberText(cfg, cv, n)), Text([34, 58]))
    case OtherKey => Failed
  }

  /** `json_append_data` at a nesting depth; a table goes one level deeper, up to the limit. */
  function Encode(cfg: Config, cv: Conv, h: Heap, v: Val, depth: nat): (e: Encoded)
    requires depth <= cfg.encodeMaxDepth
    decreases cfg.encodeMaxDepth - depth, 0, 0
  {
    match v
    case Nil => Text(NULL_TEXT)
    case NullPointer => Text(NULL_TEXT)
    case Bool(b) => Text(if b then TRUE_TEXT else FALSE_TEXT)
    case Num(n) => NumberText(cfg, cv, n)
    case Str(s) => Text(QuoteText(s))
    case Table(ref) =>
      if depth + 1 > cfg.encodeMaxDepth then Failed
      else
        var es := Entries(h, ref);
        (match ShapeOf(cfg, es)
         case TooSparse => Failed
         case ArrayOf(n) => Joined(Joined(Text([91]), EncodeItems(cfg, cv, h, es, 1, n, depth + 1)), Text([93]))
         case ObjectShape => Joined(Joined(Text([123]), EncodeEntries(cfg, cv, h, es, 0, depth + 1)), Text([125])))
    case Unsupported => Failed
  }

  function Comma(first: bool): (t: Encoded)
  {
    Text(if first then [] else [44])
  }

  /** The items i to n of an array, each but the first after a comma. */
  function EncodeItems(cfg: Config, cv: Conv, h: Heap, es: seq<(Key, Val)>, i: nat, n: nat, depth: nat): (e: Encoded)
    requires depth <= cfg.encodeMaxDepth
    decreases cfg.encodeMaxDepth - depth, 1, if i <= n then n + 1 - i else 0
  {
    if i > n then Text([])
    else Joined(Joined(Comma(i == 1), Encode(cfg, cv, h, RawGet(es, i), depth)),
                EncodeItems(cfg, cv, h, es, i + 1, n, depth))
  }

  /** The entries from j on, each but the first after a comma. */
  function EncodeEntries(cfg: Config, cv: Conv, h: Heap, es: seq<(Key, Val)>, j: nat, depth: nat): (e: Encoded)
    requires depth <= cfg.encodeMaxDepth && j <= |es|
    decreases cfg.encodeMaxDepth - depth, 1, |es| - j
  {
    if j == |es| then Text([])
    else Joined(Joined(Joined(Comma(j == 0), KeyText(cfg, cv, es[j].0)), Encode(cfg, cv, h, es[j].1, depth)),
                EncodeEntries(cfg, cv, h, es, j + 1, depth))
  }

  // ----- decoding: characters and tokens -----

  /** The byte at i of a text that ends with a terminator. */
  function Ch(d: seq<byte>, i: nat): (c: byte)
    requires i <= |d|
  {
    if i < |d| then d[i] else 0
  }

  function HexValue(c: byte): (v: int)
    ensures -1 <= v < 16
    ensures c == 0 ==> v == -1
  {
    if 48 <= c <= 57 then c - 48
    else if 97 <= c <= 102 then c - 87
    else if 65 <= c <= 70 then c - 55
    else -1
  }

  /** `decode_hex4`: reads no further than the first byte that is not a hex digit. */
  function Hex4(d: seq<byte>, i: nat): (v: int)
    requires i <= |d|
    ensures -1 <= v < 0x1_0000
    ensures v >= 0 ==> i + 4 <= |d|
  {
    var a := HexValue(Ch(d, i));
    if a < 0 then -1
    else
      var b := HexValue(Ch(d, i + 1));
      if b < 0 then -1
      else
        var c := HexValue(Ch(d, i + 2));
        if c < 0 then -1
        else
          var e := HexValue(Ch(d, i + 3));
          if e < 0 then -1 else a * 0x1000 + b * 0x100 + c * 0x10 + e
  }

  /** `codepoint_to_utf8`. */
  function Utf8(c: int): (t: seq<byte>)
    requires 0 <= c < 0x20_0000
    ensures 1 <= |t| <= 4 && (c < 0x1_0000 ==> |t| <= 3)
  {
    if c <= 0x7F then [c]
    else if c <= 0x7FF then [c / 0x40 + 0xC0, c % 0x40 + 0x80]
    else if c <= 0xFFFF then [c / 0x1000 + 0xE0, c / 0x40 % 0x40 + 0x80, c % 0x40 + 0x80]
    else [c / 0x4_0000 + 0xF0, c / 0x1000 % 0x40 + 0x80, c / 0x40 % 0x40 + 0x80, c % 0x40 + 0x80]
  }

  /** A \u escape at i, with the second half of a surrogate pair: the bytes, and the length read. */
  function UnicodeEscape(d: seq<byte>, i: nat): (r: Option<(seq<byte>, nat)>)
    requires i + 2 <= |d|
    ensures r.Some? ==> |r.value.0| < r.value.1 && i + r.value.1 <= |d|
  {
    var c := Hex4(d, i + 2);
    if c < 0 then None
    else if 0xD800 <= c <= 0xDFFF then
      if c >= 0xDC00 || Ch(d, i + 6) != 92 || Ch(d, i + 7) != 117 then None
      else
        var low := Hex4(d, i + 8);
        if !(0xDC00 <= low <= 0xDFFF) then None
        else Some((Utf8((c - 0xD800) * 0x400 + (low - 0xDC00) + 0x1_0000), 12))
    else Some((Utf8(c), 6))
  }

  /** The `escape2char` table; 0 marks an invalid escape. */
  function Unescape(c: byte): (e: byte)
  {
    if c == 34 || c == 92 || c == 47 then c
    else if c == 98 then 8
    else if c == 116 then 9
    else if c == 110 then 10
    else if c == 102 then 12
    else if c == 114 then 13
    else if c == 117 then 117
    else 0
  }

  /** One unit of a string body at i, which is neither its end nor the terminator. */
  function StringUnit(d: seq<byte>, i: nat): (r: Option<(seq<byte>, nat)>)
    requires i < |d|
    ensures r.Some? ==> |r.value.0| <= r.value.1 && 1 <= r.value.1 && i + r.value.1 <= |d|
  {
    if d[i] != 92 then Some(([d[i]], 1))
    else
      var e := Unescape(Ch(d, i + 1));
      if e == 117 then UnicodeEscape(d, i)
      else if e == 0 then None
      else Some(([e], 2))
  }

  /** The rest of a string from i on: its bytes, and where the text goes on after the quote. */
  function StringBody(d: seq<byte>, i: nat, acc: seq<byte>): (r: Option<(seq<byte>, nat)>)
    requires i <= |d|
    ensures r.Some? ==> i < r.value.1 <= |d| && |r.value.0| - |acc| < r.value.1 - i
    decreases |d| - i
  {
    if Ch(d, i) == 0 then None
    else if d[i] == 34 then Some((acc, i + 1))
    else
      match StringUnit(d, i)
      case None => None
      case Some(u) => StringBody(d, i + u.1, acc + u.0)
  }

  datatype Token =
    | ObjBegin | ObjEnd | ArrBegin | ArrEnd | Colon | CommaTok
    | StrTok(s: seq<byte>) | NumTok(n: Lnum) | BoolTok(b: bool) | NullTok
    | EndTok | ErrTok

  predicate IsSpace(c: byte)
  {
    c == 32 || c == 9 || c == 10 || c == 13
  }

  function SkipSpace(d: seq<byte>, i: nat): (j: nat)
    requires i <= |d|
    ensures i <= j <= |d| && !IsSpace(Ch(d, j))
    decreases |d| - i
  {
    if IsSpace(Ch(d, i)) then SkipSpace(d, i + 1) else i
  }

  /** `strncmp` of the text at i with a word. */
  predicate Starts(d: seq<byte>, i: nat, w: seq<byte>)
    requires i <= |d|
  {
    i + |w| <= |d| && d[i..i + |w|] == w
  }

  function Lower(c: byte): (r: byte)
  {
    if 65 <= c <= 90 then c + 32 else c
  }

  /** Three letters in either case. */
  predicate StartsAnyCase(d: seq<byte>, i: nat, w: seq<byte>)
    requires i <= |d| && |w| == 3
  {
    i + 3 <= |d| && Lower(d[i]) == w[0] && Lower(d[i + 1]) == w[1] && Lower(d[i + 2]) == w[2]
  }

  /** `json_is_invalid_number`; bytes from 128 on count as negative characters. */
  predicate BadNumber(d: seq<byte>, i: nat)
    requires i <= |d|
  {
    if Ch(d, i) == 43 then true
    else
      var p := if Ch(d, i) == 45 then i + 1 else i;
      var c := Ch(d, p);
      if c == 48 then
        var c2 := Ch(d, p + 1);
        c2 == 120 || c2 == 88 || 48 <= c2 <= 57
      else if c <= 57 || c >= 128 then false
      else StartsAnyCase(d, p, [105, 110, 102]) || StartsAnyCase(d, p, [110, 97, 110])
  }

  /** What the decoder relies on: the scanner stays inside the text. */
  ghost predicate ScanOk(cv: Conv)
  {
    forall t :: cv.scan(t).1 <= |t|
  }

  /** `json_next_number_token`: more than 14 bytes come out as a string. */
  function NumberToken(cv: Conv, d: seq<byte>, i: nat): (r: (Token, nat))
    requires i <= |d| && ScanOk(cv)
    ensures i <= r.1 <= |d|
    ensures r.0 != ErrTok ==> i < r.1
  {
    var (n, len) := cv.scan(d[i..]);
    if len == 0 then (ErrTok, i)
    else if len > 14 then (StrTok(d[i..i + len]), i + len)
    else (NumTok(n), i + len)
  }

  /** The tokens that are one character, the end, and invalid characters. */
  function SingleToken(c: byte): (t: Option<Token>)
  {
    if c == 123 then Some(ObjBegin)
    else if c == 125 then Some(ObjEnd)
    else if c == 91 then Some(ArrBegin)
    else if c == 93 then Some(ArrEnd)
    else if c == 44 then Some(CommaTok)
    else if c == 58 then Some(Colon)
    else if c == 0 then Some(EndTok)
    else if c in [102, 105, 73, 110, 78, 116, 34, 43, 45] || 48 <= c <= 57 then None
    else Some(ErrTok)
  }

  /** `json_next_token`: the token at or after i, and where the text goes on. */
  function NextToken(cfg: Config, cv: Conv, d: seq<byte>, i0: nat): (r: (Token, nat))
    requires i0 <= |d| && ScanOk(cv)
    ensures i0 <= r.1 <= |d|
    ensures r.0 != EndTok && r.0 != ErrTok ==> i0 < r.1
  {
    var i := SkipSpace(d, i0);
    var c := Ch(d, i);
    match SingleToken(c)
    case Some(t) => if t == EndTok || t == ErrTok then (t, i) else (t, i + 1)
    case None =>
      if c == 34 then
        match StringBody(d, i + 1, [])
        case None => (ErrTok, i)
        case Some(r) => (StrTok(r.0), r.1)
      else if c == 45 || 48 <= c <= 57 then
        if !cfg.decodeInvalid && BadNumber(d, i) then (ErrTok, i) else NumberToken(cv, d, i)
      else if Starts(d, i, TRUE_TEXT) then (BoolTok(true), i + 4)
      else if Starts(d, i, FALSE_TEXT) then (BoolTok(false), i + 5)
      else if Starts(d, i, NULL_TEXT) then (NullTok, i + 4)
      else if cfg.decodeInvalid && BadNumber(d, i) then NumberToken(cv, d, i)
      else (ErrTok, i)
  }

  // ----- decoding: values -----

  datatype Parsed = Value(v: Tree, at: nat) | Bad

  function FromItems(items: seq<Tree>): (m: map<TKey, Tree>)
  {
    map i | 1 <= i <= |items| :: KInt(i) := items[i - 1]
  }

  /** `json_process_value` for a token that ends at i. */
  function ParseValue(cfg: Config, cv: Conv, d: seq<byte>, tok: Token, i: nat, depth: nat): (r: Parsed)
    requires i <= |d| && ScanOk(cv)
    ensures r.Value? ==> i <= r.at <= |d|
    decreases |d| - i, 0
  {
    match tok
    case StrTok(s) => Value(TStr(s), i)
    case NumTok(n) => Value(TNum(n), i)
    case BoolTok(b) => Value(TBool(b), i)
    case NullTok => Value(TNull, i)
    case ArrBegin =>
      if depth + 1 > cfg.decodeMaxDepth then Bad
      else
        var (t, j) := NextToken(cfg, cv, d, i);
        if t == ArrEnd then Value(TTable(map[]), j)
        else if t == EndTok || t == ErrTok then Bad
        else ParseItems(cfg, cv, d, t, j, [], depth + 1)
    case ObjBegin =>
      if depth + 1 > cfg.decodeMaxDepth then Bad
      else
        var (t, j) := NextToken(cfg, cv, d, i);
        if t == ObjEnd then Value(TTable(map[]), j)
        else if t == EndTok || t == ErrTok then Bad
        else ParseMembers(cfg, cv, d, t, j, map[], depth + 1)
    case _ => Bad
  }

  /** The loop of `json_parse_array_context`, with the first token of the next item in hand. */
  function ParseItems(cfg: Config, cv: Conv, d: seq<byte>, tok: Token, i: nat, items: seq<Tree>,
                      depth: nat): (r: Parsed)
    requires i <= |d| && ScanOk(cv)
    ensures r.Value? ==> i <= r.at <= |d|
    decreases |d| - i, 1
  {
    match ParseValue(cfg, cv, d, tok, i, depth)
    case Bad => Bad
    case Value(v, j) =>
      var (t, k) := NextToken(cfg, cv, d, j);
      if t == ArrEnd then Value(TTable(FromItems(items + [v])), k)
      else if t != CommaTok then Bad
      else
        var (t', k') := NextToken(cfg, cv, d, k);
        ParseItems(cfg, cv, d, t', k', items + [v], depth)
  }

  /** The loop of `json_parse_object_context`, with the token of the next key in hand. */
  function ParseMembers(cfg: Config, cv: Conv, d: seq<byte>, tok: Token, i: nat, m: map<TKey, Tree>,
                        depth: nat): (r: Parsed)
    requires i <= |d| && ScanOk(cv)
    ensures r.Value? ==> i <= r.at <= |d|
    decreases |d| - i, 1
  {
    if !tok.StrTok? then Bad
    else
      var (c, j) := NextToken(cfg, cv, d, i);
      if c != Colon then Bad
      else
        var (t, k) := NextToken(cfg, cv, d, j);
        match ParseValue(cfg, cv, d, t, k, depth)
        case Bad => Bad
        case Value(v, l) =>
          var m' := m[KStr(tok.s) := v];
          var (t', l') := NextToken(cfg, cv, d, l);
          if t' == ObjEnd then Value(TTable(m'), l')
          else if t' != CommaTok then Bad
          else
            var (t'', l'') := NextToken(cfg, cv, d, l');
            ParseMembers(cfg, cv, d, t'', l'', m', depth)
  }

  /** `json_decode`: rejects what looks like UTF-16 or UTF-32, and anything after the value. */
  function Decode(cfg: Config, cv: Conv, d: seq<byte>): (r: Option<Tree>)
    requires ScanOk(cv)
  {
    if |d| >= 2 && (d[0] == 0 || d[1] == 0) then None
    else
      var (t, i) := NextToken(cfg, cv, d, 0);
      match ParseValue(cfg, cv, d, t, i, 0)
      case Bad => None
      case Value(v, j) => if NextToken(cfg, cv, d, j).0 == EndTok then Some(v) else None
  }

  // ----- one turn of a loop -----

  /** One turn of the object loop, with every way it can end. */
  lemma {:induction false} MemberTurn(cfg: Config, cv: Conv, d: seq<byte>, tok: Token, i: nat, m: map<TKey, Tree>,
                                      depth: nat)
    requires i <= |d| && ScanOk(cv)
    ensures var r := ParseMembers(cfg, cv, d, tok, i, m, depth);
            if !tok.StrTok? then r == Bad
            else
              var (c, j) := NextToken(cfg, cv, d, i);
              if c != Colon then r == Bad
              else
                var (t, k) := NextToken(cfg, cv, d, j);
                match ParseValue(cfg, cv, d, t, k, depth)
                case Bad => r == Bad
                case Value(v, l) =>
                  var (t', l') := NextToken(cfg, cv, d, l);
                  if t' == ObjEnd then r == Value(TTable(m[KStr(tok.s) := v]), l')
                  else if t' != CommaTok then r == Bad
                  else
                    var (t'', l'') := NextToken(cfg, cv, d, l');
                    r == ParseMembers(cfg, cv, d, t'', l'', m[KStr(tok.s) := v], depth)
  {
    hide NextToken, ParseValue;
  }

  /** One turn of the array loop, with every way it can end. */
  lemma {:induction false} ItemTurn(cfg: Config, cv: Conv, d: seq<byte>, tok: Token, i: nat, items: seq<Tree>,
                                    depth: nat)
    requires i <= |d| && ScanOk(cv)
    ensures var r := ParseItems(cfg, cv, d, tok, i, items, depth);
            match ParseValue(cfg, cv, d, tok, i, depth)
            case Bad => r == Bad
            case Value(v, j) =>
              var (t, k) := NextToken(cfg, cv, d, j);
              if t == ArrEnd then r == Value(TTable(FromItems(items + [v])), k)
              else if t != CommaTok then r == Bad
              else
                var (t', k') := NextToken(cfg, cv, d, k);
                r == ParseItems(cfg, cv, d, t', k', items + [v], depth)
  {
    hide NextToken, ParseValue, FromItems;
  }
}
