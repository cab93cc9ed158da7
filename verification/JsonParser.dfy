/**
 The decoder of `lae/source/lua_cjson.c` as it runs: a cursor into the text, a nesting depth, and
 a temporary buffer as large as the text whose appends are all unchecked. Each step is proved
 to compute what module Json says; a raised error is a `false`.
 */
module JsonParser {
  import opened Bytes
  import opened StrBuf
  import opened Json

  class Parser {
    const cfg: Config
    const cv: Conv
    const data: seq<byte>
    var ptr: nat
    var depth: nat
    const tmp: StringBuffer

    /** The cursor never passes the terminator, and the temporary buffer can hold the whole text. */
    ghost predicate Valid()
      reads this, tmp
    {
      ptr <= |data| && ScanOk(cv) && tmp.Valid() && tmp.size > |data|
    }

    /** Valid, and nested within the limit. */
    ghost predicate Live()
      reads this, tmp
    {
      Valid() && depth <= cfg.decodeMaxDepth
    }

    constructor (cfg: Config, cv: Conv, data: seq<byte>)
      requires ScanOk(cv)
      ensures Live() && this.cfg == cfg && this.cv == cv && this.data == data && ptr == 0 && depth == 0
      ensures fresh(tmp) && fresh(tmp.buf)
    {
      this.cfg, this.cv, this.data := cfg, cv, data;
      ptr, depth := 0, 0;
      tmp := new StringBuffer(|data|);
    }

    /** `json_append_unicode_escape`: the bytes are never more than the text they stand for. */
    method AppendUnicodeEscape() returns (ok: bool)
      requires Valid() && ptr + 2 <= |data| && tmp.length <= ptr
      modifies this`ptr, tmp`length, tmp.buf
      ensures Valid() && tmp.length <= ptr && old(ptr) <= ptr
      ensures var r := UnicodeEscape(data, old(ptr));
              && ok == r.Some?
              && (ok ==> ptr == old(ptr) + r.value.1 && tmp.Contents() == old(tmp.Contents()) + r.value.0)
    {
      hide Utf8, Hex4;
      var escapeLen := 6;
      var codepoint := Hex4(data, ptr + 2);
      if codepoint < 0 { return false; }
      SurrogateBits(codepoint);
      if codepoint / 0x800 == 0x1B {
        if codepoint / 0x400 % 2 == 1 { return false; }
        if Ch(data, ptr + escapeLen) != 92 { return false; }
        if Ch(data, ptr + escapeLen + 1) != 117 { return false; }
        var low := Hex4(data, ptr + 2 + escapeLen);
        if low < 0 { return false; }
        SurrogateBits(low);
        if low / 0x400 != 0x37 { return false; }
        codepoint := codepoint % 0x400 * 0x400 + low % 0x400 + 0x1_0000;
        escapeLen := 12;
      }
      var utf8 := Utf8(codepoint);
      tmp.AppendMemUnsafe(utf8);
      ptr := ptr + escapeLen;
      return true;
    }

    /** `json_next_string_token`. */
    method NextStringToken() returns (tok: Token)
      requires Valid() && ptr < |data| && data[ptr] == 34
      modifies this`ptr, tmp`length, tmp.buf
      ensures Valid() && old(ptr) <= ptr
      ensures match StringBody(data, old(ptr) + 1, [])
              case None => tok == ErrTok
              case Some(r) => tok == StrTok(r.0) && ptr == r.1
      ensures tok.StrTok? ==> tmp.Contents() == tok.s
    {
      hide StringBody, StringUnit, ScanOk;
      ptr := ptr + 1;
      tmp.Reset();
      ghost var start := ptr;
      while Ch(data, ptr) != 34
        invariant Valid() && start <= ptr && tmp.length <= ptr - start
        invariant StringBody(data, ptr, tmp.Contents()) == StringBody(data, start, [])
        decreases |data| - ptr
      {
        BodyStep(data, ptr, tmp.Contents());
        if Ch(data, ptr) == 0 { return ErrTok; }
        var ok := NextUnit();
        if !ok { return ErrTok; }
      }
      BodyEnd(data, ptr, tmp.Contents());
      ptr := ptr + 1;
      tmp.EnsureNull();
      return StrTok(tmp.buf[..tmp.length]);
    }

    /** One turn of the string loop: a plain byte or an escape. */
    method NextUnit() returns (ok: bool)
      requires Valid() && ptr < |data| && data[ptr] != 0 && data[ptr] != 34 && tmp.length <= ptr
      modifies this`ptr, tmp`length, tmp.buf
      ensures Valid() && old(ptr) <= ptr
      ensures match StringUnit(data, old(ptr))
              case None => !ok
              case Some(u) => ok && ptr == old(ptr) + u.1 && tmp.Contents() == old(tmp.Contents()) + u.0
    {
      hide UnicodeEscape;
      var ch := data[ptr];
      if ch == 92 {
        ch := Unescape(Ch(data, ptr + 1));
        if ch == 117 {
          ok := AppendUnicodeEscape();
          return;
        }
        if ch == 0 { return false; }
        ptr := ptr + 1;
      }
      tmp.AppendCharUnsafe(ch);
      ptr := ptr + 1;
      return true;
    }

    /** `json_next_number_token`: more than 14 bytes are copied out as a string. */
    method NextNumberToken() returns (tok: Token)
      requires Valid()
      modifies this`ptr, tmp`length, tmp.buf
      ensures Valid()
      ensures tok == NumberToken(cv, data, old(ptr)).0 && ptr == NumberToken(cv, data, old(ptr)).1
      ensures tok.StrTok? ==> tmp.Contents() == tok.s
    {
      var (n, len) := cv.scan(data[ptr..]);
      if len == 0 { return ErrTok; }
      var end := ptr + len;
      tok := NumTok(n);
      if end - ptr > 14 {
        var text := CopyOut(end);
        tok := StrTok(text);
      }
      ptr := end;
    }

    /** The bytes up to `end`, through the temporary buffer. */
    method CopyOut(end: nat) returns (text: seq<byte>)
      requires Valid() && ptr <= end <= |data|
      modifies this`ptr, tmp`length, tmp.buf
      ensures Valid() && ptr == end && text == data[old(ptr)..end] && tmp.Contents() == text
    {
      hide ScanOk;
      ghost var start := ptr;
      tmp.Reset();
      while ptr < end
        invariant Valid() && start <= ptr <= end <= |data|
        invariant tmp.Contents() == data[start..ptr]
      {
        tmp.AppendCharUnsafe(data[ptr]);
        assert data[start..ptr] + [data[ptr]] == data[start..ptr + 1];
        ptr := ptr + 1;
      }
      tmp.EnsureNull();
      text := tmp.buf[..tmp.length];
    }

    /** `json_next_token`. */
    method Next() returns (tok: Token)
      requires Valid()
      modifies this`ptr, tmp`length, tmp.buf
      ensures Valid() && old(ptr) <= ptr
      ensures var r := NextToken(cfg, cv, data, old(ptr));
              tok == r.0 && (tok != ErrTok ==> ptr == r.1)
      ensures tok.StrTok? ==> tmp.Contents() == tok.s
    {
      hide StringBody, NumberToken, BadNumber, SingleToken, SkipSpace, Starts;
      SkipWhitespace();
      var ch := Ch(data, ptr);
      match SingleToken(ch)
      case Some(t) =>
        SingleIsByte(data, ptr);
        if t != EndTok && t != ErrTok {
          ptr := ptr + 1;
        }
        return t;
      case None =>
        tok := NextWord(ch);
    }

    method SkipWhitespace()
      requires Valid()
      modifies this`ptr
      ensures Valid() && ptr == SkipSpace(data, old(ptr)) && SkipSpace(data, ptr) == ptr
    {
      while IsSpace(Ch(data, ptr))
        invariant Valid() && SkipSpace(data, ptr) == SkipSpace(data, old(ptr))
        decreases |data| - ptr
      {
        ptr := ptr + 1;
      }
    }

    /** The tokens that take more than their first character to tell. */
    method NextWord(ch: byte) returns (tok: Token)
      requires Valid() && ch == Ch(data, ptr) && SingleToken(ch).None? && SkipSpace(data, ptr) == ptr
      modifies this`ptr, tmp`length, tmp.buf
      ensures Valid() && old(ptr) <= ptr
      ensures var r := NextToken(cfg, cv, data, old(ptr));
              tok == r.0 && (tok != ErrTok ==> ptr == r.1)
      ensures tok.StrTok? ==> tmp.Contents() == tok.s
    {
      hide StringBody, NumberToken, BadNumber, SkipSpace;
      if ch == 34 {
        tok := NextStringToken();
      } else if ch == 45 || 48 <= ch <= 57 {
        if !cfg.decodeInvalid && BadNumber(data, ptr) { return ErrTok; }
        tok := NextNumberToken();
      } else if Starts(data, ptr, TRUE_TEXT) {
        tok := BoolTok(true);
        ptr := ptr + 4;
      } else if Starts(data, ptr, FALSE_TEXT) {
        tok := BoolTok(false);
        ptr := ptr + 5;
      } else if Starts(data, ptr, NULL_TEXT) {
        tok := NullTok;
        ptr := ptr + 4;
      } else if cfg.decodeInvalid && BadNumber(data, ptr) {
        tok := NextNumberToken();
      } else {
        tok := ErrTok;
      }
    }

    /** `json_decode_descend`. */
    method Descend() returns (ok: bool)
      requires Live()
      modifies this`depth
      ensures depth == old(depth) + 1 && ok == (depth <= cfg.decodeMaxDepth)
    {
      depth := depth + 1;
      return depth <= cfg.decodeMaxDepth;
    }

    /** The colon and the value behind a key. */
    method ParseMember() returns (ok: bool, v: Tree)
      requires Live()
      modifies this`ptr, this`depth, tmp`length, tmp.buf
      ensures Valid() && (ok ==> Live() && depth == old(depth))
      ensures var (c, j) := NextToken(cfg, cv, data, old(ptr));
              var (t, k) := NextToken(cfg, cv, data, j);
              var r := ParseValue(cfg, cv, data, t, k, old(depth));
              ok == (c == Colon && r.Value?) && (ok ==> r == Value(v, ptr))
      decreases |data| - ptr, 0
    {
      hide NextToken, ParseMembers, ParseItems, ParseValue;
      var token := Next();
      if token != Colon { return false, TNull; }
      token := Next();
      if token == ErrTok { ErrValue(cfg, cv, data, depth); }
      ok, v := ProcessValue(token);
    }

    /** `json_parse_object_context`. */
    method ParseObject() returns (ok: bool, v: Tree)
      requires Live()
      modifies this`ptr, this`depth, tmp`length, tmp.buf
      ensures Valid() && (ok ==> Live() && depth == old(depth))
      ensures var r := ParseValue(cfg, cv, data, ObjBegin, old(ptr), old(depth));
              ok == r.Value? && (ok ==> r == Value(v, ptr))
      decreases |data| - ptr, 1
    {
      hide NextToken, ParseMembers, ParseItems, ParseValue, ScanOk;
      ObjectStart(cfg, cv, data, ptr, depth);
      v := TNull;
      ok := Descend();
      if !ok { return; }
      var m: map<TKey, Tree> := map[];
      var token := Next();
      if token == ObjEnd {
        depth := depth - 1;
        return true, TTable(m);
      }
      ghost var r := ParseValue(cfg, cv, data, ObjBegin, old(ptr), old(depth));
      if token == ErrTok { ErrMembers(cfg, cv, data, m, depth); }
      while true
        invariant Live() && depth == old(depth) + 1 && ptr >= old(ptr)
        invariant token != EndTok && token != ErrTok ==> ptr > old(ptr)
        invariant ParseMembers(cfg, cv, data, token, ptr, m, depth) == r
        decreases |data| - ptr
      {
        MemberTurn(cfg, cv, data, token, ptr, m, depth);
        if !token.StrTok? { return false, TNull; }
        var key := KStr(token.s);
        ok, v := ParseMember();
        if !ok { return; }
        m := m[key := v];
        token := Next();
        if token == ObjEnd {
          depth := depth - 1;
          return true, TTable(m);
        }
        if token != CommaTok { return false, TNull; }
        token := Next();
        if token == ErrTok { ErrMembers(cfg, cv, data, m, depth); }
      }
    }

    /** `json_parse_array_context`. */
    method ParseArray() returns (ok: bool, v: Tree)
      requires Live()
      modifies this`ptr, this`depth, tmp`length, tmp.buf
      ensures Valid() && (ok ==> Live() && depth == old(depth))
      ensures var r := ParseValue(cfg, cv, data, ArrBegin, old(ptr), old(depth));
              ok == r.Value? && (ok ==> r == Value(v, ptr))
      decreases |data| - ptr, 1
    {
      hide NextToken, ParseMembers, ParseItems, ParseValue, FromItems, ScanOk;
      ArrayStart(cfg, cv, data, ptr, depth);
      v := TNull;
      ok := Descend();
      if !ok { return; }
      var m: map<TKey, Tree> := map[];
      var token := Next();
      if token == ArrEnd {
        depth := depth - 1;
        return true, TTable(m);
      }
      ghost var items: seq<Tree> := [];
      ghost var r := ParseValue(cfg, cv, data, ArrBegin, old(ptr), old(depth));
      if token == ErrTok { ErrItems(cfg, cv, data, items, depth); }
      FromNone();
      var i := 1;
      while true
        invariant Live() && depth == old(depth) + 1 && ptr >= old(ptr)
        invariant token != EndTok && token != ErrTok ==> ptr > old(ptr)
        invariant i == |items| + 1 && m == FromItems(items)
        invariant ParseItems(cfg, cv, data, token, ptr, items, depth) == r
        decreases |data| - ptr
      {
        ItemTurn(cfg, cv, data, token, ptr, items, depth);
        ok, v := ProcessValue(token);
        if !ok { return; }
        FromSnoc(items, v);
        items := items + [v];
        m := m[KInt(i) := v];
        token := Next();
        if token == ArrEnd {
          depth := depth - 1;
          return true, TTable(m);
        }
        if token != CommaTok { return false, TNull; }
        token := Next();
        if token == ErrTok { ErrItems(cfg, cv, data, items, depth); }
        i := i + 1;
      }
    }

    /** `json_process_value`. */
    method ProcessValue(token: Token) returns (ok: bool, v: Tree)
      requires Live()
      modifies this`ptr, this`depth, tmp`length, tmp.buf
      ensures Valid() && (ok ==> Live() && depth == old(depth))
      ensures var r := ParseValue(cfg, cv, data, token, old(ptr), old(depth));
              ok == r.Value? && (ok ==> r == Value(v, ptr))
      decreases |data| - ptr, if token == ObjBegin || token == ArrBegin then 2 else 0
    {
      hide NextToken, ParseMembers, ParseItems;
      match token
      case StrTok(s) => return true, TStr(s);
      case NumTok(n) => return true, TNum(n);
      case BoolTok(b) => return true, TBool(b);
      case ObjBegin => ok, v := ParseObject();
      case ArrBegin => ok, v := ParseArray();
      case NullTok => return true, TNull;
      case _ => return false, TNull;
    }
  }

  /** The bit masks that pick out surrogates and their payloads. */
  lemma {:induction false} SurrogateBits(c: int)
    requires 0 <= c < 0x1_0000
    ensures c / 0x800 == 0x1B <==> 0xD800 <= c <= 0xDFFF
    ensures 0xD800 <= c <= 0xDFFF ==> (c / 0x400 % 2 == 1 <==> c >= 0xDC00)
    ensures c / 0x400 == 0x37 <==> 0xDC00 <= c <= 0xDFFF
    ensures 0xD800 <= c < 0xDC00 ==> c % 0x400 == c - 0xD800
    ensures 0xDC00 <= c <= 0xDFFF ==> c % 0x400 == c - 0xDC00
  {
  }

  lemma {:induction false} SingleIsByte(d: seq<byte>, i: nat)
    requires i <= |d|
    ensures SingleToken(Ch(d, i)).Some? && SingleToken(Ch(d, i)).value != EndTok ==> i < |d|
    ensures SingleToken(Ch(d, i)).Some? ==> !SingleToken(Ch(d, i)).value.StrTok?
  {
  }

  lemma {:induction false} BodyEnd(d: seq<byte>, i: nat, acc: seq<byte>)
    requires i <= |d| && Ch(d, i) == 34
    ensures StringBody(d, i, acc) == Some((acc, i + 1))
  {
  }

  /** One unit further into a string body. */
  lemma {:induction false} BodyStep(d: seq<byte>, i: nat, acc: seq<byte>)
    requires i <= |d| && Ch(d, i) != 34
    ensures StringBody(d, i, acc)
            == if Ch(d, i) == 0 then None
               else match StringUnit(d, i)
                    case None => None
                    case Some(u) => StringBody(d, i + u.1, acc + u.0)
  {
    hide StringUnit;
  }

  lemma {:induction false} ObjectStart(cfg: Config, cv: Conv, d: seq<byte>, i: nat, depth: nat)
    requires i <= |d| && ScanOk(cv)
    ensures var r := ParseValue(cfg, cv, d, ObjBegin, i, depth);
            if depth + 1 > cfg.decodeMaxDepth then r == Bad
            else
              var (t, j) := NextToken(cfg, cv, d, i);
              if t == ObjEnd then r == Value(TTable(map[]), j)
              else r == ParseMembers(cfg, cv, d, t, j, map[], depth + 1)
  {
    hide NextToken;
  }

  lemma {:induction false} ArrayStart(cfg: Config, cv: Conv, d: seq<byte>, i: nat, depth: nat)
    requires i <= |d| && ScanOk(cv)
    ensures var r := ParseValue(cfg, cv, d, ArrBegin, i, depth);
            if depth + 1 > cfg.decodeMaxDepth then r == Bad
            else
              var (t, j) := NextToken(cfg, cv, d, i);
              if t == ArrEnd then r == Value(TTable(map[]), j)
              else r == ParseItems(cfg, cv, d, t, j, [], depth + 1)
  {
    hide NextToken;
  }

  lemma {:induction false} FromNone()
    ensures FromItems([]) == map[]
  {
  }

  lemma {:induction false} FromSnoc(items: seq<Tree>, v: Tree)
    ensures FromItems(items + [v]) == FromItems(items)[KInt(|items| + 1) := v]
  {
  }

  /** After an invalid token it makes no difference where the cursor stands. */
  lemma {:induction false} ErrValue(cfg: Config, cv: Conv, d: seq<byte>, depth: nat)
    requires ScanOk(cv)
    ensures forall j: nat :: j <= |d| ==> ParseValue(cfg, cv, d, ErrTok, j, depth) == Bad
  {
  }

  lemma {:induction false} ErrMembers(cfg: Config, cv: Conv, d: seq<byte>, m: map<TKey, Tree>, depth: nat)
    requires ScanOk(cv)
    ensures forall j: nat :: j <= |d| ==> ParseMembers(cfg, cv, d, ErrTok, j, m, depth) == Bad
  {
  }

  lemma {:induction false} ErrItems(cfg: Config, cv: Conv, d: seq<byte>, items: seq<Tree>, depth: nat)
    requires ScanOk(cv)
    ensures forall j: nat :: j <= |d| ==> ParseItems(cfg, cv, d, ErrTok, j, items, depth) == Bad
  {
  }

  /** `json_decode`: what the whole parse gives, and nothing else may follow the value. */
  method DecodeText(cfg: Config, cv: Conv, d: seq<byte>) returns (r: Option<Tree>)
    requires ScanOk(cv)
    ensures r == Decode(cfg, cv, d)
  {
    hide NextToken, ParseValue;
    if |d| >= 2 && (d[0] == 0 || d[1] == 0) { return None; }
    var p := new Parser(cfg, cv, d);
    var token := p.Next();
    var ok, v := p.ProcessValue(token);
    if token == ErrTok { ErrValue(cfg, cv, d, 0); }
    if !ok { return None; }
    token := p.Next();
    if token != EndTok { return None; }
    return Some(v);
  }
}
