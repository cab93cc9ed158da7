/**
 The encoder of `lae/source/lua_cjson.c` as it runs, appending to a growable buffer, and proved to
 compute what module Json says. A raised error is a `false`.
 */
module JsonEncoder {
  import opened Bytes
  import opened StrBuf
  import opened Json

  // ----- encoding -----

  lemma {:induction false} EscapeAllSnoc(s: seq<byte>, c: byte)
    ensures EscapeAll(s + [c]) == EscapeAll(s) + Escape(c)
  {
    hide Escape;
    if s == [] {
      assert [c][1..] == [];
    } else {
      assert (s + [c])[1..] == s[1..] + [c];
      EscapeAllSnoc(s[1..], c);
    }
  }

  /** One byte, escaped or plain, into room already made. */
  method AppendEscaped(out: StringBuffer, c: byte)
    requires out.Valid() && out.EmptyLength() >= 6
    modifies out, out.buf
    ensures out.Valid() && out.buf == old(out.buf)
    ensures out.Contents() == old(out.Contents()) + Escape(c)
    ensures out.EmptyLength() >= old(out.EmptyLength()) - 6
  {
    hide Escape;
    var e := Escape(c);
    PlainIsItself(c);
    if |e| > 1 {
      out.AppendString(e);
    } else {
      out.AppendCharUnsafe(c);
    }
  }

  /** `json_append_string`: room for the worst case is made once, so no later append can overrun. */
  method AppendQuoted(out: StringBuffer, s: seq<byte>)
    requires out.Valid()
    modifies out, out.buf
    ensures out.Valid() && out.Contents() == old(out.Contents()) + QuoteText(s)
    ensures out.buf == old(out.buf) || fresh(out.buf)
  {
    hide EscapeAll, Escape;
    ghost var before := out.Contents();
    out.EnsureEmptyLength(|s| * 6 + 2);
    out.AppendCharUnsafe(34);
    var i := 0;
    while i < |s|
      invariant 0 <= i <= |s| && out.Valid()
      invariant out.Contents() == before + ([34] + EscapeAll(s[..i]))
      invariant out.EmptyLength() >= (|s| - i) * 6 + 1
      invariant out.buf == old(out.buf) || fresh(out.buf)
    {
      EscapeAllSnoc(s[..i], s[i]);
      assert s[..i + 1] == s[..i] + [s[i]];
      AppendEscaped(out, s[i]);
      Regrouped(before, [34], EscapeAll(s[..i]), Escape(s[i]));
      i := i + 1;
    }
    assert s[..i] == s;
    out.AppendCharUnsafe(34);
  }

  lemma {:induction false} PlainIsItself(c: byte)
    ensures |Escape(c)| <= 1 ==> Escape(c) == [c]
  {
  }

  lemma {:induction false} MaxStep(es: seq<(Key, Val)>, j: nat)
    requires j < |es| && AllIndices(es[..j + 1])
    ensures AllIndices(es[..j]) && MaxIndex(es[..j + 1]) == Larger(MaxIndex(es[..j]), IndexOf(es[j].0))
  {
    assert forall k :: 0 <= k < j ==> es[..j][k] == es[..j + 1][k];
    assert es[..j + 1][..j] == es[..j];
  }

  lemma {:induction false} NoneYet()
    ensures AllIndices([]) && MaxIndex([]) == 0
  {
  }

  /** `lua_array_length`: -1 for an object; false for an array that is too sparse. */
  method ArrayLength(cfg: Config, es: seq<(Key, Val)>) returns (ok: bool, len: int)
    ensures ok <==> ShapeOf(cfg, es) != TooSparse
    ensures ok ==> (len > 0 <==> ShapeOf(cfg, es).ArrayOf?) && (len > 0 ==> ShapeOf(cfg, es) == ArrayOf(len))
  {
    hide MaxIndex, IndexOf;
    var max, items := 0, 0;
    NoneYet();
    while items < |es|
      invariant 0 <= items <= |es|
      invariant AllIndices(es[..items]) && max == MaxIndex(es[..items])
    {
      var k := es[items].0;
      if !IsIndex(k) {
        return true, -1;
      }
      assert es[..items + 1] == es[..items] + [es[items]];
      MaxStep(es, items);
      if IndexOf(k) > max {
        max := IndexOf(k);
      }
      items := items + 1;
    }
    assert es[..items] == es;
    if cfg.sparseRatio > 0 && max > items * cfg.sparseRatio && max > cfg.sparseSafe {
      return cfg.sparseConvert, -1;
    }
    return true, max;
  }

  /** What number printing promises: its text fits in the 32 bytes that are set aside. */
  ghost predicate FmtOk(cv: Conv)
  {
    forall n :: |cv.fmt(n)| <= 32
  }

  method AppendNumber(cfg: Config, cv: Conv, n: Lnum, out: StringBuffer) returns (ok: bool)
    requires out.Valid() && FmtOk(cv)
    modifies out, out.buf
    ensures out.Valid() && (out.buf == old(out.buf) || fresh(out.buf))
    ensures ok == NumberText(cfg, cv, n).Text?
    ensures ok ==> out.Contents() == old(out.Contents()) + NumberText(cfg, cv, n).t
  {
    if cfg.encodeInvalid == 0 {
      if !n.Finite? { return false; }
    } else if cfg.encodeInvalid == 1 {
      if n.NotANumber? {
        out.AppendMem(NAN_TEXT);
        return true;
      }
    } else {
      if !n.Finite? {
        out.AppendMem(NULL_TEXT);
        return true;
      }
    }
    out.EnsureEmptyLength(32);
    out.AppendMemUnsafe(cv.fmt(n));
    return true;
  }

  method AppendKey(cfg: Config, cv: Conv, k: Key, out: StringBuffer) returns (ok: bool)
    requires out.Valid() && FmtOk(cv)
    modifies out, out.buf
    ensures out.Valid() && (out.buf == old(out.buf) || fresh(out.buf))
    ensures ok == KeyText(cfg, cv, k).Text?
    ensures ok ==> out.Contents() == old(out.Contents()) + KeyText(cfg, cv, k).t
  {
    hide QuoteText, NumberText;
    match k
    case NumKey(n) =>
      out.AppendChar(34);
      ok := AppendNumber(cfg, cv, n, out);
      if ok {
        out.AppendMem([34, 58]);
        assert out.Contents() == old(out.Contents()) + ([34] + NumberText(cfg, cv, n).t + [34, 58]);
      }
    case StrKey(s) =>
      AppendQuoted(out, s);
      out.AppendChar(58);
      ok := true;
      assert out.Contents() == old(out.Contents()) + (QuoteText(s) + [58]);
    case OtherKey =>
      ok := false;
  }

  lemma {:induction false} ItemsFrom(cfg: Config, cv: Conv, h: Heap, es: seq<(Key, Val)>, i: nat, n: nat, depth: nat)
    requires depth <= cfg.encodeMaxDepth && i <= n
    ensures EncodeItems(cfg, cv, h, es, i, n, depth)
            == Joined(Joined(Comma(i == 1), Encode(cfg, cv, h, RawGet(es, i), depth)),
                      EncodeItems(cfg, cv, h, es, i + 1, n, depth))
  {
    hide Encode;
  }

  lemma {:induction false} NoItems(cfg: Config, cv: Conv, h: Heap, es: seq<(Key, Val)>, n: nat, depth: nat)
    requires depth <= cfg.encodeMaxDepth
    ensures EncodeItems(cfg, cv, h, es, n + 1, n, depth) == Text([])
  {
  }

  lemma {:induction false} Regrouped(before: seq<byte>, open: seq<byte>, done: seq<byte>, more: seq<byte>)
    ensures before + (open + done) + more == before + (open + (done + more))
  {
  }

  /** One turn of the array loop: the separator and the item. */
  method AppendItem(cfg: Config, cv: Conv, h: Heap, v: Val, comma: bool, depth: nat, out: StringBuffer)
        returns (ok: bool)
    requires depth <= cfg.encodeMaxDepth && out.Valid() && FmtOk(cv)
    modifies out, out.buf
    ensures out.Valid() && (out.buf == old(out.buf) || fresh(out.buf))
    ensures var e := Joined(Comma(!comma), Encode(cfg, cv, h, v, depth));
            ok == e.Text? && (ok ==> out.Contents() == old(out.Contents()) + e.t)
    decreases cfg.encodeMaxDepth - depth, 1
  {
    hide Encode, FmtOk;
    if comma {
      out.AppendChar(44);
    }
    ok := AppendData(cfg, cv, h, v, depth, out);
  }

  /** One turn of the object loop: the separator, the key, and the value. */
  method AppendEntry(cfg: Config, cv: Conv, h: Heap, e: (Key, Val), comma: bool, depth: nat, out: StringBuffer)
        returns (ok: bool)
    requires depth <= cfg.encodeMaxDepth && out.Valid() && FmtOk(cv)
    modifies out, out.buf
    ensures out.Valid() && (out.buf == old(out.buf) || fresh(out.buf))
    ensures var t := Joined(Joined(Comma(!comma), KeyText(cfg, cv, e.0)), Encode(cfg, cv, h, e.1, depth));
            ok == t.Text? && (ok ==> out.Contents() == old(out.Contents()) + t.t)
    decreases cfg.encodeMaxDepth - depth, 1
  {
    hide Encode, KeyText, FmtOk;
    if comma {
      out.AppendChar(44);
    }
    ok := AppendKey(cfg, cv, e.0, out);
    if ok {
      ok := AppendData(cfg, cv, h, e.1, depth, out);
    }
    if ok {
      ThreeParts(old(out.Contents()), Comma(!comma).t, KeyText(cfg, cv, e.0).t, Encode(cfg, cv, h, e.1, depth).t);
    }
  }

  lemma {:induction false} ThreeParts(before: seq<byte>, a: seq<byte>, b: seq<byte>, c: seq<byte>)
    ensures before + a + b + c == before + (a + b + c)
    ensures a == [] ==> before + a == before
  {
  }

  /** `json_append_array`. */
  method AppendArray(cfg: Config, cv: Conv, h: Heap, es: seq<(Key, Val)>, n: nat, depth: nat, out: StringBuffer)
    returns (ok: bool)
    requires depth <= cfg.encodeMaxDepth && out.Valid() && FmtOk(cv)
    modifies out, out.buf
    ensures out.Valid() && (out.buf == old(out.buf) || fresh(out.buf))
    ensures var e := EncodeItems(cfg, cv, h, es, 1, n, depth);
            ok == e.Text? && (ok ==> out.Contents() == old(out.Contents()) + ([91] + e.t + [93]))
    decreases cfg.encodeMaxDepth - depth, 2
  {
    hide Encode, EncodeItems, RawGet, FmtOk;
    ghost var before := out.Contents();
    ghost var all := EncodeItems(cfg, cv, h, es, 1, n, depth);
    ghost var done: seq<byte> := [];
    out.AppendChar(91);
    var i, comma := 1, false;
    while i <= n
      invariant 1 <= i <= n + 1 && comma == (i > 1)
      invariant out.Valid() && (out.buf == old(out.buf) || fresh(out.buf))
      invariant out.Contents() == before + ([91] + done)
      invariant all == Joined(Text(done), EncodeItems(cfg, cv, h, es, i, n, depth))
    {
      ItemsFrom(cfg, cv, h, es, i, n, depth);
      ok := AppendItem(cfg, cv, h, RawGet(es, i), comma, depth, out);
      if !ok { return; }
      comma := true;
      ghost var more := Comma(i == 1).t + Encode(cfg, cv, h, RawGet(es, i), depth).t;
      Regrouped(before, [91], done, more);
      JoinedShift(done, more, EncodeItems(cfg, cv, h, es, i + 1, n, depth));
      done := done + more;
      i := i + 1;
    }
    NoItems(cfg, cv, h, es, n, depth);
    assert done + [] == done;
    out.AppendChar(93);
    Regrouped(before, [91], done, [93]);
    assert [91] + (done + [93]) == [91] + done + [93];
    return true;
  }

  lemma {:induction false} JoinedShift(done: seq<byte>, more: seq<byte>, rest: Encoded)
    ensures Joined(Text(done), Joined(Text(more), rest)) == Joined(Text(done + more), rest)
  {
    if rest.Text? { assert done + (more + rest.t) == done + more + rest.t; }
  }

  lemma {:induction false} EntriesFrom(cfg: Config, cv: Conv, h: Heap, es: seq<(Key, Val)>, j: nat, depth: nat)
    requires depth <= cfg.encodeMaxDepth && j < |es|
    ensures EncodeEntries(cfg, cv, h, es, j, depth)
            == Joined(Joined(Joined(Comma(j == 0), KeyText(cfg, cv, es[j].0)), Encode(cfg, cv, h, es[j].1, depth)),
                      EncodeEntries(cfg, cv, h, es, j + 1, depth))
  {
    hide Encode, KeyText;
  }

  lemma {:induction false} NoEntries(cfg: Config, cv: Conv, h: Heap, es: seq<(Key, Val)>, depth: nat)
    requires depth <= cfg.encodeMaxDepth
    ensures EncodeEntries(cfg, cv, h, es, |es|, depth) == Text([])
  {
  }

  /** `json_append_object`. */
  method AppendObject(cfg: Config, cv: Conv, h: Heap, es: seq<(Key, Val)>, depth: nat, out: StringBuffer)
    returns (ok: bool)
    requires depth <= cfg.encodeMaxDepth && out.Valid() && FmtOk(cv)
    modifies out, out.buf
    ensures out.Valid() && (out.buf == old(out.buf) || fresh(out.buf))
    ensures var e := EncodeEntries(cfg, cv, h, es, 0, depth);
            ok == e.Text? && (ok ==> out.Contents() == old(out.Contents()) + ([123] + e.t + [125]))
    decreases cfg.encodeMaxDepth - depth, 2
  {
    hide Encode, EncodeEntries, KeyText, FmtOk;
    ghost var before := out.Contents();
    ghost var all := EncodeEntries(cfg, cv, h, es, 0, depth);
    ghost var done: seq<byte> := [];
    out.AppendChar(123);
    var j, comma := 0, false;
    while j < |es|
      invariant 0 <= j <= |es| && comma == (j > 0)
      invariant out.Valid() && (out.buf == old(out.buf) || fresh(out.buf))
      invariant out.Contents() == before + ([123] + done)
      invariant all == Joined(Text(done), EncodeEntries(cfg, cv, h, es, j, depth))
    {
      EntriesFrom(cfg, cv, h, es, j, depth);
      ok := AppendEntry(cfg, cv, h, es[j], comma, depth, out);
      if !ok { return; }
      comma := true;
      ghost var more := Comma(j == 0).t + KeyText(cfg, cv, es[j].0).t + Encode(cfg, cv, h, es[j].1, depth).t;
      Regrouped(before, [123], done, more);
      JoinedShift(done, more, EncodeEntries(cfg, cv, h, es, j + 1, depth));
      done := done + more;
      j := j + 1;
    }
    NoEntries(cfg, cv, h, es, depth);
    assert done + [] == done;
    out.AppendChar(125);
    Regrouped(before, [123], done, [125]);
    assert [123] + (done + [125]) == [123] + done + [125];
    return true;
  }

  /** `json_append_data`: appends exactly the encoded text, or fails exactly when there is none. */
  method AppendData(cfg: Config, cv: Conv, h: Heap, v: Val, depth: nat, out: StringBuffer) returns (ok: bool)
    requires depth <= cfg.encodeMaxDepth && out.Valid() && FmtOk(cv)
    modifies out, out.buf
    ensures out.Valid() && (out.buf == old(out.buf) || fresh(out.buf))
    ensures var e := Encode(cfg, cv, h, v, depth);
            ok == e.Text? && (ok ==> out.Contents() == old(out.Contents()) + e.t)
    decreases cfg.encodeMaxDepth - depth, 0
  {
    hide EncodeItems, EncodeEntries, QuoteText, NumberText, ShapeOf, FmtOk;
    match v
    case Str(s) =>
      AppendQuoted(out, s);
      ok := true;
    case Num(n) =>
      ok := AppendNumber(cfg, cv, n, out);
    case Bool(b) =>
      out.AppendMem(if b then TRUE_TEXT else FALSE_TEXT);
      ok := true;
    case Table(ref) =>
      var current := depth + 1;
      if current > cfg.encodeMaxDepth { return false; }
      var es := Entries(h, ref);
      var len;
      ok, len := ArrayLength(cfg, es);
      if !ok { return; }
      if len > 0 {
        ok := AppendArray(cfg, cv, h, es, len, current, out);
      } else {
        ok := AppendObject(cfg, cv, h, es, current, out);
      }
    case Nil =>
      out.AppendMem(NULL_TEXT);
      ok := true;
    case NullPointer =>
      out.AppendMem(NULL_TEXT);
      ok := true;
    case Unsupported =>
      ok := false;
  }

  /** `json_encode`, into a private buffer or into one that is kept from call to call. */
  method EncodeValue(cfg: Config, cv: Conv, h: Heap, v: Val, kept: StringBuffer?) returns (e: Encoded)
    requires FmtOk(cv) && (kept != null ==> kept.Valid())
    modifies kept, if kept == null then null else kept.buf
    ensures e == Encode(cfg, cv, h, v, 0)
    ensures kept != null ==> kept.Valid()
  {
    hide Encode, FmtOk;
    var out: StringBuffer;
    if kept == null {
      out := new StringBuffer(0);
    } else {
      out := kept;
      out.Reset();
    }
    var ok := AppendData(cfg, cv, h, v, 0, out);
    if !ok { return Failed; }
    assert out.Contents() == [] + Encode(cfg, cv, h, v, 0).t;
    return Text(out.buf[..out.length]);
  }
}
