/** What the filters of `lae/source/mime.c` share: line breaks, lines that fit, chunks, and nil results. */
module MimeText {
  import opened Bytes

  const CRLF: seq<byte> := [13, 10]

  lemma {:induction false} Assoc(a: seq<byte>, b: seq<byte>, c: seq<byte>)
    ensures a + (b + c) == a + b + c
  {
  }

  /** Every line of the text, its first one `used` bytes into a line, is at most `length` bytes long. */
  predicate LinesFit(t: seq<byte>, used: int, length: int)
    decreases |t|
  {
    t == []
    || (if t[0] == 10 then LinesFit(t[1..], 0, length)
        else if t[0] == 13 then LinesFit(t[1..], used, length)
        else used + 1 <= length && LinesFit(t[1..], used + 1, length))
  }

  lemma {:induction false} FitsAfter(c: byte, o: seq<byte>, used: int, length: int)
    ensures LinesFit([c] + o, used, length)
            == (if c == 10 then LinesFit(o, 0, length)
                else if c == 13 then LinesFit(o, used, length)
                else used + 1 <= length && LinesFit(o, used + 1, length))
  {
    assert ([c] + o)[1..] == o;
  }

  lemma {:induction false} FitsBreak(o: seq<byte>, used: int, length: int)
    ensures LinesFit(CRLF + o, used, length) == LinesFit(o, 0, length)
  {
    hide LinesFit;
    assert CRLF + o == [13] + ([10] + o);
    FitsAfter(13, [10] + o, used, length);
    FitsAfter(10, o, used, length);
  }

  lemma {:induction false} NothingFits(used: int, length: int)
    ensures LinesFit([], used, length)
  {
  }

  /** A result that is empty, or that a C string would find empty, comes out as nil. */
  function NilIfEmpty(t: seq<byte>): (r: Option<seq<byte>>)
  {
    if t == [] || t[0] == 0 then None else Some(t)
  }

  function OrEmpty(t: Option<seq<byte>>): (r: seq<byte>)
  {
    if t.Some? then t.value else []
  }

  function Joined(chunks: seq<seq<byte>>): (t: seq<byte>)
  {
    if chunks == [] then [] else chunks[0] + Joined(chunks[1..])
  }

  /** A character of a line end. */
  predicate Candidate(c: int)
  {
    c == 13 || c == 10
  }

  /** The characters that are not line ends. */
  function Bare(s: seq<byte>): (t: seq<byte>)
  {
    if s == [] then [] else (if Candidate(s[0]) then [] else [s[0]]) + Bare(s[1..])
  }

  lemma {:induction false} BareConcat(a: seq<byte>, b: seq<byte>)
    ensures Bare(a + b) == Bare(a) + Bare(b)
    decreases |a|
  {
    if a == [] {
      assert a + b == b;
    } else {
      assert (a + b)[1..] == a[1..] + b;
      BareConcat(a[1..], b);
    }
  }

  lemma {:induction false} BareOne(c: byte)
    ensures Bare([c]) == if Candidate(c) then [] else [c]
  {
    assert [c][1..] == [];
  }

  lemma {:induction false} BareBreak()
    ensures Bare(CRLF) == []
  {
    assert CRLF[1..] == [10] && [10][1..] == [];
  }

  /** Without carriage returns and line feeds. */
  predicate OneLine(u: seq<byte>)
  {
    forall i :: 0 <= i < |u| ==> u[i] != 13 && u[i] != 10
  }

  predicate AllLines(lines: seq<seq<byte>>)
  {
    forall i :: 0 <= i < |lines| ==> OneLine(lines[i])
  }

  /** Lines with something between each and the next. */
  function Between(lines: seq<seq<byte>>, end: seq<byte>): (t: seq<byte>)
  {
    if lines == [] then []
    else if |lines| == 1 then lines[0]
    else lines[0] + end + Between(lines[1..], end)
  }
}
