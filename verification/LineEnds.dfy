/**
 The end-of-line filter and the dot-stuffing filter of `lae/source/mime.c`, each an automaton
 that carries its state from chunk to chunk.
 */
module LineEnds {
  import opened Bytes
  import opened MimeText

  // ----- one convention for line ends -----

  /** `eolprocess`: what is put out, and the context for the next character. */
  function EolStep(last: int, c: byte, marker: seq<byte>): (r: (seq<byte>, int))
  {
    if Candidate(c) then
      if Candidate(last) then (if c == last then marker else [], 0)
      else (marker, c)
    else ([c], 0)
  }

  function EolRun(last: int, s: seq<byte>, marker: seq<byte>): (r: (seq<byte>, int))
    decreases |s|
  {
    if s == [] then ([], last)
    else
      var (o1, c1) := EolStep(last, s[0], marker);
      var (o2, c2) := EolRun(c1, s[1..], marker);
      (o1 + o2, c2)
  }

  /** Chunk by chunk, carrying the context, is the same as the whole at once. */
  lemma {:induction false} EolRunConcat(last: int, a: seq<byte>, b: seq<byte>, marker: seq<byte>)
    ensures var (o1, c1) := EolRun(last, a, marker);
            var (o2, c2) := EolRun(c1, b, marker);
            EolRun(last, a + b, marker) == (o1 + o2, c2)
    decreases |a|
  {
    hide EolStep;
    if a == [] {
      assert a + b == b;
      assert [] + EolRun(last, b, marker).0 == EolRun(last, b, marker).0;
    } else {
      assert (a + b)[1..] == a[1..] + b;
      var (o, c) := EolStep(last, a[0], marker);
      EolRunConcat(c, a[1..], b, marker);
      Assoc(o, EolRun(c, a[1..], marker).0, EolRun(EolRun(c, a[1..], marker).1, b, marker).0);
    }
  }

  /**
   What the filter is for, said of the whole string: line-end characters are taken in pairs; two
   different ones are one line end, two equal ones are two, and one by itself is one.
   */
  function Normal(s: seq<byte>, marker: seq<byte>): (t: seq<byte>)
    decreases |s|
  {
    if s == [] then []
    else if !Candidate(s[0]) then [s[0]] + Normal(s[1..], marker)
    else if |s| == 1 || !Candidate(s[1]) then marker + Normal(s[1..], marker)
    else if s[0] == s[1] then marker + marker + Normal(s[2..], marker)
    else marker + Normal(s[2..], marker)
  }

  /** The automaton, starting from a clean context, normalises; from a line-end character it finishes the pair. */
  lemma {:induction false} RunIsNormal(s: seq<byte>, marker: seq<byte>)
    ensures EolRun(0, s, marker).0 == Normal(s, marker)
    ensures forall c: byte :: Candidate(c) ==> marker + EolRun(c, s, marker).0 == Normal([c] + s, marker)
    decreases |s|
  {
    if s == [] {
      forall c: byte | Candidate(c) ensures marker + EolRun(c, s, marker).0 == Normal([c] + s, marker) {
        assert ([c] + s)[1..] == [];
      }
    } else {
      var rest := s[1..];
      RunIsNormal(rest, marker);
      assert [s[0]] + rest == s;
      forall c: byte | Candidate(c) ensures marker + EolRun(c, s, marker).0 == Normal([c] + s, marker) {
        PairedWith(c, s, marker);
      }
    }
  }

  lemma {:induction false} PairedWith(c: byte, s: seq<byte>, marker: seq<byte>)
    requires Candidate(c) && s != []
    requires EolRun(0, s[1..], marker).0 == Normal(s[1..], marker)
    ensures marker + EolRun(c, s, marker).0 == Normal([c] + s, marker)
  {
    var t := [c] + s;
    assert t[1..] == s && t[2..] == s[1..];
    var o := EolRun(0, s[1..], marker).0;
    assert [] + o == o;
    Assoc(marker, marker, o);
  }

  /** Text whose line ends are all CRLF. */
  predicate Uniform(t: seq<byte>)
    decreases |t|
  {
    t == []
    || (if t[0] == 13 then |t| >= 2 && t[1] == 10 && Uniform(t[2..])
        else t[0] != 10 && Uniform(t[1..]))
  }

  lemma {:induction false} UniformBreak(t: seq<byte>)
    requires Uniform(t)
    ensures Uniform(CRLF + t)
  {
    assert (CRLF + t)[2..] == t;
  }

  lemma {:induction false} NormalIsUniform(s: seq<byte>)
    ensures Uniform(Normal(s, CRLF))
    decreases |s|
  {
    if s != [] {
      if !Candidate(s[0]) {
        NormalIsUniform(s[1..]);
        assert ([s[0]] + Normal(s[1..], CRLF))[1..] == Normal(s[1..], CRLF);
      } else {
        hide Uniform;
        if |s| == 1 || !Candidate(s[1]) {
          NormalIsUniform(s[1..]);
          UniformBreak(Normal(s[1..], CRLF));
        } else {
          NormalIsUniform(s[2..]);
          UniformBreak(Normal(s[2..], CRLF));
          UniformBreak(CRLF + Normal(s[2..], CRLF));
          Assoc(CRLF, CRLF, Normal(s[2..], CRLF));
        }
      }
    }
  }

  lemma {:induction false} UniformIsNormal(t: seq<byte>)
    requires Uniform(t)
    ensures Normal(t, CRLF) == t
    decreases |t|
  {
    if t != [] {
      if t[0] == 13 {
        UniformIsNormal(t[2..]);
        assert CRLF + t[2..] == t;
      } else {
        UniformIsNormal(t[1..]);
        assert [t[0]] + t[1..] == t;
      }
    }
  }

  /** Text is left alone exactly when its line ends are all CRLF already. */
  lemma {:induction false} FixedWhenUniform(t: seq<byte>)
    ensures EolRun(0, t, CRLF).0 == t <==> Uniform(t)
  {
    RunIsNormal(t, CRLF);
    NormalIsUniform(t);
    if Uniform(t) { UniformIsNormal(t); }
  }

  /** Normalising twice is normalising once, and what comes out has CRLF line ends only. */
  lemma {:induction false} EolIdempotent(s: seq<byte>)
    ensures var t := EolRun(0, s, CRLF).0;
            Uniform(t) && EolRun(0, t, CRLF).0 == t
  {
    hide EolRun, Normal, Uniform;
    RunIsNormal(s, CRLF);
    NormalIsUniform(s);
    FixedWhenUniform(EolRun(0, s, CRLF).0);
  }

  /** Nothing but line ends is touched, whatever the context. */
  lemma {:induction false} EolKeepsText(last: int, s: seq<byte>)
    ensures Bare(EolRun(last, s, CRLF).0) == Bare(s)
    decreases |s|
  {
    if s != [] {
      var (o, c) := EolStep(last, s[0], CRLF);
      EolKeepsText(c, s[1..]);
      BareConcat(o, EolRun(c, s[1..], CRLF).0);
      BareOne(s[0]);
      BareBreak();
    }
  }

  lemma {:induction false} LineRuns(last: int, u: seq<byte>, marker: seq<byte>)
    requires OneLine(u)
    ensures EolRun(last, u, marker) == (u, if u == [] then last else 0)
    decreases |u|
  {
    if u != [] {
      LineRuns(0, u[1..], marker);
      assert [u[0]] + u[1..] == u;
    }
  }

  /** The four conventions the filter is for: Mac, Unix, DOS, and the pair the other way round. */
  predicate Convention(end: seq<byte>)
  {
    end == [13] || end == [10] || end == [13, 10] || end == [10, 13]
  }

  /** One line end by itself, seen after text, or after an odd number of its like. */
  lemma {:induction false} EndRuns(last: int, end: seq<byte>, marker: seq<byte>)
    requires Convention(end) && (last == 0 || (|end| == 1 && last == end[0]))
    ensures var (o, c) := EolRun(last, end, marker);
            o == marker && (c == 0 || (|end| == 1 && c == end[0]))
  {
    hide EolStep;
    assert marker + [] == marker && end[1..] == (if |end| == 1 then [] else [end[1]]);
    EolOne(last, end[0], marker);
    StepAtEnd(last, end[0], marker);
    if |end| == 2 {
      EolOne(end[0], end[1], marker);
      StepInPair(end[0], end[1], marker);
    }
  }

  lemma {:induction false} StepAtEnd(last: int, c: byte, marker: seq<byte>)
    requires Candidate(c) && (last == 0 || last == c)
    ensures EolStep(last, c, marker) == (marker, if last == c then 0 else c)
  {
  }

  lemma {:induction false} StepInPair(last: byte, c: byte, marker: seq<byte>)
    requires Candidate(c) && Candidate(last) && c != last
    ensures EolStep(last, c, marker) == ([], 0)
  {
  }

  /** Whichever convention a text is written in, its lines come out with the marker between them. */
  lemma {:induction false} ConventionsMeet(last: int, lines: seq<seq<byte>>, end: seq<byte>, marker: seq<byte>)
    requires AllLines(lines) && Convention(end) && (last == 0 || (|end| == 1 && last == end[0]))
    ensures EolRun(last, Between(lines, end), marker).0 == Between(lines, marker)
    decreases |lines|
  {
    hide EolStep, OneLine;
    if lines == [] {
      EolOne(last, 0, marker);
    } else if |lines| == 1 {
      LineRuns(last, lines[0], marker);
    } else {
      hide EolRun;
      var u, rest := lines[0], Between(lines[1..], end);
      LineRuns(last, u, marker);
      var c1 := if u == [] then last else 0;
      EndRuns(c1, end, marker);
      var c2 := EolRun(c1, end, marker).1;
      ConventionsMeet(c2, lines[1..], end, marker);
      EolRunConcat(last, u + end, rest, marker);
      EolRunConcat(last, u, end, marker);
    }
  }

  /** `eolprocess`. */
  method EolProcess(c: byte, last: int, marker: seq<byte>, buffer: seq<byte>) returns (ctx: int, out: seq<byte>)
    ensures ctx == EolStep(last, c, marker).1 && out == buffer + EolStep(last, c, marker).0
  {
    out := buffer;
    assert buffer + [] == buffer;
    if Candidate(c) {
      if Candidate(last) {
        if c == last { out := out + marker; }
        return 0, out;
      } else {
        return c, out + marker;
      }
    } else {
      return 0, out + [c];
    }
  }

  lemma {:induction false} EolOne(last: int, c: byte, marker: seq<byte>)
    ensures EolRun(last, [], marker) == ([], last)
    ensures EolRun(last, [c], marker) == EolStep(last, c, marker)
  {
    hide EolStep;
    assert [c][1..] == [];
    assert EolStep(last, c, marker).0 + [] == EolStep(last, c, marker).0;
  }

  /** `mime_global_eol`. */
  method Eol(o: int, t: Option<seq<byte>>, marker: seq<byte>) returns (a: Option<seq<byte>>, n: int)
    ensures t.None? ==> a == None && n == 0
    ensures t.Some? ==> (a, n) == (Some(EolRun(o, t.value, marker).0), EolRun(o, t.value, marker).1)
  {
    hide EolStep, EolRun;
    if t.None? { return None, 0; }
    var s, ctx, buffer, i := t.value, o, [], 0;
    EolOne(o, 0, marker);
    while i < |s|
      invariant 0 <= i <= |s|
      invariant (buffer, ctx) == EolRun(o, s[..i], marker)
    {
      assert s[..i + 1] == s[..i] + [s[i]];
      EolRunConcat(o, s[..i], [s[i]], marker);
      EolOne(ctx, s[i], marker);
      ctx, buffer := EolProcess(s[i], ctx, marker, buffer);
      i := i + 1;
    }
    assert s[..i] == s;
    return Some(buffer), ctx;
  }

  // ----- dot stuffing -----

  /** 1 after a carriage return, 2 at the beginning of a line, 0 elsewhere. */
  function NextState(state: nat, c: byte): (r: nat)
  {
    if c == 13 then 1 else if c == 10 && state == 1 then 2 else 0
  }

  /** `dot`: the byte, and a second dot for one that begins a line. */
  function DotStep(state: nat, c: byte): (r: (seq<byte>, nat))
  {
    (if c == 46 && state == 2 then [c, 46] else [c], NextState(state, c))
  }

  function DotRun(state: nat, s: seq<byte>): (r: (seq<byte>, nat))
    decreases |s|
  {
    if s == [] then ([], state)
    else
      var (o1, n1) := DotStep(state, s[0]);
      var (o2, n2) := DotRun(n1, s[1..]);
      (o1 + o2, n2)
  }

  /** Chunk by chunk, carrying the state, is the same as the whole at once. */
  lemma {:induction false} DotRunConcat(state: nat, a: seq<byte>, b: seq<byte>)
    ensures var (o1, n1) := DotRun(state, a);
            var (o2, n2) := DotRun(n1, b);
            DotRun(state, a + b) == (o1 + o2, n2)
    decreases |a|
  {
    hide DotStep;
    if a == [] {
      assert a + b == b;
      assert [] + DotRun(state, b).0 == DotRun(state, b).0;
    } else {
      assert (a + b)[1..] == a[1..] + b;
      var (o, n) := DotStep(state, a[0]);
      DotRunConcat(n, a[1..], b);
      Assoc(o, DotRun(n, a[1..]).0, DotRun(DotRun(n, a[1..]).1, b).0);
    }
  }

  /** The receiver's side (section 4.5.2 of RFC 5321): a dot that begins a line is dropped. */
  function Unstuffed(state: nat, t: seq<byte>): (s: seq<byte>)
    decreases |t|
  {
    if t == [] then []
    else if state == 2 && t[0] == 46 then Unstuffed(0, t[1..])
    else [t[0]] + Unstuffed(NextState(state, t[0]), t[1..])
  }

  /** Dropping those dots recovers every input. */
  lemma {:induction false} UnstuffedReturns(state: nat, s: seq<byte>)
    ensures Unstuffed(state, DotRun(state, s).0) == s
    decreases |s|
  {
    if s != [] {
      var (o, n) := DotStep(state, s[0]);
      UnstuffedReturns(n, s[1..]);
      var rest := DotRun(n, s[1..]).0;
      assert [s[0]] + s[1..] == s;
      assert ([s[0]] + rest)[1..] == rest;
      if |o| == 2 {
        assert (o + rest)[1..] == [s[0]] + rest;
      }
    }
  }

  /** Where a line begins in a text. */
  predicate LineStart(t: seq<byte>, p: nat)
    requires p <= |t|
  {
    p == 0 || (p >= 2 && t[p - 2] == 13 && t[p - 1] == 10)
  }

  function StateAt(state: nat, t: seq<byte>): (r: nat)
  {
    if t == [] then state else NextState(StateAt(state, t[..|t| - 1]), t[|t| - 1])
  }

  lemma {:induction false} StartsAreStates(t: seq<byte>, p: nat)
    requires p <= |t|
    ensures LineStart(t, p) <==> StateAt(2, t[..p]) == 2
  {
    if p > 0 {
      assert t[..p][..p - 1] == t[..p - 1];
      if p > 1 {
        assert t[..p - 1][..p - 2] == t[..p - 2];
      } else {
        assert t[..p - 1] == [];
      }
    }
  }

  lemma {:induction false} StateAtFront(state: nat, c: byte, t: seq<byte>)
    ensures StateAt(state, [c] + t) == StateAt(NextState(state, c), t)
    decreases |t|
  {
    hide NextState;
    if t == [] {
      assert ([c] + t)[..0] == [];
    } else {
      assert ([c] + t)[..|t|] == [c] + t[..|t| - 1];
      StateAtFront(state, c, t[..|t| - 1]);
    }
  }

  /** Every dot that begins a line of the output is followed by a dot. */
  lemma {:induction false} DotsAreDoubled(state: nat, s: seq<byte>, p: nat)
    requires var t := DotRun(state, s).0; p < |t| && t[p] == 46 && StateAt(state, t[..p]) == 2
    ensures var t := DotRun(state, s).0; p + 1 < |t| && t[p + 1] == 46
    decreases |s|
  {
    hide StateAt;
    var t := DotRun(state, s).0;
    var (o, n) := DotStep(state, s[0]);
    var rest := DotRun(n, s[1..]).0;
    if p == 0 {
      assert t[..p] == [];
      EmptyState(state);
    } else {
      assert t[..p] == [t[0]] + t[1..p];
      StateAtFront(state, t[0], t[1..p]);
      if |o| == 1 {
        assert t[1..p] == rest[..p - 1];
        DotsAreDoubled(n, s[1..], p - 1);
      } else if p == 1 {
        assert t[1..p] == [];
        EmptyState(0);
      } else {
        assert t[1..p] == [46] + rest[..p - 2];
        StateAtFront(0, 46, rest[..p - 2]);
        DotsAreDoubled(n, s[1..], p - 2);
      }
    }
  }

  lemma {:induction false} EmptyState(state: nat)
    ensures StateAt(state, []) == state
  {
  }

  /** No line of stuffed text is a single dot, so the end of the data is never signalled early. */
  lemma {:induction false} NoLoneDot(s: seq<byte>, p: nat)
    requires p <= |DotRun(2, s).0| && LineStart(DotRun(2, s).0, p)
    ensures var t := DotRun(2, s).0;
            !(p + 1 == |t| && t[p] == 46) && !(p + 3 <= |t| && t[p..p + 3] == [46, 13, 10])
  {
    hide DotRun, StateAt;
    var t := DotRun(2, s).0;
    StartsAreStates(t, p);
    if p < |t| && t[p] == 46 {
      DotsAreDoubled(2, s, p);
      if p + 3 <= |t| { assert t[p..p + 3][1] == 46; }
    } else if p + 3 <= |t| {
      assert t[p..p + 3][0] != 46;
    }
  }

  /** Without a CRLF inside. */
  predicate Unbroken(u: seq<byte>)
  {
    forall i :: 0 < i < |u| ==> u[i] != 10 || u[i - 1] != 13
  }

  /** The sender's side of section 4.5.2 of RFC 5321: one dot more before a line that begins with one. */
  function Stuffed(u: seq<byte>): (t: seq<byte>)
  {
    if u != [] && u[0] == 46 then [46] + u else u
  }

  function StuffedLines(lines: seq<seq<byte>>): (ts: seq<seq<byte>>)
    ensures |ts| == |lines|
  {
    if lines == [] then [] else [Stuffed(lines[0])] + StuffedLines(lines[1..])
  }

  lemma {:induction false} InsideLine(state: nat, u: seq<byte>)
    requires state < 2 && Unbroken(u) && (state == 1 && u != [] ==> u[0] != 10)
    ensures DotRun(state, u).0 == u && DotRun(state, u).1 < 2
    decreases |u|
  {
    if u != [] {
      var rest := u[1..];
      assert forall i :: 0 < i < |rest| ==> rest[i] == u[i + 1] && rest[i - 1] == u[i];
      assert rest != [] ==> rest[0] == u[1];
      InsideLine(NextState(state, u[0]), rest);
      assert [u[0]] + rest == u;
    }
  }

  lemma {:induction false} LineIsStuffed(u: seq<byte>)
    requires Unbroken(u)
    ensures DotRun(2, u).0 == Stuffed(u)
  {
    if u != [] {
      var rest := u[1..];
      assert forall i :: 0 < i < |rest| ==> rest[i] == u[i + 1] && rest[i - 1] == u[i];
      assert rest != [] ==> rest[0] == u[1];
      InsideLine(NextState(2, u[0]), rest);
      assert [u[0]] + rest == u && [46, 46] + rest == [46] + ([46] + rest);
    }
  }

  lemma {:induction false} BreakRuns(state: nat)
    ensures DotRun(state, CRLF) == (CRLF, 2)
  {
    hide DotRun;
    DotRunConcat(state, [13], [10]);
    DotOne(state, 13);
    DotOne(1, 10);
    assert [13] + [10] == CRLF;
  }

  /** Dots are put before the lines that begin with one, and nothing else is changed. */
  lemma {:induction false} LinesAreStuffed(lines: seq<seq<byte>>)
    requires forall i :: 0 <= i < |lines| ==> Unbroken(lines[i])
    ensures DotRun(2, Between(lines, CRLF)).0 == Between(StuffedLines(lines), CRLF)
    decreases |lines|
  {
    hide DotStep, Unbroken, Stuffed;
    var ts := StuffedLines(lines);
    if lines == [] {
      DotOne(2, 0);
    } else if |lines| == 1 {
      LineIsStuffed(lines[0]);
      assert Between(ts, CRLF) == ts[0];
    } else {
      hide DotRun;
      var u, rest := lines[0], Between(lines[1..], CRLF);
      LineIsStuffed(u);
      BreakRuns(DotRun(2, u).1);
      LinesAreStuffed(lines[1..]);
      DotRunConcat(2, u + CRLF, rest);
      DotRunConcat(2, u, CRLF);
      assert ts[1..] == StuffedLines(lines[1..]);
    }
  }

  /** `dot`. */
  method DotByte(c: byte, state: nat, buffer: seq<byte>) returns (n: nat, out: seq<byte>)
    ensures n == DotStep(state, c).1 && out == buffer + DotStep(state, c).0
  {
    out := buffer + [c];
    if c == 13 {
      n := 1;
    } else if c == 10 {
      n := if state == 1 then 2 else 0;
    } else {
      if c == 46 && state == 2 { out := out + [46]; }
      n := 0;
    }
  }

  lemma {:induction false} DotOne(state: nat, c: byte)
    ensures DotRun(state, []) == ([], state)
    ensures DotRun(state, [c]) == DotStep(state, c)
  {
    hide DotStep;
    assert [c][1..] == [];
    assert DotStep(state, c).0 + [] == DotStep(state, c).0;
  }

  /** `mime_global_dot`. */
  method Dot(l: nat, t: Option<seq<byte>>) returns (a: Option<seq<byte>>, n: nat)
    ensures t.None? ==> a == None && n == 2
    ensures t.Some? ==> (a, n) == (Some(DotRun(l, t.value).0), DotRun(l, t.value).1)
  {
    hide DotStep, DotRun;
    if t.None? { return None, 2; }
    var s, state, buffer, i := t.value, l, [], 0;
    DotOne(l, 0);
    while i < |s|
      invariant 0 <= i <= |s|
      invariant (buffer, state) == DotRun(l, s[..i])
    {
      assert s[..i + 1] == s[..i] + [s[i]];
      DotRunConcat(l, s[..i], [s[i]]);
      DotOne(state, s[i]);
      state, buffer := DotByte(s[i], state, buffer);
      i := i + 1;
    }
    assert s[..i] == s;
    return Some(buffer), state;
  }
}
