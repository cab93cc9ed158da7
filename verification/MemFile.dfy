/**
 The in-memory file of `lae/source/IMemFile.cpp` over the small-buffer store of
 `lae/include/FastBufAlloc.h`: 32 bytes inline, a heap block once more are needed. It behaves as
 a plain sequence of bytes with a cursor.
 */
module MemFile {
  import opened Bytes

  /** The file as callers see it. */
  datatype File = File(bytes: seq<byte>, pos: nat)

  /** Bytes put at a place in a sequence, over what is there and past its end. */
  function Overwrite(s: seq<byte>, p: nat, d: seq<byte>): (r: seq<byte>)
    requires p <= |s|
    ensures |r| == if p + |d| > |s| then p + |d| else |s|
  {
    s[..p] + d + (if p + |d| <= |s| then s[p + |d|..] else [])
  }

  function Written(f: File, d: seq<byte>): (r: File)
    requires f.pos <= |f.bytes|
    ensures r.pos <= |r.bytes|
  {
    File(Overwrite(f.bytes, f.pos, d), f.pos + |d|)
  }

  /** Writing in two pieces is writing both at once. */
  lemma {:induction false} WrittenTwice(f: File, a: seq<byte>, b: seq<byte>)
    requires f.pos <= |f.bytes|
    ensures Written(Written(f, a), b) == Written(f, a + b)
  {
    var s, p := f.bytes, f.pos;
    var one, two, both := Overwrite(s, p, a), Overwrite(Overwrite(s, p, a), p + |a|, b), Overwrite(s, p, a + b);
    assert one[..p + |a|] == s[..p] + a;
    assert two[..p + |a| + |b|] == s[..p] + a + b == both[..p + |a| + |b|];
    if p + |a| + |b| <= |s| {
      assert one[p + |a| + |b|..] == s[p + |a| + |b|..];
    }
    assert two == two[..p + |a| + |b|] + two[p + |a| + |b|..];
    assert both == both[..p + |a| + |b|] + both[p + |a| + |b|..];
  }

  lemma {:induction false} WrittenNothing(f: File)
    requires f.pos <= |f.bytes|
    ensures Written(f, []) == f
  {
    assert f.bytes[..f.pos] + [] + f.bytes[f.pos..] == f.bytes;
  }

  /** With the cursor at the end, writing is appending. */
  lemma {:induction false} WrittenAtEnd(s: seq<byte>, d: seq<byte>)
    ensures Written(File(s, |s|), d) == File(s + d, |s| + |d|)
  {
    assert s[..|s|] == s && s + d + (if d == [] then s[|s|..] else []) == s + d;
  }

  /** What was written is read back from where it was put, and nothing else has changed. */
  lemma {:induction false} WrittenIsThere(f: File, d: seq<byte>)
    requires f.pos <= |f.bytes|
    ensures var s := Written(f, d).bytes;
            && s[f.pos..f.pos + |d|] == d && s[..f.pos] == f.bytes[..f.pos]
            && (forall i :: f.pos + |d| <= i < |s| ==> i < |f.bytes| && s[i] == f.bytes[i])
  {
  }

  class FastBuf {
    const arrbuf: array<byte>
    var heapbuf: array?<byte>
    var cpLen: nat
    var allocLen: nat

    /** One byte more than is allocated, for the terminator; the inline bytes until more than 32 are needed. */
    ghost predicate Valid()
      reads this
    {
      && arrbuf.Length == 33 && cpLen <= allocLen
      && (if heapbuf == null then allocLen == 32
          else allocLen > 32 && heapbuf.Length == allocLen + 1 && heapbuf != arrbuf)
    }

    /** `buf`. */
    function Buf(): (b: array<byte>)
      requires Valid()
      reads this
      ensures b.Length == allocLen + 1
      ensures b == arrbuf || b == heapbuf
    {
      if allocLen > 32 then heapbuf else arrbuf
    }

    function Contents(): (s: seq<byte>)
      requires Valid()
      reads this, Buf()
      ensures |s| == cpLen
    {
      Buf()[..cpLen]
    }

    constructor ()
      ensures Valid() && Contents() == [] && allocLen == 32
      ensures fresh(arrbuf) && heapbuf == null
    {
      arrbuf := new byte[33](_ => 0);
      heapbuf := null;
      cpLen := 0;
      allocLen := 32;
    }

    /** `grow`: room for `newsize` bytes; what is stored stays. */
    method Grow(newsize: nat)
      requires Valid()
      modifies this`heapbuf, this`allocLen
      ensures Valid() && allocLen == (if newsize > old(allocLen) then newsize else old(allocLen))
      ensures Contents() == old(Contents()) && cpLen == old(cpLen)
      ensures Buf() == old(Buf()) || fresh(Buf())
    {
      if newsize <= allocLen { return; }
      var b := new byte[newsize + 1](_ => 0);
      if heapbuf != null {
        forall i | 0 <= i < allocLen { b[i] := heapbuf[i]; }
      } else {
        forall i | 0 <= i < cpLen { b[i] := arrbuf[i]; }
      }
      heapbuf := b;
      allocLen := newsize;
    }

    /** `setcplen`, with the terminator after the last byte. */
    method SetCpLen(len: nat)
      requires Valid() && len <= allocLen
      modifies this`cpLen, Buf()
      ensures Valid() && Buf() == old(Buf())
      ensures Contents() == old(Buf()[..len])
    {
      cpLen := len;
      Buf()[len] := 0;
    }

    method Release()
      requires Valid()
      modifies this, arrbuf
      ensures Valid() && Contents() == [] && allocLen == 32
    {
      forall i | 0 <= i < arrbuf.Length { arrbuf[i] := 0; }
      heapbuf := null;
      cpLen := 0;
      allocLen := 32;
    }

    /** `append`. */
    method Append(arr: seq<byte>)
      requires Valid()
      modifies this, Buf()
      ensures Valid() && Contents() == old(Contents()) + arr
      ensures Buf() == old(Buf()) || fresh(Buf())
    {
      Grow(cpLen + |arr|);
      ghost var before := Contents();
      forall i | 0 <= i < |arr| { Buf()[cpLen + i] := arr[i]; }
      assert Buf()[..cpLen + |arr|] == before + arr;
      SetCpLen(cpLen + |arr|);
    }
  }

  const ERR_NO: int := 0
  const ERR_READ: int := 2

  class CIMemFile {
    const fast: FastBuf
    var curPos: nat
    var errorCode: int

    /** The cursor is within the bytes, and those within what is allocated. */
    ghost predicate Valid()
      reads this, fast
    {
      fast.Valid() && curPos <= fast.cpLen
    }

    function Abs(): (f: File)
      requires Valid()
      reads this, fast, fast.Buf()
      ensures f.pos <= |f.bytes|
    {
      File(fast.Contents(), curPos)
    }

    constructor ()
      ensures Valid() && Abs() == File([], 0) && errorCode == ERR_NO
      ensures fresh(fast) && fresh(fast.arrbuf) && fast.heapbuf == null
    {
      fast := new FastBuf();
      curPos := 0;
      errorCode := ERR_NO;
    }

    /** `Read`: all the bytes asked for, or none and an error. */
    method Read(size: nat) returns (n: int, data: seq<byte>)
      requires Valid()
      modifies this`curPos, this`errorCode
      ensures Valid()
      ensures old(curPos) + size <= fast.cpLen ==>
                && n == size && data == old(Abs()).bytes[old(curPos)..old(curPos) + size]
                && Abs() == old(Abs()).(pos := old(curPos) + size) && errorCode == old(errorCode)
      ensures old(curPos) + size > fast.cpLen ==>
                n == -1 && data == [] && Abs() == old(Abs()) && errorCode == ERR_READ
    {
      if curPos + size <= fast.cpLen {
        data := fast.Buf()[curPos..curPos + size];
        assert data == fast.Contents()[curPos..curPos + size];
        curPos := curPos + size;
        return size, data;
      }
      errorCode := ERR_READ;
      return -1, [];
    }

    /** `SetPos`: a place past the end is answered but not taken. */
    method SetPos(p: nat) returns (r: nat)
      requires Valid()
      modifies this`curPos
      ensures Valid() && r == p
      ensures Abs() == if p <= fast.cpLen then old(Abs()).(pos := p) else old(Abs())
    {
      if p <= fast.cpLen {
        curPos := p;
      }
      return p;
    }

    /** `removeHeadBuffer`: drops bytes from the front and goes back to the beginning. */
    method RemoveHeadBuffer(size: nat)
      requires Valid()
      modifies this`curPos, fast`cpLen, fast.Buf()
      ensures Valid()
      ensures Abs() == File(if size >= |old(Abs()).bytes| then [] else old(Abs()).bytes[size..], 0)
    {
      if size >= fast.cpLen {
        fast.SetCpLen(0);
        curPos := 0;
        return;
      }
      var b, n := fast.Buf(), fast.cpLen - size;
      forall i | 0 <= i < n { b[i] := b[i + size]; }
      assert b[..n] == old(fast.Contents())[size..];
      fast.SetCpLen(n);
      curPos := 0;
    }

    /**
     `Write`: the bytes are always written; the answer is their number when they fitted into what
     was allocated, and -1 when the store had to grow first.
     */
    method Write(data: seq<byte>) returns (n: int)
      requires Valid()
      modifies this`curPos, fast`heapbuf, fast`allocLen, fast`cpLen, fast.Buf()
      ensures Valid() && Abs() == Written(old(Abs()), data)
      ensures n == if old(curPos) + |data| <= old(fast.allocLen) then |data| else -1
      ensures fast.Buf() == old(fast.Buf()) || fresh(fast.Buf())
    {
      if curPos + |data| <= fast.allocLen {
        Put(data);
        return |data|;
      }
      fast.Grow((fast.allocLen + |data|) * 2);
      Put(data);
      return -1;
    }

    /** The copy both branches of `Write` make, into room already there. */
    method Put(data: seq<byte>)
      requires Valid() && curPos + |data| <= fast.allocLen
      modifies this`curPos, fast`cpLen, fast.Buf()
      ensures Valid() && Abs() == Written(old(Abs()), data)
      ensures fast.Buf() == old(fast.Buf())
    {
      var b := fast.Buf();
      var p := curPos;
      ghost var was := fast.Contents();
      forall i | 0 <= i < |data| { b[p + i] := data[i]; }
      assert b[..p + |data|] == was[..p] + data;
      curPos := curPos + |data|;
      if curPos > fast.cpLen {
        fast.SetCpLen(curPos);
        assert was[..p] + data + [] == was[..p] + data;
      } else {
        assert forall i :: p + |data| <= i < fast.cpLen ==> b[i] == was[i];
        assert b[p + |data|..fast.cpLen] == was[p + |data|..];
        assert b[..fast.cpLen] == b[..p + |data|] + b[p + |data|..fast.cpLen];
      }
    }
  }
}
