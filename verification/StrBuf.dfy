/** The growable string buffer of `lae/source/strbuf.c` and `strbuf.h`; buffers have the default growth factor. */
module StrBuf {
  import opened Bytes

  const DEFAULT_SIZE: nat := 1023
  const DEFAULT_INCREMENT: int := -2

  // ----- sizes -----

  /** How many increments it takes to reach n. */
  function Steps(n: nat, increment: nat): (s: nat)
    requires increment > 0
  {
    (n + increment - 1) / increment
  }

  /** The number of increments is the least that reaches n. */
  lemma {:induction false} StepsReach(n: nat, increment: nat, s: nat)
    requires increment > 0
    ensures n <= s * increment <==> Steps(n, increment) <= s
  {
    var t := Steps(n, increment);
    var r := (n + increment - 1) % increment;
    assert n + increment - 1 == t * increment + r by { Commute(t, increment); }
    if t <= s {
      Multiples(t, s, increment);
    } else {
      Multiples(s + 1, t, increment);
    }
  }

  lemma {:induction false} Multiples(s: nat, t: nat, increment: nat)
    requires s <= t
    ensures s * increment <= t * increment && (s + 1) * increment == s * increment + increment
  {
  }

  lemma {:induction false} Commute(a: int, b: int)
    ensures a * b == b * a
  {
  }

  /**
   `calculate_new_size`: shrinks exactly. Otherwise a negative increment is a factor, applied until
   the string and its terminator fit; a positive one rounds the old size up to a multiple.
   */
  method NewSize(size: nat, increment: int, len: nat) returns (newsize: nat)
    requires size > 0 && len > 0 && (increment <= -2 || increment >= 1)
    ensures size > len + 1 ==> newsize == len + 1
    ensures size <= len + 1 && increment < 0 ==>
              && size <= newsize && len + 1 <= newsize
              && (newsize == size || newsize < -increment * (len + 1))
    ensures size <= len + 1 && increment > 0 ==> newsize == Steps(size, increment) * increment
  {
    var reqsize := len + 1;
    if size > reqsize {
      return reqsize;
    }
    newsize := size;
    if increment < 0 {
      while newsize < reqsize
        invariant size <= newsize && (newsize == size || newsize < -increment * reqsize)
        decreases reqsize - newsize
      {
        Grows(newsize, -increment, reqsize);
        newsize := newsize * -increment;
      }
    } else {
      newsize := (newsize + increment - 1) / increment * increment;
    }
  }

  lemma {:induction false} Grows(n: nat, factor: nat, bound: nat)
    requires 0 < n < bound && factor >= 2
    ensures n < n * factor < factor * bound
  {
    assert n * 2 <= n * factor;
    assert n * factor < bound * factor;
  }

  /**
   With a positive increment the new size has room for the string if and only if the old size and
   the size needed take the same number of increments: the size is rounded, never grown.
   */
  lemma {:induction false} LinearMakesRoom(size: nat, increment: nat, len: nat)
    requires size > 0 && increment > 0 && size <= len + 1
    ensures len + 1 <= Steps(size, increment) * increment <==> Steps(len + 1, increment) == Steps(size, increment)
  {
    StepsReach(len + 1, increment, Steps(size, increment));
    StepsReach(size, increment, Steps(len + 1, increment));
    StepsReach(len + 1, increment, Steps(len + 1, increment));
  }

  /** A buffer of 1024 bytes that grows by 1024 has no room made for a string of 1024. */
  lemma {:induction false} LinearWitness()
    ensures Steps(1024, 1024) * 1024 == 1024 < 1024 + 1
  {
  }

  // ----- buffers -----

  class StringBuffer {
    var buf: array<byte>
    var size: nat
    var length: nat

    /** There is always room for the terminator. */
    ghost predicate Valid()
      reads this
    {
      buf.Length == size && length < size
    }

    ghost function Contents(): (s: seq<byte>)
      requires Valid()
      reads this, buf
    {
      buf[..length]
    }

    constructor (len: int)
      ensures Valid() && Contents() == [] && fresh(buf)
      ensures size == if len <= 0 then DEFAULT_SIZE else len + 1
    {
      var n: nat := if len <= 0 then DEFAULT_SIZE else len + 1;
      buf := new byte[n](_ => 0);
      size, length := n, 0;
    }

    /** Bytes left, not counting the terminator. */
    function EmptyLength(): (n: int)
      requires Valid()
      reads this
      ensures 0 <= n < size
    {
      size - length - 1
    }

    /** Shrinks exactly; otherwise doubles until the string and its terminator fit. */
    method CalculateNewSize(len: nat) returns (newsize: nat)
      requires Valid() && len > 0
      ensures size > len + 1 ==> newsize == len + 1
      ensures size <= len + 1 ==> newsize >= size && len + 1 <= newsize && (newsize == size || newsize < 2 * (len + 1))
    {
      newsize := NewSize(size, DEFAULT_INCREMENT, len);
    }

    /** Makes room for a string of `len` bytes; what is stored stays. */
    method Resize(len: nat)
      requires Valid() && len > 0 && length <= len
      modifies this
      ensures Valid() && len < size && fresh(buf) && length == old(length)
      ensures Contents() == old(Contents())
      ensures old(size) <= len + 1 ==> size >= old(size)
    {
      var newsize := CalculateNewSize(len);
      var b := new byte[newsize](_ => 0);
      forall i | 0 <= i < length { b[i] := buf[i]; }
      buf, size := b, newsize;
    }

    method EnsureEmptyLength(len: nat)
      requires Valid()
      modifies this
      ensures Valid() && EmptyLength() >= len && size >= old(size) && length == old(length)
      ensures Contents() == old(Contents())
      ensures buf == old(buf) || fresh(buf)
    {
      if len > EmptyLength() {
        Resize(length + len);
      }
    }

    method Reset()
      requires Valid()
      modifies this`length
      ensures Valid() && Contents() == []
    {
      length := 0;
    }

    /** The unchecked append: the caller has made room. */
    method AppendCharUnsafe(c: byte)
      requires Valid() && EmptyLength() >= 1
      modifies this`length, buf
      ensures Valid() && length == old(length) + 1
      ensures Contents() == old(Contents()) + [c]
    {
      buf[length] := c;
      length := length + 1;
    }

    method AppendChar(c: byte)
      requires Valid()
      modifies this, buf
      ensures Valid() && size >= old(size)
      ensures Contents() == old(Contents()) + [c]
      ensures buf == old(buf) || fresh(buf)
    {
      EnsureEmptyLength(1);
      AppendCharUnsafe(c);
    }

    method AppendMemUnsafe(s: seq<byte>)
      requires Valid() && EmptyLength() >= |s|
      modifies this`length, buf
      ensures Valid() && length == old(length) + |s|
      ensures Contents() == old(Contents()) + s
    {
      forall i | 0 <= i < |s| { buf[length + i] := s[i]; }
      length := length + |s|;
    }

    method AppendMem(s: seq<byte>)
      requires Valid()
      modifies this, buf
      ensures Valid() && size >= old(size)
      ensures Contents() == old(Contents()) + s
      ensures buf == old(buf) || fresh(buf)
    {
      EnsureEmptyLength(|s|);
      AppendMemUnsafe(s);
    }

    /** Byte by byte, growing only when the space that was counted runs out. */
    method AppendString(s: seq<byte>)
      requires Valid()
      modifies this, buf
      ensures Valid() && size >= old(size) && length == old(length) + |s|
      ensures Contents() == old(Contents()) + s
      ensures buf == old(buf) || fresh(buf)
      ensures old(EmptyLength()) >= |s| ==> buf == old(buf) && size == old(size)
    {
      var space := EmptyLength();
      var i := 0;
      while i < |s|
        invariant 0 <= i <= |s|
        invariant Valid() && space == EmptyLength() && size >= old(size) && length == old(length) + i
        invariant Contents() == old(Contents()) + s[..i]
        invariant buf == old(buf) || fresh(buf)
        invariant old(EmptyLength()) >= |s| ==> buf == old(buf) && size == old(size)
      {
        if space < 1 {
          Resize(length + 1);
          space := EmptyLength();
        }
        buf[length] := s[i];
        length := length + 1;
        space := space - 1;
        i := i + 1;
      }
    }

    method EnsureNull()
      requires Valid()
      modifies buf
      ensures Valid() && Contents() == old(Contents()) && buf[length] == 0
    {
      buf[length] := 0;
    }
  }
}
