/** The byte order utilities and the message buffer with its closed-interval cursors. */
module Buffers {
  import opened Wire

  // ----- byte order utilities, on a buffer and an offset

  /** Writes the low bytes of a number, last byte first; the source unrolls this for widths 2, 4 and 8. */
  method WriteUInt(buf: array<byte>, at: nat, width: nat, value: nat)
    requires at + width <= buf.Length
    modifies buf
    ensures buf[..] == old(buf[..at]) + Bytes(value, width) + old(buf[at + width..])
  {
    var n, i := value, width;
    while i > 0
      invariant 0 <= i <= width
      invariant Bytes(value, width) == Bytes(n, i) + buf[at + i..at + width]
      invariant buf[..at] == old(buf[..at]) && buf[at + width..] == old(buf[at + width..])
    {
      i := i - 1;
      ghost var tail := buf[at + i + 1..at + width];
      buf[at + i] := n % 256;
      assert buf[at + i..at + width] == [n % 256] + tail;
      n := n / 256;
    }
    assert buf[..] == buf[..at] + buf[at..at + width] + buf[at + width..];
  }

  /** Reads a number, the first byte weighing most. */
  method ReadUInt(buf: array<byte>, at: nat, width: nat) returns (n: nat)
    requires width > 0 && at + width <= buf.Length
    ensures n == Value(buf[at..at + width])
  {
    n := buf[at];
    assert buf[at..at + 1] == [buf[at]] && Value([]) == 0;
    var i := 1;
    while i < width
      invariant 1 <= i <= width && n == Value(buf[at..at + i])
    {
      assert buf[at..at + i + 1][..i] == buf[at..at + i];
      n := n * 256 + buf[at + i];
      i := i + 1;
    }
  }

  // ----- the buffer

  const NULL := -1

  /** Pointers into the buffer are offsets from its start; its memory is the closed interval
      [start, end], its content the closed interval [pos, last]. */
  class Buffer {
    const mem: array<byte>
    var pos: int
    var last: int
    var available: bool

    ghost predicate Ok()
      reads this
    {
      && 0 < mem.Length
      && NULL <= pos && NULL <= last < mem.Length
      && (available ==> 0 <= pos <= last)
    }

    /** The bytes a reader of the buffer sees. */
    ghost function Content(): (s: seq<byte>)
      requires Ok()
      reads this, mem
      ensures available <==> s != []
    {
      if available then mem[pos..last + 1] else []
    }

    /** GetNewBuffer: memory, no content. */
    constructor Empty(size: nat)
      requires size > 0
      ensures Ok() && mem.Length == size && pos == NULL && last == NULL && !available && fresh(mem)
    {
      mem := new byte[size];
      pos, last, available := NULL, NULL, false;
    }

    /** GetNewAvailableBuffer: all the memory is content. */
    constructor Whole(size: nat)
      requires size > 0
      ensures Ok() && mem.Length == size && pos == 0 && last == size - 1 && available && fresh(mem)
    {
      mem := new byte[size];
      pos, last, available := 0, size - 1, true;
    }

    method BZero()
      requires Ok()
      modifies this, mem
      ensures Ok() && pos == NULL && last == NULL && !available
      ensures forall i | 0 <= i < mem.Length :: mem[i] == 0
    {
      pos, last, available := NULL, NULL, false;
      forall i | 0 <= i < mem.Length {
        mem[i] := 0;
      }
    }

    method CheckAvailable()
      modifies this`available
      ensures available <==> pos != NULL && last != NULL && pos <= last
    {
      if pos == NULL || last == NULL {
        available := false;
      } else {
        available := pos <= last;
      }
    }

    method SetPos(p: nat)
      requires Ok()
      modifies this
      ensures Ok() && pos == p && last == old(last) && (available <==> last != NULL && p <= last)
    {
      pos := p;
      CheckAvailable();
    }

    /** Drops n bytes from the front. Moving by nothing, or past the content, leaves no content:
        n - 1 is computed in 32 bits without sign. */
    method MoveHeadBack(n: nat)
      requires Ok() && n < 0x1_0000_0000 && mem.Length <= 0x1_0000_0000
      modifies this
      ensures Ok() && last == old(last)
      ensures old(available) ==> pos == old(pos) + n
      ensures old(available) ==>
        Content() == if 1 <= n <= |old(Content())| then old(Content())[n..] else []
    {
      if pos == NULL || last == NULL {
        available := false;
        return;
      }
      var nMinus1 := if n == 0 then 0xffff_ffff else n - 1;
      available := last - pos > nMinus1;
      pos := pos + n;
    }

    /** Adds the n bytes behind the content to it. The first time the content begins at the head, if there
        is one among the n bytes; content that was used up does not come back. */
    method MoveTailBack(n: nat)
      requires Ok() && 0 < n && (if last == NULL then 0 else last + 1) + n <= mem.Length
      modifies this
      ensures Ok() && pos == old(pos)
      ensures old(available) ==> Content() == old(Content()) + mem[old(last) + 1..old(last) + 1 + n]
      ensures old(last) == NULL ==> Content() == if 0 <= pos < n then mem[pos..n] else []
      ensures old(last != NULL && !available) ==> Content() == []
      ensures !available ==> last == (if old(last) == NULL then -1 else old(last)) + n
    {
      if last != NULL {
        last := last + n;
      } else {
        last := 0 + n - 1;
        CheckAvailable();
      }
    }

    function TotalLength(): (n: nat)
      reads this
      ensures n == mem.Length
    {
      mem.Length
    }

    function AvailableLength(): (n: nat)
      requires Ok()
      reads this, mem
      ensures n == |Content()|
    {
      if available && last != NULL && pos != NULL then last - pos + 1 else 0
    }

    /** How many bytes still fit behind the content. */
    function UnusedSize(): (n: nat)
      requires Ok()
      reads this, mem
      ensures available ==> n + last + 1 == mem.Length
      ensures available && pos == 0 ==> n + |Content()| == mem.Length
      ensures !available ==> n == 0
    {
      if !available then 0 else mem.Length - 1 - last
    }
  }
}
