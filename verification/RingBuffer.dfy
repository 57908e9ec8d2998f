/**
 The ring buffer of src/shell/ring_buffer.c, called without interference. What
 happens when the interrupt handler and the console task interleave is the
 subject of RingProtocol.
 */
module RingBuffer {
  import opened Types
  import opened Arithmetic

  const OK := 0
  const FULL_ERROR := -1
  const EMPTY_ERROR := -2

  /** The number of bytes between tail and head. */
  function Count(head: nat, tail: nat, len: nat): int {
    if tail <= head then head - tail else head - tail + len
  }

  /** The bytes between tail and head, oldest first. */
  function Queued(buffer: seq<byte>, head: nat, tail: nat): (q: seq<byte>)
    requires head < |buffer| && tail < |buffer|
    ensures |q| == Count(head, tail, |buffer|)
  {
    if tail <= head then buffer[tail..head] else buffer[tail..] + buffer[..head]
  }

  /** The index after i, as both ends of the ring compute it. */
  function After(i: nat, len: nat): nat
    requires 0 < len
  {
    (i + 1) % len
  }

  /** What ring_buffer_avail computes, in 32-bit unsigned arithmetic. */
  function AvailValue(head: u32, tail: u32, len: u32): u32
    requires 0 < len
  {
    Wrap(head - tail) % len
  }

  // ----- when the fill count is right

  /** What the count reads when the queued bytes go round the end of the buffer:
      too many by 2^32 mod len, modulo the length. */
  lemma AvailWrapped(head: u32, tail: u32, len: u32)
    requires head < tail < len
    ensures var r, d := TWO32 % len, Count(head, tail, len);
            AvailValue(head, tail, len) == if r + d < len then r + d else r + d - len
  {
    var d := Count(head, tail, len);
    ModUnique(head - tail, -1, TWO32, TWO32 + head - tail);
    var q, r := TWO32 / len, TWO32 % len;
    assert TWO32 == q * len + r;
    if r + d < len {
      assert TWO32 + head - tail == (q - 1) * len + (r + d);
      ModUnique(TWO32 + head - tail, q - 1, len, r + d);
    } else {
      assert TWO32 + head - tail == q * len + (r + d - len);
      ModUnique(TWO32 + head - tail, q, len, r + d - len);
    }
  }

  /** Between two indices the count is right when the subtraction does not wrap
      or the length divides 2^32, and only then. */
  lemma AvailExactAt(head: u32, tail: u32, len: u32)
    requires head < len && tail < len
    ensures AvailValue(head, tail, len) == Count(head, tail, len) <==> tail <= head || TWO32 % len == 0
  {
    if tail <= head {
      ModUnique(head - tail, 0, len, head - tail);
      ModUnique(head - tail, 0, TWO32, head - tail);
    } else {
      AvailWrapped(head, tail, len);
    }
  }

  /** ring_buffer_avail is the number of queued bytes in every state of a ring
      exactly when the length divides 2^32, as the 128 of the serial buffer does. */
  lemma AvailExactIff(len: u32)
    requires 0 < len
    ensures (forall head: u32, tail: u32 :: head < len && tail < len ==>
               AvailValue(head, tail, len) == Count(head, tail, len)) <==> TWO32 % len == 0
  {
    forall head: u32, tail: u32 | head < len && tail < len
      ensures AvailValue(head, tail, len) == Count(head, tail, len) <==> tail <= head || TWO32 % len == 0
    {
      AvailExactAt(head, tail, len);
    }
    if len == 1 {
      ModUnique(TWO32, TWO32, 1, 0);
    } else {
      assert AvailValue(0, 1, len) == Count(0, 1, len) <==> TWO32 % len == 0;
    }
  }

  /** Whatever the length, an empty ring reads as empty. */
  lemma AvailOfEmpty(at: u32, len: u32)
    requires 0 < len
    ensures AvailValue(at, at, len) == 0
  {
    ModUnique(0, 0, TWO32, 0);
    ModUnique(0, 0, len, 0);
  }

  /** With head in slot 0 and tail in slot 2^32 mod len, the count is 0. */
  lemma AvailMisses(len: u32)
    requires 0 < len && TWO32 % len != 0
    ensures AvailValue(0, TWO32 % len, len) == 0
  {
    var q, r := TWO32 / len, TWO32 % len;
    assert TWO32 == len * q + r && len * q == q * len;
    ModUnique(0 - r, -1, TWO32, TWO32 - r);
    ModUnique(TWO32 - r, q, len, 0);
  }

  /** A ring that holds bytes never reads as empty exactly when the length
      divides 2^32. With 3 slots, head 0 and tail 1 hold two bytes and read 0. */
  lemma AvailSeesBytesIff(len: u32)
    requires 0 < len
    ensures (forall head: u32, tail: u32 :: head < len && tail < len && head != tail ==>
               AvailValue(head, tail, len) > 0) <==> TWO32 % len == 0
    ensures AvailValue(0, 1, 3) == 0 && Count(0, 1, 3) == 2
  {
    AvailExactIff(len);
    if TWO32 % len != 0 {
      AvailMisses(len);
    }
  }

  // ----- the ring itself

  class Ring {
    const buffer: array<byte>
    var head: u32
    var tail: u32
    const len: u32

    ghost predicate Valid()
      reads this
    {
      0 < len && buffer.Length == len && head < len && tail < len
    }

    /** The bytes put and not yet taken, oldest first. */
    ghost function Contents(): seq<byte>
      reads this, buffer
      requires Valid()
    {
      Queued(buffer[..], head, tail)
    }

    /** RING_BUFFER_DEF */
    constructor (size: u32)
      requires 0 < size
      ensures Valid() && Contents() == [] && len == size && fresh(buffer)
    {
      buffer := new byte[size];
      head := 0;
      tail := 0;
      len := size;
    }

    /** ring_buffer_is_empty */
    method IsEmpty() returns (empty: bool)
      requires Valid()
      ensures empty <==> Contents() == []
    {
      empty := head == tail;
    }

    /** ring_buffer_is_full: one slot stays unused. */
    method IsFull() returns (full: bool)
      requires Valid()
      ensures full <==> |Contents()| == len - 1
    {
      AfterWraps(head, len);
      full := After(head, len) == tail;
    }

    /** ring_buffer_avail */
    method Avail() returns (n: u32)
      requires Valid()
      ensures n > 0 ==> Contents() != []
      ensures TWO32 % len == 0 ==> n == |Contents()|
    {
      AvailExactAt(head, tail, len);
      AvailOfEmpty(head, len);
      n := AvailValue(head, tail, len);
    }

    /** ring_buffer_put */
    method Put(c: byte) returns (result: int)
      requires Valid()
      modifies `head, buffer
      ensures Valid()
      ensures result == if |old(Contents())| == len - 1 then -1 else 0
      ensures Contents() == if result == 0 then old(Contents()) + [c] else old(Contents())
    {
      var full := IsFull();
      if full {
        return FULL_ERROR;
      }
      AfterWraps(head, len);
      buffer[head] := c;
      head := After(head, len);
      result := OK;
    }

    /** ring_buffer_get */
    method Get() returns (result: int, c: byte)
      requires Valid()
      modifies `tail
      ensures Valid()
      ensures result == if old(Contents()) == [] then -2 else 0
      ensures result == 0 ==> old(Contents()) == [c] + Contents()
      ensures result != 0 ==> Contents() == old(Contents())
    {
      c := 0;
      var empty := IsEmpty();
      if empty {
        return EMPTY_ERROR, c;
      }
      AfterWraps(tail, len);
      c := buffer[tail];
      tail := After(tail, len);
      result := OK;
    }
  }

  lemma AfterWraps(i: nat, len: nat)
    requires i < len
    ensures After(i, len) == if i + 1 == len then 0 else i + 1
  {
    if i + 1 == len {
      ModUnique(i + 1, 1, len, 0);
    } else {
      ModUnique(i + 1, 0, len, i + 1);
    }
  }
}
