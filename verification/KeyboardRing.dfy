/** The TTY byte ring of drivers/keyboard.c: 256 slots, of which 255 can be used. */
module KeyboardRing {
  import opened Arithmetic

  function Next(i: nat): nat {
    (i + 1) % 256
  }

  /** The slot of the i-th waiting byte. */
  function Slot(tail: nat, i: nat): (r: nat)
    ensures r < 256
  {
    (tail + i) % 256
  }

  function Length(head: nat, tail: nat): nat
    requires head < 256 && tail < 256
  {
    (head + 256 - tail) % 256
  }

  /** The bytes waiting in the ring, oldest first. */
  function Queue(buf: seq<byte>, head: nat, tail: nat): (q: seq<byte>)
    requires |buf| == 256 && head < 256 && tail < 256
    ensures |q| == Length(head, tail)
  {
    seq(Length(head, tail), i requires 0 <= i < Length(head, tail) => buf[Slot(tail, i)])
  }

  lemma SlotsBelowHead(head: nat, tail: nat)
    requires head < 256 && tail < 256
    ensures forall i: nat | i < Length(head, tail) :: Slot(tail, i) != head
  {
  }

  lemma PushIsAppend(buf: seq<byte>, head: nat, tail: nat, b: byte)
    requires |buf| == 256 && head < 256 && tail < 256 && Next(head) != tail
    ensures Queue(buf[head := b], Next(head), tail) == Queue(buf, head, tail) + [b]
  {
    var n := Length(head, tail);
    assert Length(Next(head), tail) == n + 1;
    assert Slot(tail, n) == head;
    SlotsBelowHead(head, tail);
    hide Slot;
  }

  /** Storing into the free slot does not disturb the queue. */
  lemma StoreIsInvisible(buf: seq<byte>, head: nat, tail: nat, b: byte)
    requires |buf| == 256 && head < 256 && tail < 256
    ensures Queue(buf[head := b], head, tail) == Queue(buf, head, tail)
  {
    SlotsBelowHead(head, tail);
    hide Slot;
  }

  lemma PopIsTail(buf: seq<byte>, head: nat, tail: nat)
    requires |buf| == 256 && head < 256 && tail < 256 && head != tail
    ensures Length(head, tail) > 0
    ensures Queue(buf, head, tail) == [buf[tail]] + Queue(buf, head, Next(tail))
  {
    ShorterByOne(head, tail);
    SlotShift(tail);
    hide Slot, Next, Length;
    var q, q' := Queue(buf, head, tail), Queue(buf, head, Next(tail));
    forall i: nat | i < |q'|
      ensures q[i + 1] == q'[i]
    {
      assert Slot(Next(tail), i) == Slot(tail, i + 1);
    }
  }

  lemma ShorterByOne(head: nat, tail: nat)
    requires head < 256 && tail < 256 && head != tail
    ensures Length(head, tail) == Length(head, Next(tail)) + 1 && Slot(tail, 0) == tail
  {
  }

  lemma SlotShift(tail: nat)
    ensures forall i: nat :: Slot(Next(tail), i) == Slot(tail, i + 1)
  {
  }

  /** The push test fails exactly when 255 bytes are queued. */
  lemma FullIs255(head: nat, tail: nat)
    requires head < 256 && tail < 256
    ensures Next(head) == tail <==> Length(head, tail) == 255
    ensures head == tail <==> Length(head, tail) == 0
  {
  }

  class KbdBuffer {
    const buffer: array<byte>
    var head: nat
    var tail: nat

    ghost predicate Valid()
      reads this
    {
      buffer.Length == 256 && head < 256 && tail < 256
    }

    ghost function Contents(): seq<byte>
      requires Valid()
      reads this, buffer
    {
      Queue(buffer[..], head, tail)
    }

    constructor ()
      ensures Valid() && Contents() == [] && fresh(buffer)
    {
      buffer := new byte[256](_ => 0);
      head, tail := 0, 0;
    }

    /** The body of the handler's critical section. */
    method Push(b: byte)
      requires Valid()
      modifies this`head, buffer
      ensures Valid()
      ensures Contents() == if |old(Contents())| == 255 then old(Contents()) else old(Contents()) + [b]
    {
      FullIs255(head, tail);
      var next_head := (head + 1) % 256;
      if next_head != tail {
        PushIsAppend(buffer[..], head, tail, b);
        ghost var before := buffer[..];
        buffer[head] := b;
        assert buffer[..] == before[head := b];
        head := next_head;
      }
    }

    /** The body of `keyboard_read`: at most `size` of the oldest bytes. */
    method Read(size: nat) returns (out: seq<byte>)
      requires Valid()
      modifies this`tail
      ensures Valid() && |out| <= size
      ensures old(Contents()) == out + Contents()
      ensures |out| < size ==> Contents() == []
    {
      hide Queue;
      out := [];
      FullIs255(head, tail);
      while |out| < size && head != tail
        invariant Valid() && |out| <= size && old(Contents()) == out + Contents()
        decreases size - |out|
      {
        PopIsTail(buffer[..], head, tail);
        out := out + [buffer[tail]];
        tail := (tail + 1) % 256;
      }
      FullIs255(head, tail);
    }

    /** `flush_kbd_buffer`. */
    method Flush()
      requires Valid()
      modifies this
      ensures Valid() && Contents() == []
    {
      head := 0;
      tail := 0;
    }
  }
}
