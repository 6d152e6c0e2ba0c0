// Uses of the ring buffer from the outside: the peek-then-commit pattern
// against a plain read, and concrete runs of the operations.

module Clients {
  import opened Window
  import opened RingBuffers

  /**
   * Peeking at up to k bytes and then shifting past k leaves a buffer in the
   * same state as reading k bytes out of an identical one, and the peeked
   * bytes are the bytes read.
   */
  method PeekShiftIsRead(a: RingBuffer, b: RingBuffer, k: int, p: array<byte>)
    returns (peeked: seq<byte>, n: int)
    requires a != b && a.buf != b.buf && p != a.buf && p != b.buf
    requires a.Valid() && b.Valid() && !a.isEmpty
    requires a.r == b.r && a.w == b.w && a.size == b.size && a.isEmpty == b.isEmpty
    requires a.buf[..] == b.buf[..]
    requires 0 < k && p.Length == k
    modifies a, b, p
    ensures 0 < n <= k && peeked == p[..n]
    ensures a.Valid() && b.Valid() && a.Contents() == b.Contents()
    ensures a.r == b.r && a.w == b.w && a.size == b.size && a.isEmpty == b.isEmpty && a.mask == b.mask
  {
    assert a.Contents() == b.Contents();
    var v := a.LazyRead(k);
    peeked := v.head + v.tail;
    a.Shift(k);
    var err;
    n, err := b.Read(p);
  }

  /**
   * A buffer constructed with capacity 16 and drained once (capacity 8)
   * takes 6 bytes, leaving 2 free, and then 4 more, which grows it to 16
   * bytes with all 10 readable in the order written.
   */
  method FillAndGrow() returns (rb: RingBuffer)
    ensures fresh(rb) && rb.Valid() && rb.Cap() == 16
    ensures rb.Contents() == [1, 2, 3, 4, 5, 6, 7, 8, 9, 10]
  {
    rb := new RingBuffer.NewRingBuffer(16);
    rb.Reset();
    var n, err := rb.Write([1, 2, 3, 4, 5, 6]);
    assert rb.Length() == 6 && rb.Free() == 2 && rb.Cap() == 8;
    n, err := rb.Write([7, 8, 9, 10]);
  }

  /**
   * Reading the grown buffer out in two parts returns the bytes in the order
   * written; the second read drains it back to 8 bytes, and a further
   * ReadByte finds it empty.
   */
  method GrowAndDrain() returns (first: seq<byte>, second: seq<byte>, last: Error)
    ensures first == [1, 2, 3, 4, 5, 6, 7, 8] && second == [9, 10]
    ensures last == ErrIsEmpty
  {
    var rb := FillAndGrow();
    var p := new byte[8];
    var n, err := rb.Read(p);
    first := p[..n];
    var q := new byte[8];
    n, err := rb.Read(q);
    second := q[..n];
    assert rb.IsEmpty() && rb.Cap() == 8;
    var c;
    c, last := rb.ReadByte();
  }

  /**
   * Seven bytes into a drained 8-byte buffer, six of them read out, and two
   * more written: the three readable bytes run from index 6 round the end of
   * the region.
   */
  method Straddling() returns (rb: RingBuffer)
    ensures fresh(rb) && rb.Valid() && rb.r == 6 && rb.Cap() == 8
    ensures rb.Contents() == [17, 18, 19]
  {
    rb := new RingBuffer.NewRingBuffer(16);
    rb.Reset();
    var n, err := rb.Write([11, 12, 13, 14, 15, 16, 17]);
    assert rb.r == 0 && rb.Cap() == 8 && rb.Length() == 7;
    var p := new byte[6];
    n, err := rb.Read(p);
    assert rb.r == 6 && rb.Contents() == [17] && rb.Free() == 7;
    n, err := rb.Write([18, 19]);
  }

  /**
   * With readable bytes straddling the end of an 8-byte region, a peek at 3
   * bytes returns them as a head up to the end of the region and a tail from
   * its start, without consuming them.
   */
  method StraddlingPeek() returns (v: Views, after: seq<byte>)
    ensures v.head + v.tail == [17, 18, 19] && v.tail != []
    ensures after == [17, 18, 19]
  {
    var rb := Straddling();
    v := rb.LazyRead(3);
    var all := rb.LazyReadAll();
    after := all.head + all.tail;
  }

  /**
   * The first write into a newly constructed 8-byte buffer sees a write
   * cursor of 50: it grows to 64 bytes and leaves 50 zero bytes ahead of
   * its data.
   */
  method ConstructedFirstWrite() returns (len: int, cap: int, front: seq<byte>)
    ensures len == 56 && cap == 64
    ensures front == Zeros(50) + [1, 2, 3, 4, 5, 6]
  {
    var rb := new RingBuffer.NewRingBuffer(8);
    var n, err := rb.Write([1, 2, 3, 4, 5, 6]);
    len, cap := rb.Length(), rb.Cap();
    var all := rb.LazyReadAll();
    front := all.head + all.tail;
  }
}
