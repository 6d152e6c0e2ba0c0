// A growable circular byte queue: a backing region whose length is a power of
// two, a read cursor r, a write cursor w and an explicit empty flag that tells
// "empty" apart from "full" when r == w. Writes grow the region when free
// space is short; every drain halves it.

module RingBuffers {
  import opened Bits
  import opened Window

  /** Capacity of the first allocation of a buffer that has none (4096 bytes). */
  const InitSize := 4096

  /** The write cursor a newly constructed buffer starts with. */
  const ConstructedWriteCursor := 50

  /** The error values of the byte-source operations (nil, or the empty-buffer error). */
  datatype Error = Nil | ErrIsEmpty

  /** A peek: the bytes up to the end of the region, then those from index 0. */
  datatype Views = Views(head: seq<byte>, tail: seq<byte>)

  /** The smaller of a and b. */
  function Min(a: int, b: int): int
  {
    if a < b then a else b
  }

  /** 4096 is a power of two. */
  lemma Pow2InitSize()
    ensures IsPow2(InitSize)
  {
    assert IsPow2(1) && IsPow2(2) && IsPow2(4) && IsPow2(8) && IsPow2(16) && IsPow2(32);
    assert IsPow2(64) && IsPow2(128) && IsPow2(256) && IsPow2(512) && IsPow2(1024);
    assert IsPow2(2048) && IsPow2(4096);
  }

  /**
   * The capacity a buffer of capacity size grows to when it is cap bytes short:
   * the fixed first allocation for an unallocated buffer and a small shortfall,
   * otherwise the power of two that rounds size + cap up.
   */
  function NewCapacity(size: int, cap: int): (c: int)
    requires size >= 0 && cap >= 1
    ensures IsPow2(c) && c >= size + cap
    ensures c == InitSize || c < 2 * (size + cap)
  {
    Pow2InitSize();
    if size == 0 && cap < InitSize then InitSize else CeilToPowerOfTwo(size + cap)
  }

  /** Go's `x & mask` on a cursor that has moved less than one lap past the region end. */
  lemma MaskIsWrap(x: int, size: int)
    requires IsPow2(size) && 0 <= x < 2 * size
    ensures BitAnd(x, size - 1) == Wrap(x, size)
  {
    MaskIsMod(x, size);
    WrapIsMod(x, size);
  }

  /**
   * Positions j of a region of length m covered by the n-byte cyclic run that
   * starts at s.
   */
  predicate InRun(j: int, s: int, n: int, m: int)
  {
    if s + n <= m then s <= j < s + n else s <= j || j < s + n - m
  }

  /**
   * Storing p as the cyclic run just after L live bytes starting at r, and
   * leaving every other position alone, appends p to the live bytes.
   */
  lemma AppendAfterRun(b: seq<byte>, b': seq<byte>, r: int, L: int, p: seq<byte>)
    requires |b'| == |b| && 0 <= r < |b| && 0 <= L && L + |p| <= |b|
    requires Ring(b', Wrap(r + L, |b|), |p|) == p
    requires forall j :: 0 <= j < |b| && !InRun(j, Wrap(r + L, |b|), |p|, |b|) ==> b'[j] == b[j]
    ensures Ring(b', r, L + |p|) == Ring(b, r, L) + p
  {
    var m := |b|;
    var s := Wrap(r + L, m);
    RingConcat(b', r, L, |p|);
    forall i | 0 <= i < L ensures Ring(b', r, L)[i] == Ring(b, r, L)[i] {
      var j := Wrap(r + i, m);
      assert !InRun(j, s, |p|, m);
    }
  }

  /**
   * Storing p as the run just after live, in a region that held live and then
   * zeros, and leaving every other position alone, gives live, p, then zeros.
   */
  lemma StoredAfterLive(b: seq<byte>, b': seq<byte>, live: seq<byte>, p: seq<byte>)
    requires |b'| == |b| && 0 < |p| && |live| + |p| <= |b|
    requires b == live + Zeros(|b| - |live|)
    requires Ring(b', |live|, |p|) == p
    requires forall j :: 0 <= j < |b| && !InRun(j, |live|, |p|, |b|) ==> b'[j] == b[j]
    ensures b' == live + p + Zeros(|b| - |live| - |p|)
  {
    var s := |live|;
    RingSplit(b', s, |p|);
    var t := live + p + Zeros(|b| - s - |p|);
    forall i | 0 <= i < |b| ensures b'[i] == t[i] {
      if s <= i < s + |p| {
        assert b'[i] == b'[s..s + |p|][i - s];
      } else {
        assert !InRun(i, s, |p|, |b|);
      }
    }
  }

  /**
   * Go's built-in copy of src into dst from index lo, in the uses here where
   * all of src fits: dst[lo..lo + |src|] becomes src and the rest of dst is
   * unchanged.
   */
  method Copy(dst: array<byte>, lo: int, src: seq<byte>)
    requires 0 <= lo && lo + |src| <= dst.Length
    modifies dst
    ensures forall j :: lo <= j < lo + |src| ==> dst[j] == src[j - lo]
    ensures forall j :: 0 <= j < dst.Length && !(lo <= j < lo + |src|) ==> dst[j] == old(dst[j])
  {
    for i := 0 to |src|
      invariant forall j :: lo <= j < lo + i ==> dst[j] == src[j - lo]
      invariant forall j :: 0 <= j < dst.Length && !(lo <= j < lo + i) ==> dst[j] == old(dst[j])
    {
      dst[lo + i] := src[i];
    }
  }

  /**
   * Copies the n bytes of src that start at index s and continue cyclically
   * into dst[..n]: one copy when they stop before the end of src, otherwise the
   * part up to the end and then the part from index 0.
   */
  method CopyRun(dst: array<byte>, src: array<byte>, s: int, n: int)
    requires dst != src && 0 <= s < src.Length && 0 < n <= src.Length && n <= dst.Length
    modifies dst
    ensures dst[..n] == Ring(src[..], s, n)
    ensures forall j :: n <= j < dst.Length ==> dst[j] == old(dst[j])
  {
    if s + n < src.Length {
      Copy(dst, 0, src[s..s + n]);
    } else {
      var c1 := src.Length - s;
      Copy(dst, 0, src[s..]);
      var c2 := n - c1;
      Copy(dst, c1, src[..c2]);
    }
    assert forall i :: 0 <= i < n ==> dst[i] == src[Wrap(s + i, src.Length)];
  }

  /**
   * Stores src into dst as the cyclic run that starts at index s: one copy when
   * it fits before the end of dst, otherwise the part up to the end and then
   * the rest from index 0. Positions outside the run keep their bytes.
   */
  method StoreRun(dst: array<byte>, s: int, src: seq<byte>)
    requires 0 <= s < dst.Length && 0 < |src| <= dst.Length
    modifies dst
    ensures Ring(dst[..], s, |src|) == src
    ensures forall j :: 0 <= j < dst.Length && !InRun(j, s, |src|, dst.Length) ==> dst[j] == old(dst[j])
  {
    var n := |src|;
    if s + n <= dst.Length {
      Copy(dst, s, src);
    } else {
      var c1 := dst.Length - s;
      Copy(dst, s, src[..c1]);
      Copy(dst, 0, src[c1..]);
    }
    assert forall i :: 0 <= i < n ==> dst[Wrap(s + i, dst.Length)] == src[i];
  }

  class RingBuffer {
    var buf: array<byte>
    var size: int
    var r: int
    var w: int
    var mask: int
    var isEmpty: bool

    /**
     * The invariant of every state the operations keep: the region is size
     * bytes long, size is 0 or a power of two, both cursors lie inside the
     * region, and an empty buffer has r == w.
     */
    ghost predicate Valid()
      reads this, buf
    {
      buf.Length == size && (size == 0 || IsPow2(size)) && mask == size - 1 &&
      (size == 0 ==> r == 0 && w == 0 && isEmpty) &&
      (size > 0 ==> 0 <= r < size && 0 <= w < size) &&
      (isEmpty ==> r == w)
    }

    /**
     * The state the constructor leaves: empty flag set, r == 0, but the write
     * cursor at 50, over a zero-filled region.
     */
    ghost predicate AsConstructed()
      reads this, buf
    {
      buf.Length == size && (size == 0 || IsPow2(size)) &&
      mask == (if size == 0 then 0 else size - 1) &&
      isEmpty && r == 0 && w == ConstructedWriteCursor &&
      forall i :: 0 <= i < size ==> buf[i] == 0
    }

    /** The readable bytes, oldest first: Length() bytes from r, round the end of the region. */
    ghost function Contents(): (c: seq<byte>)
      requires Valid()
      reads this, buf
      ensures |c| == Length() <= size
      ensures c == [] <==> isEmpty
    {
      Ring(buf[..], r, Length())
    }

    /**
     * The bytes a write appends to: the contents of a valid buffer, and the 50
     * zero bytes before the write cursor of a newly constructed one.
     */
    ghost function Backlog(): (c: seq<byte>)
      requires Valid() || AsConstructed()
      reads this, buf
      ensures |c| == Length()
    {
      if Valid() then Contents() else Zeros(ConstructedWriteCursor)
    }

    /** Bytes that can be written without growing. */
    function Free(): (f: int)
      reads this
      ensures f + Length() == size
    {
      if r == w then (if isEmpty then size else 0)
      else if w < r then r - w
      else (size - w) + r
    }

    /** Bytes that can be read. */
    function Length(): (n: int)
      reads this
      ensures 0 <= r < size && 0 <= w < size ==>
        0 <= n <= size && (n == 0 <==> isEmpty && r == w)
    {
      if r == w then (if isEmpty then 0 else size)
      else if w > r then w - r
      else (size - r) + w
    }

    /** Length of the backing region. */
    function Len(): (n: int)
      reads this, buf
      ensures n >= 0 && (Valid() ==> n == Cap())
    {
      buf.Length
    }

    /** Capacity as recorded in size. */
    function Cap(): (c: int)
      reads this, buf
      ensures Valid() ==> c == 0 || IsPow2(c)
    {
      size
    }

    /** The explicit empty flag. */
    function IsEmpty(): (e: bool)
      reads this, buf
      ensures Valid() ==> (e <==> Length() == 0)
    {
      isEmpty
    }

    /** Cursors equal and the buffer not flagged empty. */
    function IsFull(): (f: bool)
      reads this, buf
      ensures Valid() ==> (f <==> Cap() > 0 && Length() == Cap())
    {
      w == r && !isEmpty
    }

    /** The queries agree with each other in every valid state. */
    lemma Accounting()
      requires Valid()
      ensures 0 <= Length() <= Cap() && Length() + Free() == Cap()
      ensures Length() == 0 <==> IsEmpty()
      ensures IsFull() <==> Free() == 0 && !IsEmpty()
      ensures IsFull() <==> Cap() > 0 && Length() == Cap()
      ensures Len() == Cap()
      ensures Cap() > 0 ==> w == Wrap(r + Length(), Cap())
    {
    }

    /** A non-empty buffer whose write cursor lies K places past r holds K bytes. */
    lemma LengthFromCursors(K: int)
      requires size > 0 && 0 <= r < size && !isEmpty
      requires 0 < K <= size && w == Wrap(r + K, size)
      ensures Length() == K
    {
    }

    /**
     * A new buffer is not in a valid state: it is flagged empty, yet its
     * cursors count 50 readable bytes and 50 fewer free ones than its capacity.
     */
    lemma ConstructedIsNotValid()
      requires AsConstructed()
      ensures !Valid()
      ensures IsEmpty() && Length() == ConstructedWriteCursor
      ensures Free() == Cap() - ConstructedWriteCursor
    {
    }

    /**
     * The one case where ReadByte does not drain: the last readable byte sits
     * at the end of the region, so w == 0 while the advanced read cursor is
     * size, and the wrap to 0 is taken instead of the r == w check. The state
     * it leaves, r == w == 0 without the empty flag, is WholeRegion's.
     */
    lemma LastByteAtEnd()
      requires Valid() && !isEmpty && Length() == 1 && r == size - 1
      ensures w == 0
    {
    }

    /** The cursors and region of a state about to receive n more bytes after live. */
    ghost predicate Staged(live: seq<byte>, n: int)
      reads this, buf
    {
      buf.Length == size && IsPow2(size) && mask == size - 1 &&
      0 <= r < size && 0 <= w < size && 0 <= n && |live| + n <= size &&
      w == Wrap(r + |live|, size) && Ring(buf[..], r, |live|) == live
    }

    /**
     * A new buffer: flagged empty with the write cursor at 50; a non-positive
     * size allocates nothing, any other gets a zero-filled region of exactly
     * that many bytes (the size is not rounded).
     */
    constructor NewRingBuffer(size: int)
      requires size <= 0 || IsPow2(size)
      ensures AsConstructed() && fresh(buf)
      ensures this.size == (if size <= 0 then 0 else size)
    {
      isEmpty := true;
      w := ConstructedWriteCursor;
      r := 0;
      if size <= 0 {
        buf := new byte[0];
        this.size := 0;
        mask := 0;
      } else {
        buf := new byte[size](_ => 0);
        this.size := size;
        mask := size - 1;
      }
    }

    /** Drain: empty flag set, cursors at 0, and a fresh region of half the capacity. */
    method Reset()
      requires size == 0 || IsPow2(size)
      modifies this
      ensures Valid() && isEmpty && r == 0 && w == 0 && Contents() == []
      ensures size == old(size) / 2 && mask == size - 1 && fresh(buf) && buf[..] == Zeros(size)
    {
      isEmpty := true;
      r := 0;
      w := 0;
      var newCap := size / 2;
      if size > 0 {
        HalfOfPow2(size);
      }
      buf := new byte[newCap](_ => 0);
      size := newCap;
      mask := newCap - 1;
    }

    /**
     * Consumes up to p.Length bytes into p: a zero-length p is a no-op, an
     * empty buffer reports ErrIsEmpty, and otherwise the first
     * min(p.Length, Length()) readable bytes are copied out and removed; a
     * read that takes every readable byte drains the buffer through Reset.
     */
    method Read(p: array<byte>) returns (n: int, err: Error)
      requires Valid() || AsConstructed()
      requires p != buf
      modifies this, p
      ensures n == (if p.Length == 0 || old(isEmpty) then 0 else Min(p.Length, old(Length())))
      ensures err == (if p.Length > 0 && old(isEmpty) then ErrIsEmpty else Nil)
      ensures n == 0 ==> unchanged(this) && unchanged(p)
      ensures n > 0 ==> old(Valid()) && p[..n] == old(Contents())[..n] && p[n..] == old(p[n..])
      ensures n > 0 ==> Valid() && Contents() == old(Contents())[n..]
      ensures 0 < n < old(Length()) ==>
        !isEmpty && size == old(size) && r == Wrap(old(r) + n, size) && w == old(w) &&
        buf == old(buf) && mask == old(mask)
      ensures n > 0 && n == old(Length()) ==>
        isEmpty && r == 0 && w == 0 && size == old(size) / 2 && mask == size - 1 && fresh(buf)
    {
      if p.Length == 0 {
        return 0, Nil;
      }
      if isEmpty {
        return 0, ErrIsEmpty;
      }
      ghost var b, L, r0 := buf[..], Length(), r;
      Accounting();
      assert Contents() == Ring(b, r, L);
      n := CopyOut(p, L);
      RingDrop(b, r0, L, n);
      assert p[n..] == old(p[n..]);
      if r == w {
        assert n == L by {
          WrapInjective(r0 + n, r0 + L, size);
        }
        Reset();
      } else {
        Drained(b, r0, L, n);
      }
      return n, Nil;
    }

    /**
     * The copying half of Read on a non-empty buffer: the first
     * min(p.Length, Length()) readable bytes go to the front of p, with one copy
     * or, when they run past the end of the region, two; r moves past them,
     * wrapping through the mask.
     */
    method CopyOut(p: array<byte>, ghost L: int) returns (n: int)
      requires buf.Length == size && IsPow2(size) && mask == size - 1
      requires 0 <= r < size && 0 <= w < size && 0 < L <= size && w == Wrap(r + L, size)
      requires p.Length > 0 && p != buf
      modifies this`r, p
      ensures n == Min(p.Length, L) && 0 < n
      ensures p[..n] == Ring(buf[..], old(r), n)
      ensures forall j :: n <= j < p.Length ==> p[j] == old(p[j])
      ensures r == Wrap(old(r) + n, size)
    {
      if w > r {
        assert w - r == L;
        n := p.Length;
        if n > w - r {
          n := w - r;
        }
        CopyRun(p, buf, r, n);
        r := r + n;
      } else {
        assert size - r + w == L;
        n := size - r + w;
        if n > p.Length {
          n := p.Length;
        }
        CopyRun(p, buf, r, n);
        MaskIsWrap(r + n, size);
        r := BitAnd(r + n, mask);
      }
    }

    /**
     * After r has moved n places past r0 without reaching w, the contents are
     * the old ones without their first n bytes.
     */
    lemma Drained(b: seq<byte>, r0: int, L: int, n: int)
      requires b == buf[..] && buf.Length == size && IsPow2(size) && mask == size - 1
      requires 0 <= r0 < size && 0 <= w < size && !isEmpty
      requires 0 < n <= L <= size && w == Wrap(r0 + L, size)
      requires r == Wrap(r0 + n, size) && r != w
      ensures Valid() && Length() == L - n && n < L
      ensures Contents() == Ring(b, r0, L)[n..]
    {
      assert n < L;
      assert w == Wrap(r + (L - n), size);
      LengthFromCursors(L - n);
      RingDrop(b, r0, L, n);
    }

    /**
     * Growth when a write is cap bytes short: a zero-filled region of
     * NewCapacity(size, cap) bytes, into whose start the readable bytes are
     * drained with Read; then r == 0 and w == the old Length(). The empty flag
     * is left set (the draining Read either found the buffer empty or ended in
     * Reset); the write that called for the growth clears it.
     */
    method Malloc(cap: int)
      requires Valid() || AsConstructed()
      requires cap >= 1
      modifies this
      ensures fresh(buf) && size == NewCapacity(old(size), cap) && mask == size - 1
      ensures r == 0 && w == old(Length()) && isEmpty
      ensures old(Valid()) ==> w < size
      ensures w <= size ==> buf[..] == old(Backlog()) + Zeros(size - w)
      ensures w > size ==> !old(Valid()) && buf[..] == Zeros(size)
    {
      var newCap: int;
      if size == 0 && cap < InitSize {
        Pow2InitSize();
        newCap := InitSize;
      } else {
        newCap := CeilToPowerOfTwo(size + cap);
      }
      var newBuf := new byte[newCap](_ => 0);
      var oldLen := Length();
      ghost var wasValid, backlog := Valid(), Backlog();
      assert newCap == NewCapacity(size, cap);
      if wasValid {
        Accounting();
      }
      DrainInto(newBuf);
      if !wasValid && oldLen <= newCap {
        ZerosSplit(oldLen, newCap - oldLen);
      }
      buf := newBuf;
      size := newCap;
      mask := newCap - 1;
      r := 0;
      w := oldLen;
    }

    /**
     * Malloc's draining Read into the zero-filled new region p: the readable
     * bytes of a valid buffer go to the front of p, and the buffer ends up
     * flagged empty either way.
     */
    method DrainInto(p: array<byte>)
      requires Valid() || AsConstructed()
      requires p != buf && p[..] == Zeros(p.Length)
      requires Valid() ==> Length() < p.Length
      modifies this, p
      ensures isEmpty
      ensures old(Valid()) ==> p[..] == old(Contents()) + Zeros(p.Length - old(Length()))
      ensures !old(Valid()) ==> p[..] == Zeros(p.Length)
    {
      var n, err := Read(p);
    }

    /**
     * Appends p: an empty p changes nothing; otherwise the region first grows
     * when Free() is short of |p|, then p is copied in after the readable bytes
     * and the buffer is no longer empty. Writes never fail.
     */
    method Write(p: seq<byte>) returns (n: int, err: Error)
      requires Valid() || AsConstructed()
      modifies this, buf
      ensures n == |p| && err == Nil
      ensures p == [] ==> unchanged(this) && unchanged(buf)
      ensures p != [] ==> Valid() && !isEmpty && Contents() == old(Backlog()) + p
      ensures p != [] && |p| <= old(Free()) ==>
        size == old(size) && buf == old(buf) && r == old(r) &&
        forall j :: 0 <= j < size && !InRun(j, old(w), |p|, size) ==> buf[j] == old(buf[j])
      ensures p != [] && old(Free()) < |p| ==>
        size == NewCapacity(old(size), |p| - old(Free())) && fresh(buf) && r == 0 &&
        buf[..] == old(Backlog()) + p + Zeros(size - old(Length()) - |p|)
    {
      n := |p|;
      if n == 0 {
        return 0, Nil;
      }
      ghost var live, grow := Backlog(), Free() < n;
      Reserve(n);
      ghost var b, w0 := buf[..], w;
      Place(p);
      isEmpty := false;
      Appended(b, w0, live, p);
      if grow {
        StoredAfterLive(b, buf[..], live, p);
      }
      return n, Nil;
    }

    /**
     * The growth step of Write: when Free() is short of n, Malloc by the
     * shortfall. Either way the live bytes are then followed by room for n.
     */
    method Reserve(n: int)
      requires Valid() || AsConstructed()
      requires n > 0
      modifies this
      ensures Staged(old(Backlog()), n) && Free() >= n
      ensures n <= old(Free()) ==> unchanged(this)
      ensures old(Free()) < n ==>
        size == NewCapacity(old(size), n - old(Free())) && fresh(buf) && r == 0 && isEmpty &&
        w == old(Length()) && buf[..] == old(Backlog()) + Zeros(size - old(Length()))
    {
      ghost var live := Backlog();
      var free := Free();
      if free < n {
        Malloc(n - free);
      }
      Room(live, n);
    }

    /**
     * The copying half of Write: p is stored as the cyclic run that starts at
     * w (one copy when it fits before the end of the region, two otherwise),
     * and w moves past it: by |p| when w >= r and p fits, to the length of the
     * second part when it does not, by |p| when w < r, and to 0 at the end.
     */
    method Place(p: seq<byte>)
      requires buf.Length == size && 0 <= r < size && 0 <= w < size
      requires 0 < |p| <= size && (w < r ==> w + |p| <= r)
      modifies this`w, buf
      ensures Ring(buf[..], old(w), |p|) == p
      ensures forall j :: 0 <= j < size && !InRun(j, old(w), |p|, size) ==> buf[j] == old(buf[j])
      ensures w == Wrap(old(w) + |p|, size)
    {
      var n := |p|;
      StoreRun(buf, w, p);
      if w >= r {
        var c1 := size - w;
        if c1 >= n {
          w := w + n;
        } else {
          var c2 := n - c1;
          w := c2;
        }
      } else {
        w := w + n;
      }
      if w == size {
        w := 0;
      }
    }

    /**
     * Appends one byte, growing by one byte's shortfall first when no byte is
     * free. On a newly constructed buffer this is only defined when the write
     * cursor 50 lies inside the region it writes to.
     */
    method WriteByte(c: byte) returns (err: Error)
      requires Valid() || (AsConstructed() && (size > ConstructedWriteCursor || NewCapacity(size, 1) > ConstructedWriteCursor))
      modifies this, buf
      ensures err == Nil && Valid() && !isEmpty && Contents() == old(Backlog()) + [c]
      ensures 1 <= old(Free()) ==>
        size == old(size) && buf == old(buf) && r == old(r) &&
        forall j :: 0 <= j < size && j != old(w) ==> buf[j] == old(buf[j])
      ensures old(Free()) < 1 ==>
        size == NewCapacity(old(size), 1) && fresh(buf) && r == 0 &&
        buf[..] == old(Backlog()) + [c] + Zeros(size - old(Length()) - 1)
    {
      ghost var live, grow := Backlog(), Free() < 1;
      ReserveByte();
      ghost var b, w0 := buf[..], w;
      PutByte(c);
      isEmpty := false;
      Appended(b, w0, live, [c]);
      if grow {
        StoredAfterLive(b, buf[..], live, [c]);
      }
      return Nil;
    }

    /**
     * The growth step of WriteByte: when no byte is free, Malloc by one byte.
     * Either way the live bytes are then followed by room for one more.
     */
    method ReserveByte()
      requires Valid() || (AsConstructed() && (size > ConstructedWriteCursor || NewCapacity(size, 1) > ConstructedWriteCursor))
      modifies this
      ensures Staged(old(Backlog()), 1)
      ensures 1 <= old(Free()) ==> unchanged(this)
      ensures old(Free()) < 1 ==>
        size == NewCapacity(old(size), 1) && fresh(buf) && r == 0 && isEmpty &&
        w == old(Length()) && buf[..] == old(Backlog()) + Zeros(size - old(Length()))
    {
      ghost var live := Backlog();
      if Free() < 1 {
        Malloc(1);
      }
      Room(live, 1);
    }

    /** The storing half of WriteByte: c goes to index w, and w moves on by one, wrapping to 0. */
    method PutByte(c: byte)
      requires buf.Length == size && 0 <= w < size
      modifies this`w, buf
      ensures Ring(buf[..], old(w), 1) == [c]
      ensures forall j :: 0 <= j < size && !InRun(j, old(w), 1, size) ==> buf[j] == old(buf[j])
      ensures w == Wrap(old(w) + 1, size)
    {
      ghost var w0 := w;
      buf[w] := c;
      w := w + 1;
      if w == size {
        w := 0;
      }
      ghost var q := buf[..];
      assert Wrap(w0 + 0, |q|) == w0;
      assert Ring(q, w0, 1)[0] == q[w0] == c;
    }

    /** Appends the bytes of a string; the same as Write of those bytes. */
    method WriteString(s: seq<byte>) returns (n: int, err: Error)
      requires Valid() || AsConstructed()
      modifies this, buf
      ensures n == |s| && err == Nil
      ensures s == [] ==> unchanged(this) && unchanged(buf)
      ensures s != [] ==> Valid() && !isEmpty && Contents() == old(Backlog()) + s
      ensures s != [] && |s| <= old(Free()) ==>
        size == old(size) && buf == old(buf) && r == old(r) &&
        forall j :: 0 <= j < size && !InRun(j, old(w), |s|, size) ==> buf[j] == old(buf[j])
      ensures s != [] && old(Free()) < |s| ==>
        size == NewCapacity(old(size), |s| - old(Free())) && fresh(buf) && r == 0 &&
        buf[..] == old(Backlog()) + s + Zeros(size - old(Length()) - |s|)
    {
      n, err := Write(s);
    }

    /**
     * The state a write copies into: live bytes from r up to w, and room for
     * n more after them. It is reached from a valid buffer with room, or with
     * the live bytes packed at the start of a zero-filled region.
     */
    lemma Room(live: seq<byte>, n: int)
      requires 0 < n && buf.Length == size && |live| + n <= size
      requires (Valid() && live == Contents()) ||
        (AsConstructed() && live == Zeros(ConstructedWriteCursor)) ||
        (IsPow2(size) && mask == size - 1 && r == 0 && w == |live| &&
         buf[..] == live + Zeros(size - |live|))
      ensures Staged(live, n)
    {
      if Valid() && live == Contents() {
        Accounting();
      } else if AsConstructed() && live == Zeros(ConstructedWriteCursor) {
        forall i | 0 <= i < |live| ensures Ring(buf[..], 0, |live|)[i] == live[i] {
          assert Wrap(0 + i, size) == i;
        }
      } else {
        RingSplit(buf[..], 0, |live|);
      }
    }

    /**
     * After p has been stored as the run that starts at the old write cursor
     * w0 and w has moved past it, the buffer is valid and holds live + p.
     */
    lemma Appended(b: seq<byte>, w0: int, live: seq<byte>, p: seq<byte>)
      requires buf.Length == size && IsPow2(size) && mask == size - 1 && |b| == size
      requires 0 <= r < size && 0 <= w0 < size && 0 < |p| && |live| + |p| <= size
      requires w0 == Wrap(r + |live|, size) && Ring(b, r, |live|) == live
      requires Ring(buf[..], w0, |p|) == p
      requires forall j :: 0 <= j < size && !InRun(j, w0, |p|, size) ==> buf[j] == b[j]
      requires w == Wrap(w0 + |p|, size) && !isEmpty
      ensures Valid() && Contents() == live + p
    {
      assert w == Wrap(r + (|live| + |p|), size);
      LengthFromCursors(|live| + |p|);
      AppendAfterRun(b, buf[..], r, |live|, p);
    }

    /**
     * Consumes one byte: ErrIsEmpty on an empty buffer; otherwise the byte at
     * r, the first readable one, and r moves on by one. At the end of the
     * region r wraps to 0 without the drain check, so when that byte was the
     * last one the buffer is left full of its old bytes; elsewhere reaching w
     * drains through Reset.
     */
    method ReadByte() returns (c: byte, err: Error)
      requires Valid() || AsConstructed()
      modifies this
      ensures err == (if old(isEmpty) then ErrIsEmpty else Nil)
      ensures old(isEmpty) ==> c == 0 && unchanged(this)
      ensures !old(isEmpty) ==> old(Valid()) && c == old(Contents())[0] && Valid()
      ensures !old(isEmpty) && 1 < old(Length()) ==>
        Contents() == old(Contents())[1..] && size == old(size) && w == old(w) &&
        buf == old(buf) && !isEmpty && r == Wrap(old(r) + 1, size)
      ensures !old(isEmpty) && old(Length()) == 1 && old(r) < old(size) - 1 ==>
        Contents() == [] && isEmpty && r == 0 && w == 0 && size == old(size) / 2 && fresh(buf)
      ensures !old(isEmpty) && old(Length()) == 1 && old(r) == old(size) - 1 ==>
        IsFull() && r == 0 && w == 0 && buf == old(buf) && Contents() == old(buf[..])
    {
      if isEmpty {
        return 0, ErrIsEmpty;
      }
      ghost var b, L, r0 := buf[..], Length(), r;
      Accounting();
      assert Ring(b, r0, L)[0] == b[Wrap(r0 + 0, size)];
      c := buf[r];
      r := r + 1;
      if r == size {
        r := 0;
        if L == 1 {
          WholeRegion(b);
        } else {
          Drained(b, r0, L, 1);
        }
      } else if r == w {
        assert L == 1 by {
          WrapInjective(r0 + 1, r0 + L, size);
        }
        Reset();
      } else {
        Drained(b, r0, L, 1);
      }
      return c, Nil;
    }

    /**
     * A buffer with r == w == 0 and the empty flag clear is full: it counts
     * size readable bytes, its whole region in order.
     */
    lemma WholeRegion(b: seq<byte>)
      requires Valid() && b == buf[..] && r == 0 && w == 0 && !isEmpty
      ensures Length() == size && Free() == 0 && IsFull() && Contents() == b
    {
      RingSplit(b, 0, size);
    }

    /**
     * Commits a peek: n <= 0 changes nothing; n short of Length() moves r past
     * n bytes, wrapping through the mask; any larger n drains through Reset,
     * also on a buffer that was already empty.
     */
    method Shift(n: int)
      requires Valid() || AsConstructed()
      modifies this
      ensures n <= 0 ==> unchanged(this)
      ensures 0 < n < old(Length()) && old(Valid()) ==>
        Valid() && !isEmpty && Contents() == old(Contents())[n..] &&
        size == old(size) && w == old(w) && buf == old(buf) && r == Wrap(old(r) + n, size)
      ensures 0 < n < old(Length()) && !old(Valid()) ==>
        size == old(size) && w == old(w) && buf == old(buf) && isEmpty &&
        mask == old(mask) >= 0 && r == BitAnd(n, mask)
      ensures 0 < n && old(Length()) <= n ==>
        Valid() && isEmpty && Contents() == [] && r == 0 && w == 0 &&
        size == old(size) / 2 && mask == size - 1 && fresh(buf)
    {
      if n <= 0 {
        return;
      }
      if n < Length() {
        ghost var valid, b, L, r0 := Valid(), buf[..], Length(), r;
        if valid {
          Accounting();
        }
        r := BitAnd(r + n, mask);
        if valid {
          Skipped(b, r0, L, n);
        }
      } else {
        Reset();
      }
    }

    /**
     * After Shift has moved r from r0 through the mask by n places, short of
     * the L readable bytes, the buffer is valid and holds the last L - n.
     */
    lemma Skipped(b: seq<byte>, r0: int, L: int, n: int)
      requires b == buf[..] && buf.Length == size && IsPow2(size) && mask == size - 1
      requires 0 <= r0 < size && 0 <= w < size && !isEmpty
      requires 0 < n < L <= size && w == Wrap(r0 + L, size)
      requires r == BitAnd(r0 + n, mask)
      ensures Valid() && Contents() == Ring(b, r0, L)[n..] && r == Wrap(r0 + n, size)
    {
      MaskIsWrap(r0 + n, size);
      assert r != w by {
        if r == w {
          WrapInjective(r0 + n, r0 + L, size);
        }
      }
      Drained(b, r0, L, n);
    }

    /**
     * Peeks at up to rlen readable bytes without consuming them: the ones up
     * to the end of the region as head, and the ones that continue from index
     * 0 as tail. An empty buffer or rlen <= 0 gives nothing.
     */
    function LazyRead(rlen: int): (v: Views)
      requires Valid() || AsConstructed()
      reads this, buf
      ensures isEmpty || rlen <= 0 ==> v == Views([], [])
      ensures !isEmpty && 0 < rlen ==> Valid() && v.head + v.tail == Contents()[..Min(rlen, Length())]
      ensures !isEmpty && 0 < rlen ==> (v.tail != [] <==> r + Min(rlen, Length()) > size)
    {
      if isEmpty || rlen <= 0 then Views([], [])
      else if w > r then
        var n := Min(w - r, rlen);
        PeekSplit(n);
        Views(buf[r..r + n], [])
      else
        var n := Min(size - r + w, rlen);
        PeekSplit(n);
        if size >= r + n then Views(buf[r..r + n], [])
        else Views(buf[r..], buf[..r + n - size])
    }

    /**
     * Peeks at every readable byte without consuming them: from r to w when
     * w > r, otherwise from r to the end of the region and then, unless w is
     * 0, from index 0 to w.
     */
    function LazyReadAll(): (v: Views)
      requires Valid() || AsConstructed()
      reads this, buf
      ensures isEmpty ==> v == Views([], [])
      ensures !isEmpty ==> Valid() && v.head + v.tail == Contents()
      ensures !isEmpty ==> (v.tail != [] <==> r + Length() > size)
    {
      if isEmpty then Views([], [])
      else if w > r then
        PeekSplit(Length());
        Views(buf[r..w], [])
      else
        PeekSplit(Length());
        Views(buf[r..], if w != 0 then buf[..w] else [])
    }

    /** Peeking at everything is peeking at Length() bytes. */
    lemma LazyReadAllIsLazyReadLength()
      requires Valid()
      ensures LazyReadAll() == LazyRead(Length())
    {
    }

    /** The first k readable bytes, as the one or two slices of the region they occupy. */
    lemma PeekSplit(k: int)
      requires Valid() && !isEmpty && 0 <= k <= Length()
      ensures r + k <= size ==> Contents()[..k] == buf[r..r + k]
      ensures r + k > size ==> Contents()[..k] == buf[r..] + buf[..r + k - size]
    {
      RingDrop(buf[..], r, Length(), k);
      RingSplit(buf[..], r, k);
    }
  }
}
