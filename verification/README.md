# Growable ring buffer of bytes

This project models `RingBuffer` from `ring_buffer.go`. It is a circular byte queue. A backing
region `buf` holds `size` bytes, where `size` is 0 or a power of two. A read cursor `r` and a
write cursor `w` move round the region, and an explicit `isEmpty` flag tells "empty" apart
from "full" when `r == w`. Index arithmetic wraps with `& mask`, where `mask == size - 1`.

- Writes append with a one- or two-part copy across the end of the region. When free space is
  short they first grow the region: `malloc` moves the readable bytes to the start of a larger
  region.
- `Read` and `ReadByte` consume bytes. `LazyRead` and `LazyReadAll` peek without consuming,
  and `Shift` commits a peek.
- Every drain goes through `Reset`. It zeroes the cursors and halves the region.

Files:

- `bits.dfy`: powers of two, rounding up to one, and Go's `&` against a mask (`BitAnd`). It
  proves that masking with `size - 1` is reduction modulo `size`.
- `window.dfy`: the abstract view of the contents. `Ring(b, s, len)` is the run of `len` bytes
  of `b` that starts at `s` and continues round the end. Lemmas relate it to one or two
  slices, to concatenation and to dropping a prefix.
- `ring_buffer.dfy`: the `RingBuffer` class. Its fields are the Go struct's fields, with
  `buf: array<bv8>`. Each method is proved against the ghost function
  `Contents() == Ring(buf[..], r, Length())`. Every exported operation started in `Valid()`
  ends in `Valid()`. From a new buffer (`AsConstructed()`), every exported operation except
  `Shift` with 0 < n < 50 ends in `Valid()` or leaves the buffer as constructed. `Malloc`
  (Go's unexported `malloc`) and the copy helpers are internal steps: after `Malloc` the
  buffer is valid only once the calling write has finished.
- `clients.dfy`: peek-then-shift against a plain read, and concrete runs.

The constructor sets `w` to 50 (ring_buffer.go:39), so a new buffer is not `Valid()`. It is
flagged empty, but its cursors count 50 readable bytes. The model describes that state with
`AsConstructed()`, and the operations accept `Valid() || AsConstructed()`. A write into a new
buffer appends to `Backlog()`, which is 50 zero bytes. `Clients.ConstructedFirstWrite` shows
this: writing 6 bytes into `NewRingBuffer(8)` gives 56 readable bytes in a 64-byte region.

Three behaviours of the code shape the model:
- A new buffer's write cursor of 50 means a valid 8-byte buffer exists only after a drain, so
  `Clients.FillAndGrow` starts from `NewRingBuffer(16)` followed by `Reset()`.
- `Shift` calls `Reset` once `n >= Length()` (ring_buffer.go:108-112), which also halves a
  buffer that was already empty.
- `ReadByte` wraps `r` at the end of the region without the drain check
  (ring_buffer.go:179-183). When the last readable byte sits at index `size - 1`, the buffer is
  left with `r == w == 0`, not flagged empty, and so full of its old bytes.

## Model

| member | source | states |
|---|---|---|
| Bits.CeilToPowerOfTwo | ring_buffer.go:325 | the result is a power of two, at least x, and less than 2x unless it is 1 |
| Bits.MaskIsMod | ring_buffer.go:109 | `x & (size - 1)` is `x % size` when size is a power of two |
| Bits.HalfOfPow2 | ring_buffer.go:312 | `size >> 1` of a power of two is 0 exactly when size is 1, and otherwise again a power of two |
| Window.RingAt | ring_buffer.go:278-291 | byte i of the readable run is the byte at index (r + i) mod size |
| Window.RingSplit | ring_buffer.go:146-157 | the cyclic run is one slice when it ends by the region end, and otherwise the slice to the end followed by the slice from index 0 |
| RingBuffers.NewCapacity | ring_buffer.go:320-326 | the grown capacity is a power of two with room for size + cap bytes; it is 4096 or less than twice size + cap |
| RingBuffers.MaskIsWrap | ring_buffer.go:160 | `(r + n) & mask` brings a cursor less than one lap past the end back into the region |
| RingBuffers.Copy | ring_buffer.go:133 | Go's copy: dst from lo holds src and every other byte of dst is unchanged |
| RingBuffers.CopyRun | ring_buffer.go:146-157 | after the one- or two-part copy, p[..n] is the n-byte cyclic run from s and the rest of p is unchanged |
| RingBuffers.StoreRun | ring_buffer.go:200-216 | after the one- or two-part copy, the cyclic run from w holds the written bytes and every byte outside it is unchanged |
| RingBuffers.StoredAfterLive | ring_buffer.go:200-216 | a write after growth stores p right after the moved bytes in a region that was otherwise zero, so the region reads old bytes, p, then zeros |
| RingBuffers.RingBuffer.Contents | ring_buffer.go:278-291 | the readable bytes number Length(), at most size, and there are none exactly when the buffer is flagged empty |
| RingBuffers.RingBuffer.Backlog | ring_buffer.go:36-48 | what a write appends to: the contents of a valid buffer, 50 zero bytes for a new one, of length Length() either way |
| RingBuffers.RingBuffer.Free | ring_buffer.go:262-275 | the body is Go's three-way expression; Free() + Length() == size in every state, and Accounting states the rest |
| RingBuffers.RingBuffer.Length | ring_buffer.go:278-291 | the body is Go's three-way expression; with both cursors in the region it is between 0 and size, and 0 exactly when the buffer is flagged empty with r == w |
| RingBuffers.RingBuffer.Len | ring_buffer.go:294-296 | the length of the backing region, which is Cap() in every valid state |
| RingBuffers.RingBuffer.Cap | ring_buffer.go:299-301 | the recorded size, which is 0 or a power of two in every valid state |
| RingBuffers.RingBuffer.IsEmpty | ring_buffer.go:252-254 | the empty flag, which in a valid state is set exactly when Length() == 0 |
| RingBuffers.RingBuffer.IsFull | ring_buffer.go:257-259 | cursors equal and not flagged empty, which in a valid state holds exactly when Cap() > 0 and Length() == Cap() |
| RingBuffers.RingBuffer.Accounting | ring_buffer.go:252-301 | in a valid state Length() + Free() == Cap(), Length() == 0 iff IsEmpty(), IsFull() iff Free() == 0 and not empty, IsFull() iff Length() == Cap() > 0, Len() == Cap(), and w lies Length() places past r |
| RingBuffers.RingBuffer.ConstructedIsNotValid | ring_buffer.go:36-48 | a new buffer is flagged empty yet Length() is 50 and Free() is Cap() - 50, so it is not valid |
| RingBuffers.RingBuffer.LastByteAtEnd | ring_buffer.go:169-185 | when the one readable byte sits at index size - 1, w is 0, so the advanced cursor size is not compared with w: ReadByte takes the wrap branch and not the drain check |
| RingBuffers.RingBuffer.WholeRegion | ring_buffer.go:179-183 | the state that wrap leaves, r == w == 0 without the empty flag, has Length() == size, Free() == 0, IsFull(), and the whole old region as its contents |
| RingBuffers.RingBuffer.NewRingBuffer | ring_buffer.go:36-48 | flagged empty, r == 0, w == 50, a zero-filled region of the requested size (none for a non-positive size), mask == size - 1 or 0 |
| RingBuffers.RingBuffer.Reset | ring_buffer.go:304-317 | valid, empty, r == w == 0, a fresh zero-filled region of half the old size, mask == new size - 1 |
| RingBuffers.RingBuffer.Read | ring_buffer.go:115-166 | empty p: (0, nil) and nothing changes; empty buffer: (0, ErrIsEmpty) and nothing changes; otherwise n == min(len(p), Length()), p[..n] is the first n readable bytes, the rest of p is unchanged, the contents lose exactly those n bytes, and a read of everything ends in Reset |
| RingBuffers.RingBuffer.CopyOut | ring_buffer.go:127-160 | n == min(len(p), Length()) > 0, p[..n] is the n bytes from r round the region, and r moves n places with wrap-around |
| RingBuffers.RingBuffer.Malloc | ring_buffer.go:320-341 | a fresh region of NewCapacity(size, cap) bytes, r == 0, w == old Length(), the old readable bytes in order at its start followed by zeros, and the empty flag still set |
| RingBuffers.RingBuffer.DrainInto | ring_buffer.go:331-333 | the draining Read of malloc: the readable bytes of a valid buffer land at the front of the zero-filled new region, and the buffer ends up flagged empty |
| RingBuffers.RingBuffer.Write | ring_buffer.go:188-225 | returns (len(p), nil); an empty p changes nothing; otherwise the buffer is valid, not empty, and holds the old contents followed by p; without growth size, buf and r are kept and every byte of the region outside the run p was stored on is unchanged; with growth (only when Free() < len(p)) the region has NewCapacity(size, shortfall) bytes and reads old contents, p, then zeros |
| RingBuffers.RingBuffer.Reserve | ring_buffer.go:194-198 | after growing by the shortfall when Free() < n, there is room for n bytes after the live ones, and Free() >= n; after growth r == 0, w == old Length() and the region reads the old contents and then zeros |
| RingBuffers.RingBuffer.Place | ring_buffer.go:200-220 | p is stored as the cyclic run from w, nothing outside it changes, and w moves len(p) places with wrap-around |
| RingBuffers.RingBuffer.WriteByte | ring_buffer.go:228-244 | returns nil; the buffer is valid, not empty, and holds the old contents followed by the byte; without growth size, buf and r are kept and every byte but the one at the old w is unchanged; with growth (malloc(1), only when Free() < 1) the region reads old contents, the byte, then zeros |
| RingBuffers.RingBuffer.ReserveByte | ring_buffer.go:229-231 | after malloc(1) when Free() < 1, there is room for one byte after the live ones; after growth r == 0, w == old Length() and the region reads the old contents and then zeros |
| RingBuffers.RingBuffer.PutByte | ring_buffer.go:234-239 | the byte is stored at w, nothing else changes, and w moves one place with wrap-around |
| RingBuffers.RingBuffer.WriteString | ring_buffer.go:247-249 | the contract of Write for the string's bytes: (len(s), nil); an empty string changes nothing; otherwise the old contents followed by s, with the same size, region and growth clauses |
| RingBuffers.RingBuffer.ReadByte | ring_buffer.go:169-185 | empty: (0, ErrIsEmpty) and nothing changes; otherwise returns the first readable byte; with more left the contents lose that byte; the last byte away from the end of the region drains through Reset; the last byte at the end leaves a full buffer of the old region |
| RingBuffers.RingBuffer.Shift | ring_buffer.go:103-113 | n <= 0 changes nothing; 0 < n < Length() removes exactly the first n readable bytes; n >= Length() with n > 0 ends in Reset, also on an empty buffer |
| RingBuffers.RingBuffer.Skipped | ring_buffer.go:108-109 | moving r through the mask by n places, short of the L readable bytes, leaves a valid buffer whose contents are the old ones without their first n |
| RingBuffers.RingBuffer.LazyRead | ring_buffer.go:51-81 | nothing on an empty buffer or rlen <= 0; otherwise head + tail is the first min(rlen, Length()) readable bytes, and tail is non-empty exactly when they run past the end of the region |
| RingBuffers.RingBuffer.LazyReadAll | ring_buffer.go:84-100 | nothing on an empty buffer; otherwise head + tail is all readable bytes, and tail is non-empty exactly when they run past the end of the region |
| RingBuffers.RingBuffer.LazyReadAllIsLazyReadLength | ring_buffer.go:51-100 | peeking at everything gives the same views as peeking at Length() bytes |
| Clients.PeekShiftIsRead | ring_buffer.go:51-166 | LazyRead(k) then Shift(k) on one buffer, and Read into k bytes on an identical one, give the same bytes and the same resulting state |
| Clients.FillAndGrow | ring_buffer.go:188-225 | 6 bytes into an 8-byte buffer, then 4 more, grows it to 16 bytes with all 10 readable in order |
| Clients.GrowAndDrain | ring_buffer.go:115-185 | reading that buffer into 8 and then 8 bytes returns the first 8 and the last 2, drains it to 8 bytes, and ReadByte then reports ErrIsEmpty |
| Clients.Straddling | ring_buffer.go:115-225 | 7 bytes into a drained 8-byte buffer, 6 read out and 2 more written leave r == 6 and contents [17, 18, 19] across the region end |
| Clients.StraddlingPeek | ring_buffer.go:51-81 | with 3 bytes across the region end, LazyRead(3) returns them as a non-empty head and tail without consuming them |
| Clients.ConstructedFirstWrite | ring_buffer.go:36-48 | the first write of 6 bytes into NewRingBuffer(8) grows it to 64 bytes and leaves 50 zero bytes ahead of the data |

## Left out

- Go's `int` is 64 bits wide. The model uses unbounded integers, so sizes and cursors near 2^63 are not modelled.
- `StringToBytes` is not part of this model. `WriteString` takes the string's bytes directly.
- `CeilToPowerOfTwo` is not part of this model. `Bits.CeilToPowerOfTwo` is the definition assumed for it: the smallest power of two at least x.
- `LazyRead` and `LazyReadAll` return views that alias `buf` in Go. The model returns sequences, so the invalidation of a view by a later write, read or reset is not modelled.
- Allocation by `make`, garbage collection and allocation failure are not modelled. A new region is a fresh zero-filled array.
- The error text of `ErrIsEmpty` is not modelled. Errors are the values `Nil` and `ErrIsEmpty`.
- RingBuffers.RingBuffer.NewRingBuffer: requires a positive size to be a power of two. The Go constructor does not round the size, and masking is only correct for powers of two.
- RingBuffers.RingBuffer.Read: requires `p` to be a different array from `buf`. Reading a buffer into its own backing region is not modelled.
- RingBuffers.RingBuffer.WriteByte: on a new buffer of 1 to 32 bytes the Go code grows to at most 64 bytes by `malloc(1)` and then stores at index 50. When the grown region has 50 bytes or fewer, that index is out of range and Go panics. The precondition excludes that case.
- RingBuffers.RingBuffer.ReadByte: the contents are stated as the old ones minus the first byte only when more than one byte was readable. In the wrap case (see `LastByteAtEnd`) the contract states the resulting full buffer instead.
- RingBuffers.RingBuffer.Shift: on a new buffer with 0 < n < 50, the contract states the new cursor `n & mask` and no contents, because the state is neither valid nor as constructed.
- RingBuffers.Copy: models Go's `copy` only where the whole source fits in the destination. That holds at every call site here, so the truncation to the shorter length is not modelled.
- RingBuffers.RingBuffer.CopyOut: the single copy of the `w > r` branch (ring_buffer.go:133) and the single or split copy of the other branch go through the same `CopyRun` helper. That helper takes the one-copy path in the `w > r` case.
- RingBuffers.RingBuffer.Place: the one- or two-part copy is done by `StoreRun` before the cursor update. In Go the copy sits inside each branch of the cursor update (ring_buffer.go:200-216).
- There is no concurrency in the type, and the model has none.
