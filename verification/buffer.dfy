/** The growable read/write buffer of muduo/src/buffer.hpp (class Buffer).

    The buffer is a byte vector with a read index and a write index. The bytes
    between the two indices are the readable data; the bytes before the read index
    are the head free space, those after the write index the back free space.
    `ensure_writeable` makes room at the back, either by moving the readable data to
    the front of the vector or by growing the vector. */
module Buffers {

  /** The storage size a default-constructed buffer starts with. */
  const INIT_SIZE: nat := 1024

  /** The byte vector `buffer_` and the two indices `read_index_`, `write_index_`. */
  datatype Buffer = Buffer(storage: seq<char>, readIndex: nat, writeIndex: nat)

  /** The invariant every operation keeps: the read index never passes the write
      index, and the write index never passes the end of the storage. */
  predicate Valid(b: Buffer)
  {
    b.readIndex <= b.writeIndex <= |b.storage|
  }

  /** The readable data: the bytes from the read index up to the write index. */
  function Content(b: Buffer): seq<char>
    requires Valid(b)
  {
    b.storage[b.readIndex..b.writeIndex]
  }

  /** `n` zero bytes, as `std::vector<char>` value-initializes new elements. */
  function Zeros(n: nat): (z: seq<char>)
    ensures |z| == n
    ensures forall i :: 0 <= i < n ==> z[i] == '\0'
  {
    seq(n, _ => '\0')
  }

  /** The constructor: `initSize` zero bytes, nothing readable. */
  function New(initSize: nat): (b: Buffer)
    ensures Valid(b)
    ensures |b.storage| == initSize && b.readIndex == 0 && b.writeIndex == 0
    ensures Content(b) == []
    ensures forall i :: 0 <= i < |b.storage| ==> b.storage[i] == '\0'
  {
    Buffer(Zeros(initSize), 0, 0)
  }

  /** `begin_read`, as a position in the storage: the readable data starts there. */
  function BeginRead(b: Buffer): (i: nat)
    requires Valid(b)
    ensures i <= b.writeIndex
    ensures b.storage[i..b.writeIndex] == Content(b)
  {
    b.readIndex
  }

  /** `begin_write`, as a position in the storage: the readable data ends there and
      the back free space runs from there to the end. */
  function BeginWrite(b: Buffer): (i: nat)
    requires Valid(b)
    ensures BeginRead(b) + |Content(b)| == i
    ensures i + BackFreeSize(b) == |b.storage|
  {
    b.writeIndex
  }

  /** `head_free_size`: the space already consumed at the front. Together with the
      readable data and the back free space it covers the whole storage. */
  function HeadFreeSize(b: Buffer): (n: nat)
    requires Valid(b)
    ensures n + ReadableSize(b) + BackFreeSize(b) == |b.storage|
    ensures b.storage[n..] == Content(b) + b.storage[b.writeIndex..]
  {
    b.readIndex
  }

  /** `back_free_size`: the room after the readable data. */
  function BackFreeSize(b: Buffer): (n: nat)
    requires Valid(b)
    ensures b.writeIndex + n == |b.storage|
  {
    |b.storage| - b.writeIndex
  }

  /** `readable_size`: the number of readable bytes. */
  function ReadableSize(b: Buffer): (n: nat)
    requires Valid(b)
    ensures n == |Content(b)|
  {
    b.writeIndex - b.readIndex
  }

  /** `writeable_size`: all the storage the readable data does not occupy. */
  function WriteableSize(b: Buffer): (n: nat)
    requires Valid(b)
    ensures n + |Content(b)| == |b.storage|
  {
    HeadFreeSize(b) + BackFreeSize(b)
  }

  /** `move_read_off`: consume `len` readable bytes. The source asserts that no more
      than the readable bytes are consumed. */
  function MoveReadOff(b: Buffer, len: nat): (r: Buffer)
    requires Valid(b) && len <= ReadableSize(b)
    ensures Valid(r)
    ensures r.storage == b.storage && r.writeIndex == b.writeIndex
    ensures r.readIndex == b.readIndex + len
    ensures Content(b) == Content(b)[..len] + Content(r)
  {
    b.(readIndex := b.readIndex + len)
  }

  /** `move_write_off`: commit `len` bytes written after the readable data. The
      source asserts that they fit in the back free space. */
  function MoveWriteOff(b: Buffer, len: nat): (r: Buffer)
    requires Valid(b) && len <= BackFreeSize(b)
    ensures Valid(r)
    ensures r.storage == b.storage && r.readIndex == b.readIndex
    ensures ReadableSize(r) == ReadableSize(b) + len
    ensures Content(r) == Content(b) + b.storage[b.writeIndex..b.writeIndex + len]
  {
    b.(writeIndex := b.writeIndex + len)
  }

  /** The middle branch of `ensure_writeable`: the readable bytes are copied to the
      front of the storage; the bytes after them keep their old values. */
  function Compact(b: Buffer): (r: Buffer)
    requires Valid(b)
    ensures Valid(r)
    ensures |r.storage| == |b.storage| && r.readIndex == 0
    ensures Content(r) == Content(b)
    ensures BackFreeSize(r) == WriteableSize(b)
  {
    var readable := ReadableSize(b);
    Buffer(Content(b) + b.storage[readable..], 0, readable)
  }

  /** The last branch of `ensure_writeable`: the storage is resized to
      `write_index_ + len` zero-filled bytes; the indices stay. */
  function Grow(b: Buffer, len: nat): (r: Buffer)
    requires Valid(b) && BackFreeSize(b) < len
    ensures Valid(r)
    ensures r.readIndex == b.readIndex && r.writeIndex == b.writeIndex
    ensures |r.storage| == b.writeIndex + len
    ensures r.storage[..|b.storage|] == b.storage
    ensures Content(r) == Content(b)
  {
    Buffer(b.storage + Zeros(b.writeIndex + len - |b.storage|), b.readIndex, b.writeIndex)
  }

  /** `ensure_writeable(len)`: afterwards at least `len` bytes of back free space are
      available and the readable data is unchanged. */
  function EnsureWriteable(b: Buffer, len: nat): (r: Buffer)
    requires Valid(b)
    ensures Valid(r)
    ensures BackFreeSize(r) >= len
    ensures Content(r) == Content(b)
    ensures ReadableSize(r) == ReadableSize(b)
    // the storage never shrinks
    ensures |r.storage| >= |b.storage|
    // nothing moves when the back free space already suffices
    ensures BackFreeSize(b) >= len ==> r == b
    // the storage grows only when the free space at both ends together is short
    ensures |r.storage| > |b.storage| <==> WriteableSize(b) < len
    // compaction moves the data to the front without growing the storage
    ensures BackFreeSize(b) < len <= WriteableSize(b) ==> r.readIndex == 0 && |r.storage| == |b.storage|
    // growth keeps the indices and makes the storage exactly large enough
    ensures WriteableSize(b) < len ==>
              r.readIndex == b.readIndex && r.writeIndex == b.writeIndex && |r.storage| == b.writeIndex + len
  {
    if BackFreeSize(b) >= len then b
    else if WriteableSize(b) >= len then Compact(b)
    else Grow(b, len)
  }

  /** A default-constructed buffer takes up to `INIT_SIZE` bytes without moving
      or growing its storage, and one byte more makes it grow to exactly that size. */
  lemma DefaultHasRoom(len: nat)
    ensures BackFreeSize(New(INIT_SIZE)) == INIT_SIZE
    ensures len <= INIT_SIZE ==> EnsureWriteable(New(INIT_SIZE), len) == New(INIT_SIZE)
    ensures len > INIT_SIZE ==> |EnsureWriteable(New(INIT_SIZE), len).storage| == len
  {
  }

  /** A second `ensure_writeable` for the same length changes nothing. */
  lemma EnsureWriteableIdempotent(b: Buffer, len: nat)
    requires Valid(b)
    ensures EnsureWriteable(EnsureWriteable(b, len), len) == EnsureWriteable(b, len)
  {
  }

  /** Consuming in two steps is consuming once. */
  lemma MoveReadOffAdditive(b: Buffer, m: nat, n: nat)
    requires Valid(b) && m + n <= ReadableSize(b)
    ensures MoveReadOff(MoveReadOff(b, m), n) == MoveReadOff(b, m + n)
  {
  }

  /** Room made for `len` bytes and `len` bytes committed: the old readable data
      comes first, followed by exactly the `len` bytes at the old write position. */
  lemma AppendKeepsOrder(b: Buffer, len: nat)
    requires Valid(b)
    ensures Content(MoveWriteOff(EnsureWriteable(b, len), len))[..ReadableSize(b)] == Content(b)
    ensures |Content(MoveWriteOff(EnsureWriteable(b, len), len))| == ReadableSize(b) + len
  {
  }

  /** Writing `len` bytes and then reading everything that was readable before
      leaves exactly the `len` new bytes readable: the buffer is first in, first out. */
  lemma ReadAfterAppend(b: Buffer, len: nat)
    requires Valid(b)
    ensures ReadableSize(b) <= ReadableSize(MoveWriteOff(EnsureWriteable(b, len), len))
    ensures ReadableSize(MoveReadOff(MoveWriteOff(EnsureWriteable(b, len), len), ReadableSize(b))) == len
    ensures Content(MoveWriteOff(EnsureWriteable(b, len), len))
         == Content(b) + Content(MoveReadOff(MoveWriteOff(EnsureWriteable(b, len), len), ReadableSize(b)))
  {
  }
}
