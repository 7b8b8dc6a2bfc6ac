/** Segment geometry and the bytes of a file on disk: where a segment lies,
    what its padded block is, and what writing at an offset does. */
module Blocks {
  import opened Common

  const SEGMENT_SIZE: nat := 8000

  /** The number of segments a file of `size` bytes is cut into. */
  function SegmentCount(size: nat): nat {
    if size % SEGMENT_SIZE == 0 then size / SEGMENT_SIZE else size / SEGMENT_SIZE + 1
  }

  /** The offset of the first byte of segment `id`. */
  function Offset(id: nat): nat {
    id * SEGMENT_SIZE
  }

  /** How many bytes of the file lie in segment `id`; the rest of its block is padding. */
  function ClippedSize(size: nat, id: nat): nat
    requires id < SegmentCount(size)
  {
    if size - Offset(id) < SEGMENT_SIZE then size - Offset(id) else SEGMENT_SIZE
  }

  predicate InSegment(id: nat, p: nat) {
    Offset(id) <= p < Offset(id) + SEGMENT_SIZE
  }

  /** The byte at position `p`; a position past the end reads as a hole. */
  function ByteAt(d: bytes, p: nat): byte {
    if p < |d| then d[p] else 0
  }

  function Zeros(n: nat): (z: bytes)
    ensures |z| == n
    ensures forall p: nat :: ByteAt(z, p) == 0
  {
    seq(n, _ => 0)
  }

  /** Writing one byte at `p`, past the end if need be: the file grows to hold it. */
  function WriteByte(d: bytes, p: nat, b: byte): (r: bytes)
    ensures |r| == if p < |d| then |d| else p + 1
    ensures ByteAt(r, p) == b
    ensures forall q: nat :: q != p ==> ByteAt(r, q) == ByteAt(d, q)
  {
    if p < |d| then d[p := b] else d + Zeros(p - |d|) + [b]
  }

  /** Writing `data` at offset `p`, one byte after the other. */
  function WriteAt(d: bytes, p: nat, data: bytes): (r: bytes)
    ensures |r| == if data == [] || p + |data| <= |d| then |d| else p + |data|
    ensures forall j: nat :: j < |data| ==> ByteAt(r, p + j) == data[j]
    ensures forall q: nat :: !(p <= q < p + |data|) ==> ByteAt(r, q) == ByteAt(d, q)
    decreases |data|
  {
    if data == [] then d
    else
      var n := |data| - 1;
      WriteByte(WriteAt(d, p, data[..n]), p + n, data[n])
  }

  lemma WriteAtSnoc(d: bytes, p: nat, data: bytes, n: nat)
    requires n < |data|
    ensures WriteAt(d, p, data[..n + 1]) == WriteByte(WriteAt(d, p, data[..n]), p + n, data[n])
  {
    assert data[..n + 1][..n] == data[..n];
  }

  /** The zero-padded block that stands for segment `id` of `source` on the wire. */
  function Block(source: bytes, id: nat): (b: bytes)
    ensures |b| == SEGMENT_SIZE
    ensures forall j: nat :: j < SEGMENT_SIZE ==> b[j] == ByteAt(source, Offset(id) + j)
  {
    seq<byte>(SEGMENT_SIZE, (j: nat) => ByteAt(source, Offset(id) + j))
  }

  /** The disk holds segment `id` of `source`, padding included. */
  ghost predicate HoldsSegment(d: bytes, source: bytes, id: nat) {
    forall p: nat | InSegment(id, p) :: ByteAt(d, p) == ByteAt(source, p)
  }

  // ---------- part of a segment ----------

  function Min(a: nat, b: nat): nat {
    if a < b then a else b
  }

  /** The block of segment `id` with zeros from byte n on. */
  function Cut(source: bytes, id: nat, n: nat): (b: bytes)
    ensures |b| == SEGMENT_SIZE
    ensures forall j: nat :: j < SEGMENT_SIZE ==> b[j] == if j < n then ByteAt(source, Offset(id) + j) else 0
  {
    Block(source, id)[..Min(n, SEGMENT_SIZE)] + seq<byte>(SEGMENT_SIZE - Min(n, SEGMENT_SIZE), _ => 0)
  }

  /** The disk holds the first n bytes of segment `id` of `source`, and then zeros. */
  ghost predicate HoldsUpTo(d: bytes, source: bytes, id: nat, n: nat) {
    forall p: nat | InSegment(id, p) :: ByteAt(d, p) == if p < Offset(id) + n then ByteAt(source, p) else 0
  }

  /** Segment `id` of the source has only zeros from byte n on, padding included. */
  ghost predicate ZeroFrom(source: bytes, id: nat, n: nat) {
    forall p: nat | InSegment(id, p) && p >= Offset(id) + n :: ByteAt(source, p) == 0
  }

  /** A segment that came through up to byte n is whole exactly if the rest is zeros. */
  lemma HoldsExactly(d: bytes, source: bytes, id: nat, n: nat)
    requires HoldsUpTo(d, source, id, n)
    ensures HoldsSegment(d, source, id) <==> ZeroFrom(source, id, n)
    ensures Cut(source, id, n) == Block(source, id) <==> ZeroFrom(source, id, n)
  {
    CutExactly(source, id, n);
  }

  lemma CutExactly(source: bytes, id: nat, n: nat)
    ensures Cut(source, id, n) == Block(source, id) <==> ZeroFrom(source, id, n)
  {
    var c, b := Cut(source, id, n), Block(source, id);
    if c == b {
      forall p: nat | InSegment(id, p) && p >= Offset(id) + n
        ensures ByteAt(source, p) == 0
      {
        var j: nat := p - Offset(id);
        assert c[j] == b[j];
      }
    }
    if ZeroFrom(source, id, n) {
      forall j: nat | j < SEGMENT_SIZE
        ensures c[j] == b[j]
      {
        assert InSegment(id, Offset(id) + j);
      }
    }
  }

  // ---------- geometry ----------

  /** The segment count is the ceiling of size / 8000. */
  lemma CountIsCeiling(size: nat, n: nat)
    ensures n == SegmentCount(size) <==> Offset(n) >= size && (n == 0 || Offset(n - 1) < size)
  {
  }

  /** The clipped ranges partition [0, size): position p is in the range of exactly
      one segment, which is p / 8000. */
  lemma RangesPartition(size: nat, p: nat, id: nat)
    ensures p < size ==> p / SEGMENT_SIZE < SegmentCount(size)
    ensures id < SegmentCount(size) ==>
      (Offset(id) <= p < Offset(id) + ClippedSize(size, id) <==> p < size && id == p / SEGMENT_SIZE)
  {
  }

  /** Every write offset fits a signed 32-bit int, and so does the last byte of the
      last block exactly up to the largest multiple of 8000 below 2^31. */
  lemma OffsetsFitInt32(size: nat)
    requires size < TWO_31
    ensures forall id: nat :: id < SegmentCount(size) ==> Offset(id) < TWO_31
    ensures Offset(SegmentCount(size)) < TWO_31 <==> size <= 2147480000
  {
  }

  // ---------- cutting and putting back together ----------

  /** Storing the blocks of `source` in the order of `ids`. */
  function StoreBlocks(d: bytes, source: bytes, ids: seq<nat>): bytes {
    if ids == [] then d
    else
      var n := |ids| - 1;
      WriteAt(StoreBlocks(d, source, ids[..n]), Offset(ids[n]), Block(source, ids[n]))
  }

  lemma HoldsAllGivesPrefix(d: bytes, source: bytes)
    requires |d| >= |source|
    requires forall id: nat | id < SegmentCount(|source|) :: HoldsSegment(d, source, id)
    ensures d[..|source|] == source
  {
    forall p: nat | p < |source|
      ensures d[p] == source[p]
    {
      RangesPartition(|source|, p, p / SEGMENT_SIZE);
      assert HoldsSegment(d, source, p / SEGMENT_SIZE) && InSegment(p / SEGMENT_SIZE, p);
      assert ByteAt(d, p) == ByteAt(source, p);
    }
  }

  lemma WriteBlockHolds(d: bytes, source: bytes, id: nat, other: nat)
    ensures HoldsSegment(WriteAt(d, Offset(id), Block(source, id)), source, id)
    ensures HoldsSegment(d, source, other) ==>
      HoldsSegment(WriteAt(d, Offset(id), Block(source, id)), source, other)
  {
    var b := Block(source, id);
    var r := WriteAt(d, Offset(id), b);
    forall p: nat | InSegment(id, p)
      ensures ByteAt(r, p) == ByteAt(source, p)
    {
      var j: nat := p - Offset(id);
      assert ByteAt(r, Offset(id) + j) == b[j];
    }
  }

  lemma {:induction false} StoreBlocksHolds(d: bytes, source: bytes, ids: seq<nat>, id: nat)
    requires id in ids
    ensures HoldsSegment(StoreBlocks(d, source, ids), source, id)
  {
    var n := |ids| - 1;
    if ids[n] != id {
      StoreBlocksHolds(d, source, ids[..n], id);
    }
    WriteBlockHolds(StoreBlocks(d, source, ids[..n]), source, ids[n], id);
  }

  lemma {:induction false} StoreBlocksGrows(d: bytes, source: bytes, ids: seq<nat>)
    ensures |StoreBlocks(d, source, ids)| >= |d|
  {
    if ids != [] {
      StoreBlocksGrows(d, source, ids[..|ids| - 1]);
    }
  }

  /** Cutting a file and storing its blocks into a zero-filled file, in any order and
      with any repetition that leaves no segment out, gives the file back once the
      padding of the last block is cut off. */
  lemma SplitAndReassemble(source: bytes, ids: seq<nat>)
    requires forall id: nat | id < SegmentCount(|source|) :: id in ids
    ensures |StoreBlocks(Zeros(|source|), source, ids)| >= |source|
    ensures StoreBlocks(Zeros(|source|), source, ids)[..|source|] == source
  {
    var d := StoreBlocks(Zeros(|source|), source, ids);
    StoreBlocksGrows(Zeros(|source|), source, ids);
    forall id: nat | id < SegmentCount(|source|)
      ensures HoldsSegment(d, source, id)
    {
      StoreBlocksHolds(Zeros(|source|), source, ids, id);
    }
    HoldsAllGivesPrefix(d, source);
  }
}
