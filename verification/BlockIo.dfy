/** Scatter/gather and sequential block I/O over the cache: drivers/block/rw_block.c and block.h. */
module BlockIo {
  import opened Machine
  import opened BlockCache

  /** struct bio_vec. */
  datatype BioVec = BioVec(dev: int, blksize: int, block: seq<int>)

  // io_block_off, io_off_to_block and io_block_count, for block sizes that are powers of two
  function BlockOff(bs: int, off: int): int
    requires 0 < bs
  {
    off % bs
  }

  function OffToBlock(bs: int, off: int): int
    requires 0 < bs
  {
    off / bs
  }

  function BlockCount(bs: int, off: int, len: int): int
    requires 0 < bs
  {
    (off + len - (off - off % bs) + bs - 1) / bs
  }

  lemma BlockCountCovers(bs: int, off: int, len: int)
    requires 0 < bs && 0 <= off && 0 <= len
    ensures var n := BlockCount(bs, off, len);
            0 <= n && off % bs + len <= n * bs < off % bs + len + bs
  {
    var x := off % bs + len + bs - 1;
    assert x / bs * bs + x % bs == x;
  }

  // ---------------------------------------------------------------- what a transfer means

  /** Where on the device byte p of the concatenated blocks lies, or -1 past the last block. */
  function VecPos(vec: BioVec, p: int): int
    requires 0 < vec.blksize
  {
    var b := p / vec.blksize;
    if 0 <= b < |vec.block| then Pos(vec.blksize, vec.block[b], p % vec.blksize) else -1
  }

  /** Byte p lies in a listed block. */
  predicate InVec(vec: BioVec, p: int)
    requires 0 < vec.blksize
  {
    0 <= p && p / vec.blksize < |vec.block|
  }

  function Put(flat: seq<Byte>, x: int, v: Byte): seq<Byte> { if 0 <= x < |flat| then flat[x := v] else flat }

  /** Write src at byte p of the concatenated blocks, one byte after the other. */
  function WriteVec(flat: seq<Byte>, vec: BioVec, p: int, src: seq<Byte>): (r: seq<Byte>)
    requires 0 < vec.blksize
    ensures |r| == |flat|
    decreases |src|
  {
    if src == [] then flat
    else var n := |src| - 1; Put(WriteVec(flat, vec, p, src[..n]), VecPos(vec, p + n), src[n])
  }

  lemma {:induction false} WriteVecAppend(flat: seq<Byte>, vec: BioVec, p: int, a: seq<Byte>, b: seq<Byte>)
    requires 0 < vec.blksize
    ensures WriteVec(flat, vec, p, a + b) == WriteVec(WriteVec(flat, vec, p, a), vec, p + |a|, b)
    decreases |b|
  {
    if b == [] {
      assert a + b == a;
    } else {
      var n := |b| - 1;
      assert (a + b)[..|a| + n] == a + b[..n];
      WriteVecAppend(flat, vec, p, a, b[..n]);
    }
  }

  /** Bytes the transfer does not name keep their value. */
  lemma {:induction false} WriteVecElsewhere(flat: seq<Byte>, vec: BioVec, p: int, src: seq<Byte>, x: int)
    requires 0 < vec.blksize && 0 <= x < |flat| && forall q :: p <= q < p + |src| ==> VecPos(vec, q) != x
    ensures WriteVec(flat, vec, p, src)[x] == flat[x]
    decreases |src|
  {
    if src != [] { WriteVecElsewhere(flat, vec, p, src[..|src| - 1], x); }
  }

  /** No block of the list occurs twice. */
  ghost predicate DistinctBlocks(vec: BioVec) {
    forall i, j :: 0 <= i < j < |vec.block| ==> vec.block[i] != vec.block[j]
  }

  lemma VecPosInjective(vec: BioVec, p: int, q: int)
    requires 0 < vec.blksize && DistinctBlocks(vec) && 0 <= p && 0 <= q && VecPos(vec, p) == VecPos(vec, q)
    requires InVec(vec, p) && InVec(vec, q)
    ensures p == q
  {
    var bs := vec.blksize;
    PosOnto(bs, p);
    PosOnto(bs, q);
    PosInjective(bs, vec.block[p / bs], p % bs, vec.block[q / bs], q % bs);
  }

  /** When no block is listed twice, byte i of the source ends up at byte p + i of the blocks. */
  lemma {:induction false} WriteVecHits(flat: seq<Byte>, vec: BioVec, p: int, src: seq<Byte>, i: int)
    requires 0 < vec.blksize && DistinctBlocks(vec) && 0 <= p && 0 <= i < |src|
    requires forall q :: p <= q < p + |src| ==> InVec(vec, q)
    requires 0 <= VecPos(vec, p + i) < |flat|
    ensures WriteVec(flat, vec, p, src)[VecPos(vec, p + i)] == src[i]
    decreases |src|
  {
    var n := |src| - 1;
    if i < n {
      WriteVecHits(flat, vec, p, src[..n], i);
      if VecPos(vec, p + n) == VecPos(vec, p + i) { VecPosInjective(vec, p + n, p + i); }
    }
  }

  /** A transfer inside one block overwrites a contiguous piece of the device. */
  lemma {:induction false} WriteVecInBlock(flat: seq<Byte>, vec: BioVec, b: int, start: int, src: seq<Byte>)
    requires 0 < vec.blksize && 0 <= b < |vec.block| && 0 <= vec.block[b] && 0 <= start && start + |src| <= vec.blksize
    ensures 0 <= Pos(vec.blksize, vec.block[b], start)
    ensures WriteVec(flat, vec, Pos(vec.blksize, b, start), src) == Patch(flat, Pos(vec.blksize, vec.block[b], start), src)
    decreases |src|
  {
    hide Patch, Pos, VecPos;
    PosNonNeg(vec.blksize, vec.block[b], start);
    if src != [] {
      var n := |src| - 1;
      WriteVecInBlock(flat, vec, b, start, src[..n]);
      VecPosInBlock(vec, b, start + n);
      PatchSnoc(flat, Pos(vec.blksize, vec.block[b], start), src);
      PosAdd(vec.blksize, b, start, n);
      PosAdd(vec.blksize, vec.block[b], start, n);
    }
  }

  lemma PosAdd(bs: int, k: int, i: int, n: int)
    ensures Pos(bs, k, i + n) == Pos(bs, k, i) + n
  {
  }

  lemma VecPosInBlock(vec: BioVec, b: int, i: int)
    requires 0 < vec.blksize && 0 <= b < |vec.block| && 0 <= i < vec.blksize
    ensures VecPos(vec, Pos(vec.blksize, b, i)) == Pos(vec.blksize, vec.block[b], i)
  {
    var bs, x := vec.blksize, Pos(vec.blksize, b, i);
    PosNonNeg(bs, b, i);
    PosOnto(bs, x);
    PosInjective(bs, b, i, x / bs, x % bs);
  }

  // ---------------------------------------------------------------- the transfers

  /** What a transfer that reads n bytes at byte p of the blocks leaves in the buffer. */
  ghost predicate Delivered(out: seq<Byte>, flat: seq<Byte>, vec: BioVec, p: int)
    requires 0 < vec.blksize
  {
    forall i :: 0 <= i < |out| && 0 <= VecPos(vec, p + i) < |flat| ==> out[i] == flat[VecPos(vec, p + i)]
  }

  /** The vector names blocks of a device known to the cache, at the device's block size. */
  ghost predicate GoodVec(c: Cache, vec: BioVec)
    reads c
  {
    vec.dev in c.disks && vec.dev in c.flat && vec.blksize == c.disks[vec.dev].blksize && BlockSize(vec.blksize)
  }

  /** A block whose first byte is on the device or right behind its end. */
  predicate Reachable(vec: BioVec, b: int, size: int) {
    0 <= b < |vec.block| && 0 <= vec.block[b] && vec.block[b] * vec.blksize <= size
  }

  /** One round of bio_do_io for a read. */
  method ReadOne(c: Cache, vec: BioVec, b: int, iobuf: array<Byte>, at: int, start: int, n: int)
    requires c.Valid() && GoodVec(c, vec) && Reachable(vec, b, |c.disks[vec.dev].bytes|)
    requires 0 <= at && 0 <= n && at + n <= iobuf.Length && 0 <= start && start + n <= vec.blksize
    modifies c`buckets, c`index, c.index.Values, iobuf
    ensures c.Valid() && fresh(c.index.Values - old(c.index.Values))
    ensures forall i :: 0 <= i < iobuf.Length && !(at <= i < at + n) ==> iobuf[i] == old(iobuf[i])
    ensures Delivered(iobuf[at..at + n], c.flat[vec.dev], vec, Pos(vec.blksize, b, start))
  {
    hide Hashed, GoodDevices, Uncached, Shows, Agrees, Delivered;
    var buffer := c.ReadBlock(vec.dev, vec.block[b], vec.blksize);
    forall i | 0 <= i < n { iobuf[at + i] := buffer.data[start + i]; }
    DeliveredBlock(iobuf[at..at + n], buffer.data, c.flat[vec.dev], vec, b, start);
    buffer.Release();
  }

  /** One round of bio_do_io for a write. */
  method WriteOne(c: Cache, vec: BioVec, b: int, src: seq<Byte>, start: int)
    requires c.Valid() && GoodVec(c, vec) && Reachable(vec, b, |c.disks[vec.dev].bytes|)
    requires 0 <= start && start + |src| <= vec.blksize
    modifies c`buckets, c`index, c`flat, c.index.Values
    ensures c.Valid() && fresh(c.index.Values - old(c.index.Values))
    ensures c.flat == old(c.flat)[vec.dev := WriteVec(old(c.flat)[vec.dev], vec, Pos(vec.blksize, b, start), src)]
  {
    hide Hashed, GoodDevices, Uncached, Shows, Agrees, WriteVec;
    var buffer := c.ReadBlock(vec.dev, vec.block[b], vec.blksize);
    WriteVecInBlock(c.flat[vec.dev], vec, b, start, src);
    c.WriteInto(buffer, start, src);
    buffer.Release();
  }

  lemma DeliveredBlock(out: seq<Byte>, data: seq<Byte>, flat: seq<Byte>, vec: BioVec, b: int, start: int)
    requires 0 < vec.blksize == |data| && 0 <= b < |vec.block| && 0 <= vec.block[b] && Agrees(data, flat, vec.block[b])
    requires 0 <= start && start + |out| <= |data| && forall i :: 0 <= i < |out| ==> out[i] == data[start + i]
    ensures Delivered(out, flat, vec, Pos(vec.blksize, b, start))
  {
    var p := Pos(vec.blksize, b, start);
    forall i | 0 <= i < |out| && 0 <= VecPos(vec, p + i) < |flat| ensures out[i] == flat[VecPos(vec, p + i)] {
      assert p + i == Pos(vec.blksize, b, start + i);
      VecPosInBlock(vec, b, start + i);
    }
  }

  /** Bytes transferred after n rounds. */
  function Transferred(bs: int, off: int, len: int, n: int): int {
    if n == 0 then 0 else if len < n * bs - off then len else n * bs - off
  }

  lemma RoundProducts(bs: int, q: int, n: int, count: int)
    requires 0 < bs && 0 <= n
    ensures (n + 1) * bs == n * bs + bs && (q + n) * bs == q * bs + n * bs && 0 <= n * bs
    ensures 0 < n ==> bs <= n * bs
    ensures n < count ==> n * bs <= count * bs - bs
  {
    if 0 < n { assert n * bs == (n - 1) * bs + bs && (n - 1) * bs >= 0; }
    if n < count {
      var k := count - 1 - n;
      assert k * bs >= 0;
      assert count * bs == n * bs + k * bs + bs by { assert count == n + k + 1; }
    }
  }

  /** Each round but the last ends at a block boundary, and the last one completes the transfer. */
  lemma RoundBounds(bs: int, pos: int, len: int, n: int)
    requires 0 < bs && 0 <= pos && 0 <= len && 0 <= n <= BlockCount(bs, pos, len)
    ensures var off, nr := pos % bs, Transferred(bs, pos % bs, len, n);
            && 0 <= nr <= len && (n == 0 ==> nr == 0)
            && (n == BlockCount(bs, pos, len) ==> nr == len)
            && (n < BlockCount(bs, pos, len) ==>
                  var start := if n == 0 then off else 0;
                  && pos + nr == Pos(bs, pos / bs + n, start)
                  && Transferred(bs, off, len, n + 1) == nr + (if bs < start + (len - nr) then bs - start else len - nr))
  {
    var count := BlockCount(bs, pos, len);
    BlockCountCovers(bs, pos, len);
    RoundProducts(bs, pos / bs, n, count);
    PosOnto(bs, pos);
    hide BlockCount;
    var q, off, y, z := pos / bs, pos % bs, n * bs, count * bs;
    assert pos == q * bs + off && 0 <= off < bs;
  }

  lemma DeliveredAppend(a: seq<Byte>, b: seq<Byte>, flat: seq<Byte>, vec: BioVec, p: int)
    requires 0 < vec.blksize && Delivered(a, flat, vec, p) && Delivered(b, flat, vec, p + |a|)
    ensures Delivered(a + b, flat, vec, p)
  {
  }

  /** A read round that continues a transfer from byte pos. */
  method ReadMore(c: Cache, vec: BioVec, b: int, iobuf: array<Byte>, at: int, start: int, n: int, ghost pos: int)
    requires c.Valid() && GoodVec(c, vec) && Reachable(vec, b, |c.disks[vec.dev].bytes|)
    requires 0 <= at && 0 <= n && at + n <= iobuf.Length && 0 <= start && start + n <= vec.blksize
    requires pos + at == Pos(vec.blksize, b, start) && Delivered(iobuf[..at], c.flat[vec.dev], vec, pos)
    modifies c`buckets, c`index, c.index.Values, iobuf
    ensures c.Valid() && fresh(c.index.Values - old(c.index.Values))
    ensures forall i :: at + n <= i < iobuf.Length ==> iobuf[i] == old(iobuf[i])
    ensures Delivered(iobuf[..at + n], c.flat[vec.dev], vec, pos)
  {
    hide Hashed, GoodDevices, Uncached, Shows, Agrees, Delivered, Pos, VecPos, Reachable;
    ghost var done := iobuf[..at];
    ReadOne(c, vec, b, iobuf, at, start, n);
    DeliveredAppend(done, iobuf[at..at + n], c.flat[vec.dev], vec, pos);
    assert iobuf[..at + n] == done + iobuf[at..at + n];
  }

  /** A write round that continues a transfer from byte pos of flat0. */
  method WriteMore(c: Cache, vec: BioVec, b: int, iobuf: array<Byte>, at: int, start: int, n: int, ghost pos: int, ghost flat0: seq<Byte>)
    requires c.Valid() && GoodVec(c, vec) && Reachable(vec, b, |c.disks[vec.dev].bytes|)
    requires 0 <= at && 0 <= n && at + n <= iobuf.Length && 0 <= start && start + n <= vec.blksize
    requires pos + at == Pos(vec.blksize, b, start) && c.flat[vec.dev] == WriteVec(flat0, vec, pos, iobuf[..at])
    modifies c`buckets, c`index, c`flat, c.index.Values
    ensures c.Valid() && fresh(c.index.Values - old(c.index.Values))
    ensures c.flat == old(c.flat)[vec.dev := WriteVec(flat0, vec, pos, iobuf[..at + n])]
  {
    hide Hashed, GoodDevices, Uncached, Shows, Agrees, WriteVec, Pos, VecPos, Reachable;
    WriteVecAppend(flat0, vec, pos, iobuf[..at], iobuf[at..at + n]);
    assert iobuf[..at + n] == iobuf[..at] + iobuf[at..at + n];
    WriteOne(c, vec, b, iobuf[at..at + n], start);
  }

  /**
   * bio_do_io: transfers exactly bytes [pos, pos + len) of the concatenated blocks and nothing else,
   * whatever the alignment, and returns len.
   */
  method BioDoIo(c: Cache, vec: BioVec, iobuf: array<Byte>, len: int, pos: int, write: bool) returns (nr: int)
    requires c.Valid() && GoodVec(c, vec) && 0 <= pos && 0 <= len <= iobuf.Length
    requires forall b :: OffToBlock(vec.blksize, pos) <= b < OffToBlock(vec.blksize, pos) + BlockCount(vec.blksize, pos, len) ==>
               Reachable(vec, b, |c.disks[vec.dev].bytes|)
    modifies c`buckets, c`index, c`flat, c.index.Values, iobuf
    ensures c.Valid() && fresh(c.index.Values - old(c.index.Values)) && nr == len
    ensures write ==> iobuf[..] == old(iobuf[..])
    ensures write ==> c.flat == old(c.flat)[vec.dev := WriteVec(old(c.flat)[vec.dev], vec, pos, iobuf[..len])]
    ensures !write ==> c.flat == old(c.flat) && iobuf[len..] == old(iobuf[len..])
    ensures !write ==> Delivered(iobuf[..len], c.flat[vec.dev], vec, pos)
  {
    hide Cache.Valid, WriteVec, Delivered, BlockCount, Transferred, Pos, VecPos, Reachable;
    var bs := vec.blksize;
    var blocks, first := BlockCount(bs, pos, len), OffToBlock(bs, pos);
    var start := BlockOff(bs, pos);
    var end := if bs < start + len then bs else start + len;
    ghost var flat0, d := c.flat, vec.dev;
    BlockCountCovers(bs, pos, len);
    RoundBounds(bs, pos, len, 0);
    NothingDone(flat0, d, vec, pos, iobuf[..0]);
    nr := 0;
    var b := first;
    while b - first < blocks
      invariant first <= b <= first + blocks && c.Valid() && fresh(c.index.Values - old(c.index.Values))
      invariant nr == Transferred(bs, pos % bs, len, b - first) && 0 <= nr <= len
      invariant start == if b == first then pos % bs else 0
      invariant end == if bs < start + (len - nr) then bs else start + (len - nr)
      invariant d in c.flat && c.flat == flat0[d := c.flat[d]]
      invariant write ==> iobuf[..] == old(iobuf[..]) && c.flat[d] == WriteVec(flat0[d], vec, pos, iobuf[..nr])
      invariant !write ==> c.flat[d] == flat0[d] && Delivered(iobuf[..nr], flat0[d], vec, pos)
      invariant !write ==> forall i :: nr <= i < iobuf.Length ==> iobuf[i] == old(iobuf[i])
    {
      RoundBounds(bs, pos, len, b - first);
      RoundBounds(bs, pos, len, b - first + 1);
      var n := end - start;
      assert Reachable(vec, b, |c.disks[vec.dev].bytes|);
      if !write {
        ReadMore(c, vec, b, iobuf, nr, start, n, pos);
      } else {
        WriteMore(c, vec, b, iobuf, nr, start, n, pos, flat0[d]);
      }
      nr := nr + n;
      start := 0;
      end := if bs < len - nr then bs else len - nr;
      b := b + 1;
    }
    RoundBounds(bs, pos, len, blocks);
  }

  lemma NothingDone(flat: map<int, seq<Byte>>, d: int, vec: BioVec, pos: int, none: seq<Byte>)
    requires d in flat && 0 < vec.blksize && none == []
    ensures WriteVec(flat[d], vec, pos, none) == flat[d] && Delivered(none, flat[d], vec, pos) && flat == flat[d := flat[d]]
  {
  }

  // ---------------------------------------------------------------- sequential I/O

  /** The bytes a device offers: whole sectors. */
  function Capacity(dev: Device): int { (|dev.bytes| + SECTOR_SIZE - 1) / SECTOR_SIZE * SECTOR_SIZE }

  ghost predicate Sequential(vec: BioVec, first: int, count: int) {
    |vec.block| == count && forall i :: 0 <= i < count ==> vec.block[i] == first + i
  }

  /** In a sequential list, byte p of the blocks is byte p of the device from the first block on. */
  lemma SequentialPos(vec: BioVec, first: int, count: int, p: int)
    requires 0 < vec.blksize && Sequential(vec, first, count) && 0 <= p && InVec(vec, p)
    ensures VecPos(vec, p) == first * vec.blksize + p
  {
  }

  lemma {:induction false} SequentialWrite(flat: seq<Byte>, vec: BioVec, first: int, count: int, off: int, src: seq<Byte>)
    requires 0 < vec.blksize && 0 <= first && Sequential(vec, first, count) && 0 <= off
    requires forall q :: off <= q < off + |src| ==> InVec(vec, q)
    ensures 0 <= first * vec.blksize + off
    ensures WriteVec(flat, vec, off, src) == Patch(flat, first * vec.blksize + off, src)
    decreases |src|
  {
    hide VecPos, Patch, Pos;
    PosNonNeg(vec.blksize, first, 0);
    PosBase(vec.blksize, first);
    var base := first * vec.blksize;
    if src == [] {
      PatchNothing(flat, base + off);
    } else {
      var n := |src| - 1;
      SequentialWrite(flat, vec, first, count, off, src[..n]);
      SequentialPos(vec, first, count, off + n);
      PatchSnoc(flat, base + off, src);
    }
  }

  lemma PosBase(bs: int, k: int)
    ensures Pos(bs, k, 0) == k * bs
  {
  }

  lemma PatchNothing(flat: seq<Byte>, x: int)
    requires 0 <= x
    ensures Patch(flat, x, []) == flat
  {
  }

  lemma PatchSnoc(flat: seq<Byte>, x: int, src: seq<Byte>)
    requires 0 <= x && src != []
    ensures Put(Patch(flat, x, src[..|src| - 1]), x + |src| - 1, src[|src| - 1]) == Patch(flat, x, src)
  {
  }

  lemma SequentialRead(out: seq<Byte>, flat: seq<Byte>, vec: BioVec, first: int, count: int, off: int)
    requires 0 < vec.blksize && 0 <= first && Sequential(vec, first, count) && 0 <= off && Delivered(out, flat, vec, off)
    requires forall q :: off <= q < off + |out| ==> InVec(vec, q)
    ensures forall i :: 0 <= i < |out| && first * vec.blksize + off + i < |flat| ==>
              0 <= first * vec.blksize + off + i && out[i] == flat[first * vec.blksize + off + i]
  {
    PosNonNeg(vec.blksize, first, off);
    forall i | 0 <= i < |out| && first * vec.blksize + off + i < |flat|
      ensures 0 <= first * vec.blksize + off + i && out[i] == flat[first * vec.blksize + off + i]
    {
      SequentialPos(vec, first, count, off + i);
    }
  }

  /** Every block a clipped request touches starts on the device. */
  lemma ClippedReach(dev: Device, pos: int, len: int, k: int)
    requires BlockSize(dev.blksize) && 0 <= pos && 0 <= len && pos + len <= Capacity(dev)
    requires 0 <= k < BlockCount(dev.blksize, pos, len)
    ensures 0 <= pos / dev.blksize + k && (pos / dev.blksize + k) * dev.blksize <= |dev.bytes|
  {
    var bs := dev.blksize;
    BlockCountCovers(bs, pos, len);
    RoundProducts(bs, pos / bs, k, BlockCount(bs, pos, len));
    PosOnto(bs, pos);
    assert (pos / bs + k) * bs < pos + len || (k == 0 && len == 0);
    WholeSectors(dev, pos / bs + k);
  }

  lemma WholeSectors(dev: Device, q: int)
    requires BlockSize(dev.blksize) && q * dev.blksize < Capacity(dev)
    ensures q * dev.blksize <= |dev.bytes|
  {
    SectorBound(q * (dev.blksize / 512), |dev.bytes|);
  }

  lemma SectorBound(s: int, size: int)
    requires 0 <= size && s * 512 < (size + 511) / 512 * 512
    ensures s * 512 <= size
  {
  }

  /** Requests stay inside the block list built for them. */
  lemma RequestInVec(vec: BioVec, pos: int, len: int)
    requires 0 < vec.blksize && 0 <= pos && 0 <= len && |vec.block| == BlockCount(vec.blksize, pos, len)
    ensures forall q :: pos % vec.blksize <= q < pos % vec.blksize + len ==> InVec(vec, q)
    ensures BlockCount(vec.blksize, pos % vec.blksize, len) == |vec.block| && pos % vec.blksize / vec.blksize == 0
  {
    var bs, n := vec.blksize, |vec.block|;
    BlockCountCovers(bs, pos, len);
    PosOnto(bs, pos);
    var off := pos % bs;
    assert off % bs == off && off / bs == 0 by { PosInjective(bs, off / bs, off % bs, 0, off); }
    forall q | off <= q < off + len ensures InVec(vec, q) { DivBelow(q, bs, n); }
  }

  /** The length is clipped to what lies between the position and the end, if and only if the position is not behind the end. */
  lemma ClipIff(capacity: int, pos: int, len: int)
    requires 0 <= capacity < W32 && 0 <= pos < W32 && 0 <= len < W32
    ensures var left := if pos <= capacity then capacity - pos else 0;
            var clipped := if len < Sub32(capacity, pos) then len else Sub32(capacity, pos);
            clipped == (if len < left then len else left) <==> pos <= capacity || len == 0
  {
  }

  /** A byte behind the end of a 1.44 MB disk is not cut off. */
  lemma ClipBehindEnd()
    ensures Sub32(1474560, 1474561) > 1
  {
  }

  /**
   * blkdev_generic_io: reads or writes device bytes from pos on, clipped to the device's sectors,
   * and returns how many.
   */
  method BlkdevGenericIo(c: Cache, dev: int, iobuf: array<Byte>, len: int, pos: int, write: bool) returns (r: int)
    requires c.Valid() && dev in c.disks && 0 <= len <= iobuf.Length && 0 <= pos <= Capacity(c.disks[dev])
    modifies c`buckets, c`index, c`flat, c.index.Values, iobuf
    ensures c.Valid() && fresh(c.index.Values - old(c.index.Values)) && dev in c.flat && dev in old(c.flat)
    ensures r == if len < Capacity(c.disks[dev]) - pos then len else Capacity(c.disks[dev]) - pos
    ensures write ==> iobuf[..] == old(iobuf[..]) && c.flat == old(c.flat)[dev := Patch(old(c.flat)[dev], pos, iobuf[..r])]
    ensures !write ==> c.flat == old(c.flat) && iobuf[r..] == old(iobuf[r..])
    ensures !write ==> forall i :: 0 <= i < r && pos + i < |c.flat[dev]| ==> iobuf[i] == c.flat[dev][pos + i]
  {
    hide Hashed, Uncached, Shows, Agrees, WriteVec, Delivered, BlockCount, Pos, VecPos, InVec, Capacity, Patch;
    var bs := c.disks[dev].blksize;
    var n := if len < Capacity(c.disks[dev]) - pos then len else Capacity(c.disks[dev]) - pos;
    var count, first, off := BlockCount(bs, pos, n), OffToBlock(bs, pos), BlockOff(bs, pos);
    BlockCountCovers(bs, pos, n);
    PosOnto(bs, pos);
    PosBase(bs, first);
    var block: seq<int> := [];
    while |block| < count
      invariant |block| <= count && forall i :: 0 <= i < |block| ==> block[i] == first + i
    {
      block := block + [first + |block|];
    }
    var vec := BioVec(dev, bs, block);
    RequestInVec(vec, pos, n);
    forall b | 0 <= b < count ensures Reachable(vec, b, |c.disks[dev].bytes|) {
      ClippedReach(c.disks[dev], pos, n, b);
    }
    BasePos(bs, pos);
    if write { SequentialWrite(c.flat[dev], vec, first, count, off, iobuf[..n]); }
    r := BioDoIo(c, vec, iobuf, n, off, write);
    if !write { SequentialRead(iobuf[..n], c.flat[dev], vec, first, count, off); }
  }

  lemma BasePos(bs: int, pos: int)
    requires 0 < bs && 0 <= pos
    ensures pos / bs * bs + pos % bs == pos
  {
  }

  // ---------------------------------------------------------------- runs

  /** What can be done to the cache and its devices. */
  datatype DiskOp =
    | ReadAt(dev: int, pos: int, len: int)
    | WriteAt(dev: int, pos: int, src: seq<Byte>)
    | ReadBlocks(vec: BioVec, pos: int, len: int)
    | WriteBlocks(vec: BioVec, pos: int, src: seq<Byte>)
    | ClearAll
    | FreeDevice(dev: int)
    | Resize(dev: int, size: int)

  type Flat = map<int, seq<Byte>>

  /** Every byte of [pos, pos + len) of the blocks is on the device. */
  ghost predicate InsideVec(flat: Flat, vec: BioVec, pos: int, len: int) {
    && vec.dev in flat && BlockSize(vec.blksize) && 0 <= pos && 0 <= len
    && (forall b :: OffToBlock(vec.blksize, pos) <= b < OffToBlock(vec.blksize, pos) + BlockCount(vec.blksize, pos, len) ==>
          Reachable(vec, b, |flat[vec.dev]|))
    && (forall q :: pos <= q < pos + len ==> 0 <= VecPos(vec, q) < |flat[vec.dev]|)
  }

  ghost predicate Inside(flat: Flat, op: DiskOp) {
    match op
    case ReadAt(d, pos, len) => d in flat && 0 <= pos && 0 <= len && pos + len <= |flat[d]|
    case WriteAt(d, pos, src) => d in flat && 0 <= pos && pos + |src| <= |flat[d]|
    case ReadBlocks(vec, pos, len) => InsideVec(flat, vec, pos, len)
    case WriteBlocks(vec, pos, src) => InsideVec(flat, vec, pos, |src|)
    case Resize(_, size) => BlockSize(size)
    case _ => true
  }

  /** What the operation does to plain byte arrays. */
  ghost function FlatStep(flat: Flat, op: DiskOp): Flat
    requires Inside(flat, op)
  {
    match op
    case WriteAt(d, pos, src) => flat[d := flat[d][..pos] + src + flat[d][pos + |src|..]]
    case WriteBlocks(vec, pos, src) => flat[vec.dev := WriteVec(flat[vec.dev], vec, pos, src)]
    case _ => flat
  }

  /** What the operation delivers when the devices are plain byte arrays. */
  ghost function FlatOut(flat: Flat, op: DiskOp): seq<Byte>
    requires Inside(flat, op)
  {
    match op
    case ReadAt(d, pos, len) => flat[d][pos..pos + len]
    case ReadBlocks(vec, pos, len) => GatherVec(flat[vec.dev], vec, pos, len)
    case _ => []
  }

  function VecByte(flat: seq<Byte>, vec: BioVec, p: int): Byte {
    if 0 < vec.blksize && 0 <= VecPos(vec, p) < |flat| then flat[VecPos(vec, p)] else 0
  }

  function GatherVec(flat: seq<Byte>, vec: BioVec, p: int, len: nat): (r: seq<Byte>)
    ensures |r| == len && forall i :: 0 <= i < len ==> r[i] == VecByte(flat, vec, p + i)
  {
    if len == 0 then [] else GatherVec(flat, vec, p, len - 1) + [VecByte(flat, vec, p + len - 1)]
  }

  /** The lengths of the devices never change, so neither does what is inside them. */
  lemma InsideKept(flat: Flat, op: DiskOp, later: DiskOp)
    requires Inside(flat, op) && Inside(flat, later)
    ensures Inside(FlatStep(flat, op), later)
  {
  }

  method DoReadAt(c: Cache, d: int, pos: int, len: int) returns (out: seq<Byte>)
    requires c.Valid() && Inside(c.flat, ReadAt(d, pos, len))
    modifies c`buckets, c`index, c`flat, c.index.Values
    ensures c.Valid() && fresh(c.index.Values - old(c.index.Values))
    ensures c.flat == old(c.flat) && out == FlatOut(c.flat, ReadAt(d, pos, len))
  {
    hide Hashed, Uncached, Shows, Patch, Capacity;
    var iobuf := new Byte[len];
    CapacityCovers(c.disks[d]);
    var r := BlkdevGenericIo(c, d, iobuf, len, pos, false);
    out := iobuf[..];
  }

  method DoWriteAt(c: Cache, d: int, pos: int, src: seq<Byte>)
    requires c.Valid() && Inside(c.flat, WriteAt(d, pos, src))
    modifies c`buckets, c`index, c`flat, c.index.Values
    ensures c.Valid() && fresh(c.index.Values - old(c.index.Values))
    ensures c.flat == FlatStep(old(c.flat), WriteAt(d, pos, src))
  {
    hide Hashed, Uncached, Shows, Patch, Capacity;
    var iobuf := new Byte[|src|](i requires 0 <= i < |src| => src[i]);
    assert iobuf[..] == src;
    CapacityCovers(c.disks[d]);
    PatchInside(c.flat[d], pos, src);
    var r := BlkdevGenericIo(c, d, iobuf, |src|, pos, true);
    assert iobuf[..r] == src;
  }

  method DoReadBlocks(c: Cache, vec: BioVec, pos: int, len: int) returns (out: seq<Byte>)
    requires c.Valid() && Inside(c.flat, ReadBlocks(vec, pos, len)) && vec.dev in c.disks && vec.blksize == c.disks[vec.dev].blksize
    modifies c`buckets, c`index, c`flat, c.index.Values
    ensures c.Valid() && fresh(c.index.Values - old(c.index.Values))
    ensures c.flat == old(c.flat) && out == FlatOut(c.flat, ReadBlocks(vec, pos, len))
  {
    hide Hashed, Uncached, Shows, WriteVec, Delivered, Reachable, VecPos, BlockCount;
    var iobuf := new Byte[len];
    var r := BioDoIo(c, vec, iobuf, len, pos, false);
    out := iobuf[..];
    assert iobuf[..len] == out;
    DeliveredExactly(out, c.flat, vec, pos, len);
  }

  method DoWriteBlocks(c: Cache, vec: BioVec, pos: int, src: seq<Byte>)
    requires c.Valid() && Inside(c.flat, WriteBlocks(vec, pos, src)) && vec.dev in c.disks && vec.blksize == c.disks[vec.dev].blksize
    modifies c`buckets, c`index, c`flat, c.index.Values
    ensures c.Valid() && fresh(c.index.Values - old(c.index.Values))
    ensures c.flat == FlatStep(old(c.flat), WriteBlocks(vec, pos, src))
  {
    hide Hashed, Uncached, Shows, WriteVec, Delivered, Reachable, VecPos, BlockCount;
    var iobuf := new Byte[|src|](i requires 0 <= i < |src| => src[i]);
    assert iobuf[..] == src;
    var r := BioDoIo(c, vec, iobuf, |src|, pos, true);
    assert iobuf[..|src|] == src;
  }

  /** A block list made for a device at its current block size. */
  predicate Current(c: Cache, op: DiskOp)
    reads c
  {
    op.ReadBlocks? || op.WriteBlocks? ==> op.vec.dev in c.disks && op.vec.blksize == c.disks[op.vec.dev].blksize
  }

  /** One operation on the cache behaves like the same operation on plain byte arrays. */
  method PerformOp(c: Cache, op: DiskOp) returns (out: seq<Byte>)
    requires c.Valid() && Inside(c.flat, op) && Current(c, op)
    modifies c, c.index.Values
    ensures c.Valid() && fresh(c.index.Values - old(c.index.Values))
    ensures c.flat == FlatStep(old(c.flat), op) && out == FlatOut(old(c.flat), op)
  {
    hide Hashed, Uncached, Shows, GoodDevices, InsideVec, GatherVec, WriteVec;
    out := [];
    match op
    case ReadAt(d, pos, len) => out := DoReadAt(c, d, pos, len);
    case WriteAt(d, pos, src) => DoWriteAt(c, d, pos, src);
    case ReadBlocks(vec, pos, len) => out := DoReadBlocks(c, vec, pos, len);
    case WriteBlocks(vec, pos, src) => DoWriteBlocks(c, vec, pos, src);
    case ClearAll => c.ClearCache();
    case FreeDevice(d) => var busy := c.FreeDeviceBuffers(d);
    case Resize(d, size) => var e := c.SetBlocksize(d, size);
  }

  lemma PatchInside(bytes: seq<Byte>, pos: int, src: seq<Byte>)
    requires 0 <= pos && pos + |src| <= |bytes|
    ensures Patch(bytes, pos, src) == bytes[..pos] + src + bytes[pos + |src|..]
  {
  }

  lemma CapacityCovers(dev: Device)
    ensures |dev.bytes| <= Capacity(dev)
  {
  }

  lemma DeliveredExactly(out: seq<Byte>, flat: Flat, vec: BioVec, pos: int, len: int)
    requires InsideVec(flat, vec, pos, len) && |out| == len && Delivered(out, flat[vec.dev], vec, pos)
    ensures out == FlatOut(flat, ReadBlocks(vec, pos, len))
  {
  }

  ghost function FlatRun(flat: Flat, ops: seq<DiskOp>): Flat
    requires forall i :: 0 <= i < |ops| ==> Inside(flat, ops[i])
  {
    if ops == [] then flat
    else
      var n := |ops| - 1;
      var before := FlatRun(flat, ops[..n]);
      if Inside(before, ops[n]) then FlatStep(before, ops[n]) else before
  }

  ghost function FlatOuts(flat: Flat, ops: seq<DiskOp>): seq<seq<Byte>>
    requires forall i :: 0 <= i < |ops| ==> Inside(flat, ops[i])
  {
    if ops == [] then []
    else
      var n := |ops| - 1;
      var before := FlatRun(flat, ops[..n]);
      FlatOuts(flat, ops[..n]) + [if Inside(before, ops[n]) then FlatOut(before, ops[n]) else []]
  }

  lemma {:induction false} InsideAlways(flat: Flat, ops: seq<DiskOp>, later: DiskOp)
    requires (forall i :: 0 <= i < |ops| ==> Inside(flat, ops[i])) && Inside(flat, later)
    ensures Inside(FlatRun(flat, ops), later)
  {
    hide Inside, FlatStep;
    if ops != [] {
      var n := |ops| - 1;
      InsideAlways(flat, ops[..n], later);
      InsideAlways(flat, ops[..n], ops[n]);
      InsideKept(FlatRun(flat, ops[..n]), ops[n], later);
    }
  }

  lemma OneMore(flat: Flat, ops: seq<DiskOp>, n: nat)
    requires n < |ops| && forall i :: 0 <= i < |ops| ==> Inside(flat, ops[i])
    ensures var before := FlatRun(flat, ops[..n]);
            && Inside(before, ops[n]) && FlatRun(flat, ops[..n + 1]) == FlatStep(before, ops[n])
            && FlatOuts(flat, ops[..n + 1]) == FlatOuts(flat, ops[..n]) + [FlatOut(before, ops[n])]
  {
    hide Inside, FlatStep, FlatOut;
    InsideAlways(flat, ops[..n], ops[n]);
    assert ops[..n + 1][..n] == ops[..n];
  }

  /**
   * The buffer cache refines a flat disk: over any sequence of operations inside the devices, every read
   * delivers what plain byte arrays would deliver. The run stops early only at a block list that was made
   * for another block size.
   */
  method RunOps(c: Cache, ops: seq<DiskOp>) returns (n: nat, outs: seq<seq<Byte>>)
    requires c.Valid() && forall i :: 0 <= i < |ops| ==> Inside(c.flat, ops[i])
    modifies c, c.index.Values
    ensures c.Valid() && n <= |ops| && (n < |ops| ==> !Current(c, ops[n]))
    ensures c.flat == FlatRun(old(c.flat), ops[..n]) && outs == FlatOuts(old(c.flat), ops[..n])
  {
    hide Inside, FlatStep, FlatOut, FlatRun, FlatOuts, Hashed, Uncached, Shows, GoodDevices;
    ghost var flat0 := c.flat;
    NoOps(flat0);
    n, outs := 0, [];
    while n < |ops|
      invariant c.Valid() && fresh(c.index.Values - old(c.index.Values)) && n <= |ops|
      invariant c.flat == FlatRun(flat0, ops[..n]) && outs == FlatOuts(flat0, ops[..n])
    {
      OneMore(flat0, ops, n);
      if !Current(c, ops[n]) {
        return;
      }
      var out := PerformOp(c, ops[n]);
      n, outs := n + 1, outs + [out];
    }
  }

  lemma NoOps(flat: Flat)
    ensures FlatRun(flat, []) == flat && FlatOuts(flat, []) == []
  {
  }
}
