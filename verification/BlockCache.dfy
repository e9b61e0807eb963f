/** The write-back block buffer cache: fs/buffer.c, drivers/block/rw_block.c and the device of bootmod.c. */
module BlockCache {
  import opened Machine

  const SECTOR_SIZE: int := 512
  const HASH_SIZE: int := 512
  const GOLDEN_RATIO: int := 0x9e370001

  predicate BlockSize(n: int) { n == 512 || n == 1024 || n == 2048 || n == 4096 }

  /** hash_min(dev + block, 9): the top nine bits of a 32-bit product. */
  function HashKey(dev: int, block: int): (h: int)
    ensures 0 <= h < HASH_SIZE
  {
    Add32(dev, block) * GOLDEN_RATIO % W32 / 0x80_0000
  }

  /** Position on the device of byte i of block k. */
  function Pos(bs: int, k: int, i: int): int { k * bs + i }

  lemma PosOrder(bs: int, k: int, i: int, k': int, i': int)
    requires 0 <= i < bs && 0 <= i' < bs && k < k'
    ensures Pos(bs, k, i) < Pos(bs, k', i')
  {
    var gap := k' - k - 1;
    assert gap * bs >= 0;
    assert k' * bs == k * bs + gap * bs + bs by { assert k' == k + gap + 1; }
  }

  lemma PosInjective(bs: int, k: int, i: int, k': int, i': int)
    requires 0 <= i < bs && 0 <= i' < bs && Pos(bs, k, i) == Pos(bs, k', i')
    ensures k == k' && i == i'
  {
    if k < k' { PosOrder(bs, k, i, k', i'); }
    if k' < k { PosOrder(bs, k', i', k, i); }
  }

  lemma PosOnto(bs: int, x: int)
    requires 0 < bs && 0 <= x
    ensures 0 <= x % bs < bs && 0 <= x / bs && Pos(bs, x / bs, x % bs) == x
  {
  }

  /** A device: its bytes and the block size in force. */
  datatype Device = Device(bytes: seq<Byte>, blksize: int)

  /** struct buffer. */
  class Buffer {
    const dev: int
    const block: int
    const size: int
    var data: seq<Byte>
    var upToDate: bool
    var dirty: bool
    var count: int

    constructor (dev: int, block: int, size: int)
      requires 0 <= size
      ensures this.dev == dev && this.block == block && this.size == size && |data| == size
      ensures !upToDate && !dirty && count == 1
    {
      this.dev, this.block, this.size := dev, block, size;
      data := seq(size, _ => 0);
      upToDate, dirty, count := false, false, 1;
    }

    /** release_buffer on a 16-bit count. */
    method Release()
      modifies this`count
      ensures count == (old(count) - 1) % 0x1_0000
    {
      count := (count - 1) % 0x1_0000;
    }
  }

  /** The cached blocks, by device and block number. */
  type Index = map<(int, int), Buffer>
  type Buckets = seq<seq<Buffer>>

  /** The hash table holds exactly the indexed buffers, each once and in its bucket. */
  ghost predicate Hashed(buckets: Buckets, index: Index) {
    && |buckets| == HASH_SIZE
    && (forall h, b :: 0 <= h < HASH_SIZE && b in buckets[h] ==>
          (b.dev, b.block) in index && index[(b.dev, b.block)] == b && HashKey(b.dev, b.block) == h)
    && (forall k :: k in index ==> index[k].dev == k.0 && index[k].block == k.1 && index[k] in buckets[HashKey(k.0, k.1)])
    && (forall h, i, j :: 0 <= h < HASH_SIZE && 0 <= i < j < |buckets[h]| ==> buckets[h][i] != buckets[h][j])
  }

  /** The bytes of block k agree with data wherever the device has them. */
  ghost predicate Agrees(data: seq<Byte>, bytes: seq<Byte>, k: int) {
    forall i :: 0 <= i < |data| && 0 <= Pos(|data|, k, i) < |bytes| ==> data[i] == bytes[Pos(|data|, k, i)]
  }

  /** A cached block shows the flat disk; when it is clean, so does the device. */
  ghost predicate Shows(data: seq<Byte>, dirty: bool, k: int, dev: Device, flat: seq<Byte>) {
    && |data| == dev.blksize && 0 <= k && k * dev.blksize <= |dev.bytes| && |flat| == |dev.bytes|
    && Agrees(data, flat, k) && (!dirty ==> Agrees(data, dev.bytes, k))
  }

  /** A block that is not cached is on the device. */
  ghost predicate OnDevice(dev: Device, flat: seq<Byte>, k: int) {
    |flat| == |dev.bytes| &&
    forall i :: 0 <= i < dev.blksize && 0 <= Pos(dev.blksize, k, i) < |flat| ==>
      dev.bytes[Pos(dev.blksize, k, i)] == flat[Pos(dev.blksize, k, i)]
  }

  ghost predicate GoodDevices(disks: map<int, Device>, flat: map<int, seq<Byte>>) {
    disks.Keys == flat.Keys && forall d :: d in disks ==> BlockSize(disks[d].blksize) && |flat[d]| == |disks[d].bytes|
  }

  ghost predicate Uncached(disks: map<int, Device>, flat: map<int, seq<Byte>>, index: Index) {
    forall d, k :: d in disks && d in flat && (d, k) !in index ==> OnDevice(disks[d], flat[d], k)
  }

  /** A block as a read returns it: what the device lacks reads as zero. */
  function BlockOf(bytes: seq<Byte>, off: int, size: int): seq<Byte>
    requires 0 <= off <= |bytes| && 0 <= size
  {
    var len := if size < |bytes| - off then size else |bytes| - off;
    bytes[off..off + len] + seq(size - len, _ => 0)
  }

  lemma BlockOfAgrees(bytes: seq<Byte>, k: int, size: int)
    requires 0 < size && 0 <= k && k * size <= |bytes|
    ensures |BlockOf(bytes, k * size, size)| == size && Agrees(BlockOf(bytes, k * size, size), bytes, k)
  {
  }

  lemma HashedAdd(buckets: Buckets, index: Index, b: Buffer)
    requires Hashed(buckets, index) && (b.dev, b.block) !in index
    ensures var h := HashKey(b.dev, b.block);
            Hashed(buckets[h := [b] + buckets[h]], index[(b.dev, b.block) := b])
  {
  }

  class Cache {
    var buckets: Buckets
    var disks: map<int, Device>
    ghost var index: Index
    /** The flat disks this cache and its devices stand for. */
    ghost var flat: map<int, seq<Byte>>

    ghost predicate Holds(b: Buffer)
      reads this, b
    {
      && b.dev in disks && b.dev in flat && b.size == disks[b.dev].blksize && b.upToDate
      && Shows(b.data, b.dirty, b.block, disks[b.dev], flat[b.dev])
    }

    ghost predicate Valid()
      reads this, index.Values
    {
      && Hashed(buckets, index) && GoodDevices(disks, flat)
      && (forall k :: k in index ==> Holds(index[k]))
      && Uncached(disks, flat, index)
    }

    /** An empty cache over some devices. */
    constructor (disks: map<int, Device>)
      requires forall d :: d in disks ==> BlockSize(disks[d].blksize)
      ensures Valid() && this.disks == disks && index == map[] && flat == map d | d in disks :: disks[d].bytes
    {
      this.disks := disks;
      buckets := seq(HASH_SIZE, _ => []);
      index := map[];
      flat := map d | d in disks :: disks[d].bytes;
    }

    /** find_buffer. */
    method FindBuffer(dev: int, block: int, size: int) returns (r: Option<Buffer>)
      requires Valid() && dev in disks && size == disks[dev].blksize
      ensures r == if (dev, block) in index then Some(index[(dev, block)]) else None
    {
      hide GoodDevices, Uncached, Shows, HashKey;
      var bucket := buckets[HashKey(dev, block)];
      var i := 0;
      while i < |bucket|
        invariant 0 <= i <= |bucket|
        invariant forall j :: 0 <= j < i ==> (bucket[j].dev, bucket[j].block) != (dev, block)
      {
        if bucket[i].dev == dev && bucket[i].block == block {
          assert bucket[i] in bucket && index[(dev, block)] == bucket[i] && Holds(bucket[i]);
          if bucket[i].size == size {
            return Some(bucket[i]);
          }
        }
        i := i + 1;
      }
      return None;
    }

    /** submit_block and handle_request for a read. */
    method DeviceRead(b: Buffer)
      requires b.dev in disks && 0 < b.size && 0 <= b.block && b.block * b.size <= |disks[b.dev].bytes|
      modifies b`data, b`upToDate
      ensures b.data == BlockOf(disks[b.dev].bytes, b.block * b.size, b.size) && b.upToDate
    {
      var bytes, off := disks[b.dev].bytes, b.block * b.size;
      var len := if b.size < |bytes| - off then b.size else |bytes| - off;
      b.data := bytes[off..off + len];
      if len != b.size {
        b.data := b.data + seq(b.size - len, _ => 0);
      }
      b.upToDate := true;
    }

    /** make_buffer, followed by the read that brings the buffer up to date. */
    method MakeBuffer(dev: int, block: int, size: int) returns (b: Buffer)
      requires Valid() && dev in disks && size == disks[dev].blksize && 0 <= block && block * size <= |disks[dev].bytes|
      requires (dev, block) !in index
      modifies this`buckets, this`index
      ensures Valid() && fresh(b) && index == old(index)[(dev, block) := b] && b.count == 1
    {
      hide HashKey, Hashed, Uncached, Shows;
      b := new Buffer(dev, block, size);
      HashedAdd(buckets, index, b);
      UncachedLoad(disks, flat, index, b, block);
      var h := HashKey(dev, block);
      HashedSize(buckets, index);
      buckets := buckets[h := [b] + buckets[h]];
      index := index[(dev, block) := b];
      DeviceRead(b);
      forall k | k in index ensures Holds(index[k]) {
        if k != (dev, block) { assert old(Holds(index[k])); }
      }
    }

    /** read_block: a cached buffer if there is one. */
    method ReadBlock(dev: int, block: int, size: int) returns (b: Buffer)
      requires Valid() && dev in disks && size == disks[dev].blksize && 0 <= block && block * size <= |disks[dev].bytes|
      modifies this`buckets, this`index
      ensures Valid() && (dev, block) in index && index[(dev, block)] == b
      ensures if (dev, block) in old(index) then index == old(index)
              else fresh(b) && index == old(index)[(dev, block) := b] && b.count == 1
      ensures dev in flat && b.dev == dev && b.block == block && b.size == size
      ensures Agrees(b.data, flat[dev], block) && |b.data| == size
    {
      hide HashKey, GoodDevices, Uncached;
      var r := FindBuffer(dev, block, size);
      if r.Some? {
        b := r.value;
      } else {
        b := MakeBuffer(dev, block, size);
      }
      assert (dev, block) in index && Holds(index[(dev, block)]);
    }

    /** The memcpy of a write into a cached block, which marks the buffer dirty. */
    method WriteInto(b: Buffer, start: int, src: seq<Byte>)
      requires Valid() && (b.dev, b.block) in index && index[(b.dev, b.block)] == b
      requires 0 <= start && start + |src| <= b.size
      modifies b`data, b`dirty, this`flat
      ensures Valid() && b.dev in old(flat) && 0 <= Pos(b.size, b.block, start)
      ensures flat == old(flat)[b.dev := Patch(old(flat)[b.dev], Pos(b.size, b.block, start), src)]
    {
      hide HashKey, Hashed, Shows, Uncached;
      assert Holds(b);
      WriteShows(b.data, b.dirty, b.block, disks[b.dev], flat[b.dev], start, src);
      UncachedPatch(disks, flat, index, b.dev, b.block, start, src);
      b.data := b.data[..start] + src + b.data[start + |src|..];
      b.dirty := true;
      flat := flat[b.dev := Patch(flat[b.dev], Pos(b.size, b.block, start), src)];
      forall k | k in index ensures Holds(index[k]) {
        assert old(Holds(index[k]));
        if index[k] != b {
          IndexedApart(buckets, index, k, b);
          if index[k].dev == b.dev {
            OtherShows(index[k].data, index[k].dirty, index[k].block, disks[b.dev], old(flat)[b.dev], b.block, start, src);
          }
        }
      }
    }

    /** flush_buffer: a dirty block goes to the device. */
    method FlushBuffer(b: Buffer)
      requires Valid() && (b.dev, b.block) in index && index[(b.dev, b.block)] == b
      modifies this`disks
      ensures Valid() && SameShape(old(disks), disks)
      ensures b.dev in disks && b.size == disks[b.dev].blksize && Agrees(b.data, disks[b.dev].bytes, b.block)
    {
      hide HashKey, Hashed, Uncached;
      assert Holds(b);
      if !b.dirty {
        return;
      }
      PosNonNeg(b.size, b.block, 0);
      UncachedFlush(disks, flat, index, b.dev, b.block, b.data);
      disks := disks[b.dev := disks[b.dev].(bytes := Patch(disks[b.dev].bytes, b.block * b.size, b.data))];
      forall k | k in index ensures Holds(index[k]) {
        assert old(Holds(index[k]));
        if index[k] != b && index[k].dev == b.dev {
          IndexedApart(buckets, index, k, b);
          FlushElsewhere(index[k].data, index[k].dirty, index[k].block, old(disks)[b.dev], flat[b.dev], b.block, b.data);
        }
      }
    }

    /** free_buffer: drop a block whose contents are on the device. */
    method FreeBuffer(h: int, j: int)
      requires Valid() && 0 <= h < |buckets| && 0 <= j < |buckets[h]|
      requires var b := buckets[h][j];
               b.dev in disks && b.size == disks[b.dev].blksize && Agrees(b.data, disks[b.dev].bytes, b.block)
      modifies this`buckets, this`index
      ensures Valid() && buckets == old(buckets)[h := old(buckets)[h][..j] + old(buckets)[h][j + 1..]]
      ensures index == old(index) - {(old(buckets)[h][j].dev, old(buckets)[h][j].block)}
    {
      hide HashKey, Uncached;
      var b := buckets[h][j];
      assert b in buckets[h];
      assert Holds(index[(b.dev, b.block)]);
      UncachedFree(disks, flat, index, b.dev, b.block, b.data);
      HashedRemove(buckets, index, h, j);
      buckets := buckets[h := buckets[h][..j] + buckets[h][j + 1..]];
      index := index - {(b.dev, b.block)};
    }

    /** flush_buffer and free_buffer on the buffer at place j of bucket h. */
    method Evict(h: int, j: int, ghost index0: Index)
      requires Valid() && Shrunk(index0, index) && 0 <= h < |buckets| && 0 <= j < |buckets[h]|
      modifies this`buckets, this`index, this`disks
      ensures Valid() && SameShape(old(disks), disks) && Shrunk(index0, index)
      ensures buckets == old(buckets)[h := old(buckets)[h][..j] + old(buckets)[h][j + 1..]]
      ensures var b := old(buckets)[h][j];
              (b.dev, b.block) in index0 && index0[(b.dev, b.block)] == b && index == old(index) - {(b.dev, b.block)}
    {
      hide HashKey, Hashed, GoodDevices, Uncached, Agrees;
      HashedBuffer(buckets, index, h, j);
      FlushBuffer(buckets[h][j]);
      FreeBuffer(h, j);
    }

    /** free_device_buffers. Fails, having freed some of them, when a buffer of the device is in use. */
    method FreeDeviceBuffers(dev: int) returns (busy: bool)
      requires Valid()
      modifies this`buckets, this`index, this`disks
      ensures Valid() && SameShape(old(disks), disks) && Shrunk(old(index), index) && index.Values <= old(index.Values)
      ensures busy <==> InUse(old(index), dev)
      ensures !busy ==> forall k :: (dev, k) !in index
      ensures forall k :: k in old(index) && (k.0 != dev || old(index)[k].count != 0) ==> k in index
    {
      hide Cache.Valid, SameShape, Shrunk, KeptBut;
      ValidSize();
      SameShapeRefl(disks);
      ghost var index0 := index;
      ShrunkRefl(index, dev);
      var h := 0;
      while h < HASH_SIZE
        invariant 0 <= h <= HASH_SIZE && Valid() && SameShape(old(disks), disks) && Shrunk(index0, index) && |buckets| == HASH_SIZE
        invariant forall g :: 0 <= g < h ==> NoneOf(buckets[g], |buckets[g]|, dev)
        invariant KeptBut(index0, index, dev)
      {
        var j := 0;
        while j < |buckets[h]|
          invariant 0 <= h < |buckets| == HASH_SIZE && 0 <= j <= |buckets[h]|
          invariant Valid() && SameShape(old(disks), disks) && Shrunk(index0, index)
          invariant forall g :: 0 <= g < h ==> NoneOf(buckets[g], |buckets[g]|, dev)
          invariant NoneOf(buckets[h], j, dev) && KeptBut(index0, index, dev)
          decreases |buckets[h]| - j
        {
          var b := buckets[h][j];
          if b.dev != dev {
            j := j + 1;
          } else if b.count != 0 {
            Listed(h, j, index0);
            ShrunkValues(index0, index);
            KeptMeans(index0, index, dev);
            return true;
          } else {
            ghost var disks1, index1, bucket := disks, index, buckets[h];
            Evict(h, j, index0);
            NoneOfRest(bucket, j, dev);
            SameShapeTrans(old(disks), disks1, disks);
            KeptFree(index0, index1, dev, b.block);
          }
        }
        h := h + 1;
      }
      ValidNoneLeft(dev);
      ShrunkValues(index0, index);
      KeptMeans(index0, index, dev);
      return false;
    }

    lemma ValidSize()
      requires Valid()
      ensures |buckets| == HASH_SIZE
    {
    }

    /** The buffer at place j of bucket h was cached to begin with. */
    lemma Listed(h: int, j: int, index0: Index)
      requires Valid() && Shrunk(index0, index) && 0 <= h < |buckets| && 0 <= j < |buckets[h]|
      ensures var b := buckets[h][j]; (b.dev, b.block) in index0 && index0[(b.dev, b.block)] == b
    {
      hide HashKey, Hashed, GoodDevices, Uncached;
      HashedBuffer(buckets, index, h, j);
    }

    lemma ValidNoneLeft(dev: int)
      requires Valid() && |buckets| == HASH_SIZE && forall g :: 0 <= g < HASH_SIZE ==> NoneOf(buckets[g], |buckets[g]|, dev)
      ensures forall k :: (dev, k) !in index
    {
      hide HashKey, Hashed, GoodDevices, Uncached;
      NoneLeft(buckets, index, dev);
    }

    lemma ValidBucket(k: (int, int)) returns (g: int, i: int)
      requires Valid() && k in index && |buckets| == HASH_SIZE
      ensures 0 <= g < HASH_SIZE && 0 <= i < |buckets[g]| && buckets[g][i] == index[k]
    {
      hide HashKey, Hashed, GoodDevices, Uncached;
      g, i := BucketOf(buckets, index, k);
    }

    /** clear_buffer_cache: flush and free every buffer that is not in use. */
    method ClearCache()
      requires Valid()
      modifies this`buckets, this`index, this`disks
      ensures Valid() && SameShape(old(disks), disks) && Shrunk(old(index), index) && index.Values <= old(index.Values)
      ensures forall k :: k in index <==> k in old(index) && old(index)[k].count != 0
    {
      hide Cache.Valid, SameShape, Shrunk, KeptUsed;
      ValidSize();
      SameShapeRefl(disks);
      ghost var index0 := index;
      ShrunkRefl(index, 0);
      var h := 0;
      while h < HASH_SIZE
        invariant 0 <= h <= HASH_SIZE && Valid() && SameShape(old(disks), disks) && Shrunk(index0, index) && |buckets| == HASH_SIZE
        invariant forall g :: 0 <= g < h ==> AllUsed(buckets[g], |buckets[g]|)
        invariant KeptUsed(index0, index)
      {
        var j := 0;
        while j < |buckets[h]|
          invariant 0 <= h < |buckets| == HASH_SIZE && 0 <= j <= |buckets[h]|
          invariant Valid() && SameShape(old(disks), disks) && Shrunk(index0, index)
          invariant forall g :: 0 <= g < h ==> AllUsed(buckets[g], |buckets[g]|)
          invariant AllUsed(buckets[h], j) && KeptUsed(index0, index)
          decreases |buckets[h]| - j
        {
          var b := buckets[h][j];
          if b.count != 0 {
            j := j + 1;
          } else {
            ghost var disks1, index1, bucket := disks, index, buckets[h];
            Evict(h, j, index0);
            AllUsedRest(bucket, j);
            SameShapeTrans(old(disks), disks1, disks);
            KeptUsedFree(index0, index1, b);
          }
        }
        h := h + 1;
      }
      ShrunkValues(index0, index);
      forall k | k in index ensures index[k].count != 0 {
        var g, i := ValidBucket(k);
      }
      UsedMeans(index0, index);
    }

    /** set_blocksize for a valid size: the device's blocks leave the cache before their size changes. */
    method SetBlocksize(dev: int, size: int) returns (r: Option<BlockError>)
      requires Valid() && BlockSize(size)
      modifies this`buckets, this`index, this`disks
      ensures Valid() && index.Values <= old(index.Values)
      ensures r == Some(ENODEV) <==> dev !in old(disks)
      ensures r.None? ==> dev in old(disks) && dev in disks && disks[dev].blksize == size
      ensures r == Some(EBUSY) <==> dev in old(disks) && old(disks)[dev].blksize != size && InUse(old(index), dev)
      ensures r == Some(EBUSY) ==> SameShape(old(disks), disks)
      ensures forall k :: k in old(index) && (k.0 != dev || old(index)[k].count != 0) ==> k in index
      ensures dev in old(disks) && old(disks)[dev].blksize == size ==> r.None? && index == old(index) && disks == old(disks)
    {
      hide HashKey, Hashed, Uncached;
      SameShapeRefl(disks);
      if dev !in disks {
        return Some(ENODEV);
      }
      if disks[dev].blksize == size {
        return None;
      }
      var busy := FreeDeviceBuffers(dev);
      if busy {
        return Some(EBUSY);
      }
      UncachedResize(disks, flat, index, dev, size);
      label AfterFree:
      disks := disks[dev := disks[dev].(blksize := size)];
      forall k | k in index ensures Holds(index[k]) {
        assert old@AfterFree(Holds(index[k]));
        IndexedDev(buckets, index, k);
      }
      return None;
    }
  }

  datatype BlockError = ENODEV | EBUSY

  /** A block that is read and released twice stays in use: its second reader was not counted. */
  method ReadTwice(c: Cache, dev: int, block: int, size: int, newSize: int) returns (r: Option<BlockError>)
    requires c.Valid() && dev in c.disks && size == c.disks[dev].blksize && 0 <= block && block * size <= |c.disks[dev].bytes|
    requires (dev, block) !in c.index && BlockSize(newSize) && newSize != size
    modifies c
    ensures c.Valid() && r == Some(EBUSY)
  {
    hide HashKey, Hashed, Uncached, GoodDevices, Shows;
    var b := c.ReadBlock(dev, block, size);
    b.Release();
    var again := c.ReadBlock(dev, block, size);
    again.Release();
    assert c.index[(dev, block)].count == 0xFFFF;
    r := c.SetBlocksize(dev, newSize);
  }

  // ---------------------------------------------------------------- patches

  /** Overwrite bytes from off on, as far as there are bytes. */
  function Patch(bytes: seq<Byte>, off: int, src: seq<Byte>): (r: seq<Byte>)
    requires 0 <= off
    ensures |r| == |bytes|
    ensures forall x :: 0 <= x < |bytes| ==> r[x] == if off <= x < off + |src| then src[x - off] else bytes[x]
  {
    if off >= |bytes| then bytes
    else
      var n := if |src| < |bytes| - off then |src| else |bytes| - off;
      bytes[..off] + src[..n] + bytes[off + n..]
  }

  lemma PosNonNeg(bs: int, k: int, i: int)
    requires 0 <= bs && 0 <= k && 0 <= i
    ensures 0 <= Pos(bs, k, i)
  {
    assert 0 <= k * bs;
  }

  lemma WriteShows(data: seq<Byte>, dirty: bool, k: int, dev: Device, flat: seq<Byte>, start: int, src: seq<Byte>)
    requires Shows(data, dirty, k, dev, flat) && 0 <= start && start + |src| <= dev.blksize
    ensures |data| == dev.blksize && 0 <= k && 0 <= Pos(dev.blksize, k, start)
    ensures Shows(data[..start] + src + data[start + |src|..], true, k, dev, Patch(flat, Pos(dev.blksize, k, start), src))
  {
    PosNonNeg(dev.blksize, k, start);
  }

  lemma OtherShows(data: seq<Byte>, dirty: bool, k: int, dev: Device, flat: seq<Byte>, k': int, start: int, src: seq<Byte>)
    requires Shows(data, dirty, k, dev, flat) && k != k' && 0 <= k' && 0 <= start && start + |src| <= dev.blksize
    ensures |data| == dev.blksize && 0 <= Pos(dev.blksize, k', start)
    ensures Shows(data, dirty, k, dev, Patch(flat, Pos(dev.blksize, k', start), src))
  {
    PosNonNeg(dev.blksize, k', start);
    PatchElsewhere(data, flat, k, k', start, src);
  }

  lemma PatchElsewhere(data: seq<Byte>, bytes: seq<Byte>, k: int, k': int, start: int, src: seq<Byte>)
    requires Agrees(data, bytes, k) && k != k' && 0 <= start && start + |src| <= |data| && 0 <= Pos(|data|, k', start)
    ensures Agrees(data, Patch(bytes, Pos(|data|, k', start), src), k)
  {
    var bs := |data|;
    var r := Patch(bytes, Pos(bs, k', start), src);
    forall i | 0 <= i < bs && 0 <= Pos(bs, k, i) < |r| ensures data[i] == r[Pos(bs, k, i)] {
      OutsideBlock(bs, k, i, k', start, |src|);
    }
  }

  /** A byte of one block is not in a range of another. */
  lemma OutsideBlock(bs: int, k: int, i: int, k': int, start: int, n: int)
    requires 0 <= i < bs && k != k' && 0 <= start && 0 <= n && start + n <= bs
    ensures !(Pos(bs, k', start) <= Pos(bs, k, i) < Pos(bs, k', start) + n)
  {
    if n > 0 {
      if k < k' { PosOrder(bs, k, i, k', start); } else { PosOrder(bs, k', start + n - 1, k, i); }
    }
  }

  lemma UncachedPatch(disks: map<int, Device>, flat: map<int, seq<Byte>>, index: Index, d: int, k: int, start: int, src: seq<Byte>)
    requires Uncached(disks, flat, index) && (d, k) in index && d in disks && d in flat && 0 <= k
    requires 0 <= start && start + |src| <= disks[d].blksize
    ensures 0 <= Pos(disks[d].blksize, k, start)
    ensures Uncached(disks, flat[d := Patch(flat[d], Pos(disks[d].blksize, k, start), src)], index)
  {
    var bs := disks[d].blksize;
    PosNonNeg(bs, k, start);
    var r := Patch(flat[d], Pos(bs, k, start), src);
    forall j | (d, j) !in index ensures OnDevice(disks[d], r, j) {
      assert OnDevice(disks[d], flat[d], j);
      forall i | 0 <= i < bs && 0 <= Pos(bs, j, i) < |r| ensures disks[d].bytes[Pos(bs, j, i)] == r[Pos(bs, j, i)] {
        OutsideBlock(bs, j, i, k, start, |src|);
      }
    }
  }

  lemma IndexedApart(buckets: Buckets, index: Index, k: (int, int), b: Buffer)
    requires Hashed(buckets, index) && k in index && (b.dev, b.block) in index && index[(b.dev, b.block)] == b && index[k] != b
    ensures index[k].dev != b.dev || index[k].block != b.block
  {
  }

  lemma HashedSize(buckets: Buckets, index: Index)
    requires Hashed(buckets, index)
    ensures |buckets| == HASH_SIZE
  {
  }

  lemma UncachedLoad(disks: map<int, Device>, flat: map<int, seq<Byte>>, index: Index, b: Buffer, k: int)
    requires GoodDevices(disks, flat) && Uncached(disks, flat, index) && b.dev in disks && b.dev in flat && (b.dev, b.block) !in index
    requires 0 <= b.block && b.block * b.size <= |disks[b.dev].bytes| && b.size == disks[b.dev].blksize
    ensures Shows(BlockOf(disks[b.dev].bytes, b.block * b.size, b.size), false, b.block, disks[b.dev], flat[b.dev])
    ensures Uncached(disks, flat, index[(b.dev, b.block) := b])
  {
    assert OnDevice(disks[b.dev], flat[b.dev], b.block);
    BlockOfAgrees(disks[b.dev].bytes, b.block, b.size);
  }

  // ---------------------------------------------------------------- eviction

  /** Same devices, same block sizes, same lengths. */
  ghost predicate SameShape(was: map<int, Device>, now: map<int, Device>) {
    now.Keys == was.Keys && forall d :: d in was ==> now[d].blksize == was[d].blksize && |now[d].bytes| == |was[d].bytes|
  }

  lemma SameShapeRefl(disks: map<int, Device>)
    ensures SameShape(disks, disks)
  {
  }

  lemma SameShapeTrans(a: map<int, Device>, b: map<int, Device>, c: map<int, Device>)
    requires SameShape(a, b) && SameShape(b, c)
    ensures SameShape(a, c)
  {
  }

  ghost predicate Shrunk(was: Index, now: Index) { forall k :: k in now ==> k in was && now[k] == was[k] }

  /** A buffer of the device is in use. */
  ghost predicate InUse(index: Index, dev: int)
    reads index.Values
  {
    exists k :: (dev, k) in index && index[(dev, k)].count != 0
  }

  /** Only buffers of the device that are not in use have left. */
  ghost predicate KeptBut(was: Index, now: Index, dev: int)
    reads was.Values
  {
    forall k :: k in was && (k.0 != dev || was[k].count != 0) ==> k in now
  }

  lemma KeptFree(was: Index, now: Index, dev: int, block: int)
    requires KeptBut(was, now, dev) && ((dev, block) in was ==> was[(dev, block)].count == 0)
    ensures KeptBut(was, now - {(dev, block)}, dev)
  {
  }

  /** Only buffers that are not in use have left. */
  ghost predicate KeptUsed(was: Index, now: Index)
    reads was.Values
  {
    forall k :: k in was && was[k].count != 0 ==> k in now
  }

  lemma KeptUsedFree(was: Index, now: Index, b: Buffer)
    requires KeptUsed(was, now) && ((b.dev, b.block) in was ==> was[(b.dev, b.block)].count == 0)
    ensures KeptUsed(was, now - {(b.dev, b.block)})
  {
  }

  lemma ShrunkRefl(index: Index, dev: int)
    ensures Shrunk(index, index) && KeptBut(index, index, dev) && KeptUsed(index, index)
  {
  }

  lemma KeptMeans(was: Index, now: Index, dev: int)
    requires KeptBut(was, now, dev)
    ensures forall k :: k in was && (k.0 != dev || was[k].count != 0) ==> k in now
  {
  }

  lemma UsedMeans(was: Index, now: Index)
    requires Shrunk(was, now) && KeptUsed(was, now) && forall k :: k in now ==> now[k].count != 0
    ensures forall k :: k in now <==> k in was && was[k].count != 0
  {
  }

  /** None of the first n buffers is one of the device. */
  predicate NoneOf(bucket: seq<Buffer>, n: int, dev: int) { forall i :: 0 <= i < n && i < |bucket| ==> bucket[i].dev != dev }

  lemma NoneOfRest(bucket: seq<Buffer>, j: int, dev: int)
    requires 0 <= j < |bucket| && NoneOf(bucket, j, dev)
    ensures NoneOf(bucket[..j] + bucket[j + 1..], j, dev)
  {
  }

  /** The first n buffers are all in use. */
  predicate AllUsed(bucket: seq<Buffer>, n: int)
    reads bucket
  {
    forall i :: 0 <= i < n && i < |bucket| ==> bucket[i].count != 0
  }

  lemma AllUsedRest(bucket: seq<Buffer>, j: int)
    requires 0 <= j < |bucket| && AllUsed(bucket, j)
    ensures AllUsed(bucket[..j] + bucket[j + 1..], j)
  {
  }

  lemma ShrunkValues(was: Index, now: Index)
    requires Shrunk(was, now)
    ensures now.Values <= was.Values
  {
  }

  lemma UncachedFlush(disks: map<int, Device>, flat: map<int, seq<Byte>>, index: Index, d: int, k: int, data: seq<Byte>)
    requires GoodDevices(disks, flat) && Uncached(disks, flat, index) && (d, k) in index && d in disks && 0 <= k
    requires |data| == disks[d].blksize
    ensures 0 <= k * |data|
    ensures var disks' := disks[d := disks[d].(bytes := Patch(disks[d].bytes, k * |data|, data))];
            Uncached(disks', flat, index) && GoodDevices(disks', flat)
            && Agrees(data, disks'[d].bytes, k)
  {
    var bs := |data|;
    PosNonNeg(bs, k, 0);
    var r := Patch(disks[d].bytes, k * bs, data);
    forall j | (d, j) !in index ensures OnDevice(disks[d].(bytes := r), flat[d], j) {
      assert OnDevice(disks[d], flat[d], j);
      forall i | 0 <= i < bs && 0 <= Pos(bs, j, i) < |r| ensures r[Pos(bs, j, i)] == flat[d][Pos(bs, j, i)] {
        OutsideBlock(bs, j, i, k, 0, bs);
        assert Pos(bs, k, 0) == k * bs;
      }
    }
  }

  lemma FlushElsewhere(data: seq<Byte>, dirty: bool, k: int, dev: Device, flat: seq<Byte>, k': int, src: seq<Byte>)
    requires Shows(data, dirty, k, dev, flat) && k != k' && 0 <= k' && |src| == dev.blksize
    ensures 0 <= k' * |src| && Shows(data, dirty, k, dev.(bytes := Patch(dev.bytes, k' * |src|, src)), flat)
  {
    PosNonNeg(|src|, k', 0);
    assert Pos(|src|, k', 0) == k' * |src|;
    if !dirty { PatchElsewhere(data, dev.bytes, k, k', 0, src); }
  }

  lemma UncachedFree(disks: map<int, Device>, flat: map<int, seq<Byte>>, index: Index, d: int, k: int, data: seq<Byte>)
    requires Uncached(disks, flat, index) && d in disks && d in flat && |flat[d]| == |disks[d].bytes| && |data| == disks[d].blksize
    requires Agrees(data, disks[d].bytes, k) && Agrees(data, flat[d], k)
    ensures Uncached(disks, flat, index - {(d, k)})
  {
  }

  lemma HashedBuffer(buckets: Buckets, index: Index, h: int, j: int)
    requires Hashed(buckets, index) && 0 <= h < |buckets| && 0 <= j < |buckets[h]|
    ensures var b := buckets[h][j]; (b.dev, b.block) in index && index[(b.dev, b.block)] == b
  {
    assert buckets[h][j] in buckets[h];
  }

  lemma IndexedDev(buckets: Buckets, index: Index, k: (int, int))
    requires Hashed(buckets, index) && k in index
    ensures index[k].dev == k.0
  {
  }

  lemma BucketOf(buckets: Buckets, index: Index, k: (int, int)) returns (h: int, j: int)
    requires Hashed(buckets, index) && k in index
    ensures 0 <= h < |buckets| && 0 <= j < |buckets[h]| && buckets[h][j] == index[k] && index[k].dev == k.0
  {
    h := HashKey(k.0, k.1);
    j :| 0 <= j < |buckets[h]| && buckets[h][j] == index[k];
  }

  lemma NoneLeft(buckets: Buckets, index: Index, dev: int)
    requires Hashed(buckets, index)
    requires forall g, i :: 0 <= g < |buckets| && 0 <= i < |buckets[g]| ==> buckets[g][i].dev != dev
    ensures forall k :: (dev, k) !in index
  {
  }

  lemma HashedRemove(buckets: Buckets, index: Index, h: int, j: int)
    requires Hashed(buckets, index) && 0 <= h < |buckets| && 0 <= j < |buckets[h]|
    ensures var b := buckets[h][j];
            Hashed(buckets[h := buckets[h][..j] + buckets[h][j + 1..]], index - {(b.dev, b.block)})
  {
  }

  /** With nothing of it cached, the device is the flat disk, whatever the block size. */
  lemma UncachedResize(disks: map<int, Device>, flat: map<int, seq<Byte>>, index: Index, d: int, size: int)
    requires GoodDevices(disks, flat) && Uncached(disks, flat, index) && d in disks && BlockSize(size)
    requires forall k :: (d, k) !in index
    ensures disks[d].bytes == flat[d]
    ensures Uncached(disks[d := disks[d].(blksize := size)], flat, index)
  {
    var bs := disks[d].blksize;
    forall x | 0 <= x < |flat[d]| ensures disks[d].bytes[x] == flat[d][x] {
      PosOnto(bs, x);
      assert (d, x / bs) !in index && OnDevice(disks[d], flat[d], x / bs);
    }
  }
}
