/** Flattening an ext2 inode's block tree into a block list: fs/ext2/inode.c. */
module Ext2Blocks {
  import opened Machine
  import opened BlockCache

  /** A little-endian 32-bit word. */
  function Word32(b0: Byte, b1: Byte, b2: Byte, b3: Byte): int { b0 + 0x100 * b1 + 0x1_0000 * b2 + 0x100_0000 * b3 }

  /** The four bytes of a word, least significant first, are those that make it up, for every value below 2^32. */
  lemma WordBytes(x: int)
    requires 0 <= x < W32
    ensures Word32(x % 0x100, x / 0x100 % 0x100, x / 0x1_0000 % 0x100, x / 0x100_0000) == x
  {
    assert x / 0x1_0000 == x / 0x100 / 0x100 && x / 0x100_0000 == x / 0x1_0000 / 0x100;
  }

  lemma BytesOfWord(b0: Byte, b1: Byte, b2: Byte, b3: Byte)
    ensures var x := Word32(b0, b1, b2, b3);
            0 <= x < W32 && x % 0x100 == b0 && x / 0x100 % 0x100 == b1 && x / 0x1_0000 % 0x100 == b2 && x / 0x100_0000 == b3
  {
    DivUnique(b1 + 0x100 * b2 + 0x1_0000 * b3, b0, 0x100);
    DivUnique(b2 + 0x100 * b3, b1, 0x100);
    DivUnique(b3, b2, 0x100);
    DivUnique(b2 + 0x100 * b3, b0 + 0x100 * b1, 0x1_0000);
    DivUnique(b3, b0 + 0x100 * b1 + 0x1_0000 * b2, 0x100_0000);
  }

  /** A block that lies on the device entirely. */
  predicate OnDisk(flat: seq<Byte>, bs: int, k: int) { 0 <= k && 0 <= Pos(bs, k, 0) && Pos(bs, k, bs) <= |flat| }

  /** Entry i of indirect block k. */
  function EntryOf(flat: seq<Byte>, bs: int, k: int, i: int): int {
    if OnDisk(flat, bs, k) && 0 <= i && 4 * i + 4 <= bs then
      var x := Pos(bs, k, 4 * i);
      Word32(flat[x], flat[x + 1], flat[x + 2], flat[x + 3])
    else 0
  }

  /** Entries per indirect block. */
  function PerBlock(bs: int): int { bs / 4 }

  // ---------------------------------------------------------------- recursive lookup

  /** Leaves under a block of the given depth. */
  function Leaves(bs: int, depth: nat): int { if depth == 0 then 1 else PerBlock(bs) * Leaves(bs, depth - 1) }

  lemma LeavesPositive(bs: int, depth: nat)
    requires BlockSize(bs)
    ensures 1 <= Leaves(bs, depth)
  {
  }

  /** Leaf number i under block k: what depth levels of indirection lead to. */
  function Leaf(flat: seq<Byte>, bs: int, depth: nat, k: int, i: int): int
    requires BlockSize(bs)
  {
    if depth == 0 then k
    else
      LeavesPositive(bs, depth - 1);
      var w := Leaves(bs, depth - 1);
      Leaf(flat, bs, depth - 1, EntryOf(flat, bs, k, i / w), i % w)
  }

  /** The blocks to be read for the first n leaves under block k are on the device. */
  ghost predicate Sound(flat: seq<Byte>, bs: int, depth: nat, k: int, n: int) {
    depth > 0 ==>
      && OnDisk(flat, bs, k)
      && forall i {:trigger EntryOf(flat, bs, k, i)} :: 0 <= i < PerBlock(bs) && i * Leaves(bs, depth - 1) < n ==>
           Sound(flat, bs, depth - 1, EntryOf(flat, bs, k, i), n - i * Leaves(bs, depth - 1))
  }

  /** Block i of a file, by walking the inode's block list: twelve direct blocks, then trees of depth one, two, three. */
  function BlockOfFile(flat: seq<Byte>, bs: int, inode: seq<int>, i: int): int
    requires BlockSize(bs) && |inode| == 15 && 0 <= i
  {
    if i < 12 then inode[i]
    else if i < 12 + Leaves(bs, 1) then Leaf(flat, bs, 1, inode[12], i - 12)
    else if i < 12 + Leaves(bs, 1) + Leaves(bs, 2) then Leaf(flat, bs, 2, inode[13], i - 12 - Leaves(bs, 1))
    else Leaf(flat, bs, 3, inode[14], i - 12 - Leaves(bs, 1) - Leaves(bs, 2))
  }

  /** The largest number of blocks the trees can hold. */
  function MaxBlocks(bs: int): int { 12 + Leaves(bs, 1) + Leaves(bs, 2) + Leaves(bs, 3) }

  /** now is was with the first n leaves under block k written from index at on. */
  ghost predicate Filled(was: seq<int>, now: seq<int>, at: int, n: int, flat: seq<Byte>, bs: int, depth: nat, k: int)
    requires BlockSize(bs)
  {
    |now| == |was| &&
    forall x :: 0 <= x < |now| ==> now[x] == if at <= x < at + n then Leaf(flat, bs, depth, k, x - at) else was[x]
  }

  /** Leaf i * w + r lies in subtree i, as its leaf r. */
  lemma LeafIn(flat: seq<Byte>, bs: int, depth: nat, k: int, i: int, r: int)
    requires BlockSize(bs) && 0 < depth && 0 <= r < Leaves(bs, depth - 1)
    ensures Leaf(flat, bs, depth, k, i * Leaves(bs, depth - 1) + r) == Leaf(flat, bs, depth - 1, EntryOf(flat, bs, k, i), r)
  {
    hide EntryOf;
    DivUnique(i, r, Leaves(bs, depth - 1));
  }

  /** One more subtree extends what is filled by one more entry's worth of leaves. */
  lemma FilledStep(was: seq<int>, mid: seq<int>, now: seq<int>, at: int, i: int, done: int, n: int,
                   flat: seq<Byte>, bs: int, depth: nat, k: int)
    requires BlockSize(bs) && 0 < depth && 0 <= done == i * Leaves(bs, depth - 1) && 0 <= n <= Leaves(bs, depth - 1) && 0 <= at
    requires Filled(was, mid, at, done, flat, bs, depth, k)
    requires Filled(mid, now, at + done, n, flat, bs, depth - 1, EntryOf(flat, bs, k, i))
    ensures Filled(was, now, at, done + n, flat, bs, depth, k)
  {
    hide EntryOf, Leaf, Leaves;
    forall x | 0 <= x < |now| && at + done <= x < at + done + n ensures now[x] == Leaf(flat, bs, depth, k, x - at) {
      LeafIn(flat, bs, depth, k, i, x - at - done);
    }
  }

  // ---------------------------------------------------------------- the nested loops

  /** The i-th word of a cached indirect block. */
  method BufferEntry(ghost flat: seq<Byte>, b: Buffer, i: int) returns (w: int)
    requires |b.data| == b.size && 0 < b.size && Agrees(b.data, flat, b.block) && OnDisk(flat, b.size, b.block)
    requires 0 <= i && 4 * i + 4 <= b.size
    ensures w == EntryOf(flat, b.size, b.block, i)
  {
    ghost var x := Pos(b.size, b.block, 4 * i);
    assert forall j :: 0 <= j < b.size ==> Pos(b.size, b.block, j) == Pos(b.size, b.block, 0) + j;
    var d := b.data;
    assert d[4 * i] == flat[Pos(b.size, b.block, 4 * i)] && d[4 * i + 1] == flat[Pos(b.size, b.block, 4 * i + 1)];
    assert d[4 * i + 2] == flat[Pos(b.size, b.block, 4 * i + 2)] && d[4 * i + 3] == flat[Pos(b.size, b.block, 4 * i + 3)];
    w := Word32(d[4 * i], d[4 * i + 1], d[4 * i + 2], d[4 * i + 3]);
  }

  /** Reading an indirect block through the cache. */
  method ReadIndirect(c: Cache, dev: int, k: int, bs: int) returns (b: Buffer)
    requires c.Valid() && dev in c.disks && dev in c.flat && bs == c.disks[dev].blksize && OnDisk(c.flat[dev], bs, k)
    modifies c`buckets, c`index
    ensures c.Valid() && fresh(c.index.Values - old(c.index.Values)) && old(c.index.Values) <= c.index.Values && b in c.index.Values
    ensures b.size == bs && b.block == k && |b.data| == bs && Agrees(b.data, c.flat[dev], k)
  {
    b := c.ReadBlock(dev, k, bs);
    assert c.index[(dev, k)] == b;
  }

  /** release_buffer leaves the cache as it is but for the buffer's count. */
  method ReleaseIndirect(c: Cache, b: Buffer)
    requires c.Valid() && b in c.index.Values
    modifies b`count
    ensures c.Valid()
  {
    hide Hashed, GoodDevices, Uncached, Shows, Agrees;
    b.Release();
  }

  /** The device is known to the cache, with this block size. */
  ghost predicate Ready(c: Cache, dev: int, bs: int)
    reads c
  {
    dev in c.disks && dev in c.flat && bs == c.disks[dev].blksize && BlockSize(bs)
  }

  /** The copy loop of buffers_from_indirect. */
  method CopyEntries(ghost flat: seq<Byte>, b: Buffer, blocks: array<int>, at: int, n: int)
    requires |b.data| == b.size && BlockSize(b.size) && Agrees(b.data, flat, b.block) && OnDisk(flat, b.size, b.block)
    requires 0 <= at && 0 <= n <= Leaves(b.size, 1) && at + n <= blocks.Length
    modifies blocks
    ensures Filled(old(blocks[..]), blocks[..], at, n, flat, b.size, 1, b.block)
  {
    hide Agrees, Filled, Leaf, EntryOf, OnDisk;
    var i := 0;
    FilledNone(blocks[..], at, flat, b.size, 1, b.block);
    while i < n
      invariant 0 <= i <= n && Filled(old(blocks[..]), blocks[..], at, i, flat, b.size, 1, b.block)
    {
      ghost var mid := blocks[..];
      var e := BufferEntry(flat, b, i);
      blocks[at + i] := e;
      FilledOne(mid, at + i, e, flat, b.size);
      FilledStep(old(blocks[..]), mid, blocks[..], at, i, i, 1, flat, b.size, 1, b.block);
      i := i + 1;
    }
  }

  lemma FilledOne(was: seq<int>, at: int, e: int, flat: seq<Byte>, bs: int)
    requires BlockSize(bs) && 0 <= at < |was|
    ensures Filled(was, was[at := e], at, 1, flat, bs, 0, e)
  {
  }

  lemma FilledNone(was: seq<int>, at: int, flat: seq<Byte>, bs: int, depth: nat, k: int)
    requires BlockSize(bs)
    ensures Filled(was, was, at, 0, flat, bs, depth, k)
  {
  }

  lemma LeavesSmall(bs: int)
    ensures Leaves(bs, 0) == 1 && Leaves(bs, 1) == bs / 4 && Leaves(bs, 2) == bs / 4 * (bs / 4)
    ensures Leaves(bs, 3) == bs / 4 * (bs / 4 * (bs / 4))
  {
  }

  lemma SoundHere(flat: seq<Byte>, bs: int, depth: nat, k: int, n: int)
    requires Sound(flat, bs, depth, k, n) && 0 < depth
    ensures OnDisk(flat, bs, k)
  {
  }

  /** Fewer leaves need fewer blocks. */
  lemma {:induction false} SoundLess(flat: seq<Byte>, bs: int, depth: nat, k: int, n: int, m: int)
    requires Sound(flat, bs, depth, k, n) && m <= n
    ensures Sound(flat, bs, depth, k, m)
  {
    hide EntryOf, OnDisk;
    if depth > 0 {
      var w := Leaves(bs, depth - 1);
      forall i | 0 <= i < PerBlock(bs) && i * w < m ensures Sound(flat, bs, depth - 1, EntryOf(flat, bs, k, i), m - i * w) {
        SoundLess(flat, bs, depth - 1, EntryOf(flat, bs, k, i), n - i * w, m - i * w);
      }
    }
  }

  lemma SoundEntry(flat: seq<Byte>, bs: int, depth: nat, k: int, n: int, i: int)
    requires Sound(flat, bs, depth, k, n) && 0 < depth && 0 <= i < PerBlock(bs) && i * Leaves(bs, depth - 1) < n
    ensures Sound(flat, bs, depth - 1, EntryOf(flat, bs, k, i), n - i * Leaves(bs, depth - 1))
  {
  }

  /** Subtree i starts inside the first n leaves, and so many of its leaves are among them. */
  lemma SubtreeShare(i: int, w: int, m: int, n: int)
    requires 0 <= i && 0 < w && i * w < n <= m * w
    ensures i < m && 0 <= i * w && i * w + Min(n - i * w, w) == Min(n, (i + 1) * w)
  {
    if m <= i { MulMono(m, i, w); }
    MulMono(0, i, w);
  }

  /** buffers_from_indirect. */
  method FromIndirect(c: Cache, dev: int, k: int, bs: int, blocks: array<int>, at: int, len: int) returns (n: int)
    requires c.Valid() && Ready(c, dev, bs)
    requires 0 <= at && 0 <= len && at + len <= blocks.Length && Sound(c.flat[dev], bs, 1, k, len)
    modifies c`buckets, c`index, c.index.Values`count, blocks
    ensures c.Valid() && fresh(c.index.Values - old(c.index.Values)) && old(c.index.Values) <= c.index.Values && n == Min(len, Leaves(bs, 1))
    ensures Filled(old(blocks[..]), blocks[..], at, n, c.flat[dev], bs, 1, k)
  {
    hide Cache.Valid, Agrees, Filled, Leaf, Leaves, EntryOf, OnDisk, Sound;
    n := Min(len, bs / 4);
    LeavesSmall(bs);
    SoundHere(c.flat[dev], bs, 1, k, len);
    var buf := ReadIndirect(c, dev, k, bs);
    CopyEntries(c.flat[dev], buf, blocks, at, n);
    ReleaseIndirect(c, buf);
  }

  /** One round of the loop in buffers_from_indirect2. */
  method Subtree2(c: Cache, dev: int, buf: Buffer, bs: int, blocks: array<int>, at: int, n: int, i: int, w: int, ghost was: seq<int>)
    requires c.Valid() && Ready(c, dev, bs) && 0 <= at && 0 <= n && at + n <= blocks.Length
    requires OnDisk(c.flat[dev], bs, buf.block) && Sound(c.flat[dev], bs, 2, buf.block, n)
    requires buf.size == bs && |buf.data| == bs && Agrees(buf.data, c.flat[dev], buf.block) && w == Leaves(bs, 1)
    requires 0 <= i < PerBlock(bs) && 0 <= i * w < n <= Leaves(bs, 2) && Filled(was, blocks[..], at, i * w, c.flat[dev], bs, 2, buf.block)
    modifies c`buckets, c`index, c.index.Values`count, blocks
    ensures c.Valid() && fresh(c.index.Values - old(c.index.Values)) && old(c.index.Values) <= c.index.Values
    ensures Filled(was, blocks[..], at, i * w + Min(n - i * w, w), c.flat[dev], bs, 2, buf.block)
  {
    hide Cache.Valid, Agrees, Filled, Leaf, Leaves, EntryOf, OnDisk, Sound;
    var e := BufferEntry(c.flat[dev], buf, i);
    SoundEntry(c.flat[dev], bs, 2, buf.block, n, i);
    LeavesPositive(bs, 1);
    ghost var mid := blocks[..];
    var got := FromIndirect(c, dev, e, bs, blocks, at + i * w, n - i * w);
    FilledStep(was, mid, blocks[..], at, i, i * w, got, c.flat[dev], bs, 2, buf.block);
  }

  /** buffers_from_indirect2. */
  method FromIndirect2(c: Cache, dev: int, k: int, bs: int, blocks: array<int>, at: int, len: int) returns (n: int)
    requires c.Valid() && Ready(c, dev, bs)
    requires 0 <= at && 0 <= len && at + len <= blocks.Length && Sound(c.flat[dev], bs, 2, k, len)
    modifies c`buckets, c`index, c.index.Values`count, blocks
    ensures c.Valid() && fresh(c.index.Values - old(c.index.Values)) && old(c.index.Values) <= c.index.Values && n == Min(len, Leaves(bs, 2))
    ensures Filled(old(blocks[..]), blocks[..], at, n, c.flat[dev], bs, 2, k)
  {
    hide Cache.Valid, Agrees, Filled, Leaf, Leaves, EntryOf, OnDisk, Sound;
    var m := bs / 4;
    n := Min(len, m * m);
    LeavesSmall(bs);
    SoundLess(c.flat[dev], bs, 2, k, len, n);
    SoundHere(c.flat[dev], bs, 2, k, n);
    var buf := ReadIndirect(c, dev, k, bs);
    var i := 0;
    FilledNone(blocks[..], at, c.flat[dev], bs, 2, k);
    ghost var was, flat := blocks[..], c.flat[dev];
    while i * m < n
      invariant 0 <= i <= m && c.Valid() && buf in c.index.Values && fresh(c.index.Values - old(c.index.Values))
      invariant old(c.index.Values) <= c.index.Values && |buf.data| == bs && Agrees(buf.data, flat, k)
      invariant Filled(was, blocks[..], at, Min(n, i * m), flat, bs, 2, k)
      decreases m - i
    {
      SubtreeShare(i, m, m, n);
      Subtree2(c, dev, buf, bs, blocks, at, n, i, m, was);
      i := i + 1;
    }
    ReleaseIndirect(c, buf);
  }

  /** One round of the loop in buffers_from_indirect3. */
  method Subtree3(c: Cache, dev: int, buf: Buffer, bs: int, blocks: array<int>, at: int, n: int, i: int, w: int, ghost was: seq<int>)
    requires c.Valid() && Ready(c, dev, bs) && 0 <= at && 0 <= n && at + n <= blocks.Length
    requires OnDisk(c.flat[dev], bs, buf.block) && Sound(c.flat[dev], bs, 3, buf.block, n)
    requires buf.size == bs && |buf.data| == bs && Agrees(buf.data, c.flat[dev], buf.block) && w == Leaves(bs, 2)
    requires 0 <= i < PerBlock(bs) && 0 <= i * w < n <= Leaves(bs, 3) && Filled(was, blocks[..], at, i * w, c.flat[dev], bs, 3, buf.block)
    modifies c`buckets, c`index, c.index.Values`count, blocks
    ensures c.Valid() && fresh(c.index.Values - old(c.index.Values)) && old(c.index.Values) <= c.index.Values
    ensures Filled(was, blocks[..], at, i * w + Min(n - i * w, w), c.flat[dev], bs, 3, buf.block)
  {
    hide Cache.Valid, Agrees, Filled, Leaf, Leaves, EntryOf, OnDisk, Sound;
    var e := BufferEntry(c.flat[dev], buf, i);
    SoundEntry(c.flat[dev], bs, 3, buf.block, n, i);
    LeavesPositive(bs, 2);
    ghost var mid := blocks[..];
    var got := FromIndirect2(c, dev, e, bs, blocks, at + i * w, n - i * w);
    FilledStep(was, mid, blocks[..], at, i, i * w, got, c.flat[dev], bs, 3, buf.block);
  }

  /** buffers_from_indirect3. */
  method FromIndirect3(c: Cache, dev: int, k: int, bs: int, blocks: array<int>, at: int, len: int) returns (n: int)
    requires c.Valid() && Ready(c, dev, bs)
    requires 0 <= at && 0 <= len && at + len <= blocks.Length && Sound(c.flat[dev], bs, 3, k, len)
    modifies c`buckets, c`index, c.index.Values`count, blocks
    ensures c.Valid() && fresh(c.index.Values - old(c.index.Values)) && old(c.index.Values) <= c.index.Values && n == Min(len, Leaves(bs, 3))
    ensures Filled(old(blocks[..]), blocks[..], at, n, c.flat[dev], bs, 3, k)
  {
    hide Cache.Valid, Agrees, Filled, Leaf, Leaves, EntryOf, OnDisk, Sound;
    var m := bs / 4;
    var m2 := m * m;
    n := Min(len, m * m2);
    LeavesSmall(bs);
    SoundLess(c.flat[dev], bs, 3, k, len, n);
    SoundHere(c.flat[dev], bs, 3, k, n);
    var buf := ReadIndirect(c, dev, k, bs);
    var i := 0;
    FilledNone(blocks[..], at, c.flat[dev], bs, 3, k);
    ghost var was, flat := blocks[..], c.flat[dev];
    while i * m2 < n
      invariant 0 <= i <= m && c.Valid() && buf in c.index.Values && fresh(c.index.Values - old(c.index.Values))
      invariant old(c.index.Values) <= c.index.Values && |buf.data| == bs && Agrees(buf.data, flat, k)
      invariant Filled(was, blocks[..], at, Min(n, i * m2), flat, bs, 3, k)
      decreases m - i
    {
      SubtreeShare(i, m2, m, n);
      Subtree3(c, dev, buf, bs, blocks, at, n, i, m2, was);
      i := i + 1;
    }
    ReleaseIndirect(c, buf);
  }

  /** Every indirect block needed for the first n blocks of the file is on the device. */
  ghost predicate SoundInode(flat: seq<Byte>, bs: int, inode: seq<int>, n: int) {
    && |inode| == 15
    && (12 < n ==> Sound(flat, bs, 1, inode[12], n - 12))
    && (12 + Leaves(bs, 1) < n ==> Sound(flat, bs, 2, inode[13], n - 12 - Leaves(bs, 1)))
    && (12 + Leaves(bs, 1) + Leaves(bs, 2) < n ==> Sound(flat, bs, 3, inode[14], n - 12 - Leaves(bs, 1) - Leaves(bs, 2)))
  }

  /** now is was with its first n entries replaced by the file's first n blocks. */
  ghost predicate Listed(was: seq<int>, now: seq<int>, n: int, flat: seq<Byte>, bs: int, inode: seq<int>)
    requires BlockSize(bs) && |inode| == 15
  {
    |now| == |was| && forall x :: 0 <= x < |now| ==> now[x] == if x < n then BlockOfFile(flat, bs, inode, x) else was[x]
  }

  /** Where the tree of the given depth starts in the file. */
  function TreeStart(bs: int, depth: nat): int {
    if depth == 0 then 0 else if depth == 1 then 12 else TreeStart(bs, depth - 1) + Leaves(bs, depth - 1)
  }

  lemma ListedTree(was: seq<int>, mid: seq<int>, now: seq<int>, depth: nat, n: int, flat: seq<Byte>, bs: int, inode: seq<int>)
    requires BlockSize(bs) && |inode| == 15 && 1 <= depth <= 3 && 0 <= n <= Leaves(bs, depth)
    requires Listed(was, mid, TreeStart(bs, depth), flat, bs, inode)
    requires Filled(mid, now, TreeStart(bs, depth), n, flat, bs, depth, inode[11 + depth])
    ensures Listed(was, now, TreeStart(bs, depth) + n, flat, bs, inode)
  {
    hide Leaf;
    LeavesPositive(bs, 1);
    LeavesPositive(bs, 2);
    assert TreeStart(bs, 1) == 12 && TreeStart(bs, 2) == 12 + Leaves(bs, 1) && TreeStart(bs, 3) == 12 + Leaves(bs, 1) + Leaves(bs, 2);
  }

  /** The direct blocks. */
  method ListDirect(inode: seq<int>, blocks: array<int>, ghost flat: seq<Byte>, ghost bs: int) returns (i: int)
    requires BlockSize(bs) && |inode| == 15
    modifies blocks
    ensures i == Min(12, blocks.Length) && Listed(old(blocks[..]), blocks[..], i, flat, bs, inode)
  {
    i := 0;
    while i < 12 && i < blocks.Length
      invariant 0 <= i <= Min(12, blocks.Length) && Listed(old(blocks[..]), blocks[..], i, flat, bs, inode)
    {
      blocks[i] := inode[i];
      i := i + 1;
    }
  }

  /** ext2_inode_to_bio_vec, on the block list allocated for the vector. */
  method InodeToBioVec(c: Cache, dev: int, inode: seq<int>, blocks: array<int>)
    requires c.Valid() && dev in c.disks && Ready(c, dev, c.disks[dev].blksize)
    requires SoundInode(c.flat[dev], c.disks[dev].blksize, inode, blocks.Length)
    modifies c`buckets, c`index, c.index.Values`count, blocks
    ensures c.Valid()
    ensures var bs := c.disks[dev].blksize;
            Listed(old(blocks[..]), blocks[..], Min(blocks.Length, MaxBlocks(bs)), c.flat[dev], bs, inode)
  {
    hide Cache.Valid, Agrees, Filled, Leaf, Leaves, EntryOf, OnDisk, Sound, Listed, BlockOfFile;
    var bs := c.disks[dev].blksize;
    ghost var was, flat := blocks[..], c.flat[dev];
    LeavesPositive(bs, 1);
    LeavesPositive(bs, 2);
    LeavesPositive(bs, 3);
    var i := ListDirect(inode, blocks, flat, bs);
    if i == blocks.Length { return; }
    ghost var mid := blocks[..];
    var n := FromIndirect(c, dev, inode[12], bs, blocks, i, blocks.Length - i);
    ListedTree(was, mid, blocks[..], 1, n, flat, bs, inode);
    i := i + n;
    if i == blocks.Length { return; }
    mid := blocks[..];
    n := FromIndirect2(c, dev, inode[13], bs, blocks, i, blocks.Length - i);
    ListedTree(was, mid, blocks[..], 2, n, flat, bs, inode);
    i := i + n;
    if i == blocks.Length { return; }
    mid := blocks[..];
    n := FromIndirect3(c, dev, inode[14], bs, blocks, i, blocks.Length - i);
    ListedTree(was, mid, blocks[..], 3, n, flat, bs, inode);
  }

  /** The four bytes of an entry lie where the entry's number says, least significant first. */
  lemma EntryBytes(flat: seq<Byte>, bs: int, k: int, i: int)
    requires BlockSize(bs) && OnDisk(flat, bs, k) && 0 <= i < bs / 4
    ensures var x, at := EntryOf(flat, bs, k, i), k * bs + 4 * i;
            && 0 <= at && at + 4 <= |flat| && 0 <= x < W32
            && x % 0x100 == flat[at] && x / 0x100 % 0x100 == flat[at + 1] && x / 0x1_0000 % 0x100 == flat[at + 2] && x / 0x100_0000 == flat[at + 3]
  {
    hide Word32;
    var at := Pos(bs, k, 4 * i);
    BytesOfWord(flat[at], flat[at + 1], flat[at + 2], flat[at + 3]);
  }

  /** Block i of a file, with m entries per block: direct, or found through one, two or three indirect blocks. */
  lemma BlockMeans(flat: seq<Byte>, bs: int, inode: seq<int>, i: int)
    requires BlockSize(bs) && |inode| == 15 && 0 <= i
    ensures var m := bs / 4;
            var e := (k: int, j: int) => EntryOf(flat, bs, k, j);
            BlockOfFile(flat, bs, inode, i) ==
            if i < 12 then inode[i]
            else if i < 12 + m then e(inode[12], i - 12)
            else if i < 12 + m + m * m then var j := i - 12 - m; e(e(inode[13], j / m), j % m)
            else var j := i - 12 - m - m * m; e(e(e(inode[14], j / (m * m)), j % (m * m) / m), j % (m * m) % m)
  {
    hide EntryOf, Leaf, Leaves;
    LeavesAre(bs);
    var m := bs / 4;
    if 12 <= i < 12 + m {
      LeafOne(flat, bs, inode[12], i - 12);
    } else if 12 + m <= i < 12 + m + m * m {
      var j := i - 12 - m;
      LeafMore(flat, bs, 2, inode[13], j);
      LeafOne(flat, bs, EntryOf(flat, bs, inode[13], j / m), j % m);
    } else if 12 + m + m * m <= i {
      var j := i - 12 - m - m * m;
      LeafMore(flat, bs, 3, inode[14], j);
      var k := EntryOf(flat, bs, inode[14], j / (m * m));
      LeafMore(flat, bs, 2, k, j % (m * m));
      LeafOne(flat, bs, EntryOf(flat, bs, k, j % (m * m) / m), j % (m * m) % m);
    }
  }

  lemma LeavesAre(bs: int)
    requires BlockSize(bs)
    ensures Leaves(bs, 0) == 1 && Leaves(bs, 1) == bs / 4 && Leaves(bs, 2) == bs / 4 * (bs / 4)
  {
  }

  lemma LeafOne(flat: seq<Byte>, bs: int, k: int, i: int)
    requires BlockSize(bs)
    ensures Leaf(flat, bs, 1, k, i) == EntryOf(flat, bs, k, i)
  {
    hide EntryOf;
    LeavesAre(bs);
  }

  lemma LeafMore(flat: seq<Byte>, bs: int, depth: nat, k: int, i: int)
    requires BlockSize(bs) && 0 < depth && 0 < Leaves(bs, depth - 1)
    ensures var w := Leaves(bs, depth - 1); Leaf(flat, bs, depth, k, i) == Leaf(flat, bs, depth - 1, EntryOf(flat, bs, k, i / w), i % w)
  {
    hide EntryOf, Leaves;
  }

  // ---------------------------------------------------------------- holes

  /** Leaf number i under block k as ext2 defines it: a zero pointer is a hole, and all leaves under it are zero. */
  function SparseLeaf(flat: seq<Byte>, bs: int, depth: nat, k: int, i: int): int
    requires BlockSize(bs)
  {
    if k == 0 || depth == 0 then k
    else
      LeavesPositive(bs, depth - 1);
      var w := Leaves(bs, depth - 1);
      SparseLeaf(flat, bs, depth - 1, EntryOf(flat, bs, k, i / w), i % w)
  }

  /** Where the way to a leaf first meets a zero pointer: how many levels above the leaf, and which leaf it is from there. */
  function Hole(flat: seq<Byte>, bs: int, depth: nat, k: int, i: int): Option<(nat, int)>
    requires BlockSize(bs)
  {
    if depth == 0 then None
    else if k == 0 then Some((depth, i))
    else
      LeavesPositive(bs, depth - 1);
      var w := Leaves(bs, depth - 1);
      Hole(flat, bs, depth - 1, EntryOf(flat, bs, k, i / w), i % w)
  }

  /** What is read behind a hole, the code taking device block 0 for an indirect block, is zero. */
  predicate HoleReadsZero(flat: seq<Byte>, bs: int, depth: nat, k: int, i: int)
    requires BlockSize(bs)
  {
    var h := Hole(flat, bs, depth, k, i);
    h.Some? ==> Leaf(flat, bs, h.value.0, 0, h.value.1) == 0
  }

  lemma {:induction false} LeafIff(flat: seq<Byte>, bs: int, depth: nat, k: int, i: int)
    requires BlockSize(bs)
    ensures Leaf(flat, bs, depth, k, i) == SparseLeaf(flat, bs, depth, k, i) <==> HoleReadsZero(flat, bs, depth, k, i)
  {
    hide EntryOf, Leaves;
    if depth > 0 && k != 0 {
      LeavesPositive(bs, depth - 1);
      var w := Leaves(bs, depth - 1);
      LeafIff(flat, bs, depth - 1, EntryOf(flat, bs, k, i / w), i % w);
    }
  }

  /** The tree block i of a file is in, the pointer it hangs from, and its number there. */
  function Place(bs: int, inode: seq<int>, i: int): (nat, int, int)
    requires |inode| == 15 && 0 <= i
  {
    if i < 12 then (0, inode[i], 0)
    else if i < 12 + Leaves(bs, 1) then (1, inode[12], i - 12)
    else if i < 12 + Leaves(bs, 1) + Leaves(bs, 2) then (2, inode[13], i - 12 - Leaves(bs, 1))
    else (3, inode[14], i - 12 - Leaves(bs, 1) - Leaves(bs, 2))
  }

  /** Block i of a file, zero for a hole. */
  function SparseBlock(flat: seq<Byte>, bs: int, inode: seq<int>, i: int): int
    requires BlockSize(bs) && |inode| == 15 && 0 <= i
  {
    var (depth, k, r) := Place(bs, inode, i);
    SparseLeaf(flat, bs, depth, k, r)
  }

  /** Nothing but zeros is found behind the holes among the first n blocks. */
  ghost predicate HolesReadZero(flat: seq<Byte>, bs: int, inode: seq<int>, n: int)
    requires BlockSize(bs) && |inode| == 15
  {
    forall i :: 0 <= i < n ==> var (depth, k, r) := Place(bs, inode, i); HoleReadsZero(flat, bs, depth, k, r)
  }

  lemma DirectLeaf(flat: seq<Byte>, bs: int, k: int)
    requires BlockSize(bs)
    ensures Leaf(flat, bs, 0, k, 0) == k
  {
  }

  lemma BlockIff(flat: seq<Byte>, bs: int, inode: seq<int>, i: int)
    requires BlockSize(bs) && |inode| == 15 && 0 <= i
    ensures BlockOfFile(flat, bs, inode, i) == SparseBlock(flat, bs, inode, i) <==>
            var (depth, k, r) := Place(bs, inode, i); HoleReadsZero(flat, bs, depth, k, r)
  {
    hide EntryOf, Leaves, SparseLeaf, HoleReadsZero, Leaf;
    var (depth, k, r) := Place(bs, inode, i);
    LeafIff(flat, bs, depth, k, r);
    if depth == 0 { DirectLeaf(flat, bs, k); }
    assert BlockOfFile(flat, bs, inode, i) == Leaf(flat, bs, depth, k, r);
  }

  /** Device block 0 holds nothing but zeros. */
  ghost predicate BlockZeroEmpty(flat: seq<Byte>, bs: int) { forall i :: 0 <= i < PerBlock(bs) ==> EntryOf(flat, bs, 0, i) == 0 }

  lemma EmptyEntry(flat: seq<Byte>, bs: int, i: int)
    requires BlockSize(bs) && BlockZeroEmpty(flat, bs)
    ensures EntryOf(flat, bs, 0, i) == 0
  {
    hide OnDisk, Pos, Word32;
    if 0 <= i && 4 * i + 4 <= bs { assert i < PerBlock(bs); }
  }

  lemma {:induction false} EmptyLeaf(flat: seq<Byte>, bs: int, depth: nat, i: int)
    requires BlockSize(bs) && BlockZeroEmpty(flat, bs)
    ensures Leaf(flat, bs, depth, 0, i) == 0
  {
    hide EntryOf, Leaves, BlockZeroEmpty;
    if depth > 0 {
      LeavesPositive(bs, depth - 1);
      var w := Leaves(bs, depth - 1);
      EmptyEntry(flat, bs, i / w);
      EmptyLeaf(flat, bs, depth - 1, i % w);
    }
  }

  /** Holes read as zeros in every file if and only if device block 0 holds nothing but zeros. */
  lemma HolesIff(flat: seq<Byte>, bs: int)
    requires BlockSize(bs)
    ensures BlockZeroEmpty(flat, bs) <==> forall inode, n :: |inode| == 15 ==> HolesReadZero(flat, bs, inode, n)
  {
    hide EntryOf, BlockZeroEmpty, HolesReadZero;
    if BlockZeroEmpty(flat, bs) {
      forall inode, n | |inode| == 15 ensures HolesReadZero(flat, bs, inode, n) { EmptyHoles(flat, bs, inode, n); }
    } else {
      EmptyHolesOnly(flat, bs);
    }
  }

  lemma EmptyHoles(flat: seq<Byte>, bs: int, inode: seq<int>, n: int)
    requires BlockSize(bs) && |inode| == 15 && BlockZeroEmpty(flat, bs)
    ensures HolesReadZero(flat, bs, inode, n)
  {
    hide EntryOf, Hole, Leaf, Place, BlockZeroEmpty;
    forall i | 0 <= i < n ensures var (depth, k, r) := Place(bs, inode, i); HoleReadsZero(flat, bs, depth, k, r) {
      var (depth, k, r) := Place(bs, inode, i);
      var h := Hole(flat, bs, depth, k, r);
      if h.Some? { EmptyLeaf(flat, bs, h.value.0, h.value.1); }
    }
  }

  lemma EmptyHolesOnly(flat: seq<Byte>, bs: int)
    requires BlockSize(bs) && !BlockZeroEmpty(flat, bs)
    ensures exists inode, n :: |inode| == 15 && !HolesReadZero(flat, bs, inode, n)
  {
    hide EntryOf, Place, HoleReadsZero;
    var i :| 0 <= i < PerBlock(bs) && EntryOf(flat, bs, 0, i) != 0;
    var inode := seq(15, _ => 0);
    FirstTree(flat, bs, inode, i);
    assert !HolesReadZero(flat, bs, inode, 13 + i);
  }

  /** A zero pointer to the first tree. */
  lemma FirstTree(flat: seq<Byte>, bs: int, inode: seq<int>, i: int)
    requires BlockSize(bs) && |inode| == 15 && inode[12] == 0 && 0 <= i < PerBlock(bs)
    ensures Place(bs, inode, 12 + i) == (1, 0, i) && (HoleReadsZero(flat, bs, 1, 0, i) <==> EntryOf(flat, bs, 0, i) == 0)
    ensures BlockOfFile(flat, bs, inode, 12 + i) == EntryOf(flat, bs, 0, i) && SparseBlock(flat, bs, inode, 12 + i) == 0
  {
    hide EntryOf;
    assert Leaves(bs, 0) == 1 && Leaves(bs, 1) == PerBlock(bs);
    assert Leaf(flat, bs, 1, 0, i) == Leaf(flat, bs, 0, EntryOf(flat, bs, 0, i), 0);
  }

  lemma FirstWord(flat: seq<Byte>)
    requires |flat| >= 1024
    ensures EntryOf(flat, 1024, 0, 0) == Word32(flat[0], flat[1], flat[2], flat[3])
  {
    hide Word32;
    FirstBytes();
    hide Pos;
  }

  lemma FirstBytes()
    ensures Pos(1024, 0, 0) == 0 && Pos(1024, 0, 1024) == 1024
  {
  }

  /** An empty inode on a device whose block 0 starts with the word 1: its block 12 is listed as block 1. */
  lemma HoleReadsBlockZero(flat: seq<Byte>)
    requires |flat| >= 1024 && flat[0] == 1 && flat[1] == 0 && flat[2] == 0 && flat[3] == 0
    ensures var inode := seq(15, _ => 0);
            BlockOfFile(flat, 1024, inode, 12) == 1 && SparseBlock(flat, 1024, inode, 12) == 0
  {
    hide EntryOf, BlockOfFile, SparseBlock;
    FirstWord(flat);
    FirstTree(flat, 1024, seq(15, _ => 0), 0);
  }

  // ---------------------------------------------------------------- the whole list

  /** now is the file's own block list. */
  ghost predicate Complete(now: seq<int>, flat: seq<Byte>, bs: int, inode: seq<int>)
    requires BlockSize(bs) && |inode| == 15
  {
    forall x :: 0 <= x < |now| ==> now[x] == SparseBlock(flat, bs, inode, x)
  }

  /**
   * Whatever the block list held before, it ends up as the file's own block list, if and only if the file is no larger
   * than its trees can address and nothing but zeros is read behind its holes.
   */
  lemma CompleteIff(flat: seq<Byte>, bs: int, inode: seq<int>, len: nat)
    requires BlockSize(bs) && |inode| == 15
    ensures len <= MaxBlocks(bs) && HolesReadZero(flat, bs, inode, len) <==>
      (forall was, now :: |was| == len && Listed(was, now, Min(len, MaxBlocks(bs)), flat, bs, inode) ==> Complete(now, flat, bs, inode))
  {
    hide BlockOfFile, Leaves, SparseBlock, HoleReadsZero, Place;
    var n := MaxBlocks(bs);
    LeavesPositive(bs, 1);
    LeavesPositive(bs, 2);
    LeavesPositive(bs, 3);
    if n < len {
      var was := seq(len, x requires 0 <= x < len => SparseBlock(flat, bs, inode, x) + 1);
      var now := seq(len, x requires 0 <= x < len => if x < n then BlockOfFile(flat, bs, inode, x) else was[x]);
      assert Listed(was, now, n, flat, bs, inode);
      assert now[n] != SparseBlock(flat, bs, inode, n);
      assert !Complete(now, flat, bs, inode);
    } else {
      forall i | 0 <= i < len
        ensures BlockOfFile(flat, bs, inode, i) == SparseBlock(flat, bs, inode, i) <==>
                var (depth, k, r) := Place(bs, inode, i); HoleReadsZero(flat, bs, depth, k, r)
      {
        BlockIff(flat, bs, inode, i);
      }
      var now := seq(len, x requires 0 <= x < len => BlockOfFile(flat, bs, inode, x));
      assert Listed(now, now, len, flat, bs, inode);
    }
  }

  /** The 16843021st block of a file on a device with blocks of 1024 bytes is never listed. */
  lemma TooLargeFile(was: seq<int>, now: seq<int>, flat: seq<Byte>, inode: seq<int>)
    requires |inode| == 15 && |was| == 16843021 && Listed(was, now, Min(|was|, MaxBlocks(1024)), flat, 1024, inode)
    ensures now[16843020] == was[16843020]
  {
    assert Leaves(1024, 1) == 256 && Leaves(1024, 2) == 65536 && Leaves(1024, 3) == 16777216;
  }
}
