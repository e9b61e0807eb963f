/** The kernel heap: kernel/kmalloc.c. */
module Heap {
  import opened Machine
  import opened KernelPages

  /** sizeof(struct mem_header). */
  const HEADER: int := 16
  const MAGIC_OK: int := 0x600DC0DE
  const MAGIC_FREE: int := 0xF2EEB10C

  datatype Header = Header(size: int, magic: int)

  /** align_up for a power of two, in 32 bits. */
  function AlignUp(x: int, align: int): int
    requires 0 < align
  {
    if x % align == 0 then x else (x + align) % W32 / align * align
  }

  /** Rounding a request up to sixteen bytes covers it, unless it wraps around. */
  lemma AlignUpIff(size: int)
    requires 0 <= size < W32
    ensures AlignUp(size, 16) >= size <==> size <= W32 - 16
    ensures AlignUp(size, 16) % 16 == 0 && 0 <= AlignUp(size, 16) <= W32 - 16
  {
  }

  /** A request for all but fifteen bytes of the address space is rounded to nothing. */
  lemma AlignUpWraps()
    ensures AlignUp(0xFFFF_FFF1, 16) == 0
  {
  }

  function PagesNeeded(size: int): int { AlignUp((size + HEADER) % W32, FRAME_SIZE) / FRAME_SIZE }

  lemma PagesSuffice(size: int)
    requires 0 <= size <= W32 - FRAME_SIZE - HEADER && size % 16 == 0
    ensures 1 <= PagesNeeded(size) && size + HEADER <= PagesNeeded(size) * FRAME_SIZE
  {
  }

  // ---------------------------------------------------------------- tiling

  /** Headers by address, with the sizes of the blocks behind them. */
  type Blocks = map<int, int>

  /** Byte x belongs to the block at a or to its header. */
  predicate Inside(a: int, size: int, x: int) { a <= x < a + HEADER + size }

  ghost predicate Aligned16(blocks: Blocks) {
    forall a :: a in blocks ==> 0 <= a && a % 16 == 0 && 0 <= blocks[a] && blocks[a] % 16 == 0
  }

  ghost predicate Apart(blocks: Blocks) {
    forall a, b :: a in blocks && b in blocks && a < b ==> a + HEADER + blocks[a] <= b
  }

  ghost predicate Within(blocks: Blocks, owned: set<int>) {
    forall a, x :: a in blocks && Inside(a, blocks[a], x) ==> x / FRAME_SIZE in owned
  }

  /** Some block holds byte x. */
  ghost predicate Held(blocks: Blocks, x: int) { exists a :: a in blocks && Inside(a, blocks[a], x) }

  ghost predicate Covered(blocks: Blocks, owned: set<int>) {
    forall x :: x / FRAME_SIZE in owned ==> Held(blocks, x)
  }

  /** The blocks and their headers are exactly the pages obtained, each byte in one block. */
  ghost predicate Tiled(blocks: Blocks, owned: set<int>) {
    Aligned16(blocks) && Apart(blocks) && Within(blocks, owned) && Covered(blocks, owned)
  }

  /** No byte is in two blocks. */
  lemma TiledOnce(blocks: Blocks, owned: set<int>, a: int, b: int, x: int)
    requires Tiled(blocks, owned) && a in blocks && b in blocks && Inside(a, blocks[a], x) && Inside(b, blocks[b], x)
    ensures a == b
  {
  }

  function Split(blocks: Blocks, a: int, s: int): Blocks
    requires a in blocks
  {
    blocks[a := s][a + HEADER + s := blocks[a] - s - HEADER]
  }

  lemma SplitAligned(blocks: Blocks, a: int, s: int)
    requires Aligned16(blocks) && a in blocks && 0 <= s && s % 16 == 0 && s + HEADER <= blocks[a]
    ensures Aligned16(Split(blocks, a, s))
  {
    var size := blocks[a];
    SixteenSums(a, size, s);
    var now, r := Split(blocks, a, s), a + HEADER + s;
    forall b | b in now ensures 0 <= b && b % 16 == 0 && 0 <= now[b] && now[b] % 16 == 0 {
      if b != a && b != r { assert b in blocks && now[b] == blocks[b]; }
    }
  }

  lemma SixteenSums(a: int, size: int, s: int)
    requires a % 16 == 0 && size % 16 == 0 && s % 16 == 0
    ensures (a + HEADER + s) % 16 == 0 && (size - s - HEADER) % 16 == 0
  {
  }

  lemma SplitOrder(blocks: Blocks, a: int, s: int)
    requires Apart(blocks) && a in blocks && 0 <= s && s + HEADER <= blocks[a] && forall b :: b in blocks ==> 0 <= blocks[b]
    ensures a + HEADER + s !in blocks && Apart(Split(blocks, a, s))
  {
  }

  lemma SplitApart(blocks: Blocks, a: int, s: int)
    requires Aligned16(blocks) && Apart(blocks) && a in blocks && 0 <= s && s % 16 == 0 && s + HEADER <= blocks[a]
    ensures a + HEADER + s !in blocks && Aligned16(Split(blocks, a, s)) && Apart(Split(blocks, a, s))
  {
    hide Apart, Split;
    SplitAligned(blocks, a, s);
    SplitOrder(blocks, a, s);
  }

  lemma TiledSplit(blocks: Blocks, owned: set<int>, a: int, s: int)
    requires Tiled(blocks, owned) && a in blocks && 0 <= s && s % 16 == 0 && s + HEADER <= blocks[a]
    ensures a + HEADER + s !in blocks && Tiled(Split(blocks, a, s), owned)
  {
    SplitApart(blocks, a, s);
    hide Aligned16, Apart;
    var now, r := Split(blocks, a, s), a + HEADER + s;
    forall x | x / FRAME_SIZE in owned ensures Held(now, x) {
      var b :| b in blocks && Inside(b, blocks[b], x);
      if b == a {
        assert Inside(a, now[a], x) || Inside(r, now[r], x);
      } else {
        assert b != r && now[b] == blocks[b] && Inside(b, now[b], x);
      }
    }
    forall b, x | b in now && Inside(b, now[b], x) ensures x / FRAME_SIZE in owned {
      var c := if b == r then a else b;
      assert c in blocks && Inside(c, blocks[c], x);
    }
  }

  /** A block does not reach into pages that are not owned. */
  lemma OutsidePages(blocks: Blocks, owned: set<int>, start: int, n: int, a: int)
    requires Aligned16(blocks) && Within(blocks, owned) && 1 <= n && FreeRun(owned, start, n) && a in blocks
    ensures a + HEADER + blocks[a] <= start * FRAME_SIZE || (start + n) * FRAME_SIZE <= a
  {
    var p, size := start * FRAME_SIZE, blocks[a];
    var x := if a < p then p else a;
    var page := x / FRAME_SIZE;
    assert Inside(a, size, x) ==> page in owned;
    assert start <= page < start + n ==> page !in owned;
  }

  /** One more block, clear of all others. */
  lemma AddApart(blocks: Blocks, p: int, size: int)
    requires Aligned16(blocks) && Apart(blocks) && 0 <= p && p % 16 == 0 && 0 <= size && size % 16 == 0
    requires forall a :: a in blocks ==> a + HEADER + blocks[a] <= p || p + HEADER + size <= a
    ensures p !in blocks && Aligned16(blocks[p := size]) && Apart(blocks[p := size])
  {
  }

  lemma TiledGrow(blocks: Blocks, owned: set<int>, start: int, n: int)
    requires Tiled(blocks, owned) && 1 <= n && 0 <= start && FreeRun(owned, start, n)
    ensures start * FRAME_SIZE !in blocks
    ensures Tiled(blocks[start * FRAME_SIZE := n * FRAME_SIZE - HEADER], owned + Pages(start, n))
  {
    hide Within, Covered, Aligned16, Apart;
    ClearOf(blocks, owned, start, n);
    AddApart(blocks, start * FRAME_SIZE, n * FRAME_SIZE - HEADER);
    GrowCovered(blocks, owned, start, n);
  }

  lemma ClearOf(blocks: Blocks, owned: set<int>, start: int, n: int)
    requires Aligned16(blocks) && Within(blocks, owned) && 1 <= n && 0 <= start && FreeRun(owned, start, n)
    ensures var p, size := start * FRAME_SIZE, n * FRAME_SIZE - HEADER;
            && 0 <= p && p % 16 == 0 && 0 <= size && size % 16 == 0
            && forall a :: a in blocks ==> a + HEADER + blocks[a] <= p || p + HEADER + size <= a
  {
    hide Within, Aligned16, FreeRun;
    PageNumbers(start, n);
    forall a | a in blocks ensures a + HEADER + blocks[a] <= start * FRAME_SIZE || (start + n) * FRAME_SIZE <= a {
      OutsidePages(blocks, owned, start, n, a);
    }
  }

  lemma PageNumbers(start: int, n: int)
    requires 0 <= start && 1 <= n
    ensures var p, size := start * FRAME_SIZE, n * FRAME_SIZE - HEADER;
            0 <= p && p % 16 == 0 && 0 <= size && size % 16 == 0 && p + HEADER + size == (start + n) * FRAME_SIZE
  {
    DivUnique(256 * start, 0, 16);
    DivUnique(256 * n - 1, 0, 16);
  }

  lemma GrowCovered(blocks: Blocks, owned: set<int>, start: int, n: int)
    requires Within(blocks, owned) && Covered(blocks, owned) && 1 <= n && start * FRAME_SIZE !in blocks
    ensures var now, more := blocks[start * FRAME_SIZE := n * FRAME_SIZE - HEADER], owned + Pages(start, n);
            Within(now, more) && Covered(now, more)
  {
    var p := start * FRAME_SIZE;
    var now, more := blocks[p := n * FRAME_SIZE - HEADER], owned + Pages(start, n);
    forall x | x / FRAME_SIZE in more ensures Held(now, x) {
      if x / FRAME_SIZE in owned {
        var b :| b in blocks && Inside(b, blocks[b], x);
        assert b != p && Inside(b, now[b], x);
      } else {
        assert Inside(p, now[p], x);
      }
    }
    forall b, x | b in now && Inside(b, now[b], x) ensures x / FRAME_SIZE in more {
      if b != p { assert b in blocks && Inside(b, blocks[b], x); }
    }
  }

  // ---------------------------------------------------------------- the allocator

  type Headers = map<int, Header>

  ghost function Sizes(hdr: Headers): Blocks { map a | a in hdr :: hdr[a].size }

  /** The free list and the allocated blocks are all the blocks, each once. */
  ghost predicate Listed(hdr: Headers, free: seq<int>, used: set<int>) {
    && (forall i, j :: 0 <= i < j < |free| ==> free[i] != free[j])
    && (forall i :: 0 <= i < |free| ==> free[i] in hdr && free[i] !in used)
    && (forall a :: a in hdr ==> a in used || a in free)
    && (forall a :: a in used ==> a in hdr && hdr[a].magic == MAGIC_OK)
  }

  /** Entry i of the free list is the first that is large enough. */
  predicate IsFirstFit(hdr: Headers, free: seq<int>, i: int, size: int) {
    && 0 <= i < |free| && free[i] in hdr && hdr[free[i]].size >= size
    && forall j :: 0 <= j < i ==> free[j] in hdr && hdr[free[j]].size < size
  }

  class KernelHeap {
    const k: KernelMap
    var hdr: Headers
    var free: seq<int>
    ghost var used: set<int>
    /** The pages obtained so far. */
    ghost var owned: set<int>

    ghost predicate Valid()
      reads this, k
    {
      k.Valid() && owned <= k.present && Listed(hdr, free, used) && Tiled(Sizes(hdr), owned)
    }

    constructor (k: KernelMap)
      requires k.Valid()
      ensures Valid() && this.k == k && used == {} && owned == {}
    {
      this.k := k;
      hdr, free, used, owned := map[], [], {}, {};
    }

    /** The walk along the free list: the first block that is large enough. */
    method FirstFit(size: int) returns (i: int)
      requires Valid()
      ensures 0 <= i <= |free|
      ensures i < |free| ==> free[i] in hdr && hdr[free[i]].size >= size
      ensures forall j :: 0 <= j < i ==> free[j] in hdr && hdr[free[j]].size < size
    {
      hide Tiled;
      i := 0;
      while i < |free| && hdr[free[i]].size < size
        invariant 0 <= i <= |free| && forall j :: 0 <= j < i ==> free[j] in hdr && hdr[free[j]].size < size
      {
        i := i + 1;
      }
    }

    /** More pages, as one free block at the front of the list. */
    method Grow(size: int)
      requires Valid() && 0 <= size <= W32 - FRAME_SIZE - HEADER && size % 16 == 0
      modifies this`hdr, this`free, this`owned, k`present, k`firstFree
      ensures Valid() && 1 <= |free| && free[0] in hdr && hdr[free[0]].size >= size
      ensures old(owned) <= owned && forall a :: a in used ==> a in hdr && a in old(hdr) && hdr[a] == old(hdr[a])
    {
      hide Tiled, LowestFree;
      var n := PagesNeeded(size);
      PagesSuffice(size);
      ghost var before := k.present;
      var start := k.KallocPages(n);
      var p, bytes := start * FRAME_SIZE, n * FRAME_SIZE - HEADER;
      FreshRun(before, owned, k.low, start, n);
      TiledGrow(Sizes(hdr), owned, start, n);
      assert p !in Sizes(hdr);
      SizesPut(hdr, p, Header(bytes, 0));
      hdr, free, owned := hdr[p := Header(bytes, 0)], [p] + free, owned + Pages(start, n);
    }

    /** Handing out the block at index i of the free list, split in two if much of it would be left over. */
    method Take(i: int, size: int) returns (p: int)
      requires Valid() && 0 <= i < |free| && free[i] in hdr && hdr[free[i]].size >= size && 0 <= size && size % 16 == 0
      modifies this`hdr, this`free, this`used
      ensures Valid() && p !in old(used) && used == old(used) + {p} && p in hdr && hdr[p].size >= size
      ensures p == old(free)[i] && hdr[p].size <= size + HEADER + 16
      ensures forall a :: a in old(used) ==> a in hdr && a in old(hdr) && hdr[a] == old(hdr[a])
    {
      hide Tiled, Listed;
      p := free[i];
      var total := hdr[p].size;
      if total - size <= HEADER + 16 {
        ListedTake(hdr, free, used, i, Header(total, MAGIC_OK));
        SizesPut(hdr, p, Header(total, MAGIC_OK));
        assert Sizes(hdr)[p := total] == Sizes(hdr);
        hdr, free, used := hdr[p := Header(total, MAGIC_OK)], free[..i] + free[i + 1..], used + {p};
      } else {
        var r := p + HEADER + size;
        TiledSplit(Sizes(hdr), owned, p, size);
        assert r !in Sizes(hdr);
        ListedSplit(hdr, free, used, i, Header(size, MAGIC_OK), r, Header(total - size - HEADER, MAGIC_FREE));
        SizesPut(hdr, p, Header(size, MAGIC_OK));
        SizesPut(hdr[p := Header(size, MAGIC_OK)], r, Header(total - size - HEADER, MAGIC_FREE));
        hdr := hdr[p := Header(size, MAGIC_OK)][r := Header(total - size - HEADER, MAGIC_FREE)];
        free, used := free[i := r], used + {p};
      }
    }

    /** hmalloc: the address of the block's header. */
    method Hmalloc(size: int) returns (p: int)
      requires Valid() && 0 <= size < W32 && AlignUp(size, 16) <= W32 - FRAME_SIZE - HEADER
      modifies this`hdr, this`free, this`used, this`owned, k`present, k`firstFree
      ensures Valid() && p !in old(used) && used == old(used) + {p} && old(owned) <= owned
      ensures p in hdr && hdr[p].size >= AlignUp(size, 16) && (size <= W32 - 16 ==> hdr[p].size >= size)
      ensures hdr[p].size <= AlignUp(size, 16) + HEADER + 16
      ensures forall i :: 0 <= i < |old(free)| && IsFirstFit(old(hdr), old(free), i, AlignUp(size, 16)) ==> p == old(free)[i] && owned == old(owned)
      ensures forall a :: a in old(used) ==> a in hdr && a in old(hdr) && hdr[a] == old(hdr[a])
    {
      hide Tiled, LowestFree, Listed, AlignUp;
      AlignUpIff(size);
      var n := AlignUp(size, 16);
      var i := FirstFit(n);
      if i == |free| {
        Grow(n);
        i := 0;
      }
      p := Take(i, n);
    }

    /** hfree of an allocated block. */
    method Hfree(p: int)
      requires Valid() && p in used
      modifies this`free, this`used
      ensures Valid() && used == old(used) - {p} && free == [p] + old(free)
    {
      hide Tiled;
      if hdr[p].magic == MAGIC_FREE { return; }
      if hdr[p].magic != MAGIC_OK { return; }
      free, used := [p] + free, used - {p};
    }
  }

  /** The list without its entry i. */
  lemma RestOf(free: seq<int>, i: int)
    requires 0 <= i < |free| && forall j, k :: 0 <= j < k < |free| ==> free[j] != free[k]
    ensures var rest := free[..i] + free[i + 1..];
            && (forall j, k :: 0 <= j < k < |rest| ==> rest[j] != rest[k])
            && (forall j :: 0 <= j < |rest| ==> rest[j] in free && rest[j] != free[i])
            && (forall a :: a in free && a != free[i] ==> a in rest)
  {
    var rest := free[..i] + free[i + 1..];
    assert forall j :: 0 <= j < |rest| ==> rest[j] == free[if j < i then j else j + 1];
    forall a | a in free && a != free[i] ensures a in rest {
      var j :| 0 <= j < |free| && free[j] == a;
      assert rest[if j < i then j else j - 1] == a;
    }
  }

  lemma ListedTake(hdr: Headers, free: seq<int>, used: set<int>, i: int, h: Header)
    requires Listed(hdr, free, used) && 0 <= i < |free| && h.magic == MAGIC_OK
    ensures Listed(hdr[free[i] := h], free[..i] + free[i + 1..], used + {free[i]}) && free[i] !in used
    ensures forall a :: a in used ==> a in hdr && a != free[i]
  {
    var rest := free[..i] + free[i + 1..];
    RestOf(free, i);
  }

  lemma ListedSplit(hdr: Headers, free: seq<int>, used: set<int>, i: int, h: Header, r: int, h': Header)
    requires Listed(hdr, free, used) && 0 <= i < |free| && h.magic == MAGIC_OK && r !in hdr
    ensures Listed(hdr[free[i] := h][r := h'], free[i := r], used + {free[i]}) && free[i] !in used
    ensures forall a :: a in used ==> a in hdr && a != free[i] && a != r
  {
    var now := free[i := r];
    assert now[i] == r;
    forall a | a in free && a != free[i] ensures a in now {
      var j :| 0 <= j < |free| && free[j] == a;
      assert now[j] == a;
    }
  }

  lemma SizesPut(hdr: Headers, a: int, h: Header)
    ensures Sizes(hdr[a := h]) == Sizes(hdr)[a := h.size]
  {
  }

  lemma FreshRun(present: set<int>, owned: set<int>, low: int, start: int, n: int)
    requires owned <= present && LowestRun(present, low, start, n)
    ensures FreeRun(owned, start, n) && low <= start
  {
  }

  // ---------------------------------------------------------------- whole runs

  datatype HeapOp = Malloc(size: int) | Release(index: int)

  /** The live allocations as (header, size asked for) pairs: different allocated blocks, each large enough. */
  ghost predicate Live(hdr: Headers, used: set<int>, live: seq<(int, int)>) {
    && (forall i :: 0 <= i < |live| ==> live[i].0 in used && live[i].0 in hdr && hdr[live[i].0].size >= live[i].1)
    && (forall i, j :: 0 <= i < j < |live| ==> live[i].0 != live[j].0)
  }

  /** No byte is in two of these allocations, headers included. */
  ghost predicate Separate(live: seq<(int, int)>) {
    forall i, j, x :: 0 <= i < j < |live| && Inside(live[i].0, live[i].1, x) ==> !Inside(live[j].0, live[j].1, x)
  }

  /** Live allocations share no byte. */
  lemma LiveApart(hdr: Headers, used: set<int>, owned: set<int>, live: seq<(int, int)>)
    requires Live(hdr, used, live) && Tiled(Sizes(hdr), owned)
    ensures Separate(live)
  {
    forall i, j, x | 0 <= i < j < |live| && Inside(live[i].0, live[i].1, x) ensures !Inside(live[j].0, live[j].1, x) {
      var a, b := live[i].0, live[j].0;
      assert a in Sizes(hdr) && b in Sizes(hdr);
      if Inside(b, live[j].1, x) { TiledOnce(Sizes(hdr), owned, a, b, x); }
    }
  }

  /** Everything allocated is in the list of live allocations. */
  ghost predicate AllListed(used: set<int>, live: seq<(int, int)>) {
    forall a :: a in used ==> exists i :: 0 <= i < |live| && live[i].0 == a
  }

  /** What an operation makes of the live allocations: one more of the size asked for behind the others, or one less. */
  ghost predicate Follows(was: seq<(int, int)>, op: HeapOp, now: seq<(int, int)>) {
    match op
    case Malloc(size) => |now| == |was| + 1 && now[..|was|] == was && now[|was|].1 == size
    case Release(j) => now == if 0 <= j < |was| then DropAt(was, j) else was
  }

  /** The live allocations after each operation of a run: they stay where they are, and never share a byte. */
  ghost predicate GoodTrace(trace: seq<seq<(int, int)>>, ops: seq<HeapOp>) {
    && |trace| == |ops| + 1 && trace[0] == []
    && (forall i :: 0 <= i < |ops| ==> Follows(trace[i], ops[i], trace[i + 1]))
    && (forall i :: 0 <= i < |trace| ==> Separate(trace[i]))
  }

  lemma TraceSnoc(trace: seq<seq<(int, int)>>, ops: seq<HeapOp>, op: HeapOp, now: seq<(int, int)>)
    requires GoodTrace(trace, ops) && Follows(trace[|ops|], op, now) && Separate(now)
    ensures GoodTrace(trace + [now], ops + [op])
  {
    hide Separate, Follows;
    var t, o := trace + [now], ops + [op];
    forall i | 0 <= i < |o| ensures Follows(t[i], o[i], t[i + 1]) {
      assert t[i] == trace[i];
      if i < |ops| { assert o[i] == ops[i] && t[i + 1] == trace[i + 1]; }
    }
  }

  /** The sizes a list of operations leaves asked for. */
  function Asked(ops: seq<HeapOp>): seq<int> {
    if ops == [] then []
    else
      var was := Asked(ops[..|ops| - 1]);
      match ops[|ops| - 1]
      case Malloc(size) => was + [size]
      case Release(j) => if 0 <= j < |was| then DropAt(was, j) else was
  }

  function SizesOf(live: seq<(int, int)>): seq<int> { seq(|live|, i requires 0 <= i < |live| => live[i].1) }

  /** After a run, exactly the sizes that were asked for and not given back are allocated. */
  lemma {:induction false} TraceSizes(trace: seq<seq<(int, int)>>, ops: seq<HeapOp>, n: nat)
    requires GoodTrace(trace, ops) && n <= |ops|
    ensures SizesOf(trace[n]) == Asked(ops[..n])
  {
    hide Separate;
    if n > 0 {
      TraceSizes(trace, ops, n - 1);
      assert ops[..n][..n - 1] == ops[..n - 1] && ops[..n][n - 1] == ops[n - 1];
      FollowsSizes(trace[n - 1], ops[n - 1], trace[n]);
    }
  }

  lemma FollowsSizes(was: seq<(int, int)>, op: HeapOp, now: seq<(int, int)>)
    requires Follows(was, op, now)
    ensures var s := SizesOf(was);
            SizesOf(now) == match op case Malloc(size) => s + [size] case Release(j) => if 0 <= j < |s| then DropAt(s, j) else s
  {
    if op.Malloc? { assert forall i :: 0 <= i < |was| ==> now[i] == now[..|was|][i]; }
  }

  /**
   * Any run of allocations and single releases. After every operation the live allocations are those of before with the
   * one added or dropped, large enough and without a byte in common; at the end nothing else is allocated, and their sizes
   * are those asked for.
   */
  method RunHeap(h: KernelHeap, ops: seq<HeapOp>) returns (live: seq<(int, int)>, ghost trace: seq<seq<(int, int)>>)
    requires h.Valid() && h.used == {}
    requires forall i :: 0 <= i < |ops| && ops[i].Malloc? ==> 0 <= ops[i].size <= W32 - FRAME_SIZE - HEADER
    modifies h`hdr, h`free, h`used, h`owned, h.k`present, h.k`firstFree
    ensures h.Valid() && GoodTrace(trace, ops) && live == trace[|ops|]
    ensures Live(h.hdr, h.used, live) && AllListed(h.used, live) && SizesOf(live) == Asked(ops)
  {
    hide Tiled, Listed, LowestFree, Live, AllListed, GoodTrace, Separate, Follows, Asked, SizesOf;
    live, trace := [], [[]];
    LiveNone(h.hdr, h.used);
    var i := 0;
    assert ops[..0] == [];
    while i < |ops|
      invariant 0 <= i <= |ops| && h.Valid() && Live(h.hdr, h.used, live) && AllListed(h.used, live)
      invariant GoodTrace(trace, ops[..i]) && |trace| == i + 1 && live == trace[i]
    {
      ghost var before := live;
      match ops[i] {
        case Malloc(size) =>
          AlignUpIff(size);
          SixteenFits(size);
          ghost var hdr, used := h.hdr, h.used;
          var p := h.Hmalloc(size);
          LiveAdd(hdr, used, h.hdr, live, p, size);
          live := live + [(p, size)];
          assert Follows(before, ops[i], live) by { AddFollows(before, p, size); }
        case Release(j) =>
          if 0 <= j < |live| {
            assert live[j].0 in h.used by { LiveUsed(h.hdr, h.used, live, j); }
            LiveDrop(h.hdr, h.used, live, j);
            h.Hfree(live[j].0);
            live := live[..j] + live[j + 1..];
          }
          assert Follows(before, ops[i], live) by { DropFollows(before, j); }
      }
      LiveApart(h.hdr, h.used, h.owned, live);
      TraceSnoc(trace, ops[..i], ops[i], live);
      assert ops[..i] + [ops[i]] == ops[..i + 1];
      trace := trace + [live];
      i := i + 1;
    }
    assert ops[..i] == ops;
    TraceSizes(trace, ops, i);
  }

  lemma AddFollows(live: seq<(int, int)>, p: int, size: int)
    ensures Follows(live, Malloc(size), live + [(p, size)])
  {
  }

  lemma DropFollows(live: seq<(int, int)>, j: int)
    ensures Follows(live, Release(j), if 0 <= j < |live| then DropAt(live, j) else live)
  {
  }

  lemma LiveNone(hdr: Headers, used: set<int>)
    ensures Live(hdr, used, []) && GoodTrace([[]], []) && (used == {} ==> AllListed(used, []))
  {
  }

  lemma LiveAdd(hdr: Headers, used: set<int>, hdr': Headers, live: seq<(int, int)>, p: int, size: int)
    requires Live(hdr, used, live) && AllListed(used, live) && p !in used && p in hdr' && hdr'[p].size >= size
    requires forall a :: a in used ==> a in hdr && a in hdr' && hdr'[a] == hdr[a]
    ensures Live(hdr', used + {p}, live + [(p, size)]) && AllListed(used + {p}, live + [(p, size)])
  {
    var more := live + [(p, size)];
    forall a | a in used + {p} ensures exists i :: 0 <= i < |more| && more[i].0 == a {
      if a == p {
        assert more[|live|].0 == a;
      } else {
        var i :| 0 <= i < |live| && live[i].0 == a;
        assert more[i].0 == a;
      }
    }
    forall i | 0 <= i < |more| ensures more[i].0 in used + {p} && more[i].0 in hdr' && hdr'[more[i].0].size >= more[i].1 {
      if i < |live| {
        var a := live[i].0;
        assert more[i] == live[i] && a in used && hdr'[a] == hdr[a];
      }
    }
    forall i, j | 0 <= i < j < |more| ensures more[i].0 != more[j].0 {
      assert more[i] == live[i] && live[i].0 in used;
    }
  }

  lemma LiveUsed(hdr: Headers, used: set<int>, live: seq<(int, int)>, j: int)
    requires Live(hdr, used, live) && 0 <= j < |live|
    ensures live[j].0 in used
  {
  }

  lemma LiveDrop(hdr: Headers, used: set<int>, live: seq<(int, int)>, j: int)
    requires Live(hdr, used, live) && AllListed(used, live) && 0 <= j < |live|
    ensures Live(hdr, used - {live[j].0}, DropAt(live, j)) && AllListed(used - {live[j].0}, DropAt(live, j))
  {
    var rest := DropAt(live, j);
    forall a | a in used - {live[j].0} ensures exists i :: 0 <= i < |rest| && rest[i].0 == a {
      var i :| 0 <= i < |live| && live[i].0 == a;
      assert rest[if i < j then i else i - 1].0 == a;
    }
    forall i | 0 <= i < |rest| ensures rest[i].0 in used && rest[i].0 in hdr && hdr[rest[i].0].size >= rest[i].1 && rest[i].0 != live[j].0 {
      assert rest[i] == live[if i < j then i else i + 1];
    }
    forall i, k | 0 <= i < k < |rest| ensures rest[i].0 != rest[k].0 {
      assert rest[i] == live[if i < j then i else i + 1] && rest[k] == live[if k < j then k else k + 1];
    }
  }

  lemma SixteenFits(size: int)
    requires 0 <= size <= W32 - FRAME_SIZE - HEADER
    ensures AlignUp(size, 16) <= W32 - FRAME_SIZE - HEADER
  {
  }
}
