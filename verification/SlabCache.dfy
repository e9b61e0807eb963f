/** The slab allocator: kernel/slab.c over include/kernel/bitmap.h. */
module SlabCache {
  import opened Machine
  import opened KernelPages

  const WORD_BITS: int := 32
  /** bitmap_length: words per bitmap, one page per slab. */
  const WORDS: int := 8
  const BITS: int := 256
  /** slab_desc_size and slab_mem_size. */
  const DESC_SIZE: int := 48
  const MEM_SIZE: int := 4048

  /** A bitmap as its bits; word i is bits [32 i, 32 i + 32). */
  type Bitmap = seq<bool>

  datatype Slab = Slab(inUse: int, bits: Bitmap)

  // ---------------------------------------------------------------- bitmaps

  function Ones(b: Bitmap): (n: nat)
    ensures n <= |b|
  {
    if b == [] then 0 else Ones(b[..|b| - 1]) + if b[|b| - 1] then 1 else 0
  }

  lemma {:induction false} OnesUpdate(b: Bitmap, i: int, v: bool)
    requires 0 <= i < |b| && b[i] != v
    ensures Ones(b[i := v]) == Ones(b) + if v then 1 else -1
  {
    var last := |b| - 1;
    if i < last {
      OnesUpdate(b[..last], i, v);
      assert b[i := v][..last] == b[..last][i := v];
    } else {
      assert b[i := v][..last] == b[..last];
    }
  }

  /** Bits clear from n on make at most n. */
  lemma {:induction false} OnesBelow(b: Bitmap, n: int)
    requires 0 <= n <= |b| && forall i :: n <= i < |b| ==> !b[i]
    ensures Ones(b) <= n && (Ones(b) == n <==> forall i :: 0 <= i < n ==> b[i])
  {
    if b != [] {
      var last := |b| - 1;
      OnesBelow(b[..last], if n <= last then n else last);
      assert forall i :: 0 <= i < last ==> b[..last][i] == b[i];
    }
  }

  /** z is the first clear bit, or -1 if there is none. */
  ghost predicate FirstZero(b: Bitmap, z: int) {
    if z == -1 then forall i :: 0 <= i < |b| ==> b[i]
    else 0 <= z < |b| && !b[z] && forall i :: 0 <= i < z ==> b[i]
  }

  /** ffz on one word that is not all ones. */
  method WordFfz(word: Bitmap) returns (z: int)
    requires exists i :: 0 <= i < |word| && !word[i]
    ensures 0 <= z < |word| && !word[z] && forall i :: 0 <= i < z ==> word[i]
  {
    z := 0;
    while word[z]
      invariant 0 <= z < |word| && forall i :: 0 <= i < z ==> word[i]
      decreases |word| - z
    {
      z := z + 1;
    }
  }

  /** bitmap_ffz. */
  method BitmapFfz(b: Bitmap) returns (z: int)
    requires |b| == BITS
    ensures FirstZero(b, z)
  {
    var i := 0;
    while i < WORDS
      invariant 0 <= i <= WORDS && forall j :: 0 <= j < WORD_BITS * i ==> b[j]
    {
      var word := b[WORD_BITS * i..WORD_BITS * i + WORD_BITS];
      if exists j :: 0 <= j < |word| && !word[j] {
        z := WordFfz(word);
        assert forall j :: WORD_BITS * i <= j < WORD_BITS * i + z ==> b[j] == word[j - WORD_BITS * i];
        return z + WORD_BITS * i;
      }
      assert forall j :: WORD_BITS * i <= j < WORD_BITS * (i + 1) ==> b[j] == word[j - WORD_BITS * i];
      i := i + 1;
    }
    z := -1;
  }

  // ---------------------------------------------------------------- objects in slabs

  /** Object i of the slab on page s. */
  function Object(s: int, i: int, size: int): int { s * FRAME_SIZE + DESC_SIZE + i * size }

  function ObjectsPerSlab(size: int): int
    requires 0 < size
  {
    MEM_SIZE / size
  }

  /** Objects below objs_per_slab stay in their slab. */
  lemma ObjectInSlab(s: int, i: int, size: int)
    requires 16 <= size && 0 <= i < ObjectsPerSlab(size)
    ensures s * FRAME_SIZE + DESC_SIZE <= Object(s, i, size) && Object(s, i, size) + size <= (s + 1) * FRAME_SIZE
    ensures (Object(s, i, size) - Object(s, 0, size)) / size == i && ObjectsPerSlab(size) <= BITS
  {
    var n := ObjectsPerSlab(size);
    MulMono(i + 1, n, size);
    MulMono(0, i, size);
    assert MEM_SIZE == n * size + MEM_SIZE % size;
    DivUnique(i, 0, size);
    if n > BITS { MulMono(BITS + 1, n, 16); MulMono(16, size, n); }
  }

  /** Different objects do not overlap. */
  lemma ObjectsApart(s: int, i: int, t: int, j: int, size: int)
    requires 16 <= size && 0 <= i < ObjectsPerSlab(size) && 0 <= j < ObjectsPerSlab(size) && (s != t || i != j)
    ensures Object(s, i, size) + size <= Object(t, j, size) || Object(t, j, size) + size <= Object(s, i, size)
  {
    ObjectInSlab(s, i, size);
    ObjectInSlab(t, j, size);
    if s == t {
      if i < j { MulMono(i + 1, j, size); } else { MulMono(j + 1, i, size); }
    }
  }

  /** A slab holds an object at all exactly when the object is no larger than the slab's memory. */
  lemma SlabHoldsIff(size: int)
    requires 16 <= size
    ensures ObjectsPerSlab(size) >= 1 <==> size <= MEM_SIZE
    ensures Object(0, 0, size) + size <= FRAME_SIZE <==> size <= MEM_SIZE
  {
    var n := ObjectsPerSlab(size);
    assert MEM_SIZE == n * size + MEM_SIZE % size;
    if n >= 1 { MulMono(1, n, size); } else { MulMono(n, 0, size); }
  }

  /** An object one byte larger than a slab's memory. */
  lemma SlabHoldsNone()
    ensures ObjectsPerSlab(4049) == 0 && Object(0, 0, 4049) + 4049 > FRAME_SIZE
  {
  }

  // ---------------------------------------------------------------- lists

  type Slabs = map<int, Slab>

  datatype Lists = Lists(full: seq<int>, partial: seq<int>, empty: seq<int>)

  ghost predicate NoRepeats(l: seq<int>) { forall i, j :: 0 <= i < j < |l| ==> l[i] != l[j] }

  /** list_del. */
  function Without(l: seq<int>, s: int): seq<int> { if l == [] then [] else if l[0] == s then l[1..] else [l[0]] + Without(l[1..], s) }

  lemma {:induction false} WithoutIs(l: seq<int>, s: int)
    requires NoRepeats(l)
    ensures NoRepeats(Without(l, s)) && forall x :: x in Without(l, s) <==> x in l && x != s
  {
    if l != [] {
      WithoutIs(l[1..], s);
      assert l == [l[0]] + l[1..];
      assert l[0] !in l[1..];
    }
  }

  /** in_use counts the set bits, and only the bits of real objects are ever set. */
  ghost predicate Counted(slab: Slab, objs: int) {
    0 <= objs <= BITS == |slab.bits| && slab.inUse == Ones(slab.bits) && forall i :: objs <= i < BITS ==> !slab.bits[i]
  }

  /** Every slab is on the list its count says, once. */
  ghost predicate Placed(slabs: Slabs, l: Lists, objs: int) {
    && NoRepeats(l.full) && NoRepeats(l.partial) && NoRepeats(l.empty)
    && (forall s :: s in l.full <==> s in slabs && slabs[s].inUse == objs)
    && (forall s :: s in l.partial <==> s in slabs && 0 < slabs[s].inUse < objs)
    && (forall s :: s in l.empty <==> s in slabs && slabs[s].inUse == 0)
  }

  /** The same for every slab but s. */
  ghost predicate PlacedBut(slabs: Slabs, l: Lists, objs: int, s: int) {
    && NoRepeats(l.full) && NoRepeats(l.partial) && NoRepeats(l.empty)
    && (forall t :: t != s ==> (t in l.full <==> t in slabs && slabs[t].inUse == objs))
    && (forall t :: t != s ==> (t in l.partial <==> t in slabs && 0 < slabs[t].inUse < objs))
    && (forall t :: t != s ==> (t in l.empty <==> t in slabs && slabs[t].inUse == 0))
  }

  /** The list a slab with this count belongs on. */
  function Put(l: Lists, s: int, inUse: int, objs: int): Lists {
    if inUse == objs then l.(full := [s] + l.full)
    else if inUse == 0 then l.(empty := [s] + l.empty)
    else l.(partial := [s] + l.partial)
  }

  function Drop(l: Lists, s: int): Lists { Lists(Without(l.full, s), Without(l.partial, s), Without(l.empty, s)) }

  lemma NoRepeatsCons(l: seq<int>, s: int)
    requires NoRepeats(l) && s !in l
    ensures NoRepeats([s] + l) && forall x :: x in [s] + l <==> x == s || x in l
  {
  }

  /** Moving a slab to the list of its new count. */
  lemma PlacedMove(slabs: Slabs, l: Lists, objs: int, s: int, slab: Slab)
    requires PlacedBut(slabs, l, objs, s) && 1 <= objs && 0 <= slab.inUse <= objs
    ensures Placed(slabs[s := slab], Put(Drop(l, s), s, slab.inUse, objs), objs)
  {
    hide NoRepeats, Without;
    WithoutIs(l.full, s);
    WithoutIs(l.partial, s);
    WithoutIs(l.empty, s);
    var d := Drop(l, s);
    NoRepeatsCons(d.full, s);
    NoRepeatsCons(d.partial, s);
    NoRepeatsCons(d.empty, s);
  }

  /** A slab whose count stays between empty and full stays where it is. */
  lemma PlacedStay(slabs: Slabs, l: Lists, objs: int, s: int, slab: Slab)
    requires Placed(slabs, l, objs) && s in slabs && 0 < slabs[s].inUse < objs && 0 < slab.inUse < objs
    ensures Placed(slabs[s := slab], l, objs)
  {
    hide NoRepeats;
  }

  // ---------------------------------------------------------------- the allocator

  class Cache {
    const k: KernelMap
    const objSize: int
    const objs: int
    /** Slabs by the page they are on. */
    var slabs: Slabs
    var lists: Lists

    ghost predicate Valid()
      reads this, k
    {
      && k.Valid() && 16 <= objSize && objs == ObjectsPerSlab(objSize) && 1 <= objs <= BITS
      && (forall s :: s in slabs ==> s in k.present && Counted(slabs[s], objs))
      && Placed(slabs, lists, objs)
    }

    /** slab_cache_create. */
    constructor (k: KernelMap, size: int)
      requires k.Valid() && 0 <= size <= MEM_SIZE
      ensures Valid() && this.k == k && objSize == (if size < 16 then 16 else size) && slabs == map[]
    {
      this.k := k;
      var n := if size < 16 then 16 else size;
      objSize := n;
      objs := MEM_SIZE / n;
      slabs, lists := map[], Lists([], [], []);
      new;
      SlabHoldsIff(n);
      ObjectInSlab(0, 0, n);
    }

    /** get_slab: a slab with a free object. */
    method GetSlab() returns (s: int)
      requires Valid()
      modifies this`slabs, this`lists, k`present, k`firstFree
      ensures k.Valid() && s in slabs && slabs[s].inUse < objs && forall t :: t in slabs ==> t in k.present && Counted(slabs[t], objs)
      ensures PlacedBut(slabs, lists, objs, s) && (slabs[s].inUse > 0 ==> Placed(slabs, lists, objs))
      ensures if s in old(slabs) then slabs == old(slabs) else slabs == old(slabs)[s := Slab(0, seq(BITS, _ => false))]
      ensures s !in old(slabs) ==> forall t :: t in old(slabs) ==> old(slabs)[t].inUse == objs
      ensures slabs[s].inUse == 0 ==> forall t :: t in old(slabs) ==> !(0 < old(slabs)[t].inUse < objs)
    {
      hide LowestFree;
      if lists.partial == [] && lists.empty == [] {
        forall t | t in slabs ensures slabs[t].inUse == objs {
          OnesBelow(slabs[t].bits, objs);
          assert t !in lists.partial && t !in lists.empty;
        }
        ghost var before := k.present;
        s := k.KallocPages(1);
        assert s !in before by { RunStart(before, k.low, s); }
        var bits := seq(BITS, _ => false);
        OnesBelow(bits, 0);
        slabs := slabs[s := Slab(0, bits)];
        lists := lists.(partial := [s]);
        return;
      }
      if lists.partial == [] {
        s := lists.empty[0];
        assert s in lists.empty;
      } else {
        s := lists.partial[0];
        assert s in lists.partial;
      }
    }

    /** slab_alloc: object z of slab s, which was free. */
    method SlabAlloc() returns (mem: int, ghost s: int, ghost z: int)
      requires Valid()
      modifies this`slabs, this`lists, k`present, k`firstFree
      ensures Valid() && mem == Object(s, z, objSize) && 0 <= z < objs
      ensures s in slabs && slabs[s].bits[z] && forall i :: 0 <= i < z ==> slabs[s].bits[i]
      ensures s !in old(slabs) ==> forall t :: t in old(slabs) ==> old(slabs)[t].inUse == objs
      ensures if s in old(slabs) then !old(slabs)[s].bits[z] && slabs == old(slabs)[s := Slab(old(slabs)[s].inUse + 1, old(slabs)[s].bits[z := true])]
              else slabs == old(slabs)[s := Slab(1, seq(BITS, _ => false)[z := true])]
    {
      hide LowestFree, Placed, PlacedBut;
      var t := GetSlab();
      var slab := slabs[t];
      var zero := BitmapFfz(slab.bits);
      OnesBelow(slab.bits, objs);
      assert 0 <= zero < objs;
      OnesUpdate(slab.bits, zero, true);
      var now := Slab(slab.inUse + 1, slab.bits[zero := true]);
      if now.inUse == objs || now.inUse == 1 {
        PlacedMove(slabs, lists, objs, t, now);
        lists := Put(Drop(lists, t), t, now.inUse, objs);
      } else {
        PlacedStay(slabs, lists, objs, t, now);
      }
      slabs := slabs[t := now];
      mem, s, z := t * FRAME_SIZE + DESC_SIZE + zero * objSize, t, zero;
    }

    /** One list of find_slab. */
    method SearchList(l: seq<int>, mem: int) returns (r: Option<int>)
      ensures r.Some? ==> r.value in l && InSlab(r.value, mem)
      ensures r.None? ==> forall s :: s in l ==> !InSlab(s, mem)
    {
      var i := 0;
      while i < |l|
        invariant 0 <= i <= |l| && forall j :: 0 <= j < i ==> !InSlab(l[j], mem)
      {
        var base := l[i] * FRAME_SIZE + DESC_SIZE;
        if base <= mem < base + MEM_SIZE { return Some(l[i]); }
        i := i + 1;
      }
      r := None;
    }

    /** find_slab: the slab in use that mem lies in, if there is one. */
    method FindSlab(mem: int) returns (r: Option<int>)
      requires Valid()
      ensures r.Some? ==> r.value in slabs && slabs[r.value].inUse > 0 && InSlab(r.value, mem)
      ensures r.None? ==> forall s :: s in slabs && slabs[s].inUse > 0 ==> !InSlab(s, mem)
    {
      hide LowestFree, InSlab;
      r := SearchList(lists.full, mem);
      if r.Some? { return; }
      r := SearchList(lists.partial, mem);
      forall s | s in slabs && slabs[s].inUse > 0 ensures s in lists.full || s in lists.partial {
        OnesBelow(slabs[s].bits, objs);
      }
    }

    /** slab_free: owner is the live object at mem, or None for an address in no slab in use. */
    method SlabFree(mem: int, ghost owner: Option<(int, int)>)
      requires Valid()
      requires owner.Some? ==> LiveObject(slabs, objs, objSize, owner.value.0, owner.value.1, mem)
      requires owner.None? ==> forall s :: s in slabs && slabs[s].inUse > 0 ==> !InSlab(s, mem)
      modifies this`slabs, this`lists
      ensures Valid()
      ensures owner.None? ==> slabs == old(slabs)
      ensures owner.Some? ==>
        var s, i := owner.value.0, owner.value.1;
        s in old(slabs) && i < |old(slabs)[s].bits| && slabs == old(slabs)[s := Slab(old(slabs)[s].inUse - 1, old(slabs)[s].bits[i := false])]
    {
      hide LowestFree, Placed, PlacedBut, InSlab;
      if owner.Some? { OwnerFound(slabs, objs, objSize, owner.value.0, owner.value.1, mem); }
      var found := FindSlab(mem);
      if found.None? { return; }
      var s := found.value;
      if owner.Some? { SameSlab(s, owner.value.0, mem); }
      var slab := slabs[s];
      var idx := (mem - (s * FRAME_SIZE + DESC_SIZE)) / objSize;
      OnesUpdate(slab.bits, idx, false);
      OnesBelow(slab.bits, objs);
      var now := Slab(slab.inUse - 1, slab.bits[idx := false]);
      PlacedImplies(slabs, lists, objs, s);
      if now.inUse == 0 || now.inUse + 1 == objs {
        PlacedMove(slabs, lists, objs, s, now);
        lists := Put(Drop(lists, s), s, now.inUse, objs);
      } else {
        PlacedStay(slabs, lists, objs, s, now);
      }
      slabs := slabs[s := now];
    }
  }

  /** mem lies in the memory of the slab on page s. */
  predicate InSlab(s: int, mem: int) { s * FRAME_SIZE + DESC_SIZE <= mem < s * FRAME_SIZE + DESC_SIZE + MEM_SIZE }

  /** Object i of slab s is allocated and lies at mem. */
  ghost predicate LiveObject(slabs: Slabs, objs: int, size: int, s: int, i: int, mem: int) {
    s in slabs && 0 <= i < objs && i < |slabs[s].bits| && slabs[s].bits[i] && mem == Object(s, i, size)
  }

  lemma SameSlab(s: int, t: int, mem: int)
    requires InSlab(s, mem) && InSlab(t, mem)
    ensures s == t
  {
  }

  lemma OwnerFound(slabs: Slabs, objs: int, size: int, s: int, i: int, mem: int)
    requires LiveObject(slabs, objs, size, s, i, mem) && 16 <= size && objs == ObjectsPerSlab(size) && Counted(slabs[s], objs)
    ensures InSlab(s, mem) && slabs[s].inUse > 0 && (mem - (s * FRAME_SIZE + DESC_SIZE)) / size == i
  {
    hide Ones;
    ObjectInSlab(s, i, size);
    OnesUpdate(slabs[s].bits, i, false);
  }

  lemma PlacedImplies(slabs: Slabs, l: Lists, objs: int, s: int)
    requires Placed(slabs, l, objs)
    ensures PlacedBut(slabs, l, objs, s)
  {
  }

  // ---------------------------------------------------------------- whole runs

  datatype SlabOp = Alloc | Free(index: int)

  /** The addresses handed out and not freed are different allocated objects. */
  ghost predicate AllLive(slabs: Slabs, objs: int, size: int, live: seq<int>, owners: seq<(int, int)>) {
    && |owners| == |live|
    && (forall j :: 0 <= j < |live| ==> LiveObject(slabs, objs, size, owners[j].0, owners[j].1, live[j]))
    && (forall i, j :: 0 <= i < j < |live| ==> owners[i] != owners[j])
  }

  /** Addresses live at the same time never overlap. */
  ghost predicate LiveApart(live: seq<int>, size: int) {
    forall i, j :: 0 <= i < j < |live| ==> live[i] + size <= live[j] || live[j] + size <= live[i]
  }

  lemma AllLiveApart(slabs: Slabs, objs: int, size: int, live: seq<int>, owners: seq<(int, int)>)
    requires AllLive(slabs, objs, size, live, owners) && 16 <= size && objs == ObjectsPerSlab(size)
    ensures LiveApart(live, size)
  {
    hide Object, ObjectsPerSlab;
    forall i, j | 0 <= i < j < |live| ensures live[i] + size <= live[j] || live[j] + size <= live[i] {
      ObjectsApart(owners[i].0, owners[i].1, owners[j].0, owners[j].1, size);
    }
  }

  /** Setting the bit of an object that was free keeps all live objects and adds that one. */
  lemma AllLiveAdd(slabs: Slabs, now: Slabs, objs: int, size: int, live: seq<int>, owners: seq<(int, int)>, s: int, z: int)
    requires AllLive(slabs, objs, size, live, owners) && 0 <= z < objs && s in now && z < |now[s].bits| && now[s].bits[z]
    requires s in slabs ==> z < |slabs[s].bits| && !slabs[s].bits[z] && now == slabs[s := now[s]] && now[s].bits == slabs[s].bits[z := true]
    requires s !in slabs ==> now == slabs[s := now[s]]
    ensures AllLive(now, objs, size, live + [Object(s, z, size)], owners + [(s, z)])
  {
  }

  lemma AllLiveDrop(slabs: Slabs, now: Slabs, objs: int, size: int, live: seq<int>, owners: seq<(int, int)>, k: int)
    requires |owners| == |live| && AllLive(slabs, objs, size, live, owners) && 0 <= k < |live|
    requires var s, i := owners[k].0, owners[k].1;
             s in slabs && 0 <= i < |slabs[s].bits| && s in now && now == slabs[s := now[s]] && now[s].bits == slabs[s].bits[i := false]
    ensures AllLive(now, objs, size, DropAt(live, k), DropAt(owners, k))
  {
  }

  /** Nothing but these objects is allocated. */
  ghost predicate OnlyLive(slabs: Slabs, owners: seq<(int, int)>) {
    forall s, i :: s in slabs && 0 <= i < |slabs[s].bits| && slabs[s].bits[i] ==> (s, i) in owners
  }

  lemma OnlyLiveAdd(slabs: Slabs, now: Slabs, owners: seq<(int, int)>, s: int, z: int)
    requires OnlyLive(slabs, owners) && s in now && now == slabs[s := now[s]] && 0 <= z < |now[s].bits|
    requires now[s].bits == if s in slabs && |slabs[s].bits| == |now[s].bits| then slabs[s].bits[z := true] else seq(|now[s].bits|, _ => false)[z := true]
    ensures OnlyLive(now, owners + [(s, z)])
  {
    var more := owners + [(s, z)];
    assert more[|owners|] == (s, z);
    forall t, i | t in now && 0 <= i < |now[t].bits| && now[t].bits[i] ensures (t, i) in more {
      if (t, i) != (s, z) { assert (t, i) in owners; }
    }
  }

  lemma OnlyLiveDrop(slabs: Slabs, now: Slabs, owners: seq<(int, int)>, k: int)
    requires OnlyLive(slabs, owners) && 0 <= k < |owners|
    requires var s, i := owners[k].0, owners[k].1;
             s in slabs && 0 <= i < |slabs[s].bits| && s in now && now == slabs[s := now[s]] && now[s].bits == slabs[s].bits[i := false]
    ensures OnlyLive(now, DropAt(owners, k))
  {
    var rest := DropAt(owners, k);
    forall t, i | t in now && 0 <= i < |now[t].bits| && now[t].bits[i] ensures (t, i) in rest {
      var j :| 0 <= j < |owners| && owners[j] == (t, i);
      assert rest[if j < k then j else j - 1] == (t, i);
    }
  }

  /** What an operation makes of the live addresses: one more behind the others, or one less. */
  ghost predicate Follows(was: seq<int>, op: SlabOp, now: seq<int>) {
    match op
    case Alloc => |now| == |was| + 1 && now[..|was|] == was
    case Free(j) => now == if 0 <= j < |was| then DropAt(was, j) else was
  }

  /** The live addresses after each operation of a run: they stay what they are, and their objects never overlap. */
  ghost predicate GoodTrace(trace: seq<seq<int>>, ops: seq<SlabOp>, size: int) {
    && |trace| == |ops| + 1 && trace[0] == []
    && (forall i :: 0 <= i < |ops| ==> Follows(trace[i], ops[i], trace[i + 1]))
    && (forall i :: 0 <= i < |trace| ==> LiveApart(trace[i], size))
  }

  lemma TraceSnoc(trace: seq<seq<int>>, ops: seq<SlabOp>, size: int, op: SlabOp, now: seq<int>)
    requires GoodTrace(trace, ops, size) && Follows(trace[|ops|], op, now) && LiveApart(now, size)
    ensures GoodTrace(trace + [now], ops + [op], size)
  {
    hide LiveApart, Follows;
    var t, o := trace + [now], ops + [op];
    forall i | 0 <= i < |o| ensures Follows(t[i], o[i], t[i + 1]) {
      assert t[i] == trace[i];
      if i < |ops| { assert o[i] == ops[i] && t[i + 1] == trace[i + 1]; }
    }
  }

  /** How many objects a list of operations leaves allocated. */
  function LiveCount(ops: seq<SlabOp>): nat {
    if ops == [] then 0
    else
      var was := LiveCount(ops[..|ops| - 1]);
      match ops[|ops| - 1]
      case Alloc => was + 1
      case Free(j) => if 0 <= j < was then was - 1 else was
  }

  lemma {:induction false} TraceCount(trace: seq<seq<int>>, ops: seq<SlabOp>, size: int, n: nat)
    requires GoodTrace(trace, ops, size) && n <= |ops|
    ensures |trace[n]| == LiveCount(ops[..n])
  {
    hide LiveApart;
    if n > 0 {
      TraceCount(trace, ops, size, n - 1);
      assert ops[..n][..n - 1] == ops[..n - 1] && ops[..n][n - 1] == ops[n - 1];
      assert Follows(trace[n - 1], ops[n - 1], trace[n]);
    }
  }

  lemma AllocFollows(live: seq<int>, mem: int)
    ensures Follows(live, SlabOp.Alloc, live + [mem])
  {
  }

  lemma FreeFollows(live: seq<int>, j: int)
    ensures Follows(live, SlabOp.Free(j), if 0 <= j < |live| then DropAt(live, j) else live)
  {
  }

  /**
   * Any run of allocations and single frees. After every operation the live addresses are those of before with the one
   * added or dropped, and their objects do not overlap; at the end they are the allocated objects of the slabs, and nothing
   * else is allocated.
   */
  method RunSlab(c: Cache, ops: seq<SlabOp>) returns (live: seq<int>, ghost owners: seq<(int, int)>, ghost trace: seq<seq<int>>)
    requires c.Valid() && c.slabs == map[]
    modifies c`slabs, c`lists, c.k`present, c.k`firstFree
    ensures c.Valid() && GoodTrace(trace, ops, c.objSize) && live == trace[|ops|] && |live| == LiveCount(ops)
    ensures AllLive(c.slabs, c.objs, c.objSize, live, owners) && OnlyLive(c.slabs, owners)
  {
    hide Placed, LowestFree, AllLive, OnlyLive, Object, ObjectsPerSlab, LiveApart, GoodTrace, Follows, LiveCount, Counted;
    live, owners, trace := [], [], [[]];
    var n := 0;
    StartLive(c.slabs, c.objs, c.objSize);
    assert ops[..0] == [];
    while n < |ops|
      invariant 0 <= n <= |ops| && c.Valid() && AllLive(c.slabs, c.objs, c.objSize, live, owners) && OnlyLive(c.slabs, owners)
      invariant GoodTrace(trace, ops[..n], c.objSize) && |trace| == n + 1 && live == trace[n]
    {
      ghost var before, was := live, c.slabs;
      match ops[n] {
        case Alloc =>
          var mem, s, z := c.SlabAlloc();
          BitmapSize(c.slabs[s], c.objs);
          if s in was { BitmapSize(was[s], c.objs); }
          AllLiveAdd(was, c.slabs, c.objs, c.objSize, live, owners, s, z);
          OnlyLiveAdd(was, c.slabs, owners, s, z);
          live, owners := live + [mem], owners + [(s, z)];
          AllocFollows(before, mem);
        case Free(j) =>
          if 0 <= j < |live| {
            AllLiveAt(was, c.objs, c.objSize, live, owners, j);
            c.SlabFree(live[j], Some(owners[j]));
            AllLiveDrop(was, c.slabs, c.objs, c.objSize, live, owners, j);
            OnlyLiveDrop(was, c.slabs, owners, j);
            live, owners := live[..j] + live[j + 1..], owners[..j] + owners[j + 1..];
          }
          FreeFollows(before, j);
      }
      AllLiveApart(c.slabs, c.objs, c.objSize, live, owners);
      TraceSnoc(trace, ops[..n], c.objSize, ops[n], live);
      assert ops[..n] + [ops[n]] == ops[..n + 1];
      trace := trace + [live];
      n := n + 1;
    }
    assert ops[..n] == ops;
    TraceCount(trace, ops, c.objSize, n);
  }

  lemma BitmapSize(slab: Slab, objs: int)
    requires Counted(slab, objs)
    ensures |slab.bits| == BITS && 0 <= objs <= BITS
  {
  }

  lemma StartLive(slabs: Slabs, objs: int, size: int)
    ensures AllLive(slabs, objs, size, [], []) && GoodTrace([[]], [], size) && (slabs == map[] ==> OnlyLive(slabs, []))
  {
  }

  lemma AllLiveAt(slabs: Slabs, objs: int, size: int, live: seq<int>, owners: seq<(int, int)>, j: int)
    requires AllLive(slabs, objs, size, live, owners) && 0 <= j < |live|
    ensures |owners| == |live| && LiveObject(slabs, objs, size, owners[j].0, owners[j].1, live[j])
  {
  }
}
