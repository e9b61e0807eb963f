/** Page directories, page tables and the operations on them: kernel/paging.c. */
module Paging {
  import opened Machine
  import opened FrameTable

  const NR_HIGH_PAGES: int := 6
  const MAX_HUSKS: int := 16

  /** What a frame held by the kernel is for. */
  datatype Role =
    | TableOf(dir: int, pdi: int)    // a page table, linked at an entry of a directory
    | HighOf(dir: int, index: int)   // kernel stack, high table or the directory itself
    | Reserved                       // the frame table and other boot-time memory
    | Pending                        // allocated, not linked yet

  type Dirs = map<int, map<int, int>>

  /** Every held frame has one role, and the structure it belongs to names it. */
  ghost predicate Roles(tab: Tables, dir: Dirs, high: map<int, seq<int>>, role: map<int, Role>) {
    && dir.Keys == high.Keys
    && (forall f :: f in role && role[f].TableOf? ==>
          f in tab && role[f].dir in dir && role[f].pdi in dir[role[f].dir] && dir[role[f].dir][role[f].pdi] == f)
    && (forall d, k :: d in dir && k in dir[d] ==>
          0 <= k < KERNEL_PDI && dir[d][k] in role && role[dir[d][k]] == TableOf(d, k))
    && (forall d :: d in high ==> |high[d]| == NR_HIGH_PAGES && high[d][NR_HIGH_PAGES - 1] == d)
    && (forall d, i :: d in high && 0 <= i < NR_HIGH_PAGES ==>
          high[d][i] in role && role[high[d][i]] == HighOf(d, i))
    && (forall f :: f in role && role[f].HighOf? ==>
          role[f].dir in high && 0 <= role[f].index < NR_HIGH_PAGES && high[role[f].dir][role[f].index] == f)
    && (forall t :: t in tab ==> t in role && (role[t].TableOf? || role[t].Pending?))
    && (forall t, i :: t in tab && i in tab[t] ==> 0 <= i < TABLE_ENTRIES)
  }

  /** The references a frame has. */
  function RefOf(ref: seq<nat>, f: int): nat { if 0 <= f < |ref| then ref[f] else 0 }

  /** The entry a two-level walk finds for page v. */
  function Walk(tab: Tables, pdes: map<int, int>, v: int): Option<Pte> {
    var k, i := v / TABLE_ENTRIES, v % TABLE_ENTRIES;
    if k in pdes && pdes[k] in tab && i in tab[pdes[k]] then Some(tab[pdes[k]][i]) else None
  }

  // ---------------------------------------------------------------- pm_apply and its callbacks

  datatype ApplyFn = Unmap | DisableWrite

  function ApplyPte(fn: ApplyFn, pte: Pte): Option<Pte> {
    match fn case Unmap => None case DisableWrite => Some(pte.(rw := false))
  }

  function ApplyOpt(fn: ApplyFn, pte: Option<Pte>): Option<Pte> {
    if pte.None? then None else ApplyPte(fn, pte.value)
  }

  /** A page table after the callback ran on entries lo..hi-1. */
  function ApplyTable(m: Table, lo: int, hi: int, fn: ApplyFn): Table {
    map i | i in m && !(fn.Unmap? && lo <= i < hi) :: if lo <= i < hi then m[i].(rw := false) else m[i]
  }

  function Pdi(a: int): int { a / 0x40_0000 }
  function Pti(a: int): int { a / FRAME_SIZE % TABLE_ENTRIES }

  /** The entry range pm_apply_pgtab visits in the table at pdi. */
  function FirstPti(start: int, pdi: int): int { if start > pdi * 0x40_0000 then Pti(start) else 0 }
  function LastPti(end: int, pdi: int): int {
    if end < (pdi + 1) * 0x40_0000 then Pti(end - 1) else TABLE_ENTRIES - 1
  }

  /** Within the directory entries pm_apply visits, an entry is visited exactly if its page is in the area. */
  lemma VisitedExactly(start: int, end: int, v: int)
    requires Aligned(start) && Aligned(end) && 0 <= start <= end && 0 < end && 0 <= v
    ensures var k, i := v / TABLE_ENTRIES, v % TABLE_ENTRIES;
            (Pdi(start) <= k <= Pdi(end - 1) && FirstPti(start, k) <= i <= LastPti(end, k)) <==>
            start / FRAME_SIZE <= v < end / FRAME_SIZE
  {
    var s, e := start / FRAME_SIZE, end / FRAME_SIZE;
    var k, i := v / TABLE_ENTRIES, v % TABLE_ENTRIES;
    assert start == s * FRAME_SIZE && end == e * FRAME_SIZE;
    assert (end - 1) / FRAME_SIZE == e - 1;
    assert Pdi(start) == s / TABLE_ENTRIES && Pdi(end - 1) == (e - 1) / TABLE_ENTRIES;
    assert v == k * TABLE_ENTRIES + i;
  }

  /** struct pf_info's table, the frame pool, the page directories and the husk list. */
  class PageMaps {
    var ref: seq<nat>
    var pool: seq<int>
    var mem: seq<Page>
    var tab: Tables
    var dir: Dirs
    var high: map<int, seq<int>>
    var husks: seq<int>
    ghost var role: map<int, Role>

    ghost predicate Sound()
      reads this
    {
      && |mem| == |ref|
      && Exact(ref, pool, tab, role.Keys)
      && Roles(tab, dir, high, role)
    }

    /** frame_pool_init: the first frames hold the frame table, all others go to the pool. */
    constructor (frames: nat, tableFrames: nat, initial: seq<Page>)
      requires tableFrames <= frames == |initial|
      ensures Sound() && HusksOk(husks, dir) && dir == map[] && mem == initial
      ensures role == ReservedRoles(tableFrames)
    {
      var ref0: seq<nat>, pool0: seq<int> := [], [];
      while |ref0| < tableFrames
        invariant |ref0| <= tableFrames && forall i :: 0 <= i < |ref0| ==> ref0[i] == 1
      {
        ref0 := ref0 + [1];
      }
      while |ref0| < frames
        invariant tableFrames <= |ref0| <= frames && |pool0| == |ref0| - tableFrames
        invariant forall i :: 0 <= i < |ref0| ==> ref0[i] == if i < tableFrames then 1 else 0
        invariant forall i :: 0 <= i < |pool0| ==> pool0[i] == tableFrames + i
      {
        pool0 := pool0 + [|ref0|];
        ref0 := ref0 + [0];
      }
      ref, pool, mem := ref0, pool0, initial;
      tab, dir, high, husks := map[], map[], map[], [];
      role := ReservedRoles(tableFrames);
      InitialExact(ref0, pool0, tableFrames, frames);
    }

    /** kalloc_frame. The source panics when the pool is empty. */
    method AllocFrame(zero: bool) returns (f: int)
      requires Sound() && pool != []
      modifies this`ref, this`pool, this`mem, this`role
      ensures Sound() && f == old(pool)[0] && pool == old(pool)[1..] && f !in pool
      ensures 0 <= f < |old(ref)| && |old(mem)| == |old(ref)| && ref == old(ref)[f := 1]
      ensures f !in old(role) && role == old(role)[f := Pending] && f !in tab && Users(tab, f) == {}
      ensures mem == if zero then old(mem)[f := ZeroPage()] else old(mem)
    {
      hide Exact, Roles;
      AllocExact(ref, pool, tab, role.Keys);
      f := pool[0];
      PendingRoles(tab, dir, high, role, f);
      pool := pool[1..];
      ref := ref[f := 1];
      role := role[f := Pending];
      assert role.Keys == old(role.Keys) + {f};
      if zero {
        mem := mem[f := ZeroPage()];
      }
    }

    /** kfree_frame. */
    method FreeFrame(f: int)
      requires 0 <= f < |ref| && ref[f] > 0
      modifies this`ref, this`pool
      ensures ref == Dropped(old(ref), f) && pool == Refilled(old(ref), old(pool), f)
    {
      ref := ref[f := ref[f] - 1];
      if ref[f] == 0 {
        pool := [f] + pool;
      }
    }

    /** kfree_frame on a frame that was allocated and not used. */
    method ReturnFrame(f: int)
      requires Sound() && f in role && role[f] == Pending && f !in tab
      modifies this`ref, this`pool, this`role
      ensures Sound() && |ref| == old(|ref|) && role == old(role) - {f} && pool == [f] + old(pool)
    {
      hide Exact, Roles;
      ReleaseExact(ref, pool, tab, role.Keys, f);
      HeldOnce(ref, pool, tab, role.Keys, f);
      DropPending(tab, dir, high, role, f);
      FreeFrame(f);
      ghost var held := role.Keys;
      role := role - {f};
      assert role.Keys == held - {f};
    }

    /** clone_pgtab: a new table with the same entries, one more reference for each frame. */
    method ClonePgtab(t: int) returns (copy: int)
      requires Sound() && pool != [] && t in tab
      modifies this`ref, this`pool, this`mem, this`role, this`tab
      ensures Sound() && copy == old(pool)[0] && pool == old(pool)[1..]
      ensures 0 <= copy < |old(mem)| && |ref| == |old(ref)|
      ensures copy !in old(role) && role == old(role)[copy := Pending] && copy !in old(tab)
      ensures tab == old(tab)[copy := old(tab)[t]]
      ensures mem == old(mem)[copy := ZeroPage()]
    {
      hide Exact, Roles;
      copy := AllocFrame(true);
      NewTableExact(ref, pool, tab, role.Keys, copy);
      tab := tab[copy := map[]];
      ghost var original := tab[t];
      BelowAll(old(tab), dir, high, old(role), t);
      var i := 0;
      while i < TABLE_ENTRIES
        invariant 0 <= i <= TABLE_ENTRIES && |ref| == old(|ref|)
        invariant copy in tab && tab == old(tab)[copy := tab[copy]] && tab[copy] == Below(original, i)
        invariant Exact(ref, pool, tab, role.Keys)
        modifies this`ref, this`tab
      {
        BelowStep(original, i);
        if i in tab[t] {
          var pte := tab[t][i];
          MappedNotFree(ref, pool, tab, role.Keys, t, i);
          ShareExact(ref, pool, tab, role.Keys, copy, i, pte);
          ref := ref[pte.frame := ref[pte.frame] + 1];
          Overwrite(old(tab), copy, tab[copy], tab[copy][i := pte]);
          tab := tab[copy := tab[copy][i := pte]];
        }
        i := i + 1;
      }
      CopyRoles(old(tab), dir, high, old(role), copy, t);
    }

    /** The frames of a new directory. */
    method AllocHigh() returns (frames: seq<int>)
      requires Sound() && |pool| >= NR_HIGH_PAGES
      modifies this`ref, this`pool, this`mem, this`role
      ensures Sound() && |ref| == old(|ref|) && pool == old(pool)[NR_HIGH_PAGES..]
      ensures frames == old(pool)[..NR_HIGH_PAGES] && Fresh(frames, tab, old(role), role)
      ensures MemKept(old(mem), mem, old(pool))
    {
      hide Exact, Roles, Fresh;
      frames := [];
      FreshNone(tab, role);
      while |frames| < NR_HIGH_PAGES
        invariant |frames| <= NR_HIGH_PAGES && Sound() && |ref| == old(|ref|)
        invariant pool == old(pool)[|frames|..] && frames == old(pool)[..|frames|]
        invariant Fresh(frames, tab, old(role), role) && MemKept(old(mem), mem, old(pool))
      {
        ghost var before := role;
        var f := AllocFrame(true);
        assert old(pool)[|frames|] == f;
        FreshMore(frames, tab, old(role), before, f);
        frames := frames + [f];
      }
    }

    /** make_new_pgdir: six zeroed frames, the last being the directory, the one before it the high table. */
    method MakeNewPgdir() returns (d: int)
      requires Sound() && |pool| >= NR_HIGH_PAGES
      modifies this`ref, this`pool, this`mem, this`role, this`dir, this`high
      ensures Sound() && |ref| == old(|ref|) && pool == old(pool)[NR_HIGH_PAGES..]
      ensures d !in old(dir) && dir == old(dir)[d := map[]]
      ensures Extends(old(role), role) && MemKept(old(mem), mem, old(pool))
    {
      hide Exact, Roles;
      var frames := AllocHigh();
      d := frames[NR_HIGH_PAGES - 1];
      NewDirRoles(tab, dir, high, role, d, frames);
      NewDirExtends(tab, old(role), role, d, frames);
      dir := dir[d := map[]];
      high := high[d := frames];
      ghost var held := role.Keys;
      role := WithHigh(role, d, frames);
      assert role.Keys == held;
    }

    /** new_pgdir: reuse a husk if there is one. */
    method NewPgdir() returns (d: int)
      requires Sound() && HusksOk(husks, dir) && (husks == [] ==> |pool| >= NR_HIGH_PAGES)
      modifies this`ref, this`pool, this`mem, this`role, this`dir, this`high, this`husks
      ensures Sound() && |ref| == old(|ref|) && HusksOk(husks, dir)
      ensures |pool| == old(|pool|) - (if old(husks) == [] then NR_HIGH_PAGES else 0) && Subseq(pool, old(pool))
      ensures d !in husks && (d in old(husks) || d !in old(dir)) && dir == old(dir)[d := map[]]
      ensures forall h :: h in old(husks) ==> h in husks || h == d
      ensures forall h :: h in husks ==> h in old(husks)
      ensures Extends(old(role), role) && MemKept(old(mem), mem, old(pool))
    {
      hide Exact, Roles;
      if |husks| > 0 {
        d := husks[0];
        husks := husks[1..];
        assert dir[d] == map[] && dir == dir[d := map[]] by { assert d in old(husks); }
        assert forall h :: h in husks ==> h in old(husks);
        forall h | h in old(husks) ensures h in husks || h == d {
          var i :| 0 <= i < |old(husks)| && old(husks)[i] == h;
          if i > 0 { assert husks[i - 1] == h; }
        }
      } else {
        d := MakeNewPgdir();
      }
    }

    /** Clone the table at entry k of src and link the copy at entry k of d. */
    method CloneEntry(src: int, d: int, k: int)
      requires Sound() && pool != [] && src in dir && d in dir && k in dir[src] && k !in dir[d]
      modifies this`ref, this`pool, this`mem, this`role, this`dir, this`tab
      ensures Sound() && |ref| == old(|ref|) && pool == old(pool)[1..]
      ensures old(dir[src][k]) in old(tab) && old(pool)[0] !in old(tab)
      ensures dir == old(dir)[d := old(dir)[d][k := old(pool)[0]]]
      ensures tab == old(tab)[old(pool)[0] := old(tab)[old(dir[src][k])]]
      ensures Extends(old(role), role) && MemKept(old(mem), mem, old(pool))
    {
      hide Exact, Roles;
      OwnedTable(tab, dir, high, role, src, k);
      var copy := ClonePgtab(dir[src][k]);
      LinkRoles(tab, dir, high, role, d, k, copy);
      dir := dir[d := dir[d][k := copy]];
      ghost var held := role.Keys;
      role := role[copy := TableOf(d, k)];
      assert role.Keys == held;
    }

    /** The loop of clone_pgdir over the user entries of src. */
    method CloneTables(src: int, d: int)
      requires Sound() && src in dir && d in dir && src != d && dir[d] == map[]
      requires |pool| >= |dir[src]|
      modifies this`ref, this`pool, this`mem, this`role, this`dir, this`tab
      ensures Sound() && |ref| == old(|ref|)
      ensures d in dir && dir == old(dir)[d := dir[d]] && dir[d].Keys == dir[src].Keys
      ensures |pool| == old(|pool|) - |old(dir)[src]|
      ensures ClonedTables(old(tab), tab, dir, src, d)
      ensures Extends(old(role), role) && MemKept(old(mem), mem, old(pool))
    {
      hide Exact, Roles, ClonedTables, Extends, MemKept, UpTo;
      OwnedRange(tab, dir, high, role, src);
      ClonedNothing(tab, dir, src, d);
      UpToNone(dir[d], dir[src]);
      MemKeptSame(mem, role, pool);
      ghost var pdes := dir[src];
      var k := 0;
      while k < KERNEL_PDI
        invariant 0 <= k <= KERNEL_PDI && Sound() && |ref| == old(|ref|)
        invariant d in dir && src in dir && dir == old(dir)[d := dir[d]]
        invariant |pool| == old(|pool|) - |dir[d]| && Subseq(pool, old(pool))
        invariant UpTo(dir[d], pdes, k)
        invariant ClonedTables(old(tab), tab, dir, src, d)
        invariant Extends(old(role), role) && MemKept(old(mem), mem, old(pool))
      {
        ghost var before := dir[d];
        if k in dir[src] {
          SmallerMap(dir[d], pdes, k);
          ghost var was, dir1, role1, mem1, pool1 := tab, dir, role, mem, pool;
          CloneEntry(src, d, k);
          Overwrite(old(dir), d, dir1[d], dir[d]);
          ClonedStep(old(tab), was, dir1, src, d, k, pool1[0]);
          ExtendsTrans(old(role), role1, role);
          MemKeptTrans(old(mem), mem1, mem, old(pool), pool1);
        }
        UpToStep(before, pdes, k, dir[d]);
        k := k + 1;
      }
      UpToAll(dir[d], pdes, KERNEL_PDI);
      SameSize(dir[d], pdes);
    }

    /** clone_pgdir: every user page table of src is cloned into a new directory. */
    method ClonePgdir(src: int) returns (d: int)
      requires Sound() && HusksOk(husks, dir) && src in dir && src !in husks
      requires |pool| >= (if husks == [] then NR_HIGH_PAGES else 0) + |dir[src]|
      modifies this`ref, this`pool, this`mem, this`role, this`dir, this`high, this`husks, this`tab
      ensures Sound() && |ref| == old(|ref|) && HusksOk(husks, dir)
      ensures d !in husks && (d in old(husks) || d !in old(dir)) && d in dir && d != src
      ensures forall h :: h in old(husks) ==> h in husks || h == d
      ensures forall h :: h in husks ==> h in old(husks)
      ensures |pool| == old(|pool|) - (if old(husks) == [] then NR_HIGH_PAGES else 0) - |old(dir)[src]|
      ensures dir == old(dir)[d := dir[d]] && dir[d].Keys == dir[src].Keys
      ensures ClonedTables(old(tab), tab, dir, src, d)
      ensures Extends(old(role), role) && MemKept(old(mem), mem, old(pool))
    {
      hide Exact, Roles, ClonedTables, Extends, MemKept, HusksOk, UpTo;
      HusksApart(husks, dir);
      d := NewPgdir();
      ghost var dir0, role1, mem1, pool1 := dir, role, mem, pool;
      CloneTables(src, d);
      HusksKept(husks, dir0, dir, d);
      ExtendsTrans(old(role), role1, role);
      MemKeptTrans(old(mem), mem1, mem, old(pool), pool1);
    }

    /** pm_apply_pgtab with pm_unmap_fn or pm_disable_write_fn. */
    method ApplyPgtab(start: int, end: int, pdi: int, t: int, fn: ApplyFn)
      requires Sound() && t in tab
      modifies this`ref, this`pool, this`tab
      ensures Sound() && |ref| == old(|ref|)
      ensures tab == old(tab)[t := ApplyTable(old(tab)[t], FirstPti(start, pdi), LastPti(end, pdi) + 1, fn)]
    {
      hide Exact, Roles, ApplyTable, FirstPti, LastPti;
      ghost var was := tab[t];
      var first, last := FirstPti(start, pdi), LastPti(end, pdi);
      ApplyNone(was, first, first, fn);
      assert tab == tab[t := tab[t]];
      var i := first;
      while i <= last
        invariant first <= i && (i <= last + 1 || i == first) && |ref| == old(|ref|)
        invariant t in tab && tab == old(tab)[t := tab[t]] && tab[t] == ApplyTable(was, first, i, fn)
        invariant Exact(ref, pool, tab, role.Keys)
      {
        ApplyStep(was, first, i, fn);
        if i in tab[t] {
          var pte := tab[t][i];
          if fn.Unmap? {
            UnmapExact(ref, pool, tab, role.Keys, t, i);
            Overwrite(old(tab), t, tab[t], tab[t] - {i});
            FreeFrame(pte.frame);
            tab := tab[t := tab[t] - {i}];
          } else {
            ProtectExact(ref, pool, tab, role.Keys, t, i, pte.(rw := false));
            Overwrite(old(tab), t, tab[t], tab[t][i := pte.(rw := false)]);
            tab := tab[t := tab[t][i := pte.(rw := false)]];
          }
        }
        i := i + 1;
      }
      if last + 1 < first { ApplyNone(was, first, last + 1, fn); }
      ApplyKeys(was, first, last + 1, fn);
      SubTableRoles(old(tab), dir, high, role, t, tab[t]);
    }

    /** pm_apply: the callback runs on the entries of exactly the pages of the area, in this address space only. */
    method PmApply(d: int, start: int, end: int, fn: ApplyFn)
      requires Sound() && d in dir && Aligned(start) && Aligned(end) && 0 <= start <= end && 0 < end
      modifies this`ref, this`pool, this`tab
      ensures Sound() && |ref| == old(|ref|)
      ensures forall e, v :: e in dir && 0 <= v ==>
                Walk(tab, dir[e], v) ==
                if e == d && start / FRAME_SIZE <= v < end / FRAME_SIZE then ApplyOpt(fn, Walk(old(tab), dir[e], v))
                else Walk(old(tab), dir[e], v)
    {
      hide Exact, Roles, ApplyTable, Applied, Pdi, Walk;
      ApplyRange(d, start, end, fn);
      forall e, v | e in dir && 0 <= v
        ensures Walk(tab, dir[e], v) ==
                if e == d && start / FRAME_SIZE <= v < end / FRAME_SIZE then ApplyOpt(fn, Walk(old(tab), dir[e], v))
                else Walk(old(tab), dir[e], v)
      {
        AppliedWalk(old(tab), tab, dir, high, role, d, start, end, fn, e, v);
      }
    }

    /** The loop of pm_apply over directory entries. */
    method ApplyRange(d: int, start: int, end: int, fn: ApplyFn)
      requires Sound() && d in dir && 0 < end
      modifies this`ref, this`pool, this`tab
      ensures Sound() && |ref| == old(|ref|)
      ensures Applied(old(tab), tab, role, d, start, end, Pdi(end - 1) + 1, fn)
    {
      hide Exact, Roles, ApplyTable, Applied, Pdi;
      var k, last := Pdi(start), Pdi(end - 1);
      AppliedNone(tab, role, d, start, end, k, fn);
      while k <= last
        invariant Sound() && |ref| == old(|ref|) && Pdi(start) <= k && (k <= last + 1 || k == Pdi(start))
        invariant Applied(old(tab), tab, role, d, start, end, k, fn)
      {
        ghost var was := tab;
        if k in dir[d] {
          OwnedTable(tab, dir, high, role, d, k);
          ApplyPgtab(start, end, k, dir[d][k], fn);
        }
        AppliedStep(old(tab), was, tab, dir, high, role, d, start, end, k, fn);
        k := k + 1;
      }
      AppliedEmpty(old(tab), tab, role, d, start, end, k, last + 1, fn);
    }

    /** del_pgtab on entry k of d, and clearing that entry. The table's entries die with it. */
    method DropTable(d: int, k: int)
      requires Sound() && d in dir && k in dir[d]
      modifies this`ref, this`pool, this`tab, this`dir, this`role
      ensures Sound() && |ref| == old(|ref|)
      ensures dir == old(dir)[d := old(dir)[d] - {k}]
      ensures tab == old(tab) - {old(dir)[d][k]} && role == old(role) - {old(dir)[d][k]}
    {
      hide Exact, Roles, ApplyTable;
      OwnedTable(tab, dir, high, role, d, k);
      var t := dir[d][k];
      ghost var was := tab[t];
      ApplyNone(was, 0, 0, Unmap);
      assert tab == tab[t := tab[t]];
      var i := 0;
      while i < TABLE_ENTRIES
        invariant 0 <= i <= TABLE_ENTRIES && |ref| == old(|ref|)
        invariant t in tab && tab == old(tab)[t := tab[t]] && tab[t] == ApplyTable(was, 0, i, Unmap)
        invariant Exact(ref, pool, tab, role.Keys)
        modifies this`ref, this`pool, this`tab
      {
        ApplyStep(was, 0, i, Unmap);
        if i in tab[t] {
          UnmapExact(ref, pool, tab, role.Keys, t, i);
          Overwrite(old(tab), t, tab[t], tab[t] - {i});
          FreeFrame(tab[t][i].frame);
          tab := tab[t := tab[t] - {i}];
        }
        i := i + 1;
      }
      EmptiedTable(old(tab), dir, high, role, t);
      DropTableExact(ref, pool, tab, role.Keys, t);
      tab := tab - {t};
      assert tab == old(tab) - {t};
      ReleaseExact(ref, pool, tab, role.Keys, t);
      HeldOnce(ref, pool, tab, role.Keys, t);
      FreeFrame(t);
      UnlinkRoles(old(tab), dir, high, role, d, k);
      dir := dir[d := dir[d] - {k}];
      ghost var held := role.Keys;
      role := role - {t};
      assert role.Keys == held - {t};
    }

    /** husk_pgdir: drop every user page table of d. */
    method HuskPgdir(d: int)
      requires Sound() && d in dir
      modifies this`ref, this`pool, this`tab, this`dir, this`role
      ensures Sound() && |ref| == old(|ref|)
      ensures dir == old(dir)[d := map[]] && WithoutTables(old(tab), tab, old(role), role, d)
    {
      hide Exact, Roles, WithoutTables, TablesFrom, From;
      FromNothing(tab, dir, high, role, d);
      AllTablesThere(tab, dir, high, role, d);
      ghost var pdes := dir[d];
      assert dir == dir[d := dir[d]];
      var k := 0;
      while k < KERNEL_PDI
        invariant 0 <= k <= KERNEL_PDI && Sound() && |ref| == old(|ref|)
        invariant d in dir && dir == old(dir)[d := dir[d]] && dir[d] == From(pdes, k)
        invariant TablesFrom(old(tab), tab, old(role), role, d, k)
        modifies this`ref, this`pool, this`tab, this`dir, this`role
      {
        FromStep(pdes, k);
        if k in dir[d] {
          DropTableStep(old(tab), tab, dir, high, old(role), role, d, k);
          Overwrite(old(dir), d, dir[d], dir[d] - {k});
          DropTable(d, k);
        } else {
          SkipTableStep(old(tab), tab, dir, high, old(role), role, d, k);
        }
        k := k + 1;
      }
      NoTablesLeft(old(tab), tab, old(role), role, d);
    }

    /** free_husk: the directory, its high table and the kernel stack it maps. */
    method FreeHusk(d: int)
      requires Sound() && d in dir && dir[d] == map[]
      modifies this`ref, this`pool, this`dir, this`high, this`role
      ensures Sound() && |ref| == old(|ref|)
      ensures dir == old(dir) - {d} && DropsHigh(old(role), role, d)
    {
      hide Exact, Roles;
      HighFrames(tab, dir, high, role, d);
      var frames := high[d];
      ghost var held := role.Keys;
      assert held - Elems(frames[..0]) == held;
      var i := 0;
      while i < NR_HIGH_PAGES
        invariant 0 <= i <= NR_HIGH_PAGES && |ref| == old(|ref|)
        invariant Exact(ref, pool, tab, held - Elems(frames[..i]))
        modifies this`ref, this`pool
      {
        var f := frames[i];
        assert frames[..i + 1] == frames[..i] + [f];
        assert f in held - Elems(frames[..i]);
        assert held - Elems(frames[..i + 1]) == held - Elems(frames[..i]) - {f};
        HeldOnce(ref, pool, tab, held - Elems(frames[..i]), f);
        ReleaseExact(ref, pool, tab, held - Elems(frames[..i]), f);
        FreeFrame(f);
        i := i + 1;
      }
      assert frames[..NR_HIGH_PAGES] == frames;
      DropDirRoles(tab, dir, high, role, d);
      dir := dir - {d};
      high := high - {d};
      role := role - Elems(frames);
      assert role.Keys == held - Elems(frames);
    }

    /** free_pgdir: d becomes a husk; the most recent husk is freed first when there are too many. */
    method FreePgdir(d: int)
      requires Sound() && HusksOk(husks, dir) && d in dir && d !in husks
      modifies this`ref, this`pool, this`tab, this`dir, this`high, this`role, this`husks
      ensures Sound() && |ref| == old(|ref|) && HusksOk(husks, dir)
      ensures d in husks && husks == [d] + if |old(husks)| >= MAX_HUSKS then old(husks)[1..] else old(husks)
      ensures dir.Keys == if |old(husks)| >= MAX_HUSKS then old(dir).Keys - {old(husks)[0]} else old(dir).Keys
      ensures forall e :: e in old(dir) && e !in old(husks) && e != d ==> e in dir && dir[e] == old(dir)[e]
      ensures forall t :: t in tab ==> t in old(tab) && tab[t] == old(tab)[t]
      ensures forall e, k :: e in old(dir) && e !in old(husks) && e != d && k in old(dir)[e] ==> old(dir)[e][k] in tab
      ensures forall f :: f in role ==> f in old(role) && role[f] == old(role)[f]
    {
      hide Exact, Roles, HusksOk, WithoutTables, DropsHigh;
      ghost var husks0 := husks;
      HusksApart(husks, dir);
      if |husks| >= MAX_HUSKS {
        HuskGone(husks, dir);
        var h := husks[0];
        husks := husks[1..];
        FreeHusk(h);
        DropsHighSub(old(role), role, h);
      }
      ghost var dir1, role1 := dir, role;
      HuskPgdir(d);
      HuskAdded(husks, dir1, d);
      husks := [d] + husks;
      WithoutTablesSub(old(tab), tab, role1, role, d);
      KeptTables(old(tab), old(dir), old(high), old(role), tab, role1, role, d, husks0);
    }

    /** umap_page_table: the table for page v, allocated and linked if the directory has none. */
    method UmapPageTable(d: int, v: int) returns (t: int)
      requires Sound() && d in dir && 0 <= v < USER_PAGES
      requires v / TABLE_ENTRIES !in dir[d] ==> pool != []
      modifies this`ref, this`pool, this`mem, this`role, this`dir, this`tab
      ensures Sound() && |ref| == old(|ref|) && d in dir && dir == old(dir)[d := dir[d]] && dir.Keys == old(dir).Keys
      ensures |pool| == old(|pool|) - (if v / TABLE_ENTRIES in old(dir[d]) then 0 else 1)
      ensures v / TABLE_ENTRIES in dir[d] && dir[d][v / TABLE_ENTRIES] == t && t in tab
      ensures forall x :: x in tab ==> x in old(tab) || (x in role && role[x].TableOf?)
      ensures forall e, w :: e in dir && 0 <= w ==> Walk(tab, dir[e], w) == Walk(old(tab), old(dir)[e], w)
      ensures Extends(old(role), role) && MemKept(old(mem), mem, old(pool))
    {
      hide Exact, Roles;
      var k := v / TABLE_ENTRIES;
      if k !in dir[d] {
        t := AllocFrame(true);
        NewTableExact(ref, pool, tab, role.Keys, t);
        NewTableWalk(tab, dir, high, role, d, k, t);
        NewTableRoles(tab, dir, high, role, d, k, t);
        tab := tab[t := map[]];
        dir := dir[d := dir[d][k := t]];
        ghost var held := role.Keys;
        role := role[t := TableOf(d, k)];
        assert role.Keys == held;
        assert dir.Keys == old(dir).Keys;
      } else {
        OwnedTable(tab, dir, high, role, d, k);
        t := dir[d][k];
        assert dir == dir[d := dir[d]];
      }
    }

    /** map_frame: enter frame f for page v, which has no entry. */
    method MapFrame(d: int, v: int, f: int, rw: bool, user: bool)
      requires Sound() && d in dir && 0 <= v < USER_PAGES && Walk(tab, dir[d], v) == None
      requires f in role && role[f] == Pending && f !in tab
      requires v / TABLE_ENTRIES !in dir[d] ==> pool != []
      modifies this`ref, this`pool, this`mem, this`role, this`dir, this`tab
      ensures Sound() && |ref| == old(|ref|) && dir.Keys == old(dir).Keys && dir == old(dir)[d := dir[d]] && f !in role
      ensures |pool| == old(|pool|) - (if v / TABLE_ENTRIES in old(dir[d]) then 0 else 1) && RefOf(ref, f) == 1
      ensures forall e, w :: e in dir && 0 <= w ==>
                Walk(tab, dir[e], w) == if e == d && w == v then Some(Pte(f, rw, user)) else Walk(old(tab), old(dir)[e], w)
      ensures Extends(old(role) - {f}, role) && MemKept(old(mem), mem, old(pool))
    {
      hide Exact, Roles, Walk, Extends, MemKept;
      var t := UmapPageTable(d, v);
      var i := v % TABLE_ENTRIES;
      ExtendsRole(old(role), role, f);
      HeldOnce(ref, pool, tab, role.Keys, f);
      WalkSlot(tab, dir, d, v);
      assert Walk(tab, dir[d], v) == None;
      MapExact(ref, pool, tab, role.Keys, t, i, Pte(f, rw, user));
      EntryRoles(tab, dir, high, role, t, i, Pte(f, rw, user));
      DropPending(tab[t := tab[t][i := Pte(f, rw, user)]], dir, high, role, f);
      EntryWalk(tab, dir, high, role, d, v, Some(Pte(f, rw, user)));
      ExtendsDrop(old(role), role, f);
      tab := tab[t := tab[t][i := Pte(f, rw, user)]];
      ghost var held := role.Keys;
      role := role - {f};
      assert role.Keys == held - {f};
    }

    /**
     * copy_page on a present page: a frame with one reference is only given the new permissions;
     * otherwise the page moves to a copy of its own.
     */
    method CopyPage(d: int, v: int, zero: bool, rw: bool, user: bool)
      requires Sound() && d in dir && 0 <= v < USER_PAGES && Walk(tab, dir[d], v).Some?
      requires RefOf(ref, Walk(tab, dir[d], v).value.frame) != 1 ==> pool != []
      modifies this`ref, this`pool, this`mem, this`role, this`tab
      ensures Sound() && |ref| == old(|ref|) && MemKept(old(mem), mem, old(pool)) && role == old(role)
      ensures |pool| == old(|pool|) - (if RefOf(old(ref), Walk(old(tab), dir[d], v).value.frame) == 1 then 0 else 1)
      ensures forall e, w :: e in dir && 0 <= w && (e != d || w != v) ==> Walk(tab, dir[e], w) == Walk(old(tab), dir[e], w)
      ensures var was, now := Walk(old(tab), dir[d], v).value, Walk(tab, dir[d], v);
              && 0 <= was.frame < |old(ref)| && now.Some? && 0 <= now.value.frame < |ref| && |mem| == |ref|
              && ref[now.value.frame] == 1 && mem[now.value.frame] == old(mem)[was.frame]
              && now.value.rw == (rw || (old(ref)[was.frame] == 1 && was.rw))
              && now.value.user == (user || (old(ref)[was.frame] == 1 && was.user))
    {
      hide Exact, Roles, Walk, MemKept;
      WalkSlot(tab, dir, d, v);
      var t, i := dir[d][v / TABLE_ENTRIES], v % TABLE_ENTRIES;
      var pte := tab[t][i];
      MappedNotFree(ref, pool, tab, role.Keys, t, i);
      if ref[pte.frame] == 1 {
        var pte' := pte.(rw := pte.rw || rw, user := pte.user || user);
        ProtectExact(ref, pool, tab, role.Keys, t, i, pte');
        EntryRoles(tab, dir, high, role, t, i, pte');
        EntryWalk(tab, dir, high, role, d, v, Some(pte'));
        MemKeptSame(mem, role, pool);
        tab := tab[t := tab[t][i := pte']];
        return;
      }
      var f := AllocFrame(zero);
      mem := mem[f := mem[pte.frame]];
      CopiedMem(old(mem), mem, old(pool), f);
      UnmapExact(ref, pool, tab, role.Keys, t, i);
      FreeFrame(pte.frame);
      var pte' := Pte(f, rw, user);
      MapExact(ref, pool, tab[t := tab[t] - {i}], role.Keys, t, i, pte');
      Overwrite(tab, t, tab[t] - {i}, (tab[t] - {i})[i := pte']);
      assert (tab[t] - {i})[i := pte'] == tab[t][i := pte'];
      EntryRoles(tab, dir, high, role, t, i, pte');
      DropPending(tab[t := tab[t][i := pte']], dir, high, role, f);
      EntryWalk(tab, dir, high, role, d, v, Some(pte'));
      tab := tab[t := tab[t][i := pte']];
      ghost var held := role.Keys;
      role := role - {f};
      assert role.Keys == held - {f} && role == old(role);
    }
  }

  ghost function Below(m: Table, n: int): Table { map i | i in m && i < n :: m[i] }

  lemma BelowAll(tab: Tables, dir: Dirs, high: map<int, seq<int>>, role: map<int, Role>, t: int)
    requires Roles(tab, dir, high, role) && t in tab
    ensures Below(tab[t], TABLE_ENTRIES) == tab[t] && Below(tab[t], 0) == map[]
  {
  }

  lemma PendingRoles(tab: Tables, dir: Dirs, high: map<int, seq<int>>, role: map<int, Role>, f: int)
    requires Roles(tab, dir, high, role) && f !in role
    ensures Roles(tab, dir, high, role[f := Pending])
  {
  }

  lemma CopyRoles(tab: Tables, dir: Dirs, high: map<int, seq<int>>, role: map<int, Role>, copy: int, t: int)
    requires Roles(tab, dir, high, role) && t in tab && copy !in role
    ensures Roles(tab[copy := tab[t]], dir, high, role[copy := Pending])
  {
  }

  lemma BelowStep(m: Table, n: int)
    ensures Below(m, n + 1) == if n in m then Below(m, n)[n := m[n]] else Below(m, n)
    ensures n !in Below(m, n)
  {
  }

  /** Old roles are kept, and nothing new is left pending. */
  ghost predicate Extends(was: map<int, Role>, now: map<int, Role>) {
    && (forall f :: f in was ==> f in now && now[f] == was[f])
    && (forall f :: f in now && now[f].Pending? ==> f in was)
  }

  /** Only frames taken from the pool may have new contents. */
  ghost predicate Subseq(a: seq<int>, b: seq<int>) { forall f :: f in a ==> f in b }

  lemma MemKeptSame(mem: seq<Page>, role: map<int, Role>, pool: seq<int>)
    ensures MemKept(mem, mem, pool) && Extends(role, role)
  {
  }

  ghost predicate MemKept(was: seq<Page>, now: seq<Page>, pool: seq<int>) {
    |now| == |was| && forall f :: 0 <= f < |was| && f !in pool ==> now[f] == was[f]
  }

  ghost function IndexOf(s: seq<int>, f: int): int {
    if f in s then (var i :| 0 <= i < |s| && s[i] == f; i) else 0
  }

  /** frames are distinct, newly allocated and not linked anywhere yet. */
  ghost predicate Fresh(frames: seq<int>, tab: Tables, was: map<int, Role>, now: map<int, Role>) {
    && Distinct(frames)
    && (forall f :: f in frames ==> f !in was && f in now && now[f] == Pending && f !in tab)
    && (forall f :: f in was ==> f in now && now[f] == was[f])
    && (forall f :: f in now ==> f in was || f in frames)
  }

  lemma FreshNone(tab: Tables, now: map<int, Role>)
    ensures Fresh([], tab, now, now)
  {
  }

  lemma FreshMore(frames: seq<int>, tab: Tables, was: map<int, Role>, now: map<int, Role>, f: int)
    requires Fresh(frames, tab, was, now) && f !in now && f !in tab
    ensures Fresh(frames + [f], tab, was, now[f := Pending])
  {
    assert forall g :: g in frames + [f] <==> g in frames || g == f;
  }

  ghost function WithHigh(role: map<int, Role>, d: int, frames: seq<int>): map<int, Role> {
    map f | f in role :: if f in frames then HighOf(d, IndexOf(frames, f)) else role[f]
  }

  lemma NewDirExtends(tab: Tables, was: map<int, Role>, now: map<int, Role>, d: int, frames: seq<int>)
    requires Fresh(frames, tab, was, now)
    ensures Extends(was, WithHigh(now, d, frames))
  {
  }

  lemma NewDirRoles(tab: Tables, dir: Dirs, high: map<int, seq<int>>, role: map<int, Role>, d: int, frames: seq<int>)
    requires Roles(tab, dir, high, role) && |frames| == NR_HIGH_PAGES && d == frames[NR_HIGH_PAGES - 1]
    requires forall f :: f in frames ==> f in role && role[f] == Pending && f !in tab
    requires Distinct(frames)
    ensures d !in dir && Roles(tab, dir[d := map[]], high[d := frames], WithHigh(role, d, frames))
  {
    assert d in frames;
    forall i | 0 <= i < |frames| ensures IndexOf(frames, frames[i]) == i && frames[i] in frames {
    }
  }

  ghost predicate HusksOk(husks: seq<int>, dir: Dirs) {
    && Distinct(husks) && |husks| <= MAX_HUSKS
    && forall d :: d in husks ==> d in dir && dir[d] == map[]
  }

  /** The old tables are as they were, and d's tables hold what src's hold. */
  ghost predicate ClonedTables(was: Tables, now: Tables, dir: Dirs, src: int, d: int) {
    && src in dir && d in dir
    && (forall t :: t in was ==> t in now && now[t] == was[t])
    && (forall k :: k in dir[d] ==>
          && k in dir[src] && dir[src][k] in was && dir[d][k] in now && dir[d][k] !in was
          && now[dir[d][k]] == was[dir[src][k]])
  }

  /** a's keys are b's keys below n. */
  ghost predicate UpTo(a: map<int, int>, b: map<int, int>, n: int) {
    a.Keys == set k | k in b && k < n
  }

  lemma Overwrite<K, V>(m: map<K, V>, k: K, v: V, w: V)
    ensures m[k := v][k := w] == m[k := w]
  {
  }

  lemma UpToNone(a: map<int, int>, b: map<int, int>)
    requires a == map[] && forall k :: k in b ==> 0 <= k
    ensures UpTo(a, b, 0)
  {
  }

  lemma UpToStep(a: map<int, int>, b: map<int, int>, k: int, a': map<int, int>)
    requires UpTo(a, b, k) && a'.Keys == if k in b then a.Keys + {k} else a.Keys
    ensures UpTo(a', b, k + 1)
  {
  }

  lemma UpToAll(a: map<int, int>, b: map<int, int>, n: int)
    requires UpTo(a, b, n) && forall k :: k in b ==> k < n
    ensures a.Keys == b.Keys
  {
  }

  lemma HusksKept(husks: seq<int>, was: Dirs, now: Dirs, d: int)
    requires HusksOk(husks, was) && d !in husks && d in now && now == was[d := now[d]]
    ensures HusksOk(husks, now)
  {
  }

  lemma HusksApart(husks: seq<int>, dir: Dirs)
    requires HusksOk(husks, dir)
    ensures |husks| <= MAX_HUSKS && forall d :: d in husks ==> d in dir
  {
  }

  lemma ClonedNothing(tab: Tables, dir: Dirs, src: int, d: int)
    requires src in dir && d in dir && dir[d] == map[]
    ensures ClonedTables(tab, tab, dir, src, d)
  {
  }

  lemma ClonedStep(was: Tables, now: Tables, dir: Dirs, src: int, d: int, k: int, copy: int)
    requires src in dir && d in dir && d != src && k in dir[src] && k !in dir[d]
    requires ClonedTables(was, now, dir, src, d) && dir[src][k] in now && copy !in now && dir[src][k] in was
    ensures ClonedTables(was, now[copy := now[dir[src][k]]], dir[d := dir[d][k := copy]], src, d)
  {
    var dir', now' := dir[d := dir[d][k := copy]], now[copy := now[dir[src][k]]];
    forall j | j in dir'[d]
      ensures
        && j in dir'[src] && dir'[src][j] in was && dir'[d][j] in now' && dir'[d][j] !in was
        && now'[dir'[d][j]] == was[dir'[src][j]]
    {
      if j != k {
        assert j in dir[d] && dir[d][j] != copy;
        assert now'[dir[d][j]] == now[dir[d][j]];
      } else {
        var t := dir[src][k];
        assert now[t] == was[t];
      }
    }
  }

  lemma ExtendsTrans(a: map<int, Role>, b: map<int, Role>, c: map<int, Role>)
    requires Extends(a, b) && Extends(b, c)
    ensures Extends(a, c)
  {
  }

  lemma MemKeptTrans(a: seq<Page>, b: seq<Page>, c: seq<Page>, pool: seq<int>, pool': seq<int>)
    requires MemKept(a, b, pool) && MemKept(b, c, pool') && Subseq(pool', pool)
    ensures MemKept(a, c, pool)
  {
  }

  lemma SmallerMap(a: map<int, int>, b: map<int, int>, k: int)
    requires UpTo(a, b, k) && k in b
    ensures k !in a && |a| < |b|
  {
    assert a.Keys + {k} <= b.Keys;
    SubsetSize(a.Keys + {k}, b.Keys);
  }

  lemma OwnedTable(tab: Tables, dir: Dirs, high: map<int, seq<int>>, role: map<int, Role>, d: int, k: int)
    requires Roles(tab, dir, high, role) && d in dir && k in dir[d]
    ensures 0 <= k < KERNEL_PDI && dir[d][k] in tab && dir[d][k] in role && role[dir[d][k]] == TableOf(d, k)
  {
    var t := dir[d][k];
    assert t in role && role[t].TableOf?;
    assert t in tab;
  }

  lemma OwnedRange(tab: Tables, dir: Dirs, high: map<int, seq<int>>, role: map<int, Role>, d: int)
    requires Roles(tab, dir, high, role) && d in dir
    ensures forall k :: k in dir[d] ==> 0 <= k < KERNEL_PDI && dir[d][k] in tab
  {
    forall k | k in dir[d] ensures dir[d][k] in tab { OwnedTable(tab, dir, high, role, d, k); }
  }

  lemma LinkRoles(tab: Tables, dir: Dirs, high: map<int, seq<int>>, role: map<int, Role>, d: int, k: int, t: int)
    requires Roles(tab, dir, high, role) && d in dir && k !in dir[d] && 0 <= k < KERNEL_PDI
    requires t in tab && t in role && role[t] == Pending
    ensures Roles(tab, dir[d := dir[d][k := t]], high, role[t := TableOf(d, k)])
  {
  }

  lemma ApplyNone(m: Table, lo: int, hi: int, fn: ApplyFn)
    requires hi <= lo
    ensures ApplyTable(m, lo, hi, fn) == m
  {
  }

  lemma ApplyKeys(m: Table, lo: int, hi: int, fn: ApplyFn)
    ensures ApplyTable(m, lo, hi, fn).Keys <= m.Keys
  {
  }

  lemma ApplyStep(m: Table, lo: int, i: int, fn: ApplyFn)
    requires lo <= i
    ensures var a, b := ApplyTable(m, lo, i, fn), ApplyTable(m, lo, i + 1, fn);
            if i in a then b == (if fn.Unmap? then a - {i} else a[i := a[i].(rw := false)]) else b == a
  {
  }

  lemma SubTableRoles(tab: Tables, dir: Dirs, high: map<int, seq<int>>, role: map<int, Role>, t: int, m: Table)
    requires Roles(tab, dir, high, role) && t in tab && m.Keys <= tab[t].Keys
    ensures Roles(tab[t := m], dir, high, role)
  {
    forall i | i in m ensures 0 <= i < TABLE_ENTRIES { assert i in tab[t]; }
  }

  /** Whether t is a table of directory d that pm_apply has dealt with when it reaches entry `upto`. */
  ghost predicate Visited(role: map<int, Role>, t: int, d: int, start: int, upto: int) {
    t in role && role[t].TableOf? && role[t].dir == d && Pdi(start) <= role[t].pdi < upto
  }

  ghost function Processed(role: map<int, Role>, m: Table, t: int, d: int, start: int, end: int, upto: int, fn: ApplyFn): Table {
    if Visited(role, t, d, start, upto)
    then ApplyTable(m, FirstPti(start, role[t].pdi), LastPti(end, role[t].pdi) + 1, fn) else m
  }

  ghost predicate Applied(was: Tables, now: Tables, role: map<int, Role>, d: int, start: int, end: int, upto: int, fn: ApplyFn) {
    && now.Keys == was.Keys
    && forall t :: t in was ==> t in now && now[t] == Processed(role, was[t], t, d, start, end, upto, fn)
  }

  lemma AppliedNone(tab: Tables, role: map<int, Role>, d: int, start: int, end: int, upto: int, fn: ApplyFn)
    requires upto <= Pdi(start)
    ensures Applied(tab, tab, role, d, start, end, upto, fn)
  {
  }

  lemma AppliedEmpty(was: Tables, now: Tables, role: map<int, Role>, d: int, start: int, end: int, upto: int, upto': int, fn: ApplyFn)
    requires Applied(was, now, role, d, start, end, upto, fn) && upto' <= upto
    requires upto == upto' || upto == Pdi(start)
    ensures Applied(was, now, role, d, start, end, upto', fn)
  {
  }

  lemma AppliedStep(was: Tables, mid: Tables, now: Tables, dir: Dirs, high: map<int, seq<int>>, role: map<int, Role>,
                    d: int, start: int, end: int, k: int, fn: ApplyFn)
    requires Roles(mid, dir, high, role) && d in dir && Pdi(start) <= k
    requires Applied(was, mid, role, d, start, end, k, fn)
    requires if k in dir[d]
             then dir[d][k] in mid &&
                  now == mid[dir[d][k] := ApplyTable(mid[dir[d][k]], FirstPti(start, k), LastPti(end, k) + 1, fn)]
             else now == mid
    ensures Applied(was, now, role, d, start, end, k + 1, fn)
  {
    hide ApplyTable, FirstPti, LastPti, Pdi;
    forall t | t in was ensures t in now && now[t] == Processed(role, was[t], t, d, start, end, k + 1, fn) {
      assert t in mid && mid[t] == Processed(role, was[t], t, d, start, end, k, fn);
      if k in dir[d] {
        var u := dir[d][k];
        OwnedTable(mid, dir, high, role, d, k);
        assert now[u] == ApplyTable(mid[u], FirstPti(start, k), LastPti(end, k) + 1, fn);
      }
      if t in role && role[t].TableOf? { assert dir[role[t].dir][role[t].pdi] == t; }
    }
  }

  // ---------------------------------------------------------------- facts about dropping tables and directories

  ghost function Elems(s: seq<int>): set<int> { set f | f in s }

  ghost function From(m: map<int, int>, n: int): map<int, int> { map k | k in m && k >= n :: m[k] }

  lemma FromStep(m: map<int, int>, n: int)
    ensures From(m, n + 1) == (if n in From(m, n) then From(m, n) - {n} else From(m, n))
  {
  }

  lemma HeldOnce(ref: seq<nat>, pool: seq<int>, tab: Tables, held: set<int>, f: int)
    requires Exact(ref, pool, tab, held) && f in held
    ensures 0 <= f < |ref| && ref[f] == 1
  {
  }

  lemma EmptiedTable(tab: Tables, dir: Dirs, high: map<int, seq<int>>, role: map<int, Role>, t: int)
    requires Roles(tab, dir, high, role) && t in tab
    ensures ApplyTable(tab[t], 0, TABLE_ENTRIES, Unmap) == map[]
  {
    forall i | i in tab[t] ensures 0 <= i < TABLE_ENTRIES {
    }
  }

  lemma UnlinkRoles(tab: Tables, dir: Dirs, high: map<int, seq<int>>, role: map<int, Role>, d: int, k: int)
    requires Roles(tab, dir, high, role) && d in dir && k in dir[d]
    ensures Roles(tab - {dir[d][k]}, dir[d := dir[d] - {k}], high, role - {dir[d][k]})
  {
    OwnedTable(tab, dir, high, role, d, k);
  }

  /** After the loop of husk_pgdir reached entry k: d's tables below k are gone, everything else is as it was. */
  ghost predicate TablesFrom(tab0: Tables, tab: Tables, role0: map<int, Role>, role: map<int, Role>, d: int, k: int) {
    && (forall t :: t in tab <==> t in tab0 && !(t in role0 && role0[t].TableOf? && role0[t].dir == d && role0[t].pdi < k))
    && (forall t :: t in tab ==> tab[t] == tab0[t])
    && (forall f :: f in role <==> f in role0 && !(role0[f].TableOf? && role0[f].dir == d && role0[f].pdi < k))
    && (forall f :: f in role ==> role[f] == role0[f])
  }

  ghost predicate WithoutTables(tab0: Tables, tab: Tables, role0: map<int, Role>, role: map<int, Role>, d: int) {
    TablesFrom(tab0, tab, role0, role, d, KERNEL_PDI)
  }

  lemma AllTablesThere(tab: Tables, dir: Dirs, high: map<int, seq<int>>, role: map<int, Role>, d: int)
    requires Roles(tab, dir, high, role) && d in dir
    ensures TablesFrom(tab, tab, role, role, d, 0) && From(dir[d], 0) == dir[d]
  {
  }

  lemma DropTableStep(tab0: Tables, tab: Tables, dir: Dirs, high: map<int, seq<int>>, role0: map<int, Role>, role: map<int, Role>, d: int, k: int)
    requires Roles(tab, dir, high, role) && d in dir && k in dir[d] && TablesFrom(tab0, tab, role0, role, d, k)
    ensures TablesFrom(tab0, tab - {dir[d][k]}, role0, role - {dir[d][k]}, d, k + 1)
  {
    OwnedTable(tab, dir, high, role, d, k);
    var u := dir[d][k];
    forall f | f in role && role[f].TableOf? && role[f].dir == d && role[f].pdi == k ensures f == u {
    }
  }

  lemma SkipTableStep(tab0: Tables, tab: Tables, dir: Dirs, high: map<int, seq<int>>, role0: map<int, Role>, role: map<int, Role>, d: int, k: int)
    requires Roles(tab, dir, high, role) && d in dir && k !in dir[d] && TablesFrom(tab0, tab, role0, role, d, k)
    ensures TablesFrom(tab0, tab, role0, role, d, k + 1)
  {
  }

  lemma FromNothing(tab: Tables, dir: Dirs, high: map<int, seq<int>>, role: map<int, Role>, d: int)
    requires Roles(tab, dir, high, role) && d in dir
    ensures From(dir[d], KERNEL_PDI) == map[]
  {
  }

  lemma NoTablesLeft(tab0: Tables, tab: Tables, role0: map<int, Role>, role: map<int, Role>, d: int)
    requires TablesFrom(tab0, tab, role0, role, d, KERNEL_PDI)
    ensures WithoutTables(tab0, tab, role0, role, d)
  {
  }

  lemma HighFrames(tab: Tables, dir: Dirs, high: map<int, seq<int>>, role: map<int, Role>, d: int)
    requires Roles(tab, dir, high, role) && d in dir
    ensures d in high && |high[d]| == NR_HIGH_PAGES && Distinct(high[d])
    ensures forall f :: f in high[d] ==> f in role && f !in tab
  {
    forall i | 0 <= i < NR_HIGH_PAGES ensures role[high[d][i]] == HighOf(d, i) {
    }
  }

  ghost predicate DropsHigh(was: map<int, Role>, now: map<int, Role>, d: int) {
    && (forall f :: f in now <==> f in was && !(was[f].HighOf? && was[f].dir == d))
    && (forall f :: f in now ==> now[f] == was[f])
  }

  lemma DropDirRoles(tab: Tables, dir: Dirs, high: map<int, seq<int>>, role: map<int, Role>, d: int)
    requires Roles(tab, dir, high, role) && d in dir && dir[d] == map[]
    ensures d in high && Roles(tab, dir - {d}, high - {d}, role - Elems(high[d]))
    ensures DropsHigh(role, role - Elems(high[d]), d)
  {
    HighFrames(tab, dir, high, role, d);
    forall f | f in role && f in high[d] ensures role[f].HighOf? && role[f].dir == d {
      var i :| 0 <= i < NR_HIGH_PAGES && high[d][i] == f;
      assert role[high[d][i]] == HighOf(d, i);
    }
  }

  lemma DropsHighSub(was: map<int, Role>, now: map<int, Role>, d: int)
    requires DropsHigh(was, now, d)
    ensures forall f :: f in now ==> f in was && now[f] == was[f]
    ensures forall f :: f in was && was[f].TableOf? ==> f in now
  {
  }

  lemma WithoutTablesSub(tab0: Tables, tab: Tables, role0: map<int, Role>, role: map<int, Role>, d: int)
    requires WithoutTables(tab0, tab, role0, role, d)
    ensures forall f :: f in role ==> f in role0 && role[f] == role0[f]
    ensures forall t :: t in tab ==> t in tab0 && tab[t] == tab0[t]
  {
  }

  lemma HuskGone(husks: seq<int>, dir: Dirs)
    requires HusksOk(husks, dir) && husks != []
    ensures husks[0] in dir && dir[husks[0]] == map[] && husks[0] !in husks[1..]
    ensures HusksOk(husks[1..], dir - {husks[0]})
  {
    assert husks[0] in husks;
    assert forall h :: h in husks[1..] ==> h in husks;
  }

  lemma HuskAdded(husks: seq<int>, dir: Dirs, d: int)
    requires HusksOk(husks, dir) && d in dir && d !in husks && |husks| < MAX_HUSKS
    ensures HusksOk([d] + husks, dir[d := map[]])
  {
  }

  /** Directories other than d keep all their tables. */
  lemma KeptTables(tab0: Tables, dir0: Dirs, high0: map<int, seq<int>>, role0: map<int, Role>,
                   tab: Tables, role1: map<int, Role>, role: map<int, Role>, d: int, husks: seq<int>)
    requires Roles(tab0, dir0, high0, role0) && WithoutTables(tab0, tab, role1, role, d)
    requires forall f :: f in role1 ==> f in role0 && role1[f] == role0[f]
    requires forall f :: f in role0 && role0[f].TableOf? ==> f in role1
    ensures forall e, k :: e in dir0 && e != d && k in dir0[e] ==> dir0[e][k] in tab
  {
    forall e, k | e in dir0 && e != d && k in dir0[e] ensures dir0[e][k] in tab {
      OwnedTable(tab0, dir0, high0, role0, e, k);
      var t := dir0[e][k];
      assert t in tab0 && role1[t] == TableOf(e, k);
    }
  }

  // ---------------------------------------------------------------- walks

  lemma WalkSlot(tab: Tables, dir: Dirs, d: int, v: int)
    requires d in dir
    ensures var k, i := v / TABLE_ENTRIES, v % TABLE_ENTRIES;
            && (Walk(tab, dir[d], v).Some? ==>
                  k in dir[d] && dir[d][k] in tab && i in tab[dir[d][k]] && Walk(tab, dir[d], v) == Some(tab[dir[d][k]][i]))
            && (Walk(tab, dir[d], v).None? && k in dir[d] && dir[d][k] in tab ==> i !in tab[dir[d][k]])
            && 0 <= i < TABLE_ENTRIES
  {
  }

  /** Two walks end in the same slot only if they start from the same directory and page. */
  lemma WalkInjective(tab: Tables, dir: Dirs, high: map<int, seq<int>>, role: map<int, Role>, d: int, v: int, e: int, w: int)
    requires Roles(tab, dir, high, role) && d in dir && e in dir
    requires Walk(tab, dir[d], v).Some? && Walk(tab, dir[e], w).Some?
    requires dir[d][v / TABLE_ENTRIES] == dir[e][w / TABLE_ENTRIES] && v % TABLE_ENTRIES == w % TABLE_ENTRIES
    ensures d == e && v == w
  {
    OwnedTable(tab, dir, high, role, d, v / TABLE_ENTRIES);
    OwnedTable(tab, dir, high, role, e, w / TABLE_ENTRIES);
  }

  lemma EntryWalk(tab: Tables, dir: Dirs, high: map<int, seq<int>>, role: map<int, Role>, d: int, v: int, pte: Option<Pte>)
    requires Roles(tab, dir, high, role) && d in dir && 0 <= v && v / TABLE_ENTRIES in dir[d]
    requires pte.Some?
    ensures dir[d][v / TABLE_ENTRIES] in tab
    ensures var t, i := dir[d][v / TABLE_ENTRIES], v % TABLE_ENTRIES;
            forall e, w :: e in dir && 0 <= w ==>
              Walk(tab[t := tab[t][i := pte.value]], dir[e], w) == if e == d && w == v then pte else Walk(tab, dir[e], w)
  {
    OwnedTable(tab, dir, high, role, d, v / TABLE_ENTRIES);
    var t, i := dir[d][v / TABLE_ENTRIES], v % TABLE_ENTRIES;
    var tab' := tab[t := tab[t][i := pte.value]];
    forall e, w | e in dir && 0 <= w ensures Walk(tab', dir[e], w) == if e == d && w == v then pte else Walk(tab, dir[e], w) {
      var k := w / TABLE_ENTRIES;
      if k in dir[e] {
        OwnedTable(tab, dir, high, role, e, k);
        if dir[e][k] == t { assert e == d && k == v / TABLE_ENTRIES; }
      }
    }
  }

  lemma NewTableWalk(tab: Tables, dir: Dirs, high: map<int, seq<int>>, role: map<int, Role>, d: int, k: int, t: int)
    requires Roles(tab, dir, high, role) && d in dir && k !in dir[d] && t !in tab
    ensures forall e, w :: e in dir && 0 <= w ==>
              Walk(tab[t := map[]], dir[d := dir[d][k := t]][e], w) == Walk(tab, dir[e], w)
  {
  }

  lemma NewTableRoles(tab: Tables, dir: Dirs, high: map<int, seq<int>>, role: map<int, Role>, d: int, k: int, t: int)
    requires Roles(tab, dir, high, role) && d in dir && k !in dir[d] && 0 <= k < KERNEL_PDI && t !in tab
    requires t in role && role[t] == Pending
    ensures Roles(tab[t := map[]], dir[d := dir[d][k := t]], high, role[t := TableOf(d, k)])
  {
  }

  lemma EntryRoles(tab: Tables, dir: Dirs, high: map<int, seq<int>>, role: map<int, Role>, t: int, i: int, pte: Pte)
    requires Roles(tab, dir, high, role) && t in tab && 0 <= i < TABLE_ENTRIES
    ensures Roles(tab[t := tab[t][i := pte]], dir, high, role)
  {
  }

  lemma SameSize(a: map<int, int>, b: map<int, int>)
    requires a.Keys == b.Keys
    ensures |a| == |b|
  {
    assert |a| == |a.Keys| && |b| == |b.Keys|;
  }

  lemma DropPending(tab: Tables, dir: Dirs, high: map<int, seq<int>>, role: map<int, Role>, f: int)
    requires Roles(tab, dir, high, role) && f in role && role[f] == Pending && f !in tab
    ensures Roles(tab, dir, high, role - {f})
  {
    var now := role - {f};
    assert forall g :: g in role && g != f ==> g in now && now[g] == role[g];
    assert forall g :: g in now ==> g in role && now[g] == role[g];
    assert forall d, k :: d in dir && k in dir[d] ==> dir[d][k] != f;
    assert forall d, i :: d in high && 0 <= i < NR_HIGH_PAGES ==> high[d][i] != f;
  }

  lemma ExtendsRole(was: map<int, Role>, now: map<int, Role>, f: int)
    requires Extends(was, now) && f in was
    ensures f in now && now[f] == was[f]
  {
  }

  lemma ExtendsDrop(was: map<int, Role>, now: map<int, Role>, f: int)
    requires Extends(was, now) && f in was && was[f] == Pending
    ensures Extends(was - {f}, now - {f})
  {
  }

  lemma CopiedMem(was: seq<Page>, now: seq<Page>, pool: seq<int>, f: int)
    requires f in pool && |now| == |was| && forall g :: 0 <= g < |was| && g != f ==> now[g] == was[g]
    ensures MemKept(was, now, pool)
  {
  }

  /** What pm_apply did, as seen by page walks of every address space. */
  lemma AppliedWalk(was: Tables, now: Tables, dir: Dirs, high: map<int, seq<int>>, role: map<int, Role>,
                    d: int, start: int, end: int, fn: ApplyFn, e: int, v: int)
    requires Roles(was, dir, high, role) && d in dir && e in dir && 0 <= v
    requires Aligned(start) && Aligned(end) && 0 <= start <= end && 0 < end
    requires Applied(was, now, role, d, start, end, Pdi(end - 1) + 1, fn)
    ensures Walk(now, dir[e], v) ==
            if e == d && start / FRAME_SIZE <= v < end / FRAME_SIZE then ApplyOpt(fn, Walk(was, dir[e], v))
            else Walk(was, dir[e], v)
  {
    hide FirstPti, LastPti, Pdi, Aligned;
    var k, i := v / TABLE_ENTRIES, v % TABLE_ENTRIES;
    VisitedExactly(start, end, v);
    if k in dir[e] {
      OwnedTable(was, dir, high, role, e, k);
      var t := dir[e][k];
      assert t in was && now[t] == Processed(role, was[t], t, d, start, end, Pdi(end - 1) + 1, fn);
    }
  }

  /** A cloned directory maps what the original maps; other address spaces are untouched. */
  lemma ClonedWalk(was: Tables, now: Tables, dir0: Dirs, dir: Dirs, high: map<int, seq<int>>, role: map<int, Role>,
                   src: int, d: int, e: int, v: int)
    requires Roles(was, dir0, high, role) && src in dir0 && d in dir && dir == dir0[d := dir[d]] && src != d
    requires ClonedTables(was, now, dir, src, d) && dir[d].Keys == dir[src].Keys
    requires e == d || e in dir0
    ensures Walk(now, dir[e], v) == Walk(was, dir0[if e == d then src else e], v)
  {
    var k := v / TABLE_ENTRIES;
    var o := if e == d then src else e;
    if k in dir0[o] {
      OwnedTable(was, dir0, high, role, o, k);
      var t := dir0[o][k];
      assert t in now && now[t] == was[t];
    }
  }

  lemma KeptWalk(was: Tables, now: Tables, dir0: Dirs, dir: Dirs, high: map<int, seq<int>>, role: map<int, Role>, e: int, v: int)
    requires Roles(was, dir0, high, role) && e in dir0 && e in dir && dir[e] == dir0[e]
    requires forall t :: t in now ==> t in was && now[t] == was[t]
    requires forall k :: k in dir0[e] ==> dir0[e][k] in now
    ensures Walk(now, dir[e], v) == Walk(was, dir0[e], v)
  {
    var k := v / TABLE_ENTRIES;
    if k in dir0[e] {
      var t := dir0[e][k];
      assert t in now && now[t] == was[t];
    }
  }


  ghost function ReservedRoles(n: nat): (r: map<int, Role>)
    ensures forall f :: f in r <==> 0 <= f < n
    ensures forall f :: f in r ==> r[f] == Reserved
  {
    if n == 0 then map[] else ReservedRoles(n - 1)[n - 1 := Reserved]
  }

  lemma InitialExact(ref: seq<nat>, pool: seq<int>, tableFrames: nat, frames: nat)
    requires tableFrames <= frames == |ref| && |pool| == frames - tableFrames
    requires forall i :: 0 <= i < |ref| ==> ref[i] == if i < tableFrames then 1 else 0
    requires forall i :: 0 <= i < |pool| ==> pool[i] == tableFrames + i
    ensures Exact(ref, pool, map[], ReservedRoles(tableFrames).Keys)
    ensures Roles(map[], map[], map[], ReservedRoles(tableFrames))
  {
    forall f | 0 <= f < |ref| ensures f in pool <==> ref[f] == 0 {
      if f >= tableFrames { assert pool[f - tableFrames] == f; }
    }
    assert forall f :: Users(map[], f) == {};
  }
}
