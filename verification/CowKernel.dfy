/** The kernel's address-space operations, proved to refine the eager-copying machine. */
module CowKernel {
  import opened Machine
  import opened VmaList
  import opened FrameTable
  import opened Paging
  import opened AddressSpaces
  import MmStruct
  import Eager

  /** Every directory belongs to one process or is a husk. */
  ghost predicate DirsOwned(procs: map<int, Proc>, dir: Dirs, husks: seq<int>) {
    && (forall p :: p in procs ==> procs[p].pgdir in dir && procs[p].pgdir !in husks)
    && (forall p, q :: p in procs && q in procs && p != q ==> procs[p].pgdir != procs[q].pgdir)
    && (forall d :: d in dir ==> d in husks || exists p :: p in procs && procs[p].pgdir == d)
  }

  ghost predicate AreasOk(procs: map<int, Proc>) { forall p :: p in procs ==> Eager.UserAreas(procs[p].areas) }

  ghost predicate NonePending(role: map<int, Role>) { forall f :: f in role ==> !role[f].Pending? }

  predicate Allows(e: Option<Pte>, write: bool) { e.Some? && e.value.user && (write ==> e.value.rw) }

  // ---------------------------------------------------------------- from walks to entries

  /** A frame some process maps is neither free nor held by the kernel. */
  lemma EntryNotFree(s: View, ref: seq<nat>, pool: seq<int>, held: set<int>)
    requires Exact(ref, pool, s.tab, held)
    ensures forall q, w :: Entry(s, q, w).Some? ==>
              var f := Entry(s, q, w).value.frame; 0 <= f < |ref| && f !in pool && f !in held && Users(s.tab, f) != {}
  {
    hide Exact, Walk;
    forall q, w | Entry(s, q, w).Some?
      ensures var f := Entry(s, q, w).value.frame; 0 <= f < |ref| && f !in pool && f !in held && Users(s.tab, f) != {}
    {
      WalkSlot(s.tab, s.dir, s.procs[q].pgdir, w);
      var t, i := s.dir[s.procs[q].pgdir][w / TABLE_ENTRIES], w % TABLE_ENTRIES;
      MappedNotFree(ref, pool, s.tab, held, t, i);
      assert (t, i) in Users(s.tab, s.tab[t][i].frame);
    }
  }

  /** Two entries naming a frame with one reference are the same entry. */
  lemma OneReference(s: View, ref: seq<nat>, pool: seq<int>, high: map<int, seq<int>>, role: map<int, Role>, husks: seq<int>,
                     p: int, v: int, q: int, w: int)
    requires Exact(ref, pool, s.tab, role.Keys) && Roles(s.tab, s.dir, high, role) && DirsOwned(s.procs, s.dir, husks)
    requires SameFrame(s, p, v, q, w) && 0 <= Entry(s, p, v).value.frame < |ref| && ref[Entry(s, p, v).value.frame] == 1
    ensures p == q && v == w
  {
    hide Exact, Roles, Walk;
    var d, e := s.procs[p].pgdir, s.procs[q].pgdir;
    WalkSlot(s.tab, s.dir, d, v);
    WalkSlot(s.tab, s.dir, e, w);
    SoleUser(ref, pool, s.tab, role.Keys, s.dir[d][v / TABLE_ENTRIES], v % TABLE_ENTRIES, s.dir[e][w / TABLE_ENTRIES], w % TABLE_ENTRIES);
    WalkInjective(s.tab, s.dir, high, role, d, v, e, w);
  }

  /** Setting one entry of one directory sets one entry of one process. */
  lemma OneEntry(s: View, s': View, husks: seq<int>, p: int, v: int, pte: Option<Pte>)
    requires DirsOwned(s.procs, s.dir, husks) && s'.procs == s.procs && s'.dir.Keys == s.dir.Keys
    requires p in s.procs && Eager.InUser(v)
    requires forall e, w :: e in s'.dir && 0 <= w ==>
               Walk(s'.tab, s'.dir[e], w) == if e == s.procs[p].pgdir && w == v then pte else Walk(s.tab, s.dir[e], w)
    ensures forall q, w :: Entry(s', q, w) == if q == p && w == v then pte else Entry(s, q, w)
  {
    hide Walk;
  }

  lemma PageAttrAt(areas: seq<Vma>, k: nat, a: int)
    requires Wf(areas) && k < |areas| && Contains(areas[k], a)
    ensures Eager.PageAttr(areas, a / FRAME_SIZE) == Some(AttrOf(areas[k], a / FRAME_SIZE * FRAME_SIZE))
  {
    var x := a / FRAME_SIZE * FRAME_SIZE;
    assert Contains(areas[k], x);
    AtIndex(areas, k, x);
  }

  class Kernel {
    const pm: PageMaps
    var procs: map<int, Proc>

    ghost function Snap(): View
      reads this, pm
    {
      View(pm.tab, pm.dir, procs, pm.mem)
    }

    ghost predicate Valid()
      reads this, pm
    {
      && pm.Sound() && HusksOk(pm.husks, pm.dir) && NonePending(pm.role)
      && DirsOwned(procs, pm.dir, pm.husks) && AreasOk(procs) && CowInv(Snap())
    }

    /** The state of the eager machine this kernel stands for. */
    ghost function Memory(): Eager.State
      reads this, pm
    {
      Abs(Snap())
    }

    /** Boot: a frame pool and no processes. */
    constructor (frames: nat, tableFrames: nat, initial: seq<Page>)
      requires tableFrames <= frames == |initial|
      ensures Valid() && Memory() == map[] && fresh(pm)
    {
      pm := new PageMaps(frames, tableFrames, initial);
      procs := map[];
    }

    /** The page table entry the processor finds. */
    function Lookup(p: int, a: int): Option<Pte>
      requires p in procs && procs[p].pgdir in pm.dir
      reads this, pm
    {
      Walk(pm.tab, pm.dir[procs[p].pgdir], a / FRAME_SIZE)
    }

    /** Frames for a page without an entry: the page's own, and a page table if there is none. */
    function MapFrames(p: int, a: int, filled: bool): nat
      requires p in procs && procs[p].pgdir in pm.dir
      reads this, pm
    {
      if filled && a / FRAME_SIZE / TABLE_ENTRIES !in pm.dir[procs[p].pgdir] then 2 else 1
    }

    /** A frame for a page of a file that cannot be read: it is allocated and given back. */
    method FillFails(p: int, a: int, zero: bool)
      requires Valid() && p in procs && procs[p].pgdir in pm.dir && pm.pool != []
      modifies pm
      ensures Valid() && Memory() == old(Memory()) && |pm.pool| == old(|pm.pool|)
      ensures procs[p].pgdir in pm.dir && Lookup(p, a) == old(Lookup(p, a))
    {
      hide Exact, Roles, CowInv, DirsOwned, Wf, HusksOk, Walk, Abs;
      ghost var s := Snap();
      EntryNotFree(s, pm.ref, pm.pool, pm.role.Keys);
      var f := pm.AllocFrame(zero);
      pm.ReturnFrame(f);
      assert pm.role == old(pm.role);
      AllocUnseen(s, Snap(), f);
    }

    /** vm_map_page for a page without an entry; `fill` is what reading a file-backed page returned. */
    method MapPage(p: int, a: int, k: nat, fill: Option<Page>) returns (ok: bool)
      requires Valid() && p in procs && 0 <= a < KERNEL_BASE
      requires k < |procs[p].areas| && Contains(procs[p].areas[k], a)
      requires procs[p].pgdir in pm.dir && Lookup(p, a).None?
      requires |pm.pool| >= MapFrames(p, a, procs[p].areas[k].back.Anon? || fill.Some?)
      modifies pm
      ensures Valid() && Memory() == old(Memory()) && procs[p].pgdir in pm.dir
      ensures ok <==> procs[p].areas[k].back.Anon? || fill.Some?
      ensures |pm.pool| == old(|pm.pool|) - if ok then old(MapFrames(p, a, true)) else 0
      ensures Lookup(p, a).Some? <==> ok
      ensures ok ==> RefOf(pm.ref, Lookup(p, a).value.frame) == 1
      ensures ok ==> Lookup(p, a).value.rw == procs[p].areas[k].flags.write && Lookup(p, a).value.user == procs[p].areas[k].flags.read
    {
      hide Exact, Roles, CowInv, DirsOwned, Wf, HusksOk, Walk, Abs, RefOf;
      var area, v, d := procs[p].areas[k], a / FRAME_SIZE, procs[p].pgdir;
      ghost var s := Snap();
      EntryNotFree(s, pm.ref, pm.pool, pm.role.Keys);
      PageAttrAt(procs[p].areas, k, a);
      if area.back.File? && fill.None? {
        FillFails(p, a, area.flags.zero);
        return false;
      }
      var f := pm.AllocFrame(area.flags.zero);
      if area.back.File? { pm.mem := pm.mem[f := fill.value]; }
      pm.MapFrame(d, v, f, area.flags.write, area.flags.read);
      OneEntry(s, Snap(), old(pm.husks), p, v, Some(Pte(f, area.flags.write, area.flags.read)));
      FillStep(s, Snap(), p, v, Pte(f, area.flags.write, area.flags.read));
      OwnersKept(procs, old(pm.dir), pm.dir, pm.husks, p);
      ok := true;
    }

    /** vm_write_perm on a present page of a writable area. */
    method CopyOnWrite(p: int, a: int, k: nat)
      requires Valid() && p in procs && 0 <= a < KERNEL_BASE
      requires k < |procs[p].areas| && Contains(procs[p].areas[k], a) && procs[p].areas[k].flags.write
      requires procs[p].pgdir in pm.dir && Lookup(p, a).Some?
      requires RefOf(pm.ref, Lookup(p, a).value.frame) != 1 ==> pm.pool != []
      modifies pm
      ensures Valid() && Memory() == old(Memory()) && procs[p].pgdir in pm.dir
      ensures |pm.pool| == old(|pm.pool|) - if old(RefOf(pm.ref, Lookup(p, a).value.frame)) == 1 then 0 else 1
      ensures Lookup(p, a).Some? && RefOf(pm.ref, Lookup(p, a).value.frame) == 1
      ensures Lookup(p, a).Some? && Lookup(p, a).value.rw && Lookup(p, a).value.user == procs[p].areas[k].flags.read
    {
      hide Exact, Roles, DirsOwned, Wf, HusksOk, Walk, Abs;
      var area, v, d := procs[p].areas[k], a / FRAME_SIZE, procs[p].pgdir;
      ghost var s := Snap();
      EntryNotFree(s, pm.ref, pm.pool, pm.role.Keys);
      PageAttrAt(procs[p].areas, k, a);
      assert Entry(s, p, v) == Lookup(p, a) && Agrees(Attrs(s, p, v), Entry(s, p, v).value, |s.mem|);
      pm.CopyPage(d, v, area.flags.zero, true, area.flags.read);
      ghost var pte := Lookup(p, a).value;
      assert pte == Pte(pte.frame, true, area.flags.read);
      OneEntry(s, Snap(), pm.husks, p, v, Some(pte));
      forall q, w | Entry(s, q, w).Some? && (q != p || w != v) ensures Entry(s, q, w).value.frame != pte.frame {
        if Entry(s, q, w).value.frame == pte.frame {
          OneReference(Snap(), pm.ref, pm.pool, pm.high, pm.role, pm.husks, p, v, q, w);
        }
      }
      FillStep(s, Snap(), p, v, pte);
    }

    /** Frames that a fault takes from the pool; one for a page of a file that cannot be read is given back. */
    function FaultFrames(p: int, a: int, write: bool, fill: Option<Page>): nat
      requires p in procs && procs[p].pgdir in pm.dir
      reads this, pm
    {
      var k, e := MmStruct.GetIndex(procs[p].areas, a), Lookup(p, a);
      if k.None? || k.value >= |procs[p].areas| then 0
      else
        var area := procs[p].areas[k.value];
        if e.None? then MapFrames(p, a, area.back.Anon? || fill.Some?)
        else if write && area.flags.write && RefOf(pm.ref, e.value.frame) != 1 then 1
        else 0
    }

    /** exn_page_fault. None means the access is to be retried. */
    method PageFault(p: int, a: int, write: bool, fill: Option<Page>) returns (r: Option<Eager.Outcome>)
      requires Valid() && p in procs && 0 <= a < KERNEL_BASE
      requires procs[p].pgdir in pm.dir && !Allows(Lookup(p, a), write) && |pm.pool| >= FaultFrames(p, a, write, fill)
      modifies pm
      ensures Valid() && Memory() == old(Memory()) && procs[p].pgdir in pm.dir
      ensures |pm.pool| == old(|pm.pool|) - if r.None? then old(FaultFrames(p, a, write, fill)) else 0
      ensures r.None? ==> FaultFrames(p, a, write, fill) == 0
      ensures var k := MmStruct.GetIndex(procs[p].areas, a);
              && (r == Some(Eager.MapErr) <==>
                    k.None? || (old(Lookup(p, a)).None? && procs[p].areas[k.value].back.File? && fill.None?))
              && (r == Some(Eager.AccErr) <==>
                    k.Some? && old(Lookup(p, a)).Some? && !(write && procs[p].areas[k.value].flags.write))
              && r != Some(Eager.Done) && r != Some(Eager.FaultLoop)
              && (r.None? ==> k.Some? && Lookup(p, a).Some? && Lookup(p, a).value.user == procs[p].areas[k.value].flags.read
                              && Lookup(p, a).value.rw == procs[p].areas[k.value].flags.write)
    {
      hide Exact, Roles, DirsOwned, Wf, HusksOk, Walk, Abs, CowInv;
      var k := MmStruct.GetIndex(procs[p].areas, a);
      if k.None? {
        return Some(Eager.MapErr);
      }
      if Lookup(p, a).None? {
        var ok := MapPage(p, a, k.value, fill);
        return if ok then None else Some(Eager.MapErr);
      }
      if write && procs[p].areas[k.value].flags.write {
        CopyOnWrite(p, a, k.value);
        return None;
      }
      return Some(Eager.AccErr);
    }

    /** Frames that an access takes from the pool. */
    function AccessFrames(p: int, a: int, write: bool, fill: Option<Page>): nat
      requires p in procs && procs[p].pgdir in pm.dir
      reads this, pm
    {
      if Allows(Lookup(p, a), write) then 0 else FaultFrames(p, a, write, fill)
    }

    /**
     * One user-mode access at address a, with the faults it takes. A permitted access needs at most one
     * fault; an access to a write-only area faults for ever, because no fault ever makes the page accessible.
     */
    method Access(p: int, a: int, write: bool, fill: Option<Page>) returns (r: Eager.Outcome, faults: nat)
      requires Valid() && p in procs && 0 <= a < KERNEL_BASE && procs[p].pgdir in pm.dir && |pm.pool| >= AccessFrames(p, a, write, fill)
      modifies pm
      ensures Valid() && Memory() == old(Memory())
      ensures r == Eager.Done ==> |pm.pool| == old(|pm.pool| - AccessFrames(p, a, write, fill))
      ensures r == Eager.AccessOutcome(procs[p].areas, a, write) || (r == Eager.MapErr && fill.None? && FileBacked(procs[p].areas, a))
      ensures r == Eager.Done ==> faults <= 1 && procs[p].pgdir in pm.dir && Allows(Lookup(p, a), write)
    {
      hide Exact, Roles, DirsOwned, Wf, HusksOk, Walk, Abs;
      OwnDir(procs, pm.dir, pm.husks, p);
      OutcomeByIndex(procs[p].areas, a, write);
      ghost var k := MmStruct.GetIndex(procs[p].areas, a);
      faults := 0;
      if Allows(Lookup(p, a), write) {
        AllowedByArea(Snap(), p, a);
        return Eager.Done, faults;
      }
      var f := PageFault(p, a, write, fill);
      faults := 1;
      if f.Some? {
        if old(Lookup(p, a)).Some? { AllowedByArea(old(Snap()), p, a); }
        return f.value, faults;
      }
      if Allows(Lookup(p, a), write) {
        return Eager.Done, faults;
      }
      f := PageFault(p, a, write, fill);
      faults := 2;
      if f.Some? {
        return f.value, faults;
      }
      return Eager.FaultLoop, faults;
    }

    /** A user-mode load. */
    method Load(p: int, a: int, fill: Option<Page>) returns (r: Eager.Outcome, b: Byte)
      requires Valid() && p in procs && 0 <= a < KERNEL_BASE && procs[p].pgdir in pm.dir && |pm.pool| >= AccessFrames(p, a, false, fill)
      modifies pm
      ensures Valid() && Memory() == old(Memory())
      ensures r == Eager.AccessOutcome(procs[p].areas, a, false) || (r == Eager.MapErr && fill.None? && FileBacked(procs[p].areas, a))
      ensures r == Eager.Done && Eager.Tracked(procs[p].areas, a / FRAME_SIZE) ==>
                p in Memory() && a / FRAME_SIZE in Memory()[p].mem && b == Memory()[p].mem[a / FRAME_SIZE][a % FRAME_SIZE]
    {
      hide Exact, Roles, DirsOwned, Wf, HusksOk, Walk;
      b := 0;
      var faults;
      r, faults := Access(p, a, false, fill);
      if r == Eager.Done {
        var pte := Lookup(p, a).value;
        assert Entry(Snap(), p, a / FRAME_SIZE) == Some(pte);
        b := pm.mem[pte.frame][a % FRAME_SIZE];
      }
    }

    /** A user-mode store. */
    method Store(p: int, a: int, b: Byte, fill: Option<Page>) returns (r: Eager.Outcome)
      requires Valid() && p in procs && 0 <= a < KERNEL_BASE && procs[p].pgdir in pm.dir && |pm.pool| >= AccessFrames(p, a, true, fill)
      modifies pm
      ensures Valid() && p in old(Memory())
      ensures r == Eager.AccessOutcome(procs[p].areas, a, true) || (r == Eager.MapErr && fill.None? && FileBacked(procs[p].areas, a))
      ensures Memory() == if r == Eager.Done then Eager.Store(old(Memory()), p, a, b) else old(Memory())
    {
      hide Exact, Roles, DirsOwned, Wf, HusksOk, Walk, Abs;
      MemoryKeys(Snap());
      var faults;
      r, faults := Access(p, a, true, fill);
      if r == Eager.Done {
        ghost var s := Snap();
        var pte := Lookup(p, a).value;
        assert Entry(s, p, a / FRAME_SIZE) == Some(pte);
        pm.mem := pm.mem[pte.frame := Eager.WriteByte(pm.mem[pte.frame], a % FRAME_SIZE, b)];
        StoreStep(s, Snap(), p, a, b);
      }
    }

    /** vm_clone over the whole list: private writable areas lose write permission in both directories. */
    method ProtectAreas(src: int, d: int, areas: seq<Vma>)
      requires pm.Sound() && src in pm.dir && d in pm.dir && Eager.UserAreas(areas)
      modifies pm`ref, pm`pool, pm`tab
      ensures pm.Sound() && |pm.ref| == old(|pm.ref|)
      ensures forall e, v :: e in pm.dir && Eager.InUser(v) ==>
                Walk(pm.tab, pm.dir[e], v) ==
                if e == src || e == d then Downgraded(Eager.PageAttr(areas, v), Walk(old(pm.tab), pm.dir[e], v))
                else Walk(old(pm.tab), pm.dir[e], v)
    {
      hide Exact, Roles, Wf, Walk, Downgraded, Eager.PageAttr, Aligned;
      DowngradeNone();
      var i := 0;
      while i < |areas|
        invariant 0 <= i <= |areas| && pm.Sound() && |pm.ref| == old(|pm.ref|)
        invariant forall e, v :: e in pm.dir && Eager.InUser(v) ==>
                    Walk(pm.tab, pm.dir[e], v) ==
                    if e == src || e == d then Downgraded(Eager.PageAttr(areas[..i], v), Walk(old(pm.tab), pm.dir[e], v))
                    else Walk(old(pm.tab), pm.dir[e], v)
      {
        DowngradeStep(areas, i);
        if areas[i].flags.write && !areas[i].flags.share {
          pm.PmApply(src, areas[i].start, areas[i].end, DisableWrite);
          pm.PmApply(d, areas[i].start, areas[i].end, DisableWrite);
        }
        i := i + 1;
      }
      assert areas[..i] == areas;
    }

    /** mm_clone: the child shares every frame, and both sides lose write access to private pages. */
    method Fork(p: int, child: int)
      requires Valid() && p in procs && child !in procs && procs[p].pgdir in pm.dir
      requires |pm.pool| >= (if pm.husks == [] then NR_HIGH_PAGES else 0) + |pm.dir[procs[p].pgdir]|
      modifies this`procs, pm
      ensures Valid() && p in old(Memory()) && Memory() == Eager.Fork(old(Memory()), p, child)
      ensures child in procs && procs == old(procs)[child := old(procs)[p].(pgdir := procs[child].pgdir)]
    {
      hide Exact, Roles, DirsOwned, HusksOk, Walk, Abs, CowInv, Downgraded, ClonedTables, Eager.PageAttr, MemKept, Forked, Entry;
      MemoryKeys(Snap());
      OwnDir(procs, pm.dir, pm.husks, p);
      ghost var s := Snap();
      EntryNotFree(s, pm.ref, pm.pool, pm.role.Keys);
      var src := procs[p].pgdir;
      var d := pm.ClonePgdir(src);
      ForkWalks(s, pm.tab, pm.dir, old(pm.high), old(pm.role), src, d);
      ForkOwners(procs, old(pm.dir), pm.dir, old(pm.husks), pm.husks, p, child, d);
      assert Eager.UserAreas(procs[p].areas);
      ProtectAreas(src, d, procs[p].areas);
      procs := procs[child := procs[p].(pgdir := d)];
      ForkEntries(s, Snap(), old(pm.husks), old(pm.pool), p, child, d);
      ForkStep(s, Snap(), p, child);
    }

    /** vm_unmap's page half over a list of areas of one address space. */
    method UnmapAreas(d: int, areas: seq<Vma>)
      requires pm.Sound() && d in pm.dir
      requires forall i :: 0 <= i < |areas| ==> GoodVma(areas[i]) && 0 < areas[i].end
      modifies pm`ref, pm`pool, pm`tab
      ensures pm.Sound() && |pm.ref| == old(|pm.ref|)
      ensures forall e, v :: e in pm.dir && Eager.InUser(v) ==>
                Walk(pm.tab, pm.dir[e], v) ==
                if e == d && Eager.PageAttr(areas, v).Some? then None else Walk(old(pm.tab), pm.dir[e], v)
    {
      hide Exact, Roles, Walk, Eager.PageAttr;
      UnmapNone();
      var i := 0;
      while i < |areas|
        invariant 0 <= i <= |areas| && pm.Sound() && |pm.ref| == old(|pm.ref|)
        invariant forall e, v :: e in pm.dir && Eager.InUser(v) ==>
                    Walk(pm.tab, pm.dir[e], v) ==
                    if e == d && Eager.PageAttr(areas[..i], v).Some? then None else Walk(old(pm.tab), pm.dir[e], v)
      {
        UnmapStep(areas, i);
        pm.PmApply(d, areas[i].start, areas[i].end, Unmap);
        i := i + 1;
      }
      assert areas[..i] == areas;
    }

    /**
     * sys_munmap, for a range that does not wrap. The process loses exactly the pages of the range; what
     * it sees elsewhere, and what every other process sees, is unchanged.
     */
    method Munmap(p: int, addr: int, len: int) returns (err: Option<MmStruct.Error>)
      requires Valid() && p in procs && 0 <= addr && 0 <= len && addr + PageUp(len) < W32
      modifies this`procs, pm
      ensures Valid() && p in old(Memory())
      ensures err.Some? <==> MmStruct.Refused(old(procs)[p].areas, addr, addr + PageUp(len), len)
      ensures err.Some? ==> procs == old(procs) && Memory() == old(Memory())
      ensures err.None? ==>
                var areas := MmStruct.CutAll(old(procs)[p].areas, addr, addr + PageUp(len));
                && procs == old(procs)[p := old(procs)[p].(areas := areas)]
                && Memory() == old(Memory())[p := Eager.Reshape(old(Memory())[p], areas, old(procs)[p].brk)]
    {
      hide Exact, Roles, DirsOwned, HusksOk, Walk, Abs, CowInv, Wf, Eager.PageAttr, MmStruct.Refused, MmStruct.CutAll, MmStruct.Removed;
      MemoryKeys(Snap());
      OwnDir(procs, pm.dir, pm.husks, p);
      ghost var s := Snap();
      UnmapRange(addr, len);
      assert Eager.UserAreas(procs[p].areas);
      var mm := new MmStruct.Mm(procs[p].areas, procs[p].brk);
      var removed;
      err, removed := mm.Munmap(addr, len);
      if err.Some? {
        return;
      }
      UnmapGood(procs[p].areas, addr, len);
      UnmapAreas(procs[p].pgdir, removed);
      procs := procs[p := procs[p].(areas := mm.areas)];
      UnmapReshapes(s, Snap(), pm.husks, p, addr, addr + PageUp(len));
      ReshapeStep(s, Snap(), p);
      SameOwners(s.procs, procs, pm.dir, pm.husks);
    }

    /** Add an anonymous or file-backed area in a gap of the list: what every vma_create_* ends in. */
    method MapArea(p: int, v: Vma)
      requires Valid() && p in procs && GoodVma(v) && Fits(procs[p].areas, v) && 0 < v.end <= KERNEL_BASE
      modifies this`procs
      ensures Valid() && p in old(Memory())
      ensures procs == old(procs)[p := old(procs)[p].(areas := Insert(old(procs)[p].areas, v))]
      ensures Memory() == old(Memory())[p := Eager.Reshape(old(Memory())[p], Insert(old(procs)[p].areas, v), old(procs)[p].brk)]
    {
      hide Exact, Roles, DirsOwned, HusksOk, Walk, Abs, CowInv, Wf, Fits, Insert, Eager.PageAttr;
      MemoryKeys(Snap());
      ghost var s := Snap();
      assert Eager.UserAreas(procs[p].areas);
      InsertUserArea(procs[p].areas, v);
      var mm := new MmStruct.Mm(procs[p].areas, procs[p].brk);
      mm.InsertArea(v);
      procs := procs[p := procs[p].(areas := mm.areas)];
      GrowReshapes(s, Snap(), p);
      ReshapeStep(s, Snap(), p);
      SameOwners(s.procs, procs, pm.dir, pm.husks);
    }

    /** sys_sbrk where no sum leaves 32 bits and the heap stays below the kernel: new heap pages are zero, nothing else changes. */
    method Sbrk(p: int, inc: int) returns (err: Option<MmStruct.Error>)
      requires Valid() && p in procs && Eager.SbrkFits(procs[p].areas, procs[p].brk, inc)
      modifies this`procs
      ensures Valid() && p in old(Memory())
      ensures p in procs
      ensures exists v ::
                && MmStruct.IsHeap(old(procs)[p].areas, old(procs)[p].brk, v)
                && MmStruct.SbrkDoes(old(procs)[p].areas, old(procs)[p].brk, inc, v, err, procs[p].areas, procs[p].brk)
      ensures err == MmStruct.SbrkError(old(procs)[p].areas, old(procs)[p].brk, inc, true)
      ensures var areas := MmStruct.SbrkAreas(old(procs)[p].areas, old(procs)[p].brk, inc, true);
              var brk := if err.None? then Add32(old(procs)[p].brk, inc) else old(procs)[p].brk;
              && procs == old(procs)[p := Proc(old(procs)[p].pgdir, areas, brk)]
              && Memory() == old(Memory())[p := Eager.Reshape(old(Memory())[p], areas, brk)]
    {
      hide Exact, Roles, DirsOwned, HusksOk, Walk, Abs, CowInv, Wf, MmStruct.SbrkAreas, MmStruct.SbrkError,
        MmStruct.WithHeap, MmStruct.HeapIndex, Eager.PageAttr, MmStruct.IsHeap, MmStruct.SbrkDoes;
      MemoryKeys(Snap());
      ghost var s := Snap();
      assert Eager.UserAreas(procs[p].areas);
      var mm := new MmStruct.Mm(procs[p].areas, procs[p].brk);
      SbrkExtends(procs[p].areas, procs[p].brk, inc);
      var oldBrk;
      err, oldBrk := mm.Sbrk(inc, true);
      procs := procs[p := Proc(procs[p].pgdir, mm.areas, mm.brk)];
      GrowReshapes(s, Snap(), p);
      ReshapeStep(s, Snap(), p);
      SameOwners(s.procs, procs, pm.dir, pm.husks);
    }

    /** mm_init: a process with an empty address space. */
    method Spawn(p: int, brk: int)
      requires Valid() && p !in procs && (pm.husks == [] ==> |pm.pool| >= NR_HIGH_PAGES)
      modifies this`procs, pm
      ensures Valid() && Memory() == old(Memory())[p := Eager.Proc([], brk, map[])]
      ensures p in procs && procs == old(procs)[p := Proc(procs[p].pgdir, [], brk)]
    {
      hide Exact, Roles, DirsOwned, HusksOk, Abs, CowInv, Eager.PageAttr, MemKept;
      ghost var s := Snap();
      EntryNotFree(s, pm.ref, pm.pool, pm.role.Keys);
      var d := pm.NewPgdir();
      SpawnOwners(procs, old(pm.dir), pm.dir, old(pm.husks), pm.husks, p, d, brk);
      procs := procs[p := Proc(d, [], brk)];
      SpawnEntries(s, Snap(), old(pm.husks), old(pm.pool), p, d, brk);
      SpawnStep(s, Snap(), p, brk);
    }

    /** The loop of mm_fini: areas marked VM_KEEP are skipped. */
    method FiniAreas(d: int, areas: seq<Vma>)
      requires pm.Sound() && d in pm.dir && Eager.UserAreas(areas)
      modifies pm`ref, pm`pool, pm`tab
      ensures pm.Sound() && |pm.ref| == old(|pm.ref|)
      ensures forall e, v :: e in pm.dir && e != d && Eager.InUser(v) ==> Walk(pm.tab, pm.dir[e], v) == Walk(old(pm.tab), pm.dir[e], v)
    {
      hide Exact, Roles, Walk;
      var i := 0;
      while i < |areas|
        invariant 0 <= i <= |areas| && pm.Sound() && |pm.ref| == old(|pm.ref|)
        invariant forall e, v :: e in pm.dir && e != d && Eager.InUser(v) ==>
                    Walk(pm.tab, pm.dir[e], v) == Walk(old(pm.tab), pm.dir[e], v)
      {
        if !areas[i].flags.keep {
          assert GoodVma(areas[i]);
          pm.PmApply(d, areas[i].start, areas[i].end, Unmap);
        }
        i := i + 1;
      }
    }

    /** mm_fini at exit: the process is gone, every other process sees the memory it saw before. */
    method Exit(p: int)
      requires Valid() && p in procs
      modifies this`procs, pm
      ensures Valid() && Memory() == old(Memory()) - {p} && procs == old(procs) - {p}
    {
      hide Exact, Roles, DirsOwned, HusksOk, Walk, Abs, CowInv, Wf;
      OwnDir(procs, pm.dir, pm.husks, p);
      ghost var s := Snap();
      assert Eager.UserAreas(procs[p].areas);
      var d := procs[p].pgdir;
      FiniAreas(d, procs[p].areas);
      ghost var s1, high1, role1 := Snap(), pm.high, pm.role;
      pm.FreePgdir(d);
      ExitOwners(procs, s.dir, pm.dir, old(pm.husks), pm.husks, p);
      ExitWalks(s1, pm.tab, pm.dir, high1, role1, old(pm.husks), d);
      procs := procs - {p};
      ExitEntries(s, Snap(), old(pm.husks), p);
      ExitStep(s, Snap(), p);
    }

    /** The frames an action allocates: a page directory if there is no husk, page tables, pages. */
    function FramesFor(act: Eager.Action): nat
      reads this, pm
    {
      var dirFrames := if pm.husks == [] then NR_HIGH_PAGES else 0;
      match act
      case Spawn(_, _) => dirFrames
      case ForkAct(p, _) => if p in procs && procs[p].pgdir in pm.dir then dirFrames + |pm.dir[procs[p].pgdir]| else 0
      case LoadAct(p, a, fill) => if p in procs && procs[p].pgdir in pm.dir then AccessFrames(p, a, false, fill) else 0
      case StoreAct(p, a, _, fill) => if p in procs && procs[p].pgdir in pm.dir then AccessFrames(p, a, true, fill) else 0
      case _ => 0
    }

    /** The pool holds the frames the action allocates; otherwise kalloc_frame panics. */
    predicate HasFrames(act: Eager.Action)
      reads this, pm
    {
      |pm.pool| >= FramesFor(act)
    }

    /** A directory and all its page tables are the most an action needs. */
    lemma FramesBounded(act: Eager.Action)
      requires Valid()
      ensures FramesFor(act) <= NR_HIGH_PAGES + KERNEL_PDI
      ensures act.LoadAct? || act.StoreAct? ==> FramesFor(act) <= 2
      ensures !act.LoadAct? && !act.StoreAct? && !act.Spawn? && !act.ForkAct? ==> FramesFor(act) == 0
      ensures |pm.pool| >= NR_HIGH_PAGES + KERNEL_PDI ==> HasFrames(act)
    {
      hide Exact, DirsOwned, HusksOk, Walk, CowInv, Wf, NonePending;
      if act.ForkAct? && act.p in procs && procs[act.p].pgdir in pm.dir {
        OwnedRange(pm.tab, pm.dir, pm.high, pm.role, procs[act.p].pgdir);
        FewTables(pm.dir[procs[act.p].pgdir]);
      }
    }

    /** The memory has contents for exactly the pages that are a process's own. */
    lemma MemoryTracks()
      ensures Eager.Tracks(Memory())
    {
    }

    /** One action, if there is memory for it: the kernel does what the eager machine does. */
    method Perform(act: Eager.Action) returns (ok: bool, out: Option<Byte>)
      requires Valid() && Eager.Legal(Memory(), act)
      modifies this`procs, pm
      ensures Valid() && ok == old(HasFrames(act))
      ensures ok ==> Memory() == Eager.Step(old(Memory()), act) && out == Eager.Output(old(Memory()), act)
      ensures !ok ==> Memory() == old(Memory()) && !HasFrames(act)
    {
      hide Exact, Roles, DirsOwned, HusksOk, Walk, Abs, CowInv, Wf, Fits, Eager.PageAttr, Eager.SbrkFits, Eager.Tracked,
        Eager.Reshape, Eager.AccessOutcome, Eager.Store, NonePending, MmStruct.CutAll, MmStruct.SbrkAreas, MmStruct.SbrkError, MmStruct.Refused;
      MemoryFields(Snap());
      ok, out := HasFrames(act), None;
      if !ok {
        return;
      }
      match act
      case Spawn(p, brk) => Spawn(p, brk);
      case ForkAct(p, child) =>
        OwnDir(procs, pm.dir, pm.husks, p);
        Fork(p, child);
      case LoadAct(p, a, fill) =>
        OwnDir(procs, pm.dir, pm.husks, p);
        var r, b := Load(p, a, fill);
        MemoryPages(Snap(), p, a / FRAME_SIZE);
        FileNotTracked(procs[p].areas, a);
        if r == Eager.Done && Eager.Tracked(procs[p].areas, a / FRAME_SIZE) {
          out := Some(b);
        }
      case StoreAct(p, a, b, fill) =>
        OwnDir(procs, pm.dir, pm.husks, p);
        MemoryPages(Snap(), p, a / FRAME_SIZE);
        FileNotTracked(procs[p].areas, a);
        UntrackedStore(Memory(), p, a, b);
        var r := Store(p, a, b, fill);
      case MapAct(p, v) => MapArea(p, v);
      case UnmapAct(p, addr, len) => var err := Munmap(p, addr, len);
      case SbrkAct(p, inc) => var err := Sbrk(p, inc);
      case ExitAct(p) => Exit(p);
    }

    /**
     * Copy-on-write refines eager copying over every run: until memory runs out, every load delivers what
     * it would deliver if fork copied every page, and so does the memory every process is left with.
     */
    method Run(acts: seq<Eager.Action>) returns (n: nat, outs: seq<Option<Byte>>)
      requires Valid() && Eager.LegalRun(Memory(), acts)
      modifies this`procs, pm
      ensures Valid() && n <= |acts| && |outs| == n && (n < |acts| ==> !HasFrames(acts[n]))
      ensures Eager.LegalRun(old(Memory()), acts[..n])
      ensures Memory() == Eager.Run(old(Memory()), acts[..n]) && outs == Eager.Outputs(old(Memory()), acts[..n])
    {
      hide Eager.Step, Eager.Output, Eager.Legal, HasFrames;
      n, outs := 0, [];
      ghost var start := Memory();
      assert acts[0..] == acts;
      while n < |acts|
        invariant Valid() && n <= |acts| && |outs| == n
        invariant Eager.LegalRun(start, acts[..n]) && Memory() == Eager.Run(start, acts[..n]) && outs == Eager.Outputs(start, acts[..n])
        invariant Eager.LegalRun(Memory(), acts[n..])
      {
        RunNext(start, acts, n);
        var ok, out := Perform(acts[n]);
        if !ok {
          return;
        }
        n, outs := n + 1, outs + [out];
      }
    }
  }

  lemma FewTables(pdes: map<int, int>)
    requires forall k :: k in pdes ==> 0 <= k < KERNEL_PDI
    ensures |pdes| <= KERNEL_PDI
  {
    var all := Below(KERNEL_PDI);
    SubsetSize(pdes.Keys, all);
    assert |pdes| == |pdes.Keys|;
  }

  ghost function Below(n: nat): (r: set<int>)
    ensures |r| == n && forall k :: k in r <==> 0 <= k < n
  {
    if n == 0 then {} else Below(n - 1) + {n - 1}
  }

  lemma RunNext(s: Eager.State, acts: seq<Eager.Action>, n: nat)
    requires n < |acts| && Eager.LegalRun(s, acts[..n]) && Eager.LegalRun(Eager.Run(s, acts[..n]), acts[n..])
    ensures var m := Eager.Run(s, acts[..n]);
            && Eager.Legal(m, acts[n]) && Eager.LegalRun(s, acts[..n + 1]) && Eager.LegalRun(Eager.Step(m, acts[n]), acts[n + 1..])
            && Eager.Run(s, acts[..n + 1]) == Eager.Step(m, acts[n])
            && Eager.Outputs(s, acts[..n + 1]) == Eager.Outputs(s, acts[..n]) + [Eager.Output(m, acts[n])]
  {
    hide Eager.Step, Eager.Output, Eager.Legal;
    var m := Eager.Run(s, acts[..n]);
    assert acts[n..][0] == acts[n] && acts[n..][1..] == acts[n + 1..];
    assert acts[..n + 1] == acts[..n] + [acts[n]];
    assert [acts[n]][1..] == [];
    assert Eager.LegalRun(m, [acts[n]]);
    LegalConcat(s, acts[..n], [acts[n]]);
    Eager.RunConcat(s, acts[..n], [acts[n]]);
    assert Eager.Run(m, [acts[n]]) == Eager.Run(Eager.Step(m, acts[n]), []);
    assert Eager.Outputs(m, [acts[n]]) == [Eager.Output(m, acts[n])] + Eager.Outputs(Eager.Step(m, acts[n]), []);
  }

  lemma {:induction false} LegalConcat(s: Eager.State, a: seq<Eager.Action>, b: seq<Eager.Action>)
    requires Eager.LegalRun(s, a) && Eager.LegalRun(Eager.Run(s, a), b)
    ensures Eager.LegalRun(s, a + b)
    decreases |a|
  {
    hide Eager.Step, Eager.Legal;
    if a == [] {
      assert a + b == b;
    } else {
      assert (a + b)[1..] == a[1..] + b;
      LegalConcat(Eager.Step(s, a[0]), a[1..], b);
    }
  }

  lemma MemoryFields(s: View)
    ensures Abs(s).Keys == s.procs.Keys
    ensures forall p :: p in s.procs ==> Abs(s)[p].areas == s.procs[p].areas && Abs(s)[p].brk == s.procs[p].brk
  {
  }

  lemma MemoryPages(s: View, p: int, v: int)
    requires p in s.procs
    ensures p in Abs(s) && (v in Abs(s)[p].mem <==> Eager.Tracked(s.procs[p].areas, v))
  {
  }

  lemma FileNotTracked(areas: seq<Vma>, a: int)
    requires Wf(areas) && 0 <= a
    ensures FileBacked(areas, a) ==> !Eager.Tracked(areas, a / FRAME_SIZE)
  {
    if FileBacked(areas, a) { PageAttrAt(areas, MmStruct.GetIndex(areas, a).value, a); }
  }

  lemma UntrackedStore(s: Eager.State, p: int, a: int, b: Byte)
    requires p in s
    ensures a / FRAME_SIZE !in s[p].mem ==> Eager.Store(s, p, a, b) == s
  {
  }

  // ---------------------------------------------------------------- spawn and exit

  lemma SpawnOwners(procs: map<int, Proc>, was: Dirs, now: Dirs, husks0: seq<int>, husks: seq<int>, p: int, d: int, brk: int)
    requires DirsOwned(procs, was, husks0) && p !in procs
    requires d in now && now == was[d := now[d]] && d !in husks && (d in husks0 || d !in was)
    requires forall h :: h in husks0 ==> h in husks || h == d
    requires forall h :: h in husks ==> h in husks0
    ensures DirsOwned(procs[p := Proc(d, [], brk)], now, husks)
  {
    var procs' := procs[p := Proc(d, [], brk)];
    forall e | e in now ensures e in husks || exists q :: q in procs' && procs'[q].pgdir == e {
      if e == d {
        assert procs'[p].pgdir == e;
      } else if e !in husks {
        var q :| q in procs && procs[q].pgdir == e;
        assert procs'[q].pgdir == e;
      }
    }
  }

  lemma SpawnEntries(s: View, s': View, husks: seq<int>, pool: seq<int>, p: int, d: int, brk: int)
    requires DirsOwned(s.procs, s.dir, husks) && p !in s.procs && s'.procs == s.procs[p := Proc(d, [], brk)]
    requires s'.tab == s.tab && s'.dir == s.dir[d := map[]] && (d in husks || d !in s.dir)
    requires MemKept(s.mem, s'.mem, pool) && forall q, w :: Entry(s, q, w).Some? ==> Entry(s, q, w).value.frame !in pool
    ensures forall q, w :: Entry(s', q, w) == if q == p then None else Entry(s, q, w)
    ensures |s'.mem| == |s.mem|
    ensures forall q, w :: Entry(s, q, w).Some? && 0 <= Entry(s, q, w).value.frame < |s.mem| ==>
              s'.mem[Entry(s, q, w).value.frame] == s.mem[Entry(s, q, w).value.frame]
  {
  }

  lemma SpawnStep(s: View, s': View, p: int, brk: int)
    requires CowInv(s) && p !in s.procs && p in s'.procs && s'.procs == s.procs[p := s'.procs[p]]
    requires s'.procs[p].areas == [] && s'.procs[p].brk == brk && |s'.mem| == |s.mem|
    requires forall q, w :: Entry(s', q, w) == if q == p then None else Entry(s, q, w)
    requires forall q, w :: Entry(s, q, w).Some? && 0 <= Entry(s, q, w).value.frame < |s.mem| ==>
              s'.mem[Entry(s, q, w).value.frame] == s.mem[Entry(s, q, w).value.frame]
    ensures CowInv(s') && Abs(s') == Abs(s)[p := Eager.Proc([], brk, map[])]
  {
    hide Entry, Agrees;
    forall q, w | Entry(s', q, w).Some? ensures Entry(s', q, w) == Entry(s, q, w) && Attrs(s', q, w) == Attrs(s, q, w) {
    }
    forall q, v, r, w | SameFrame(s', q, v, r, w) ensures SameFrame(s, q, v, r, w) {
    }
    forall q | q in s.procs ensures AbsProc(s', q) == AbsProc(s, q) {
      AbsProcSame(s, s', q, q);
    }
    assert Eager.TrackedPages([]) == {};
    assert AbsProc(s', p) == Eager.Proc([], brk, map[]);
  }

  lemma ExitOwners(procs: map<int, Proc>, was: Dirs, now: Dirs, husks0: seq<int>, husks: seq<int>, p: int)
    requires DirsOwned(procs, was, husks0) && HusksOk(husks0, was) && HusksOk(husks, now) && p in procs
    requires husks == [procs[p].pgdir] + if |husks0| >= MAX_HUSKS then husks0[1..] else husks0
    requires now.Keys == if |husks0| >= MAX_HUSKS then was.Keys - {husks0[0]} else was.Keys
    ensures DirsOwned(procs - {p}, now, husks)
  {
    var procs' := procs - {p};
    var d := procs[p].pgdir;
    assert husks[0] == d && d in husks;
    forall h | h in husks ensures h == d || h in husks0 {
      var i :| 0 <= i < |husks| && husks[i] == h;
      if i > 0 && |husks0| >= MAX_HUSKS { assert h == husks0[1..][i - 1]; }
    }
    forall e | e in now ensures e in husks || exists q :: q in procs' && procs'[q].pgdir == e {
      if e in husks0 {
        var i :| 0 <= i < |husks0| && husks0[i] == e;
        if |husks0| >= MAX_HUSKS { assert husks[i] == e; } else { assert husks[i + 1] == e; }
      } else if e != d {
        var q :| q in procs && procs[q].pgdir == e;
        assert procs'[q].pgdir == e;
      }
    }
    forall q | q in procs' ensures procs'[q].pgdir in now && procs'[q].pgdir !in husks {
      if |husks0| >= MAX_HUSKS { assert husks0[0] in husks0; }
    }
  }

  lemma ExitWalks(s: View, tab: Tables, dir: Dirs, high: map<int, seq<int>>, role: map<int, Role>, husks: seq<int>, d: int)
    requires Roles(s.tab, s.dir, high, role)
    requires forall e :: e in s.dir && e !in husks && e != d ==> e in dir && dir[e] == s.dir[e]
    requires forall t :: t in tab ==> t in s.tab && tab[t] == s.tab[t]
    requires forall e, k :: e in s.dir && e !in husks && e != d && k in s.dir[e] ==> s.dir[e][k] in tab
    ensures forall e, v :: e in s.dir && e !in husks && e != d ==> Walk(tab, dir[e], v) == Walk(s.tab, s.dir[e], v)
  {
    forall e, v | e in s.dir && e !in husks && e != d ensures Walk(tab, dir[e], v) == Walk(s.tab, s.dir[e], v) {
      KeptWalk(s.tab, tab, s.dir, dir, high, role, e, v);
    }
  }

  lemma ExitEntries(s: View, s': View, husks: seq<int>, p: int)
    requires DirsOwned(s.procs, s.dir, husks) && p in s.procs && s'.procs == s.procs - {p}
    requires forall q :: q in s'.procs ==> s'.procs[q].pgdir in s'.dir
    requires forall e, v :: e in s.dir && e !in husks && e != s.procs[p].pgdir && e in s'.dir && Eager.InUser(v) ==>
               Walk(s'.tab, s'.dir[e], v) == Walk(s.tab, s.dir[e], v)
    ensures forall q, w :: Entry(s', q, w) == if q == p then None else Entry(s, q, w)
  {
    hide Walk;
  }

  // ---------------------------------------------------------------- fork

  lemma DowngradeNone()
    ensures forall v, e: Option<Pte> :: Downgraded(Eager.PageAttr([], v), e) == e
  {
  }

  /** One more area taken into account. */
  lemma DowngradeStep(areas: seq<Vma>, i: nat)
    requires Wf(areas) && i < |areas|
    ensures forall v, e: Option<Pte> ::
              Downgraded(Eager.PageAttr(areas[..i + 1], v), e) ==
              if areas[i].flags.write && !areas[i].flags.share && areas[i].start / FRAME_SIZE <= v < areas[i].end / FRAME_SIZE
              then ApplyOpt(DisableWrite, Downgraded(Eager.PageAttr(areas[..i], v), e))
              else Downgraded(Eager.PageAttr(areas[..i], v), e)
    ensures 0 <= areas[i].start <= areas[i].end && Aligned(areas[i].start) && Aligned(areas[i].end)
  {
    forall v, e: Option<Pte>
      ensures Downgraded(Eager.PageAttr(areas[..i + 1], v), e) ==
              if areas[i].flags.write && !areas[i].flags.share && areas[i].start / FRAME_SIZE <= v < areas[i].end / FRAME_SIZE
              then ApplyOpt(DisableWrite, Downgraded(Eager.PageAttr(areas[..i], v), e))
              else Downgraded(Eager.PageAttr(areas[..i], v), e)
    {
      PrefixAttr(areas, i, v);
    }
  }

  lemma PrefixAttr(areas: seq<Vma>, i: nat, v: int)
    requires Wf(areas) && i < |areas|
    ensures Contains(areas[i], v * FRAME_SIZE) <==> areas[i].start / FRAME_SIZE <= v < areas[i].end / FRAME_SIZE
    ensures Eager.PageAttr(areas[..i + 1], v) ==
            if Contains(areas[i], v * FRAME_SIZE) then Some(AttrOf(areas[i], v * FRAME_SIZE)) else Eager.PageAttr(areas[..i], v)
    ensures Contains(areas[i], v * FRAME_SIZE) ==> Eager.PageAttr(areas[..i], v).None?
  {
    var x := v * FRAME_SIZE;
    assert areas[..i + 1] == areas[..i] + [areas[i]];
    AtConcat(areas[..i], [areas[i]], x);
    MmStruct.AtOne(areas[i], x);
    if Contains(areas[i], x) {
      forall j | 0 <= j < i ensures !Contains(areas[..i][j], x) { assert areas[j].end <= areas[i].start; }
      AtNone(areas[..i], x);
    }
  }

  lemma ForkWalks(s: View, tab: Tables, dir: Dirs, high: map<int, seq<int>>, role: map<int, Role>, src: int, d: int)
    requires Roles(s.tab, s.dir, high, role) && src in s.dir && d in dir && dir == s.dir[d := dir[d]] && src != d
    requires ClonedTables(s.tab, tab, dir, src, d) && dir[d].Keys == dir[src].Keys
    ensures forall e, v :: e in dir ==> Walk(tab, dir[e], v) == Walk(s.tab, s.dir[if e == d then src else e], v)
  {
    forall e, v | e in dir ensures Walk(tab, dir[e], v) == Walk(s.tab, s.dir[if e == d then src else e], v) {
      ClonedWalk(s.tab, tab, s.dir, dir, high, role, src, d, e, v);
    }
  }

  lemma ForkOwners(procs: map<int, Proc>, was: Dirs, now: Dirs, husks0: seq<int>, husks: seq<int>, p: int, child: int, d: int)
    requires DirsOwned(procs, was, husks0) && p in procs && child !in procs
    requires d in now && now == was[d := now[d]] && d !in husks && (d in husks0 || d !in was)
    requires forall h :: h in husks0 ==> h in husks || h == d
    requires forall h :: h in husks ==> h in husks0
    ensures DirsOwned(procs[child := procs[p].(pgdir := d)], now, husks)
  {
    var procs' := procs[child := procs[p].(pgdir := d)];
    forall e | e in now ensures e in husks || exists q :: q in procs' && procs'[q].pgdir == e {
      if e == d {
        assert procs'[child].pgdir == e;
      } else if e !in husks {
        var q :| q in procs && procs[q].pgdir == e;
        assert procs'[q].pgdir == e;
      }
    }
  }

  lemma ForkEntries(s: View, s': View, husks: seq<int>, pool: seq<int>, p: int, child: int, d: int)
    requires DirsOwned(s.procs, s.dir, husks) && p in s.procs && child !in s.procs
    requires s'.procs == s.procs[child := s.procs[p].(pgdir := d)]
    requires d in s'.dir && s'.dir.Keys == s.dir.Keys + {d} && (d in husks || d !in s.dir)
    requires forall e, v :: e in s'.dir && Eager.InUser(v) ==>
               Walk(s'.tab, s'.dir[e], v) ==
               if e == s.procs[p].pgdir || e == d
               then Downgraded(Eager.PageAttr(s.procs[p].areas, v), Walk(s.tab, s.dir[if e == d then s.procs[p].pgdir else e], v))
               else Walk(s.tab, s.dir[e], v)
    requires MemKept(s.mem, s'.mem, pool) && forall q, w :: Entry(s, q, w).Some? ==> Entry(s, q, w).value.frame !in pool
    ensures Forked(s, s', p, child)
  {
    hide Walk, Eager.PageAttr;
  }

  // ---------------------------------------------------------------- unmapping

  lemma UnmapNone()
    ensures forall v :: Eager.PageAttr([], v).None?
  {
  }

  lemma UnmapStep(areas: seq<Vma>, i: nat)
    requires i < |areas| && GoodVma(areas[i])
    ensures forall v :: Eager.PageAttr(areas[..i + 1], v).Some? <==>
              Eager.PageAttr(areas[..i], v).Some? || areas[i].start / FRAME_SIZE <= v < areas[i].end / FRAME_SIZE
    ensures 0 <= areas[i].start <= areas[i].end && Aligned(areas[i].start) && Aligned(areas[i].end)
  {
    assert areas[..i + 1] == areas[..i] + [areas[i]];
    forall v
      ensures Eager.PageAttr(areas[..i + 1], v).Some? <==>
                Eager.PageAttr(areas[..i], v).Some? || areas[i].start / FRAME_SIZE <= v < areas[i].end / FRAME_SIZE
    {
      AtConcat(areas[..i], [areas[i]], v * FRAME_SIZE);
      MmStruct.AtOne(areas[i], v * FRAME_SIZE);
    }
  }

  lemma UnmapRange(addr: int, len: int)
    requires 0 <= addr && 0 <= len && addr + PageUp(len) < W32
    ensures len < W32 && addr < W32 && addr <= addr + PageUp(len) && Add32(addr, PageAlign(len)) == addr + PageUp(len)
  {
    MmStruct.PageUpRange(len);
    PageAlignExact(len);
  }

  lemma UnmapGood(areas: seq<Vma>, addr: int, len: int)
    requires Eager.UserAreas(areas) && 0 <= addr && 0 <= len && addr + PageUp(len) < W32
    requires !MmStruct.Refused(areas, addr, addr + PageUp(len), len)
    ensures var e := addr + PageUp(len);
            && Aligned(addr) && Aligned(e) && 0 < e
            && Eager.UserAreas(MmStruct.CutAll(areas, addr, e))
            && forall i :: 0 <= i < |MmStruct.Removed(areas, addr, e)| ==>
                 GoodVma(MmStruct.Removed(areas, addr, e)[i]) && 0 < MmStruct.Removed(areas, addr, e)[i].end
  {
    MmStruct.PageUpRange(len);
    var e := addr + PageUp(len);
    assert Aligned(e);
    MmStruct.CutKeepsWf(areas, addr, e);
    MmStruct.RemovedBounds(areas, addr, e);
    CutEnds(areas, addr, e);
  }

  lemma {:induction false} CutEnds(areas: seq<Vma>, s: int, e: int)
    requires forall i :: 0 <= i < |areas| ==> 0 <= areas[i].start && 0 < areas[i].end <= KERNEL_BASE
    requires 0 <= s <= e && 0 < e
    ensures forall i :: 0 <= i < |MmStruct.CutAll(areas, s, e)| ==> 0 < MmStruct.CutAll(areas, s, e)[i].end <= KERNEL_BASE
    ensures forall i :: 0 <= i < |MmStruct.Removed(areas, s, e)| ==> 0 < MmStruct.Removed(areas, s, e)[i].end
  {
    if areas != [] { CutEnds(areas[1..], s, e); }
  }

  lemma UnmapReshapes(s: View, s': View, husks: seq<int>, p: int, lo: int, hi: int)
    requires CowInv(s) && DirsOwned(s.procs, s.dir, husks) && p in s.procs && Eager.UserAreas(s.procs[p].areas)
    requires Aligned(lo) && Aligned(hi) && 0 <= lo <= hi
    requires s'.dir == s.dir && s'.mem == s.mem
    requires s'.procs == s.procs[p := s.procs[p].(areas := MmStruct.CutAll(s.procs[p].areas, lo, hi))]
    requires forall e, v :: e in s.dir && Eager.InUser(v) ==>
               Walk(s'.tab, s.dir[e], v) ==
               if e == s.procs[p].pgdir && Eager.PageAttr(MmStruct.Removed(s.procs[p].areas, lo, hi), v).Some? then None
               else Walk(s.tab, s.dir[e], v)
    ensures Reshaped(s, s', p)
  {
    hide Walk, MmStruct.CutAll, MmStruct.Removed, Aligned, At, Wf;
    var areas := s.procs[p].areas;
    forall v
      ensures Eager.PageAttr(s'.procs[p].areas, v) == if lo <= v * FRAME_SIZE < hi then None else Eager.PageAttr(areas, v)
      ensures Eager.PageAttr(MmStruct.Removed(areas, lo, hi), v) == if lo <= v * FRAME_SIZE < hi then Eager.PageAttr(areas, v) else None
    {
      MmStruct.CutAt(areas, lo, hi, v * FRAME_SIZE);
      MmStruct.RemovedAt(areas, lo, hi, v * FRAME_SIZE);
    }
    forall w | Eager.InUser(w) && Entry(s, p, w).Some? ensures Eager.PageAttr(areas, w).Some? {
      assert Agrees(Attrs(s, p, w), Entry(s, p, w).value, |s.mem|);
    }
  }

  lemma SameOwners(procs: map<int, Proc>, procs': map<int, Proc>, dir: Dirs, husks: seq<int>)
    requires DirsOwned(procs, dir, husks) && procs'.Keys == procs.Keys
    requires forall q :: q in procs ==> procs'[q].pgdir == procs[q].pgdir
    ensures DirsOwned(procs', dir, husks)
  {
  }

  // ---------------------------------------------------------------- new areas

  /** Covered addresses keep their attributes. */
  ghost predicate AreasExtend(was: seq<Vma>, now: seq<Vma>) {
    forall x :: At(was, x).Some? ==> At(now, x) == At(was, x)
  }

  lemma InsertUserArea(areas: seq<Vma>, v: Vma)
    requires Eager.UserAreas(areas) && GoodVma(v) && Fits(areas, v) && 0 < v.end <= KERNEL_BASE
    ensures Eager.UserAreas(Insert(areas, v)) && AreasExtend(areas, Insert(areas, v))
  {
    InsertKeepsWf(areas, v);
    InsertShape(areas, v);
    forall x | At(areas, x).Some? ensures At(Insert(areas, v), x) == At(areas, x) {
      InsertAt(areas, v, x);
      var i := AtSome(areas, x);
    }
  }

  lemma GrowReshapes(s: View, s': View, p: int)
    requires CowInv(s) && p in s.procs && s'.tab == s.tab && s'.dir == s.dir && s'.mem == s.mem
    requires p in s'.procs && s'.procs == s.procs[p := s'.procs[p]] && s'.procs[p].pgdir == s.procs[p].pgdir
    requires AreasExtend(s.procs[p].areas, s'.procs[p].areas)
    ensures Reshaped(s, s', p)
  {
  }

  lemma SbrkExtends(areas: seq<Vma>, brk: int, inc: int)
    requires Eager.UserAreas(areas) && Eager.SbrkFits(areas, brk, inc)
    ensures AreasExtend(areas, MmStruct.SbrkAreas(areas, brk, inc, true))
  {
    hide At, Insert, FindIndex, InsertIndex, Aligned, Wf, PageUp;
    MmStruct.HeapHoldsBreak(areas, brk);
    var heap, k := MmStruct.WithHeap(areas, brk), MmStruct.HeapIndex(areas, brk);
    assert AreasExtend(areas, heap) by {
      if MmStruct.GetIndex(areas, brk - 1).None? {
        MmStruct.HeapPageFits(areas, brk);
        MmStruct.HeapPageEnd(brk);
        PageUpLeast(brk, KERNEL_BASE);
        InsertUserArea(areas, MmStruct.HeapPage(brk));
      }
    }
    if MmStruct.SbrkError(areas, brk, inc, true).None? && MmStruct.Grows(heap[k], brk, inc) {
      MmStruct.GrowKeepsWf(heap, k, inc);
      MmStruct.PageUpRange(inc);
      forall x | At(areas, x).Some? ensures At(MmStruct.Grown(heap, k, inc), x) == At(areas, x) {
        MmStruct.GrownExtends(heap, k, inc, x);
      }
    }
  }

  /**
   * After sbrk what could be read reads as before; the heap area's new pages, and those of a new heap page, read as zeros if
   * they are zero-filled; and nothing else can be read.
   */
  lemma SbrkThenLoad(pr: Eager.Proc, inc: int, brk: int, a: int) returns (v: Vma, end: int)
    requires pr.mem.Keys == Eager.TrackedPages(pr.areas) && Eager.UserAreas(pr.areas) && Eager.SbrkFits(pr.areas, pr.brk, inc) && 0 <= a < KERNEL_BASE
    ensures MmStruct.IsHeap(pr.areas, pr.brk, v)
    ensures end == if MmStruct.SbrkError(pr.areas, pr.brk, inc, true).None? && inc > 0 && v.end <= Add32(pr.brk, inc)
                   then v.end + PageUp(inc) else v.end
    ensures Eager.Peek(Eager.Reshape(pr, MmStruct.SbrkAreas(pr.areas, pr.brk, inc, true), brk), a) ==
            if exists k :: 0 <= k < |pr.areas| && Contains(pr.areas[k], a) then Eager.Peek(pr, a)
            else if v.start <= a < end && Eager.Zeroed(v) && v.flags.read then Some(0)
            else None
  {
    hide MmStruct.SbrkAreas, MmStruct.SbrkError, PageUp, Wf, MmStruct.IsHeap, Eager.PageAttr, MmStruct.WithHeap, MmStruct.HeapIndex, MmStruct.Grows,
      Eager.Reshape;
    v := SbrkAttr(pr.areas, pr.brk, inc, a);
    end := if MmStruct.SbrkError(pr.areas, pr.brk, inc, true).None? && inc > 0 && v.end <= Add32(pr.brk, inc) then v.end + PageUp(inc) else v.end;
    Eager.ReshapeThenPeek(pr, MmStruct.SbrkAreas(pr.areas, pr.brk, inc, true), brk, a);
    assert Eager.InUser(a / FRAME_SIZE);
  }

  /** The attributes of a page after sbrk. */
  lemma SbrkAttr(areas: seq<Vma>, brk: int, inc: int, a: int) returns (v: Vma)
    requires Eager.UserAreas(areas) && Eager.SbrkFits(areas, brk, inc) && 0 <= a < KERNEL_BASE
    ensures MmStruct.IsHeap(areas, brk, v)
    ensures var grown := MmStruct.SbrkError(areas, brk, inc, true).None? && inc > 0 && v.end <= Add32(brk, inc);
            var now := Eager.PageAttr(MmStruct.SbrkAreas(areas, brk, inc, true), a / FRAME_SIZE);
            if exists k :: 0 <= k < |areas| && Contains(areas[k], a) then now == Eager.PageAttr(areas, a / FRAME_SIZE)
            else
              && Eager.PageAttr(areas, a / FRAME_SIZE).None?
              && if v.start <= a < (if grown then v.end + PageUp(inc) else v.end)
                 then now == Some(AttrOf(v, a / FRAME_SIZE * FRAME_SIZE)) else now.None?
  {
    hide At, MmStruct.SbrkAreas, MmStruct.SbrkError, MmStruct.WithHeap, MmStruct.HeapIndex, PageUp, MmStruct.InTheWay, Wf, MmStruct.IsHeap,
      AttrOf;
    v := MmStruct.SbrkMeaning(areas, brk, inc);
    HeapGrowth(areas, brk, inc, v);
    SbrkExtends(areas, brk, inc);
    Eager.PageAttrOf(areas, a);
    var grown := MmStruct.SbrkError(areas, brk, inc, true).None? && inc > 0 && v.end <= Add32(brk, inc);
    Eager.AlignedContains(if grown then v.(end := v.end + PageUp(inc)) else v, a);
  }

  lemma HeapGrowth(areas: seq<Vma>, brk: int, inc: int, v: Vma)
    requires Eager.SbrkFits(areas, brk, inc) && MmStruct.IsHeap(areas, brk, v)
    ensures GoodVma(v) && (inc > 0 && v.end <= Add32(brk, inc) ==> v.end + PageUp(inc) < W32 && GoodVma(v.(end := v.end + PageUp(inc))))
  {
    hide At, PageUp, MmStruct.InTheWay, Wf, MmStruct.IsHeap, Insert, MmStruct.WithHeap, MmStruct.HeapIndex, Aligned, MmStruct.SbrkAreas, Add32;
    MmStruct.HeapIs(areas, brk);
    var heap, k := MmStruct.WithHeap(areas, brk), MmStruct.HeapIndex(areas, brk);
    SameHeap(areas, brk, v, heap[k]);
    GoodAt(heap, k);
    if inc > 0 {
      MmStruct.PageUpRange(inc);
      MmStruct.AlignedSum(v.end, PageUp(inc));
    }
  }

  lemma GoodAt(areas: seq<Vma>, k: nat)
    requires Wf(areas) && k < |areas|
    ensures GoodVma(areas[k])
  {
  }

  lemma SameHeap(areas: seq<Vma>, brk: int, v: Vma, w: Vma)
    requires Wf(areas) && MmStruct.IsHeap(areas, brk, v) && MmStruct.IsHeap(areas, brk, w)
    ensures v == w
  {
    if v in areas && w in areas {
      var i :| 0 <= i < |areas| && areas[i] == v;
      var j :| 0 <= j < |areas| && areas[j] == w;
      assert i == j;
    }
  }

  predicate FileBacked(areas: seq<Vma>, a: int) {
    var k := MmStruct.GetIndex(areas, a);
    k.Some? && areas[k.value].back.File?
  }

  lemma MemoryKeys(s: View)
    ensures Abs(s).Keys == s.procs.Keys
  {
  }

  lemma OwnDir(procs: map<int, Proc>, dir: Dirs, husks: seq<int>, p: int)
    requires DirsOwned(procs, dir, husks) && p in procs
    ensures procs[p].pgdir in dir && procs[p].pgdir !in husks
  {
  }

  /** What an access does, in terms of the one area vma_get inspects. */
  lemma OutcomeByIndex(areas: seq<Vma>, a: int, write: bool)
    requires Wf(areas) && 0 <= a
    ensures var k := MmStruct.GetIndex(areas, a);
            Eager.AccessOutcome(areas, a, write) ==
            if k.None? then Eager.MapErr
            else var fl := areas[k.value].flags;
                 if write then (if !fl.write then Eager.AccErr else if fl.read then Eager.Done else Eager.FaultLoop)
                 else if fl.read then Eager.Done else Eager.AccErr
  {
    var k := MmStruct.GetIndex(areas, a);
    if k.Some? {
      PageAttrAt(areas, k.value, a);
    } else {
      NoPageAttr(areas, a);
    }
  }

  lemma NoPageAttr(areas: seq<Vma>, a: int)
    requires Wf(areas) && 0 <= a && MmStruct.GetIndex(areas, a).None?
    ensures Eager.PageAttr(areas, a / FRAME_SIZE).None?
  {
    GetIsComplete(areas, a);
    var x := a / FRAME_SIZE * FRAME_SIZE;
    forall i | 0 <= i < |areas| ensures !Contains(areas[i], x) {
      if Contains(areas[i], x) {
        assert Contains(areas[i], a);
        AtIndex(areas, i, a);
      }
    }
    AtNone(areas, x);
  }

  /** An entry that allows an access lies in an area that permits it. */
  lemma AllowedByArea(s: View, p: int, a: int)
    requires CowInv(s) && p in s.procs && Wf(s.procs[p].areas) && 0 <= a < KERNEL_BASE
    requires Entry(s, p, a / FRAME_SIZE).Some?
    ensures var k := MmStruct.GetIndex(s.procs[p].areas, a);
            k.Some? && Entry(s, p, a / FRAME_SIZE).value.user == s.procs[p].areas[k.value].flags.read
            && (Entry(s, p, a / FRAME_SIZE).value.rw ==> s.procs[p].areas[k.value].flags.write)
  {
    var areas := s.procs[p].areas;
    var k := MmStruct.GetIndex(areas, a);
    assert Agrees(Attrs(s, p, a / FRAME_SIZE), Entry(s, p, a / FRAME_SIZE).value, |s.mem|);
    if k.None? { NoPageAttr(areas, a); } else { PageAttrAt(areas, k.value, a); }
  }

  lemma OwnersKept(procs: map<int, Proc>, was: Dirs, now: Dirs, husks: seq<int>, p: int)
    requires DirsOwned(procs, was, husks) && HusksOk(husks, was) && p in procs
    requires now.Keys == was.Keys && forall e :: e in was && e != procs[p].pgdir ==> now[e] == was[e]
    ensures DirsOwned(procs, now, husks) && HusksOk(husks, now)
  {
  }

  /** Contents of a frame nobody maps are invisible. */
  lemma AllocUnseen(s: View, s': View, f: int)
    requires CowInv(s) && s'.tab == s.tab && s'.dir == s.dir && s'.procs == s.procs && |s'.mem| == |s.mem|
    requires forall g :: 0 <= g < |s.mem| && g != f ==> s'.mem[g] == s.mem[g]
    requires forall q, w :: Entry(s, q, w).Some? ==> Entry(s, q, w).value.frame != f
    ensures CowInv(s') && Abs(s') == Abs(s)
  {
    hide Walk, Eager.Tracked, Eager.PageAttr;
    assert forall q, w :: Entry(s', q, w) == Entry(s, q, w) && Attrs(s', q, w) == Attrs(s, q, w);
    AbsSame(s, s');
  }

  // ---------------------------------------------------------------- frame accounting

  /** The user pages, over all address spaces, whose entry names frame f. */
  ghost function Mappers(s: View, f: int): set<(int, int)> {
    set p, v | p in s.procs && 0 <= v < USER_PAGES && Entry(s, p, v).Some? && Entry(s, p, v).value.frame == f :: (p, v)
  }

  ghost function SlotOf(s: View, m: (int, int)): (int, int) {
    if m.0 in s.procs && s.procs[m.0].pgdir in s.dir && m.1 / TABLE_ENTRIES in s.dir[s.procs[m.0].pgdir]
    then (s.dir[s.procs[m.0].pgdir][m.1 / TABLE_ENTRIES], m.1 % TABLE_ENTRIES) else (0, 0)
  }

  lemma {:induction false} ImageSize<A, B>(a: set<A>, b: set<B>, f: A -> B)
    requires forall x :: x in a ==> f(x) in b
    requires forall y :: y in b ==> exists x :: x in a && f(x) == y
    requires forall x, y :: x in a && y in a && f(x) == f(y) ==> x == y
    ensures |a| == |b|
  {
    if a == {} {
      assert b == {};
    } else {
      var x :| x in a;
      var a', b' := a - {x}, b - {f(x)};
      forall y | y in b' ensures exists z :: z in a' && f(z) == y {
        var z :| z in a && f(z) == y;
        assert z in a';
      }
      ImageSize(a', b', f);
      assert |a| == |a'| + 1 && |b| == |b'| + 1;
    }
  }

  /** Every slot of every page table is seen by exactly one user page of one process. */
  lemma SlotHasMapper(s: View, high: map<int, seq<int>>, role: map<int, Role>, husks: seq<int>, f: int, t: int, i: int)
      returns (m: (int, int))
    requires Roles(s.tab, s.dir, high, role) && NonePending(role)
    requires DirsOwned(s.procs, s.dir, husks) && HusksOk(husks, s.dir) && (t, i) in Users(s.tab, f)
    ensures m in Mappers(s, f) && SlotOf(s, m) == (t, i)
  {
    var d, k := role[t].dir, role[t].pdi;
    assert k in s.dir[d] && s.dir[d][k] == t && 0 <= k < KERNEL_PDI && 0 <= i < TABLE_ENTRIES;
    assert d !in husks;
    var p :| p in s.procs && s.procs[p].pgdir == d;
    var v := k * TABLE_ENTRIES + i;
    assert v / TABLE_ENTRIES == k && v % TABLE_ENTRIES == i;
    assert Entry(s, p, v) == Some(s.tab[t][i]);
    m := (p, v);
  }

  lemma MapperSlot(s: View, f: int, m: (int, int))
    requires m in Mappers(s, f)
    ensures SlotOf(s, m) in Users(s.tab, f)
  {
    var v := m.1;
    WalkSlot(s.tab, s.dir, s.procs[m.0].pgdir, v);
    var t, i := s.dir[s.procs[m.0].pgdir][v / TABLE_ENTRIES], v % TABLE_ENTRIES;
    assert t in s.tab && i in s.tab[t] && s.tab[t][i].frame == f;
  }

  lemma SlotInjective(s: View, high: map<int, seq<int>>, role: map<int, Role>, husks: seq<int>, f: int, m: (int, int), n: (int, int))
    requires Roles(s.tab, s.dir, high, role) && DirsOwned(s.procs, s.dir, husks)
    requires m in Mappers(s, f) && n in Mappers(s, f) && SlotOf(s, m) == SlotOf(s, n)
    ensures m == n
  {
  }

  /** Page table entries and user pages are counted alike. */
  lemma UsersAreMappers(s: View, high: map<int, seq<int>>, role: map<int, Role>, husks: seq<int>, f: int)
    requires Roles(s.tab, s.dir, high, role) && NonePending(role)
    requires DirsOwned(s.procs, s.dir, husks) && HusksOk(husks, s.dir)
    ensures |Users(s.tab, f)| == |Mappers(s, f)|
  {
    hide Roles, DirsOwned, HusksOk, NonePending, Users, Mappers, SlotOf;
    var g := (m: (int, int)) => SlotOf(s, m);
    forall m | m in Mappers(s, f) ensures g(m) in Users(s.tab, f) { MapperSlot(s, f, m); }
    forall y | y in Users(s.tab, f) ensures exists m :: m in Mappers(s, f) && g(m) == y {
      var m := SlotHasMapper(s, high, role, husks, f, y.0, y.1);
      assert g(m) == y;
    }
    forall m, n | m in Mappers(s, f) && n in Mappers(s, f) && g(m) == g(n) ensures m == n {
      SlotInjective(s, high, role, husks, f, m, n);
    }
    ImageSize(Mappers(s, f), Users(s.tab, f), g);
  }

  /** What a frame is doing; every frame does exactly one of these. */
  datatype FrameUse = InPool | KernelHeld | UserData

  ghost function UseOf(pool: seq<int>, role: map<int, Role>, f: int): FrameUse {
    if f in pool then InPool else if f in role then KernelHeld else UserData
  }

  /**
   * In every reachable state the frame table is exact: a frame is free, with count 0 and one place in the
   * pool, or held by the kernel as a table, directory, stack or boot memory with count 1, or it is user
   * data and its count is the number of user pages that map it, which is not zero.
   */
  lemma FrameAccounting(k: Kernel, f: int)
    requires k.Valid() && 0 <= f < |k.pm.ref|
    ensures Distinct(k.pm.pool)
    ensures match UseOf(k.pm.pool, k.pm.role, f)
            case InPool => k.pm.ref[f] == 0 && Mappers(k.Snap(), f) == {} && f !in k.pm.role
            case KernelHeld => k.pm.ref[f] == 1 && Mappers(k.Snap(), f) == {}
            case UserData => k.pm.ref[f] == |Mappers(k.Snap(), f)| && k.pm.ref[f] > 0
  {
    hide Roles, DirsOwned, HusksOk, NonePending, CowInv, AreasOk, Users;
    var s := k.Snap();
    UsersAreMappers(s, k.pm.high, k.pm.role, k.pm.husks, f);
    EntryNotFree(s, k.pm.ref, k.pm.pool, k.pm.role.Keys);
    forall m | m in Mappers(s, f) ensures f !in k.pm.pool && f !in k.pm.role { assert Entry(s, m.0, m.1).Some?; }
  }

  /** The frame behind a writable page of a private area has one reference. */
  lemma WritableFrameIsPrivate(k: Kernel, p: int, v: int)
    requires k.Valid() && Entry(k.Snap(), p, v).Some? && Entry(k.Snap(), p, v).value.rw && Private(Attrs(k.Snap(), p, v))
    ensures 0 <= Entry(k.Snap(), p, v).value.frame < |k.pm.ref| && k.pm.ref[Entry(k.Snap(), p, v).value.frame] == 1
    ensures Attrs(k.Snap(), p, v).value.flags.write
  {
    hide Roles, DirsOwned, HusksOk, NonePending, AreasOk, Users, Walk, Exact;
    var s := k.Snap();
    var f := Entry(s, p, v).value.frame;
    EntryNotFree(s, k.pm.ref, k.pm.pool, k.pm.role.Keys);
    FrameAccounting(k, f);
    assert Agrees(Attrs(s, p, v), Entry(s, p, v).value, |s.mem|);
    forall m | m in Mappers(s, f) ensures m == (p, v) {
      assert SameFrame(s, p, v, m.0, m.1);
    }
    assert Mappers(s, f) == {(p, v)} by { assert (p, v) in Mappers(s, f); }
  }

  /** A page table or directory frame, of a process or of a husk, has one reference. */
  lemma TableFramesHeldOnce(k: Kernel, d: int, pdi: int)
    requires k.Valid() && d in k.pm.dir
    ensures 0 <= d < |k.pm.ref| && k.pm.ref[d] == 1
    ensures pdi in k.pm.dir[d] ==> 0 <= k.pm.dir[d][pdi] < |k.pm.ref| && k.pm.ref[k.pm.dir[d][pdi]] == 1
  {
  }
}
