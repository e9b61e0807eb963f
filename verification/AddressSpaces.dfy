/** Processes over shared frames: fork, faults, loads and stores, unmap and exit. */
module AddressSpaces {
  import opened Machine
  import opened VmaList
  import opened FrameTable
  import opened Paging
  import Eager

  datatype Proc = Proc(pgdir: int, areas: seq<Vma>, brk: int)

  /** What page-level reasoning looks at: tables, directories, processes and frame contents. */
  datatype View = View(tab: Tables, dir: Dirs, procs: map<int, Proc>, mem: seq<Page>)

  function Entry(s: View, p: int, v: int): Option<Pte> {
    if Eager.InUser(v) && p in s.procs && s.procs[p].pgdir in s.dir then Walk(s.tab, s.dir[s.procs[p].pgdir], v) else None
  }

  function Attrs(s: View, p: int, v: int): Option<Attr> {
    if p in s.procs then Eager.PageAttr(s.procs[p].areas, v) else None
  }

  /** An entry agrees with the area it lies in. */
  predicate Agrees(a: Option<Attr>, pte: Pte, frames: int) {
    && a.Some? && 0 <= pte.frame < frames
    && pte.user == a.value.flags.read
    && (pte.rw ==> a.value.flags.write)
  }

  predicate SameFrame(s: View, p: int, v: int, q: int, w: int) {
    Entry(s, p, v).Some? && Entry(s, q, w).Some? && Entry(s, p, v).value.frame == Entry(s, q, w).value.frame
  }

  predicate Private(a: Option<Attr>) { a.Some? && !a.value.flags.share }

  /**
   * The copy-on-write invariant: every entry lies in an area and has no more permissions than it, a
   * writable entry of a private area is the only one naming its frame, and frames are not shared
   * between private and VM_SHARE areas.
   */
  ghost predicate CowInv(s: View) {
    && (forall p, v :: Entry(s, p, v).Some? ==> Agrees(Attrs(s, p, v), Entry(s, p, v).value, |s.mem|))
    && (forall p, v, q, w :: SameFrame(s, p, v, q, w) ==>
          && (Private(Attrs(s, p, v)) <==> Private(Attrs(s, q, w)))
          && (Entry(s, p, v).value.rw && Private(Attrs(s, p, v)) ==> p == q && v == w))
  }

  /** The page a process sees: the frame's contents, or zeros before the first fault. */
  function Content(s: View, p: int, v: int): Page {
    var e := Entry(s, p, v);
    if e.Some? && 0 <= e.value.frame < |s.mem| then s.mem[e.value.frame] else ZeroPage()
  }

  ghost function AbsProc(s: View, p: int): Eager.Proc
    requires p in s.procs
  {
    Eager.Proc(s.procs[p].areas, s.procs[p].brk, map v | v in Eager.TrackedPages(s.procs[p].areas) :: Content(s, p, v))
  }

  ghost function Abs(s: View): Eager.State {
    map p | p in s.procs :: AbsProc(s, p)
  }

  // ---------------------------------------------------------------- steps on views

  /** A process all of whose tracked pages look the same looks the same. */
  lemma AbsProcSame(s: View, s': View, p: int, p': int)
    requires p in s.procs && p' in s'.procs && s.procs[p].areas == s'.procs[p'].areas && s.procs[p].brk == s'.procs[p'].brk
    requires forall v :: Eager.Tracked(s.procs[p].areas, v) ==> Content(s, p, v) == Content(s', p', v)
    ensures AbsProc(s, p) == AbsProc(s', p')
  {
  }

  ghost predicate SameProcs(s: View, s': View) {
    s'.procs.Keys == s.procs.Keys && forall p :: p in s.procs ==> s'.procs[p].areas == s.procs[p].areas && s'.procs[p].brk == s.procs[p].brk
  }

  /** A step that changes no page's contents is invisible. */
  lemma AbsSame(s: View, s': View)
    requires SameProcs(s, s')
    requires forall p, v :: p in s.procs && Eager.Tracked(s.procs[p].areas, v) ==> Content(s', p, v) == Content(s, p, v)
    ensures Abs(s') == Abs(s)
  {
    forall p | p in s.procs ensures AbsProc(s', p) == AbsProc(s, p) {
      AbsProcSame(s, s', p, p);
    }
  }

  /** Entering a frame nobody else maps, with contents the page already showed. */
  lemma FillStep(s: View, s': View, p: int, v: int, pte: Pte)
    requires CowInv(s) && SameProcs(s, s') && p in s.procs && Eager.InUser(v) && |s'.mem| == |s.mem|
    requires forall q, w :: Entry(s', q, w) == if q == p && w == v then Some(pte) else Entry(s, q, w)
    requires Agrees(Attrs(s, p, v), pte, |s.mem|)
    requires forall q, w :: Entry(s, q, w).Some? && (q != p || w != v) ==>
               Entry(s, q, w).value.frame != pte.frame && s'.mem[Entry(s, q, w).value.frame] == s.mem[Entry(s, q, w).value.frame]
    requires Eager.Tracked(s.procs[p].areas, v) ==> s'.mem[pte.frame] == Content(s, p, v)
    ensures CowInv(s') && Abs(s') == Abs(s)
  {
    assert forall q, w :: Attrs(s', q, w) == Attrs(s, q, w);
    FillInv(s, s', p, v, pte);
    hide CowInv, Entry, Attrs, Agrees, Abs, Eager.Tracked, SameProcs;
    AbsSame(s, s');
  }

  lemma FillInv(s: View, s': View, p: int, v: int, pte: Pte)
    requires CowInv(s) && |s'.mem| == |s.mem| && forall q, w :: Attrs(s', q, w) == Attrs(s, q, w)
    requires forall q, w :: Entry(s', q, w) == if q == p && w == v then Some(pte) else Entry(s, q, w)
    requires Agrees(Attrs(s, p, v), pte, |s.mem|)
    requires forall q, w :: Entry(s, q, w).Some? && (q != p || w != v) ==> Entry(s, q, w).value.frame != pte.frame
    ensures CowInv(s')
  {
    hide Entry, Attrs;
  }

  ghost predicate Stored(s: View, s': View, p: int, a: int, b: Byte) {
    && p in s.procs && s'.tab == s.tab && s'.dir == s.dir && s'.procs == s.procs
    && Entry(s, p, a / FRAME_SIZE).Some? && Entry(s, p, a / FRAME_SIZE).value.rw
    && var f := Entry(s, p, a / FRAME_SIZE).value.frame;
       0 <= f < |s.mem| && s'.mem == s.mem[f := Eager.WriteByte(s.mem[f], a % FRAME_SIZE, b)]
  }

  lemma StoreContent(s: View, s': View, p: int, a: int, b: Byte, q: int, w: int)
    requires CowInv(s) && Stored(s, s', p, a, b) && q in s.procs && Eager.Tracked(s.procs[q].areas, w)
    ensures Content(s', q, w) == if q == p && w == a / FRAME_SIZE
                                 then Eager.WriteByte(Content(s, q, w), a % FRAME_SIZE, b) else Content(s, q, w)
  {
  }

  lemma StoreOwn(s: View, s': View, p: int, a: int, b: Byte)
    requires CowInv(s) && Stored(s, s', p, a, b)
    ensures AbsProc(s', p) == Eager.Store(Abs(s), p, a, b)[p]
  {
    hide Walk, At, CowInv, Content, Eager.Tracked, Stored;
    assert p in s.procs && s'.procs == s.procs by { StoredProcs(s, s', p, a, b); }
    forall w | Eager.Tracked(s.procs[p].areas, w)
      ensures Content(s', p, w) == if w == a / FRAME_SIZE
                                   then Eager.WriteByte(Content(s, p, w), a % FRAME_SIZE, b) else Content(s, p, w)
    {
      StoreContent(s, s', p, a, b, p, w);
    }
    assert Abs(s)[p] == AbsProc(s, p);
    assert AbsProc(s', p).mem == Eager.Store(Abs(s), p, a, b)[p].mem;
  }

  lemma StoredProcs(s: View, s': View, p: int, a: int, b: Byte)
    requires Stored(s, s', p, a, b)
    ensures p in s.procs && s'.procs == s.procs && |s'.mem| == |s.mem|
    ensures forall q, w :: Entry(s', q, w) == Entry(s, q, w) && Attrs(s', q, w) == Attrs(s, q, w)
  {
  }

  lemma SameEntriesInv(s: View, s': View)
    requires CowInv(s) && |s'.mem| == |s.mem|
    requires forall q, w :: Entry(s', q, w) == Entry(s, q, w) && Attrs(s', q, w) == Attrs(s, q, w)
    ensures CowInv(s')
  {
    hide Entry, Attrs;
  }

  /** A store through a writable entry changes the page of this process and of no other. */
  lemma StoreStep(s: View, s': View, p: int, a: int, b: Byte)
    requires CowInv(s) && Stored(s, s', p, a, b)
    ensures CowInv(s') && Abs(s') == Eager.Store(Abs(s), p, a, b)
  {
    hide Entry, Attrs, Content, Stored, Eager.Tracked, CowInv, Eager.WriteByte;
    StoredProcs(s, s', p, a, b);
    SameEntriesInv(s, s');
    StoreOwn(s, s', p, a, b);
    forall q | q in s.procs && q != p ensures AbsProc(s', q) == AbsProc(s, q) {
      forall w | Eager.Tracked(s.procs[q].areas, w) ensures Content(s, q, w) == Content(s', q, w) {
        StoreContent(s, s', p, a, b, q, w);
      }
      AbsProcSame(s, s', q, q);
    }
    assert Abs(s').Keys == Eager.Store(Abs(s), p, a, b).Keys;
    assert forall q :: q in s.procs ==> Abs(s')[q] == Eager.Store(Abs(s), p, a, b)[q];
  }

  // ---------------------------------------------------------------- changing areas

  ghost predicate Reshaped(s: View, s': View, p: int) {
    && p in s.procs && s'.procs.Keys == s.procs.Keys && s'.mem == s.mem
    && (forall q :: q in s.procs && q != p ==> s'.procs[q] == s.procs[q])
    && (forall q, w :: q != p ==> Entry(s', q, w) == Entry(s, q, w))
    && (forall w :: Entry(s', p, w).Some? ==> Entry(s', p, w) == Entry(s, p, w) && Attrs(s', p, w) == Attrs(s, p, w))
    && (forall w :: Eager.Tracked(s'.procs[p].areas, w) ==>
          Entry(s', p, w) == if Eager.Tracked(s.procs[p].areas, w) then Entry(s, p, w) else None)
  }

  lemma ReshapeInv(s: View, s': View, p: int)
    requires CowInv(s) && Reshaped(s, s', p)
    ensures CowInv(s')
  {
    hide Entry, Eager.Tracked, Agrees, Eager.PageAttr;
    forall q, w | Entry(s', q, w).Some? ensures Entry(s', q, w) == Entry(s, q, w) && Attrs(s', q, w) == Attrs(s, q, w) {
    }
    forall q, v, r, w | SameFrame(s', q, v, r, w) ensures SameFrame(s, q, v, r, w) {
    }
  }

  /** Areas come and go; surviving pages keep their contents, new ones are zero, other processes see nothing. */
  lemma ReshapeStep(s: View, s': View, p: int)
    requires CowInv(s) && Reshaped(s, s', p)
    ensures CowInv(s') && Abs(s') == Abs(s)[p := Eager.Reshape(Abs(s)[p], s'.procs[p].areas, s'.procs[p].brk)]
  {
    hide Entry, Eager.Tracked, Agrees, Eager.PageAttr, CowInv, Attrs;
    ReshapeInv(s, s', p);
    forall q | q in s.procs && q != p ensures AbsProc(s', q) == AbsProc(s, q) {
      AbsProcSame(s, s', q, q);
    }
    assert AbsProc(s', p) == Eager.Reshape(AbsProc(s, p), s'.procs[p].areas, s'.procs[p].brk);
  }

  // ---------------------------------------------------------------- fork

  /** Fork takes write permission away from private writable areas, in parent and child. */
  function Downgraded(a: Option<Attr>, e: Option<Pte>): Option<Pte> {
    if e.Some? && a.Some? && a.value.flags.write && !a.value.flags.share then Some(e.value.(rw := false)) else e
  }

  ghost predicate Forked(s: View, s': View, p: int, child: int) {
    && p in s.procs && child !in s.procs && s'.procs.Keys == s.procs.Keys + {child} && |s'.mem| == |s.mem|
    && (forall r :: r in s.procs ==> s'.procs[r] == s.procs[r])
    && s'.procs[child].areas == s.procs[p].areas && s'.procs[child].brk == s.procs[p].brk
    && (forall r, v :: r != p && r != child ==> Entry(s', r, v) == Entry(s, r, v))
    && (forall v :: Entry(s', p, v) == Downgraded(Attrs(s, p, v), Entry(s, p, v)))
    && (forall v :: Entry(s', child, v) == Entry(s', p, v))
    && (forall r, v :: Entry(s, r, v).Some? && 0 <= Entry(s, r, v).value.frame < |s.mem| ==>
          s'.mem[Entry(s, r, v).value.frame] == s.mem[Entry(s, r, v).value.frame])
  }

  /** The process whose entries r's entries come from. */
  function Origin(r: int, p: int, child: int): int { if r == child then p else r }

  lemma ForkEntry(s: View, s': View, p: int, child: int, r: int, v: int)
    requires CowInv(s) && Forked(s, s', p, child) && Entry(s', r, v).Some?
    ensures var o := Origin(r, p, child);
            && Entry(s, o, v).Some? && Attrs(s', r, v) == Attrs(s, o, v)
            && Entry(s', r, v).value.frame == Entry(s, o, v).value.frame
            && Entry(s', r, v).value.user == Entry(s, o, v).value.user
            && (Entry(s', r, v).value.rw ==> Entry(s, o, v).value.rw)
            && (o == p && Private(Attrs(s, p, v)) ==> !Entry(s', r, v).value.rw)
  {
    hide Walk, At;
  }

  lemma ForkInv(s: View, s': View, p: int, child: int)
    requires CowInv(s) && Forked(s, s', p, child)
    ensures CowInv(s')
  {
    hide Entry, Attrs, Forked;
    assert |s'.mem| == |s.mem| by { ForkMem(s, s', p, child); }
    forall r, v | Entry(s', r, v).Some?
      ensures Agrees(Attrs(s', r, v), Entry(s', r, v).value, |s'.mem|)
    {
      ForkEntry(s, s', p, child, r, v);
    }
    forall r, v, q, w | SameFrame(s', r, v, q, w)
      ensures Private(Attrs(s', r, v)) <==> Private(Attrs(s', q, w))
      ensures Entry(s', r, v).value.rw && Private(Attrs(s', r, v)) ==> r == q && v == w
    {
      ForkEntry(s, s', p, child, r, v);
      ForkEntry(s, s', p, child, q, w);
      assert SameFrame(s, Origin(r, p, child), v, Origin(q, p, child), w);
    }
  }

  lemma ForkMem(s: View, s': View, p: int, child: int)
    requires Forked(s, s', p, child)
    ensures |s'.mem| == |s.mem|
  {
  }

  lemma ForkContent(s: View, s': View, p: int, child: int, r: int, v: int)
    requires CowInv(s) && Forked(s, s', p, child)
    ensures Content(s', r, v) == Content(s, Origin(r, p, child), v)
  {
    hide Walk, At;
  }

  /** After fork, parent and child each see what the parent saw. */
  lemma ForkStep(s: View, s': View, p: int, child: int)
    requires CowInv(s) && Forked(s, s', p, child)
    ensures CowInv(s') && Abs(s') == Eager.Fork(Abs(s), p, child)
  {
    hide Entry, Attrs, Content, Eager.Tracked;
    ForkInv(s, s', p, child);
    forall r | r in s'.procs ensures AbsProc(s', r) == AbsProc(s, Origin(r, p, child)) {
      var o := Origin(r, p, child);
      forall v ensures Content(s, o, v) == Content(s', r, v) { ForkContent(s, s', p, child, r, v); }
      AbsProcSame(s, s', o, r);
    }
    assert Abs(s').Keys == Eager.Fork(Abs(s), p, child).Keys;
    assert forall r :: r in s'.procs ==> Abs(s')[r] == AbsProc(s', r);
  }

  // ---------------------------------------------------------------- exit

  lemma ExitStep(s: View, s': View, p: int)
    requires CowInv(s) && p in s.procs && s'.procs == s.procs - {p} && s'.mem == s.mem
    requires forall q, w :: Entry(s', q, w) == if q == p then None else Entry(s, q, w)
    ensures CowInv(s') && Abs(s') == Abs(s) - {p}
  {
    hide Entry, Eager.Tracked, Agrees, Eager.PageAttr;
    forall q, w | Entry(s', q, w).Some? ensures Entry(s', q, w) == Entry(s, q, w) && Attrs(s', q, w) == Attrs(s, q, w) {
    }
    forall q, v, r, w | SameFrame(s', q, v, r, w) ensures SameFrame(s, q, v, r, w) {
    }
    forall q | q in s'.procs ensures AbsProc(s', q) == AbsProc(s, q) {
      AbsProcSame(s, s', q, q);
    }
  }
}
