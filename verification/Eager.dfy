/** The simple kernel copy-on-write has to agree with: fork copies every page, nothing is shared. */
module Eager {
  import opened Machine
  import opened VmaList
  import MmStruct

  /** A process: areas, break, and the contents of every page of its private zero-filled anonymous areas. */
  datatype Proc = Proc(areas: seq<Vma>, brk: int, mem: map<int, Page>)

  type State = map<int, Proc>

  function PageAttr(areas: seq<Vma>, v: int): Option<Attr> { At(areas, v * FRAME_SIZE) }

  predicate InUser(v: int) { 0 <= v < USER_PAGES }

  /** Pages whose contents are determined by the process alone. */
  predicate Tracked(areas: seq<Vma>, v: int) { InUser(v) && ZeroFilled(PageAttr(areas, v)) }

  predicate ZeroFilled(a: Option<Attr>) {
    a.Some? && a.value.flags.zero && !a.value.flags.share && a.value.source.Anon?
  }

  function TrackedPages(areas: seq<Vma>): (r: set<int>)
    ensures forall v :: v in r <==> Tracked(areas, v)
  {
    set v | 0 <= v < USER_PAGES && Tracked(areas, v)
  }

  /** Change the areas: pages that stay keep their contents, new ones read as zero. */
  function Reshape(pr: Proc, areas: seq<Vma>, brk: int): Proc {
    Proc(areas, brk, map v | v in TrackedPages(areas) :: PageOr(pr.mem, v))
  }

  function PageOr(mem: map<int, Page>, v: int): Page { if v in mem then mem[v] else ZeroPage() }

  function Fork(s: State, p: int, child: int): State
    requires p in s
  {
    s[child := s[p]]
  }

  function WriteByte(pg: Page, off: int, b: Byte): Page
    requires 0 <= off < FRAME_SIZE
  {
    pg[off := b]
  }

  function Store(s: State, p: int, a: int, b: Byte): State
    requires p in s
  {
    var v := a / FRAME_SIZE;
    if v in s[p].mem then s[p := s[p].(mem := s[p].mem[v := WriteByte(s[p].mem[v], a % FRAME_SIZE, b)])] else s
  }

  datatype Outcome = Done | MapErr | AccErr | FaultLoop

  /** What an access to an address covered by these areas does. */
  function AccessOutcome(areas: seq<Vma>, a: int, write: bool): Outcome {
    var attr := PageAttr(areas, a / FRAME_SIZE);
    if attr.None? then MapErr
    else if write then
      if !attr.value.flags.write then AccErr else if attr.value.flags.read then Done else FaultLoop
    else if attr.value.flags.read then Done else AccErr
  }

  /** A store to a page that is writable and not readable faults for ever. */
  lemma WriteOnlyFaults()
    ensures var flags := Flags(false, true, false, true, false, false, false);
            AccessOutcome([Vma(0x1000, 0x2000, flags, Anon)], 0x1000, true) == FaultLoop
  {
  }

  // ---------------------------------------------------------------- runs

  /** What processes and the kernel can do, in any interleaving. */
  datatype Action =
    | Spawn(p: int, brk: int)
    | ForkAct(p: int, child: int)
    | LoadAct(p: int, a: int, fill: Option<Page>)
    | StoreAct(p: int, a: int, b: Byte, fill: Option<Page>)
    | MapAct(p: int, v: Vma)
    | UnmapAct(p: int, addr: int, len: int)
    | SbrkAct(p: int, inc: int)
    | ExitAct(p: int)

  ghost predicate UserAreas(areas: seq<Vma>) {
    Wf(areas) && forall i :: 0 <= i < |areas| ==> 0 < areas[i].end <= KERNEL_BASE
  }

  /** sbrk calls none of whose sums leaves 32 bits, and which keep the heap below the kernel. */
  ghost predicate SbrkFits(areas: seq<Vma>, brk: int, inc: int) {
    && Wf(areas) && 0 < brk <= KERNEL_BASE && -0x8000_0000 <= inc < 0x8000_0000
    && UserAreas(MmStruct.SbrkAreas(areas, brk, inc, true))
    && var heap, k := MmStruct.WithHeap(areas, brk), MmStruct.HeapIndex(areas, brk);
       k < |heap| && (MmStruct.Grows(heap[k], brk, inc) ==> heap[k].end + PageUp(inc) < W32)
  }

  ghost predicate Legal(s: State, act: Action) {
    match act
    case Spawn(p, _) => p !in s
    case ForkAct(p, child) => p in s && child !in s
    case LoadAct(p, a, _) => p in s && 0 <= a < KERNEL_BASE
    case StoreAct(p, a, _, _) => p in s && 0 <= a < KERNEL_BASE
    case MapAct(p, v) => p in s && GoodVma(v) && Fits(s[p].areas, v) && 0 < v.end <= KERNEL_BASE
    case UnmapAct(p, addr, len) => p in s && 0 <= addr && 0 <= len && addr + PageUp(len) < W32
    case SbrkAct(p, inc) => p in s && SbrkFits(s[p].areas, s[p].brk, inc)
    case ExitAct(p) => p in s
  }

  ghost function Step(s: State, act: Action): State
    requires Legal(s, act)
  {
    match act
    case Spawn(p, brk) => s[p := Proc([], brk, map[])]
    case ForkAct(p, child) => Fork(s, p, child)
    case LoadAct(_, _, _) => s
    case StoreAct(p, a, b, _) => if AccessOutcome(s[p].areas, a, true) == Done then Store(s, p, a, b) else s
    case MapAct(p, v) => s[p := Reshape(s[p], Insert(s[p].areas, v), s[p].brk)]
    case UnmapAct(p, addr, len) =>
      var e := addr + PageUp(len);
      if MmStruct.Refused(s[p].areas, addr, e, len) then s
      else s[p := Reshape(s[p], MmStruct.CutAll(s[p].areas, addr, e), s[p].brk)]
    case SbrkAct(p, inc) =>
      var areas, brk := s[p].areas, s[p].brk;
      s[p := Reshape(s[p], MmStruct.SbrkAreas(areas, brk, inc, true),
                     if MmStruct.SbrkError(areas, brk, inc, true).None? then Add32(brk, inc) else brk)]
    case ExitAct(p) => s - {p}
  }

  /** The byte a process reads at an address, if it may read there and the page's contents are its own. */
  function Peek(pr: Proc, a: int): Option<Byte> {
    if AccessOutcome(pr.areas, a, false) == Done && a / FRAME_SIZE in pr.mem then Some(pr.mem[a / FRAME_SIZE][a % FRAME_SIZE]) else None
  }

  /** What an action delivers: a load, the byte read. */
  ghost function Output(s: State, act: Action): Option<Byte>
    requires Legal(s, act)
  {
    if act.LoadAct? then Peek(s[act.p], act.a) else None
  }

  ghost predicate LegalRun(s: State, acts: seq<Action>)
    decreases |acts|
  {
    acts != [] ==> Legal(s, acts[0]) && LegalRun(Step(s, acts[0]), acts[1..])
  }

  ghost function Run(s: State, acts: seq<Action>): State
    requires LegalRun(s, acts)
    decreases |acts|
  {
    if acts == [] then s else Run(Step(s, acts[0]), acts[1..])
  }

  ghost function Outputs(s: State, acts: seq<Action>): seq<Option<Byte>>
    requires LegalRun(s, acts)
    decreases |acts|
  {
    if acts == [] then [] else [Output(s, acts[0])] + Outputs(Step(s, acts[0]), acts[1..])
  }

  // ---------------------------------------------------------------- what loads deliver

  /** A private area of zero-filled pages. */
  predicate Zeroed(v: Vma) { v.flags.zero && !v.flags.share && v.back.Anon? }

  /** Every process has contents for exactly the pages whose contents are its own. */
  ghost predicate Tracks(s: State) { forall p :: p in s ==> s[p].mem.Keys == TrackedPages(s[p].areas) }

  /** This holds in every state of every run. */
  lemma StepTracks(s: State, act: Action)
    requires Legal(s, act) && Tracks(s)
    ensures Tracks(Step(s, act))
  {
    hide MmStruct.CutAll, MmStruct.SbrkAreas, MmStruct.SbrkError, MmStruct.Refused, Insert, AccessOutcome, Wf, Fits, Tracked;
    NothingTracked();
  }

  lemma NothingTracked()
    ensures TrackedPages([]) == {}
  {
  }

  lemma AlignedContains(v: Vma, a: int)
    requires GoodVma(v) && 0 <= a
    ensures Contains(v, a) <==> Contains(v, a / FRAME_SIZE * FRAME_SIZE)
  {
  }

  /** The attributes of an address's page, by the area that holds the address. */
  lemma PageAttrOf(areas: seq<Vma>, a: int)
    requires Wf(areas) && 0 <= a
    ensures forall k :: 0 <= k < |areas| && Contains(areas[k], a) ==>
              PageAttr(areas, a / FRAME_SIZE) == Some(AttrOf(areas[k], a / FRAME_SIZE * FRAME_SIZE))
    ensures (forall k :: 0 <= k < |areas| ==> !Contains(areas[k], a)) ==> PageAttr(areas, a / FRAME_SIZE).None?
  {
    hide At;
    var x := a / FRAME_SIZE * FRAME_SIZE;
    forall k | 0 <= k < |areas| ensures Contains(areas[k], a) <==> Contains(areas[k], x) { AlignedContains(areas[k], a); }
    forall k | 0 <= k < |areas| && Contains(areas[k], a) ensures At(areas, x) == Some(AttrOf(areas[k], x)) { AtIndex(areas, k, x); }
    if At(areas, x).Some? { var k := AtSome(areas, x); }
  }

  /**
   * Whether an access is allowed is decided by the area that holds the address: it has to be readable, and writable for a
   * store; without an area there is nothing to access.
   */
  lemma AccessMeans(areas: seq<Vma>, a: int, write: bool)
    requires Wf(areas) && 0 <= a
    ensures AccessOutcome(areas, a, write) == Done <==>
            exists k :: 0 <= k < |areas| && Contains(areas[k], a) && areas[k].flags.read && (write ==> areas[k].flags.write)
    ensures AccessOutcome(areas, a, write) == MapErr <==> forall k :: 0 <= k < |areas| ==> !Contains(areas[k], a)
    ensures AccessOutcome(areas, a, write) == AccErr <==>
            exists k :: 0 <= k < |areas| && Contains(areas[k], a) && if write then !areas[k].flags.write else !areas[k].flags.read
  {
    hide PageAttr;
    PageAttrOf(areas, a);
  }

  /** A load delivers a byte if and only if it reads a readable area of the process's own. */
  lemma LoadMeans(s: State, p: int, a: int, fill: Option<Page>)
    requires Tracks(s) && p in s && Wf(s[p].areas) && 0 <= a < KERNEL_BASE
    ensures Output(s, LoadAct(p, a, fill)).Some? <==>
            exists k :: 0 <= k < |s[p].areas| && Contains(s[p].areas[k], a) && Zeroed(s[p].areas[k]) && s[p].areas[k].flags.read
  {
    hide PageAttr;
    PageAttrOf(s[p].areas, a);
    assert InUser(a / FRAME_SIZE);
  }

  /** A store to a readable and writable area of the process's own is seen by the next load there, and by no other load. */
  lemma StoreThenLoad(s: State, p: int, a: int, b: Byte, fill: Option<Page>, k: nat, a': int)
    requires Tracks(s) && p in s && Wf(s[p].areas) && 0 <= a < KERNEL_BASE && 0 <= a' < KERNEL_BASE
    requires k < |s[p].areas| && Contains(s[p].areas[k], a) && Zeroed(s[p].areas[k])
    requires s[p].areas[k].flags.read && s[p].areas[k].flags.write
    ensures Output(Step(s, StoreAct(p, a, b, fill)), LoadAct(p, a', fill)) ==
            if a' == a then Some(b) else Output(s, LoadAct(p, a', fill))
  {
    hide PageAttr;
    PageAttrOf(s[p].areas, a);
    assert InUser(a / FRAME_SIZE);
    if a' != a && a' / FRAME_SIZE == a / FRAME_SIZE { assert a' % FRAME_SIZE != a % FRAME_SIZE; }
  }

  /** What a load delivers after the areas have changed: the byte from before where there was one, zero in new areas. */
  lemma ReshapeThenPeek(pr: Proc, areas: seq<Vma>, brk: int, a: int)
    requires pr.mem.Keys == TrackedPages(pr.areas) && 0 <= a < KERNEL_BASE
    ensures var page := a / FRAME_SIZE;
            Peek(Reshape(pr, areas, brk), a) ==
            if !ZeroFilled(PageAttr(areas, page)) || !PageAttr(areas, page).value.flags.read then None
            else if ZeroFilled(PageAttr(pr.areas, page)) then Some(pr.mem[page][a % FRAME_SIZE])
            else Some(0)
  {
    hide PageAttr;
    assert InUser(a / FRAME_SIZE);
  }

  /** A new area of zero-filled pages reads as zeros, and nothing else reads differently. */
  lemma MapThenLoad(s: State, p: int, v: Vma, a: int, fill: Option<Page>)
    requires Tracks(s) && Legal(s, MapAct(p, v)) && Wf(s[p].areas) && 0 <= a < KERNEL_BASE
    ensures Output(Step(s, MapAct(p, v)), LoadAct(p, a, fill)) ==
            if !Contains(v, a) then Output(s, LoadAct(p, a, fill)) else if Zeroed(v) && v.flags.read then Some(0) else None
  {
    hide At, Insert;
    var x, areas := a / FRAME_SIZE * FRAME_SIZE, s[p].areas;
    AlignedContains(v, a);
    InsertAt(areas, v, x);
    ReshapeThenPeek(s[p], Insert(areas, v), s[p].brk, a);
    assert InUser(a / FRAME_SIZE);
    if Contains(v, a) && At(areas, x).Some? {
      var k := AtSome(areas, x);
    }
  }

  /** An unmapped range cannot be read, and everything outside it reads as before, as does everything when it is refused. */
  lemma UnmapThenLoad(s: State, p: int, addr: int, len: int, a: int, fill: Option<Page>)
    requires Tracks(s) && Legal(s, UnmapAct(p, addr, len)) && Wf(s[p].areas) && 0 <= a < KERNEL_BASE
    ensures Output(Step(s, UnmapAct(p, addr, len)), LoadAct(p, a, fill)) ==
            if !MmStruct.Refused(s[p].areas, addr, addr + PageUp(len), len) && addr <= a < addr + PageUp(len) then None
            else Output(s, LoadAct(p, a, fill))
  {
    hide At, MmStruct.CutAll, PageUp;
    var x, e := a / FRAME_SIZE * FRAME_SIZE, addr + PageUp(len);
    if MmStruct.Refused(s[p].areas, addr, e, len) { return; }
    MmStruct.PageUpRange(len);
    MmStruct.AlignedSum(addr, PageUp(len));
    AlignedContains(Vma(addr, e, HEAP_FLAGS, Anon), a);
    MmStruct.CutAt(s[p].areas, addr, e, x);
    ReshapeThenPeek(s[p], MmStruct.CutAll(s[p].areas, addr, e), s[p].brk, a);
    assert InUser(a / FRAME_SIZE);
  }

  /** A new process reads nothing; after a fork both processes read what the parent read; a process that exits is gone. */
  lemma LifeAndDeath(s: State, act: Action, a: int)
    requires Legal(s, act)
    ensures act.Spawn? ==> act.p in Step(s, act) && Peek(Step(s, act)[act.p], a).None? && Step(s, act)[act.p].brk == act.brk
    ensures act.ForkAct? ==>
              && act.p in Step(s, act) && act.child in Step(s, act) && Step(s, act)[act.child].brk == s[act.p].brk
              && Peek(Step(s, act)[act.p], a) == Peek(s[act.p], a) && Peek(Step(s, act)[act.child], a) == Peek(s[act.p], a)
    ensures act.ExitAct? ==> act.p !in Step(s, act)
  {
    hide MmStruct.CutAll, MmStruct.SbrkAreas, MmStruct.SbrkError, MmStruct.Refused, Insert, Wf, Fits;
  }

  /** Runs compose. */
  lemma ConsConcat<T>(x: T, a: seq<T>, b: seq<T>)
    ensures [x] + (a + b) == ([x] + a) + b
  {
  }

  lemma {:induction false} RunConcat(s: State, a: seq<Action>, b: seq<Action>)
    requires LegalRun(s, a + b)
    ensures LegalRun(s, a) && LegalRun(Run(s, a), b)
    ensures Run(s, a + b) == Run(Run(s, a), b) && Outputs(s, a + b) == Outputs(s, a) + Outputs(Run(s, a), b)
    decreases |a|
  {
    hide Step, Legal, Output;
    if a == [] {
      assert a + b == b;
    } else {
      assert (a + b)[0] == a[0] && (a + b)[1..] == a[1..] + b;
      RunConcat(Step(s, a[0]), a[1..], b);
      ConsConcat(Output(s, a[0]), Outputs(Step(s, a[0]), a[1..]), Outputs(Run(s, a), b));
    }
  }

  /** What the others do never shows: a process that does nothing keeps its areas, break and memory. */
  lemma {:induction false} Isolation(s: State, acts: seq<Action>, p: int)
    requires LegalRun(s, acts) && p in s && forall i :: 0 <= i < |acts| ==> acts[i].p != p
    ensures p in Run(s, acts) && Run(s, acts)[p] == s[p]
    decreases |acts|
  {
    if acts != [] {
      assert p in Step(s, acts[0]) && Step(s, acts[0])[p] == s[p] by { StepIsolation(s, acts[0], p); }
      Isolation(Step(s, acts[0]), acts[1..], p);
    }
  }

  lemma StepIsolation(s: State, act: Action, p: int)
    requires Legal(s, act) && p in s && act.p != p
    ensures p in Step(s, act) && Step(s, act)[p] == s[p]
  {
    hide MmStruct.CutAll, MmStruct.SbrkAreas, MmStruct.SbrkError, MmStruct.Refused, Reshape, AccessOutcome, Wf, Fits;
  }

  /** Whatever the parent and everybody else do after a fork, an idle child still holds the parent's memory at the fork. */
  lemma ForkIsSnapshot(s: State, p: int, child: int, acts: seq<Action>)
    requires p in s && child !in s && LegalRun(s, [ForkAct(p, child)] + acts)
    requires forall i :: 0 <= i < |acts| ==> acts[i].p != child
    ensures child in Run(s, [ForkAct(p, child)] + acts) && Run(s, [ForkAct(p, child)] + acts)[child] == s[p]
  {
    var run := [ForkAct(p, child)] + acts;
    assert run[1..] == acts;
    Isolation(Step(s, run[0]), acts, child);
  }
}
