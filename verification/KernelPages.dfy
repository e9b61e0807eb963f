/** Kernel page allocation with a lowest-free hint: kernel/paging.c, kalloc_pages and kfree_pages. */
module KernelPages {
  import opened Machine

  /** n free pages from s on. */
  ghost predicate FreeRun(present: set<int>, s: int, n: int) { forall i :: s <= i < s + n ==> i !in present }

  /** The lowest run of n free pages at or above low. */
  ghost predicate LowestRun(present: set<int>, low: int, s: int, n: int) {
    low <= s && FreeRun(present, s, n) && forall t :: low <= t < s ==> !FreeRun(present, t, n)
  }

  /** The lowest free page at or above low. */
  ghost predicate LowestFree(present: set<int>, low: int, f: int) {
    low <= f && f !in present && forall i :: low <= i < f ==> i in present
  }

  ghost function Pages(s: int, n: int): (r: set<int>)
    ensures forall i :: i in r <==> s <= i < s + n
    decreases if n < 0 then 0 else n
  {
    if n <= 0 then {} else Pages(s, n - 1) + {s + n - 1}
  }

  /** Searching from the hint finds what searching from the bottom finds. */
  lemma HintIsEnough(present: set<int>, low: int, f: int, s: int, n: int)
    requires LowestFree(present, low, f) && 1 <= n
    ensures LowestRun(present, f, s, n) <==> LowestRun(present, low, s, n)
  {
    forall t | low <= t < f ensures !FreeRun(present, t, n) { assert t in present; }
  }

  lemma RunStart(present: set<int>, low: int, s: int)
    requires LowestRun(present, low, s, 1)
    ensures s !in present
  {
  }

  lemma LowestRunUnique(present: set<int>, low: int, s: int, t: int, n: int)
    requires LowestRun(present, low, s, n) && LowestRun(present, low, t, n)
    ensures s == t
  {
  }

  /** A finite set of pages ends somewhere. */
  lemma {:induction false} Bounded(present: set<int>) returns (b: int)
    ensures forall i :: i in present ==> i < b
  {
    if x: int :| x in present {
      var c := Bounded(present - {x});
      b := if x < c then c else x + 1;
      forall i | i in present ensures i < b { assert i == x || i in present - {x}; }
    } else {
      b := 0;
    }
  }

  class KernelMap {
    /** The kernel pages that are mapped. */
    var present: set<int>
    var firstFree: int
    /** The first page this allocator manages. */
    const low: int

    ghost predicate Valid()
      reads this
    {
      1 <= low && LowestFree(present, low, firstFree)
    }

    constructor (low: int)
      requires 1 <= low
      ensures Valid() && present == {} && this.low == low
    {
      this.low := low;
      present := {};
      firstFree := low;
    }

    /** The search loop of kalloc_pages. */
    method FindRun(n: int) returns (start: int)
      requires 1 <= n && 1 <= firstFree
      ensures LowestRun(present, firstFree, start, n)
    {
      ghost var b := Bounded(present);
      ghost var top := if b < firstFree then firstFree else b;
      var count, i := 0, firstFree;
      start := 0;
      while true
        invariant firstFree <= i && 0 <= count < n && i - count >= firstFree
        invariant if count == 0 then start == 0 else start == i - count
        invariant FreeRun(present, i - count, count)
        invariant forall t :: firstFree <= t < i - count ==> !FreeRun(present, t, n)
        invariant i > top ==> count >= i - top
        decreases top + n - i
      {
        if i in present {
          forall t | firstFree <= t < i + 1 ensures !FreeRun(present, t, n) {
            if i - count <= t { assert i in present && t <= i < t + n; }
          }
          count, start := 0, 0;
        } else {
          if start == 0 { start := i; }
          count := count + 1;
          if count == n { break; }
        }
        i := i + 1;
      }
    }

    /** The mapping loop of kalloc_pages. */
    method MapRun(start: int, n: int)
      requires FreeRun(present, start, n) && 1 <= n
      modifies this`present
      ensures present == old(present) + Pages(start, n)
    {
      var i := start;
      while i < start + n
        invariant start <= i <= start + n && present == old(present) + Pages(start, i - start)
      {
        present := present + {i};
        i := i + 1;
      }
    }

    /** kalloc_pages: the lowest run of n free pages there is. */
    method KallocPages(n: int) returns (start: int)
      requires Valid() && 1 <= n
      modifies this`present, this`firstFree
      ensures Valid() && LowestRun(old(present), low, start, n) && present == old(present) + Pages(start, n)
    {
      start := FindRun(n);
      HintIsEnough(present, low, firstFree, start, n);
      MapRun(start, n);
      if start == firstFree {
        ghost var b := Bounded(present);
        var i := start + n;
        while i in present
          invariant start + n <= i && forall j :: low <= j < i ==> j in present
          decreases b - i
        {
          i := i + 1;
        }
        firstFree := i;
      }
    }

    /** kfree_pages. */
    method KfreePages(start: int, n: int)
      requires Valid() && 0 <= n && low <= start && Pages(start, n) <= present
      modifies this`present, this`firstFree
      ensures present == old(present) - Pages(start, n) && firstFree == if start < old(firstFree) then start else old(firstFree)
      ensures Valid() <==> 1 <= n || old(firstFree) <= start
    {
      var i := start;
      ghost var was := present;
      assert forall j :: start <= j < start + n ==> j in Pages(start, n);
      while i < start + n
        invariant start <= i <= start + n && present == was - Pages(start, i - start)
        modifies this`present
      {
        present := present - {i};
        i := i + 1;
      }
      if start < firstFree { firstFree := start; }
    }
  }

  /** Freeing no pages where one is mapped leaves the hint on it. */
  method FreeNothing() returns (k: KernelMap)
    ensures !k.Valid() && k.firstFree in k.present
  {
    k := new KernelMap(1);
    var p := k.KallocPages(1);
    assert FreeRun({}, 1, 1) && p == 1 && 1 in Pages(1, 1);
    k.KfreePages(1, 0);
  }

  // ---------------------------------------------------------------- whole runs

  lemma {:induction false} Least(present: set<int>, low: int, t: int, n: int) returns (s: int)
    requires low <= t && FreeRun(present, t, n)
    ensures LowestRun(present, low, s, n)
    decreases t - low
  {
    if u :| low <= u < t && FreeRun(present, u, n) {
      s := Least(present, low, u, n);
    } else {
      s := t;
    }
  }

  lemma SomeRun(present: set<int>, low: int, n: int)
    ensures exists s :: LowestRun(present, low, s, n)
  {
    var b := Bounded(present);
    var s := Least(present, low, if b < low then low else b, n);
  }

  /** An exhaustive search for n free pages. */
  ghost function Search(present: set<int>, low: int, n: int): (s: int)
    ensures LowestRun(present, low, s, n)
  {
    SomeRun(present, low, n);
    var s :| LowestRun(present, low, s, n); s
  }

  datatype PageOp = Alloc(n: int) | Free(start: int, n: int)

  /** The pages mapped after some calls, every allocation searching from the bottom. */
  ghost function After(present: set<int>, low: int, ops: seq<PageOp>): set<int>
    decreases |ops|
  {
    if ops == [] then present
    else
      match ops[0]
      case Alloc(n) => After(present + Pages(Search(present, low, n), n), low, ops[1..])
      case Free(s, n) => After(present - Pages(s, n), low, ops[1..])
  }

  /** What the allocations among those calls return. */
  ghost function Starts(present: set<int>, low: int, ops: seq<PageOp>): seq<int>
    decreases |ops|
  {
    if ops == [] then []
    else
      match ops[0]
      case Alloc(n) => [Search(present, low, n)] + Starts(present + Pages(Search(present, low, n), n), low, ops[1..])
      case Free(s, n) => Starts(present - Pages(s, n), low, ops[1..])
  }

  /** Every call asks for at least one page, or frees pages that are mapped. */
  ghost predicate Legal(present: set<int>, low: int, ops: seq<PageOp>)
    decreases |ops|
  {
    ops == [] ||
    match ops[0]
    case Alloc(n) => 1 <= n && Legal(present + Pages(Search(present, low, n), n), low, ops[1..])
    case Free(s, n) => 1 <= n && low <= s && Pages(s, n) <= present && Legal(present - Pages(s, n), low, ops[1..])
  }

  /** Over any run of calls the hint makes no difference: every allocation returns what an exhaustive search would. */
  method RunPages(k: KernelMap, ops: seq<PageOp>) returns (starts: seq<int>)
    requires k.Valid() && Legal(k.present, k.low, ops)
    modifies k`present, k`firstFree
    ensures k.Valid() && k.present == After(old(k.present), k.low, ops) && starts == Starts(old(k.present), k.low, ops)
  {
    hide LowestRun, LowestFree;
    starts := [];
    var i := 0;
    while i < |ops|
      invariant 0 <= i <= |ops| && k.Valid() && Legal(k.present, k.low, ops[i..])
      invariant After(old(k.present), k.low, ops) == After(k.present, k.low, ops[i..])
      invariant Starts(old(k.present), k.low, ops) == starts + Starts(k.present, k.low, ops[i..])
    {
      assert ops[i..][1..] == ops[i + 1..];
      match ops[i] {
        case Alloc(n) =>
          ghost var was := k.present;
          var s := k.KallocPages(n);
          LowestRunUnique(was, k.low, s, Search(was, k.low, n), n);
          starts := starts + [s];
        case Free(s, n) =>
          k.KfreePages(s, n);
      }
      i := i + 1;
    }
  }
}
