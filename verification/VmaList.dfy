/** The per-process list of memory areas: kernel/vma.c and the list half of munmap and sbrk. */
module VmaList {
  import opened Machine

  datatype Flags = Flags(exec: bool, write: bool, read: bool, zero: bool,
                         keep: bool, keepExec: bool, share: bool)

  /** What backs an area: nothing, or an open file from a byte offset on. */
  datatype Backing = Anon | File(file: nat, off: int)

  datatype Vma = Vma(start: int, end: int, flags: Flags, back: Backing)

  const HEAP_FLAGS := Flags(false, true, true, true, false, false, false)

  predicate Contains(v: Vma, x: int) { v.start <= x < v.end }

  predicate GoodVma(v: Vma) {
    0 <= v.start <= v.end < W32 && Aligned(v.start) && Aligned(v.end)
  }

  /** The invariant of the list: page-aligned areas, sorted, pairwise disjoint. */
  ghost predicate Wf(areas: seq<Vma>) {
    && (forall i :: 0 <= i < |areas| ==> GoodVma(areas[i]))
    && (forall i, j :: 0 <= i < j < |areas| ==> areas[i].end <= areas[j].start)
  }

  /** What a process can observe at an address: permissions, and the file position behind it. */
  datatype Attr = Attr(flags: Flags, source: Backing)

  function AttrOf(v: Vma, x: int): Attr {
    Attr(v.flags, match v.back case Anon => Anon case File(f, off) => File(f, off + (x - v.start)))
  }

  function At(areas: seq<Vma>, x: int): Option<Attr> {
    if areas == [] then None
    else if Contains(areas[0], x) then Some(AttrOf(areas[0], x))
    else At(areas[1..], x)
  }

  lemma {:induction false} AtIndex(areas: seq<Vma>, k: nat, x: int)
    requires Wf(areas) && k < |areas| && Contains(areas[k], x)
    ensures At(areas, x) == Some(AttrOf(areas[k], x))
  {
    if k != 0 {
      assert areas[0].end <= areas[k].start;
      AtIndex(areas[1..], k - 1, x);
    }
  }

  lemma {:induction false} AtNone(areas: seq<Vma>, x: int)
    requires forall i :: 0 <= i < |areas| ==> !Contains(areas[i], x)
    ensures At(areas, x) == None
  {
    if areas != [] { AtNone(areas[1..], x); }
  }

  lemma {:induction false} AtSome(areas: seq<Vma>, x: int) returns (k: nat)
    requires At(areas, x).Some?
    ensures k < |areas| && Contains(areas[k], x)
  {
    if Contains(areas[0], x) { k := 0; } else { k := AtSome(areas[1..], x); k := k + 1; }
  }

  lemma {:induction false} AtConcat(a: seq<Vma>, b: seq<Vma>, x: int)
    ensures At(a + b, x) == if At(a, x).Some? then At(a, x) else At(b, x)
  {
    if a == [] {
      assert a + b == b;
    } else {
      assert (a + b)[1..] == a[1..] + b;
      AtConcat(a[1..], b, x);
    }
  }

  // ---------------------------------------------------------------- vma_find, vma_get

  /** Index of the first area ending above x, or the length of the list. */
  function FindIndex(areas: seq<Vma>, x: int): (k: nat)
    ensures k <= |areas|
    ensures k < |areas| ==> areas[k].end > x
    ensures forall i :: 0 <= i < k ==> areas[i].end <= x
  {
    if areas == [] || areas[0].end > x then 0 else 1 + FindIndex(areas[1..], x)
  }

  /** vma_get: the area holding x, if any, although only one candidate is inspected. */
  lemma GetIsComplete(areas: seq<Vma>, x: int)
    requires Wf(areas)
    ensures var k := FindIndex(areas, x);
            At(areas, x) == if k < |areas| && Contains(areas[k], x) then Some(AttrOf(areas[k], x)) else None
  {
  }

  // ---------------------------------------------------------------- vma_insert

  function InsertIndex(areas: seq<Vma>, start: int): (k: nat)
    ensures k <= |areas|
    ensures k < |areas| ==> areas[k].start > start
    ensures forall i :: 0 <= i < k ==> areas[i].start <= start
  {
    if areas == [] || areas[0].start > start then 0 else 1 + InsertIndex(areas[1..], start)
  }

  function Insert(areas: seq<Vma>, v: Vma): seq<Vma> {
    var k := InsertIndex(areas, v.start);
    areas[..k] + [v] + areas[k..]
  }

  /** No area reaches into v, and none that starts where v starts ends after it. */
  ghost predicate Fits(areas: seq<Vma>, v: Vma) {
    forall i :: 0 <= i < |areas| ==>
      areas[i].end <= v.start || (v.start < areas[i].start && v.end <= areas[i].start)
  }

  lemma InsertShape(areas: seq<Vma>, v: Vma)
    ensures var k, r := InsertIndex(areas, v.start), Insert(areas, v);
            && |r| == |areas| + 1 && r[k] == v
            && (forall i :: 0 <= i < k ==> r[i] == areas[i])
            && (forall i :: k < i < |r| ==> r[i] == areas[i - 1])
  {
  }

  lemma InsertNeedsGap(areas: seq<Vma>, v: Vma)
    requires Wf(areas) && Wf(Insert(areas, v))
    ensures Fits(areas, v)
  {
    InsertShape(areas, v);
    var k, r := InsertIndex(areas, v.start), Insert(areas, v);
    forall i | 0 <= i < |areas|
      ensures areas[i].end <= v.start || (v.start < areas[i].start && v.end <= areas[i].start)
    {
      if i < k { assert r[i].end <= r[k].start; } else { assert r[k].end <= r[i + 1].start; }
    }
  }

  lemma InsertIntoGap(areas: seq<Vma>, v: Vma, i: nat, j: nat)
    requires Wf(areas) && v.start <= v.end && Fits(areas, v) && i < j <= |areas|
    ensures var r := Insert(areas, v); |r| == |areas| + 1 && r[i].end <= r[j].start
  {
  }

  /** Inserting keeps the list sorted and disjoint exactly when the new area fits in a gap. */
  lemma InsertKeepsWf(areas: seq<Vma>, v: Vma)
    requires Wf(areas) && GoodVma(v)
    ensures Wf(Insert(areas, v)) <==> Fits(areas, v)
  {
    if Wf(Insert(areas, v)) { InsertNeedsGap(areas, v); }
    if Fits(areas, v) {
      InsertShape(areas, v);
      var r := Insert(areas, v);
      forall i, j | 0 <= i < j < |r| ensures r[i].end <= r[j].start {
        InsertIntoGap(areas, v, i, j);
      }
    }
  }

  lemma InsertAt(areas: seq<Vma>, v: Vma, x: int)
    requires Wf(areas) && GoodVma(v) && Fits(areas, v)
    ensures At(Insert(areas, v), x) == if Contains(v, x) then Some(AttrOf(v, x)) else At(areas, x)
  {
    var k := InsertIndex(areas, v.start);
    var r := Insert(areas, v);
    InsertKeepsWf(areas, v);
    if Contains(v, x) {
      assert r[k] == v;
      AtIndex(r, k, x);
    } else {
      assert areas == areas[..k] + areas[k..];
      AtConcat(areas[..k], areas[k..], x);
      assert r == areas[..k] + ([v] + areas[k..]);
      AtConcat(areas[..k], [v] + areas[k..], x);
      AtConcat([v], areas[k..], x);
    }
  }

  // ---------------------------------------------------------------- vma_find_space_high

  /** The address vma_find_space_high computes, with its unsigned 32-bit sums. */
  function FindHigh(areas: seq<Vma>, start: int, end: int, len: int): int {
    if areas == [] then (if end <= start || end - start < len then 0 else end - len)
    else
      var v := areas[|areas| - 1];
      var rest := areas[..|areas| - 1];
      if v.start >= end then FindHigh(rest, start, end, len)
      else if Add32(start, len) > end then 0
      else if Add32(v.end, len) <= end then Sub32(end, len)
      else FindHigh(rest, start, v.start, len)
  }

  ghost predicate FreeRange(areas: seq<Vma>, lo: int, hi: int) {
    forall i :: 0 <= i < |areas| ==> areas[i].end <= lo || hi <= areas[i].start
  }

  ghost predicate Candidate(areas: seq<Vma>, start: int, end: int, len: int, lo: int) {
    start <= lo && lo + len <= end && FreeRange(areas, lo, lo + len)
  }

  /** r is the highest place for len bytes in [start, end), and 0 only when there is none. */
  ghost predicate IsHighest(areas: seq<Vma>, start: int, end: int, len: int, r: int) {
    && (r != 0 ==> Candidate(areas, start, end, len, r))
    && (forall lo :: Candidate(areas, start, end, len, lo) ==> r != 0 && lo <= r)
  }

  lemma {:induction false} FindHighSound(areas: seq<Vma>, start: int, end: int, len: int)
    requires Wf(areas) && 0 < start && 0 < len && 0 <= end < W32 && start + len < W32
    requires start + len <= end ==> forall i :: 0 <= i < |areas| && areas[i].start < end ==> areas[i].end + len < W32
    ensures IsHighest(areas, start, end, len, FindHigh(areas, start, end, len))
  {
    hide IsHighest, FreeRange, Candidate;
    assert Add32(start, len) == start + len;
    if start + len > end || areas == [] {
      NoRoomHighest(areas, start, end, len);
      HighestNone(areas, start, end, len);
    } else {
      var v := areas[|areas| - 1];
      var rest := areas[..|areas| - 1];
      if v.start >= end {
        FindHighSound(rest, start, end, len);
        ShrinkHighest(areas, start, end, end, len, FindHigh(rest, start, end, len));
      } else if v.end + len > end {
        FindHighSound(rest, start, v.start, len);
        ShrinkHighest(areas, start, end, v.start, len, FindHigh(rest, start, v.start, len));
      } else {
        TopGapHighest(areas, start, end, len);
      }
    }
  }

  /** When the bounds leave no room the search gives up, however many areas it skips first. */
  lemma {:induction false} HighestNone(areas: seq<Vma>, start: int, end: int, len: int)
    requires Wf(areas) && 0 < start && 0 < len && 0 <= end < W32 && start + len < W32 && (start + len > end || areas == [])
    ensures FindHigh(areas, start, end, len) == if start + len > end then 0 else end - len
  {
    if areas != [] { HighestNone(areas[..|areas| - 1], start, end, len); }
  }

  lemma NoRoomHighest(areas: seq<Vma>, start: int, end: int, len: int)
    requires 0 < start && 0 < len && (start + len > end || areas == [])
    ensures IsHighest(areas, start, end, len, if start + len > end then 0 else end - len)
  {
  }

  lemma TopGapHighest(areas: seq<Vma>, start: int, end: int, len: int)
    requires Wf(areas) && areas != [] && 0 < start && 0 < len && start + len <= end && areas[|areas| - 1].end + len <= end
    ensures IsHighest(areas, start, end, len, end - len)
  {
  }

  /** Dropping the last area moves the upper bound of the search to `bound`. */
  lemma ShrinkHighest(areas: seq<Vma>, start: int, end: int, bound: int, len: int, r: int)
    requires Wf(areas) && areas != [] && 0 < start && 0 < len
    requires var v := areas[|areas| - 1];
             (v.start >= end && bound == end) || (v.start < end < v.end + len && bound == v.start)
    requires IsHighest(areas[..|areas| - 1], start, bound, len, r)
    ensures IsHighest(areas, start, end, len, r)
  {
    var v := areas[|areas| - 1];
    var rest := areas[..|areas| - 1];
    assert forall i :: 0 <= i < |rest| ==> rest[i] == areas[i];
    forall lo ensures Candidate(areas, start, end, len, lo) <==> Candidate(rest, start, bound, len, lo) {
      if Candidate(rest, start, bound, len, lo) {
        forall i | 0 <= i < |areas| ensures areas[i].end <= lo || lo + len <= areas[i].start {
          if i < |rest| { assert rest[i].end <= lo || lo + len <= rest[i].start; }
        }
      }
    }
  }

  /** A sum that wraps makes the search hand out a range that runs into an existing area. */
  lemma {:induction false} FindHighWraps(areas: seq<Vma>, start: int, end: int, len: int, w: nat)
    requires Wf(areas) && 0 < start && 0 < len && 0 <= end < W32 && start + len <= end
    requires w < |areas| && areas[w].start < end && areas[w].end + len >= W32
    ensures FindHigh(areas, start, end, len) == end - len
    ensures !FreeRange(areas, end - len, end)
  {
    var v := areas[|areas| - 1];
    var rest := areas[..|areas| - 1];
    assert Add32(start, len) == start + len;
    assert !(areas[w].end <= end - len || end <= areas[w].start);
    if v.start >= end {
      FindHighWraps(rest, start, end, len, w);
    } else {
      assert w == |areas| - 1 || areas[w].end <= v.start;
      assert W32 <= v.end + len < W32 + len;
      assert Add32(v.end, len) == v.end + len - W32;
      assert Sub32(end, len) == end - len;
    }
  }

  /** Where the gap above area i ends: at the next area, or at the upper bound of the search. */
  function GapEnd(areas: seq<Vma>, end: int, i: nat): int
    requires i < |areas|
  {
    if i + 1 < |areas| && areas[i + 1].start < end then areas[i + 1].start else end
  }

  /** Area i is one the search looks at, and the sums it compares with the end of the gap above are small enough. */
  predicate Accepts(areas: seq<Vma>, start: int, end: int, len: int, i: nat)
    requires i < |areas|
  {
    var e := GapEnd(areas, end, i);
    areas[i].start < e && Add32(start, len) <= e && Add32(areas[i].end, len) <= e
  }

  ghost predicate HighestAccepted(areas: seq<Vma>, start: int, end: int, len: int, i: nat)
    requires i < |areas|
  {
    Accepts(areas, start, end, len, i) && forall j :: i < j < |areas| ==> !Accepts(areas, start, end, len, j)
  }

  /**
   * The search comes back empty-handed: no gap is accepted and the room below the lowest area is too small, or the
   * highest gap accepted ends at address len, so that its place is address 0.
   */
  ghost predicate ComesBackEmpty(areas: seq<Vma>, start: int, end: int, len: int) {
    && (forall i :: 0 <= i < |areas| && HighestAccepted(areas, start, end, len, i) ==> GapEnd(areas, end, i) == len)
    && ((forall i :: 0 <= i < |areas| ==> !Accepts(areas, start, end, len, i)) ==>
          var e := if areas != [] && areas[0].start < end then areas[0].start else end;
          e <= start || e - start < len || e == len)
  }

  /** On every input the search returns 0 exactly when it comes back empty-handed. */
  lemma {:induction false} FindHighZeroIff(areas: seq<Vma>, start: int, end: int, len: int)
    requires Wf(areas) && 0 <= start < W32 && 0 <= len < W32 && 0 <= end < W32
    ensures FindHigh(areas, start, end, len) == 0 <==> ComesBackEmpty(areas, start, end, len)
  {
    hide ComesBackEmpty, Accepts;
    if areas == [] {
      NoAreasEmpty(start, end, len);
    } else {
      var n := |areas| - 1;
      var v, rest := areas[n], areas[..n];
      AcceptsLast(areas, start, end, len);
      if v.start >= end {
        FindHighZeroIff(rest, start, end, len);
        EmptyWithoutLast(areas, start, end, end, len);
      } else if Add32(start, len) > end {
        StopsShort(areas, start, end, len);
      } else if Add32(v.end, len) <= end {
        LastDecides(areas, start, end, len);
      } else {
        FindHighZeroIff(rest, start, v.start, len);
        EmptyWithoutLast(areas, start, end, v.start, len);
      }
    }
  }

  lemma NoAreasEmpty(start: int, end: int, len: int)
    requires 0 <= start < W32 && 0 <= len < W32 && 0 <= end < W32
    ensures FindHigh([], start, end, len) == 0 <==> ComesBackEmpty([], start, end, len)
  {
  }

  lemma AcceptsLast(areas: seq<Vma>, start: int, end: int, len: int)
    requires areas != []
    ensures var v := areas[|areas| - 1];
            Accepts(areas, start, end, len, |areas| - 1) <==> v.start < end && Add32(start, len) <= end && Add32(v.end, len) <= end
  {
  }

  /** A last area that is not accepted only moves the upper bound. */
  lemma EmptyWithoutLast(areas: seq<Vma>, start: int, end: int, bound: int, len: int)
    requires Wf(areas) && areas != [] && !Accepts(areas, start, end, len, |areas| - 1)
    requires bound == if areas[|areas| - 1].start >= end then end else areas[|areas| - 1].start
    ensures ComesBackEmpty(areas, start, end, len) <==> ComesBackEmpty(areas[..|areas| - 1], start, bound, len)
  {
    hide Add32, Accepts;
    var n := |areas| - 1;
    var rest := areas[..n];
    forall i | 0 <= i < n
      ensures GapEnd(rest, bound, i) == GapEnd(areas, end, i) && Accepts(rest, start, bound, len, i) == Accepts(areas, start, end, len, i)
    {
      SameGap(areas, start, end, bound, len, i);
    }
    SameLowest(areas, end, bound);
    forall i | 0 <= i < n ensures HighestAccepted(rest, start, bound, len, i) <==> HighestAccepted(areas, start, end, len, i) {
    }
  }

  lemma SameGap(areas: seq<Vma>, start: int, end: int, bound: int, len: int, i: nat)
    requires Wf(areas) && i + 1 < |areas| && bound == if areas[|areas| - 1].start >= end then end else areas[|areas| - 1].start
    ensures var rest := areas[..|areas| - 1];
            GapEnd(rest, bound, i) == GapEnd(areas, end, i) && Accepts(rest, start, bound, len, i) == Accepts(areas, start, end, len, i)
  {
    hide Add32;
    var n := |areas| - 1;
    if i + 1 < n { assert areas[i + 1].end <= areas[n].start; }
  }

  lemma SameLowest(areas: seq<Vma>, end: int, bound: int)
    requires Wf(areas) && areas != [] && bound == if areas[|areas| - 1].start >= end then end else areas[|areas| - 1].start
    ensures var rest := areas[..|areas| - 1];
            (if areas[0].start < end then areas[0].start else end) == if rest != [] && rest[0].start < bound then rest[0].start else bound
  {
    if |areas| > 1 { assert areas[0].end <= areas[|areas| - 1].start; }
  }

  lemma StopsShort(areas: seq<Vma>, start: int, end: int, len: int)
    requires Wf(areas) && areas != [] && areas[|areas| - 1].start < end && Add32(start, len) > end
    requires 0 <= start < W32 && 0 <= len < W32 && 0 <= end < W32
    ensures ComesBackEmpty(areas, start, end, len)
  {
    forall i | 0 <= i < |areas| ensures !Accepts(areas, start, end, len, i) { assert GapEnd(areas, end, i) <= end; }
  }

  lemma LastDecides(areas: seq<Vma>, start: int, end: int, len: int)
    requires areas != [] && Accepts(areas, start, end, len, |areas| - 1) && 0 <= len < W32 && 0 <= end < W32
    ensures areas[|areas| - 1].start < end ==> (Sub32(end, len) == 0 <==> ComesBackEmpty(areas, start, end, len))
  {
    var n := |areas| - 1;
    hide Accepts;
    assert HighestAccepted(areas, start, end, len, n) && GapEnd(areas, end, n) == end;
    assert Sub32(end, len) == 0 <==> end == len;
  }

  /**
   * vma_find_space_high is sound, complete and optimal exactly when: if start + len fits in 32 bits, no area below `end`
   * ends within `len` bytes of the top of the address space, unless the bounds leave no room anyway; if start + len does
   * not fit, there is no place at all, and it must come back empty-handed.
   */
  ghost predicate FindHighFits(areas: seq<Vma>, start: int, end: int, len: int) {
    if start + len < W32 then
      start + len <= end ==> forall i :: 0 <= i < |areas| && areas[i].start < end ==> areas[i].end + len < W32
    else ComesBackEmpty(areas, start, end, len)
  }

  lemma FindHighCorrectIff(areas: seq<Vma>, start: int, end: int, len: int)
    requires Wf(areas) && 0 < start < W32 && 0 < len < W32 && 0 <= end < W32
    ensures IsHighest(areas, start, end, len, FindHigh(areas, start, end, len)) <==> FindHighFits(areas, start, end, len)
  {
    hide FindHigh, ComesBackEmpty;
    if start + len >= W32 {
      FindHighZeroIff(areas, start, end, len);
    } else if start + len <= end && exists i :: 0 <= i < |areas| && areas[i].start < end && areas[i].end + len >= W32 {
      var w :| 0 <= w < |areas| && areas[w].start < end && areas[w].end + len >= W32;
      FindHighWraps(areas, start, end, len, w);
      assert !Candidate(areas, start, end, len, end - len);
    } else {
      FindHighSound(areas, start, end, len);
    }
  }

  /** With the stack in its place below the kernel, asking for 1 GiB yields a range over the stack. */
  lemma FindHighOverlapsStack()
    ensures var stack := Vma(KERNEL_BASE - 0x8000, KERNEL_BASE, HEAP_FLAGS, Anon);
            FindHigh([stack], 0x1000, KERNEL_BASE, 0x4000_0000) == 0x8000_0000
  {
  }

  /** With the same stack, asking for all but a page of the address space yields an address in the kernel. */
  lemma FindHighIntoKernel()
    ensures var stack := Vma(KERNEL_BASE - 0x8000, KERNEL_BASE, HEAP_FLAGS, Anon);
            && FindHigh([stack], 0x1000, KERNEL_BASE, 0xFFFF_F000) == KERNEL_BASE + 0x1000
            && !IsHighest([stack], 0x1000, KERNEL_BASE, 0xFFFF_F000, KERNEL_BASE + 0x1000)
  {
  }

  // ---------------------------------------------------------------- vma_find_space

  /** The address vma_find_space computes. */
  function FindLow(areas: seq<Vma>, start: int, end: int, len: int): int {
    if areas == [] then (if start >= end || Add32(start, len) > end then 0 else start)
    else if areas[0].end <= start then FindLow(areas[1..], start, end, len)
    else if Add32(start, len) >= end then 0
    else if Add32(start, len) < areas[0].start then start
    else FindLow(areas[1..], areas[0].end, end, len)
  }

  /** Where the upward search stands when it comes to area i. */
  function Reached(areas: seq<Vma>, start: int, i: nat): int
    requires i <= |areas|
  {
    if i > 0 && areas[i - 1].end > start then areas[i - 1].end else start
  }

  /** It goes on past area i. */
  predicate LowPasses(areas: seq<Vma>, start: int, end: int, len: int, i: nat)
    requires i < |areas|
  {
    var c := Reached(areas, start, i);
    areas[i].end <= c || areas[i].start <= Add32(c, len) < end
  }

  /** It takes the place in front of area i, or behind all areas. */
  predicate LowAccepts(areas: seq<Vma>, start: int, end: int, len: int, i: nat)
    requires i <= |areas|
  {
    var c := Reached(areas, start, i);
    if i < |areas| then areas[i].end > c && Add32(c, len) < end && Add32(c, len) < areas[i].start
    else c < end && Add32(c, len) <= end
  }

  /** The search stops at the first area it does not pass, and takes the place in front of it or gives up. */
  lemma {:induction false} LowStage(areas: seq<Vma>, start: int, end: int, len: int) returns (i: nat)
    requires Wf(areas)
    ensures i <= |areas| && (forall j :: 0 <= j < i ==> LowPasses(areas, start, end, len, j))
    ensures i < |areas| ==> !LowPasses(areas, start, end, len, i)
    ensures FindLow(areas, start, end, len) == if LowAccepts(areas, start, end, len, i) then Reached(areas, start, i) else 0
    decreases |areas|
  {
    hide Add32;
    if areas == [] || !LowPasses(areas, start, end, len, 0) { return 0; }
    var next, rest := Reached(areas, start, 1), areas[1..];
    var k := LowStage(rest, next, end, len);
    i := k + 1;
    assert forall j :: 0 <= j < |rest| ==> rest[j] == areas[j + 1];
    forall j | 0 <= j <= |rest| ensures Reached(rest, next, j) == Reached(areas, start, j + 1) { ReachedRest(areas, start, j); }
    forall j | 0 < j < i ensures LowPasses(areas, start, end, len, j) { assert LowPasses(rest, next, end, len, j - 1); }
  }

  lemma ReachedRest(areas: seq<Vma>, start: int, j: nat)
    requires Wf(areas) && j < |areas|
    ensures Reached(areas[1..], Reached(areas, start, 1), j) == Reached(areas, start, j + 1)
  {
    if j > 0 { assert areas[0].end <= areas[j].start; }
  }

  /** What the upward search hands out lies in the bounds, and its pages are free. */
  ghost predicate LowRight(areas: seq<Vma>, start: int, end: int, len: int, r: int) {
    r != 0 ==> start <= r < end && r + len <= end && FreeRange(areas, r, PageUp(r + len))
  }

  /** The place the search takes is one from which len bytes do not run past the top of the address space. */
  ghost predicate FindLowFits(areas: seq<Vma>, start: int, end: int, len: int) {
    forall i :: 0 <= i <= |areas| && LowAccepts(areas, start, end, len, i) && Reached(areas, start, i) != 0 &&
                (forall j :: 0 <= j < i ==> LowPasses(areas, start, end, len, j)) ==>
                  Reached(areas, start, i) + len < W32
  }

  /** The upward search is sound if and only if the place it takes does not wrap. */
  lemma FindLowSoundIff(areas: seq<Vma>, start: int, end: int, len: int)
    requires Wf(areas) && 0 <= start < W32 && 0 <= len < W32 && 0 <= end < W32
    ensures LowRight(areas, start, end, len, FindLow(areas, start, end, len)) <==> FindLowFits(areas, start, end, len)
  {
    hide FindLow, LowRight, FreeRange, PageUp;
    var i := LowStage(areas, start, end, len);
    var c := Reached(areas, start, i);
    if LowAccepts(areas, start, end, len, i) { LowTaken(areas, start, end, len, i); }
    assert forall k :: 0 <= k < |areas| && LowAccepts(areas, start, end, len, k) ==> !LowPasses(areas, start, end, len, k);
    NothingTaken(areas, start, end, len);
  }

  lemma NothingTaken(areas: seq<Vma>, start: int, end: int, len: int)
    ensures LowRight(areas, start, end, len, 0)
  {
  }

  lemma LowTaken(areas: seq<Vma>, start: int, end: int, len: int, i: nat)
    requires Wf(areas) && 0 <= start < W32 && 0 <= len < W32 && 0 <= end < W32 && i <= |areas| && LowAccepts(areas, start, end, len, i)
    ensures var c := Reached(areas, start, i);
            c != 0 ==> (LowRight(areas, start, end, len, c) <==> c + len < W32)
    ensures var c := Reached(areas, start, i);
            c + len < W32 ==> forall v: Vma :: v.start == c && v.end == PageUp(c + len) ==> Fits(areas, v)
  {
    var c := Reached(areas, start, i);
    if c + len < W32 {
      if i < |areas| { PageUpLeast(c + len, areas[i].start); }
      forall j | 0 <= j < |areas| ensures areas[j].end <= c || (c < areas[j].start && PageUp(c + len) <= areas[j].start) {
        if j + 1 < i { assert areas[j].end <= areas[i - 1].start; }
        if i < j { assert areas[i].end <= areas[j].start; }
      }
    }
  }

  /**
   * The upward search is complete and lowest up to one byte: wherever there is room for one byte more than asked for,
   * it finds a place at or below.
   */
  lemma {:induction false} FindLowComplete(areas: seq<Vma>, start: int, end: int, len: int, x: int)
    requires Wf(areas) && 0 < start <= x && 0 <= len && x + len + 1 <= end && end < W32 && FreeRange(areas, x, x + len + 1)
    ensures start <= FindLow(areas, start, end, len) <= x
    decreases |areas|
  {
    assert Add32(start, len) == start + len;
    if areas != [] {
      assert areas[0].end <= x || x + len + 1 <= areas[0].start;
      if areas[0].end <= start {
        FindLowComplete(areas[1..], start, end, len, x);
      } else if start + len >= areas[0].start {
        FindLowComplete(areas[1..], areas[0].end, end, len, x);
      }
    }
  }

  /** A gap of exactly the size asked for is passed over. */
  lemma FindLowMissesExactFit()
    ensures var areas := [Vma(0x1000, 0x2000, HEAP_FLAGS, Anon), Vma(0x3000, 0x4000, HEAP_FLAGS, Anon)];
            Wf(areas) && FreeRange(areas, 0x2000, 0x3000) && FindLow(areas, 0x1000, 0x4000, 0x1000) == 0
  {
    var areas := [Vma(0x1000, 0x2000, HEAP_FLAGS, Anon), Vma(0x3000, 0x4000, HEAP_FLAGS, Anon)];
    assert areas[1..] == [areas[1]] && areas[1..][1..] == [];
    assert FindLow([], 0x4000, 0x4000, 0x1000) == 0;
    assert FindLow([areas[1]], 0x2000, 0x4000, 0x1000) == 0;
  }
}
