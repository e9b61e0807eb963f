/** Editing one process's area list: kernel/vma.c, sys_munmap's list surgery and sys_sbrk. */
module MmStruct {
  import opened Machine
  import opened VmaList

  datatype Error = EINVAL | ENOMEM | EFAULT

  // ---------------------------------------------------------------- cutting a range out of the list

  function Shift(b: Backing, delta: int): Backing {
    match b case Anon => Anon case File(f, off) => File(f, off + delta)
  }

  function LeftPart(v: Vma, x: int): Vma { v.(end := x) }

  /** The right half of a bisected area; a file area's offset moves along with its start. */
  function RightPart(v: Vma, x: int): Vma { v.(start := x, back := Shift(v.back, x - v.start)) }

  /** Areas munmap looks at: not entirely before s, and starting before e. */
  predicate Touched(v: Vma, s: int, e: int) { v.end >= s && v.start < e }

  function Cut(v: Vma, s: int, e: int): seq<Vma> {
    if !Touched(v, s, e) then [v]
    else (if v.start < s then [LeftPart(v, s)] else []) + (if v.end > e then [RightPart(v, e)] else [])
  }

  function CutAll(areas: seq<Vma>, s: int, e: int): seq<Vma> {
    if areas == [] then [] else Cut(areas[0], s, e) + CutAll(areas[1..], s, e)
  }

  /** The piece of an area that munmap hands to the page-table code. */
  function Middle(v: Vma, s: int, e: int): Vma {
    var m := if v.start < s then RightPart(v, s) else v;
    if v.end > e then LeftPart(m, e) else m
  }

  function Removed(areas: seq<Vma>, s: int, e: int): seq<Vma> {
    if areas == [] then []
    else (if Touched(areas[0], s, e) then [Middle(areas[0], s, e)] else []) + Removed(areas[1..], s, e)
  }

  lemma CutAllConcat(a: seq<Vma>, b: seq<Vma>, s: int, e: int)
    ensures CutAll(a + b, s, e) == CutAll(a, s, e) + CutAll(b, s, e)
    ensures Removed(a + b, s, e) == Removed(a, s, e) + Removed(b, s, e)
  {
    hide CutAll, Removed;
    LeftConcat(a, b, s, e);
    RemovedConcat(a, b, s, e);
  }

  lemma {:induction false} LeftConcat(a: seq<Vma>, b: seq<Vma>, s: int, e: int)
    ensures CutAll(a + b, s, e) == CutAll(a, s, e) + CutAll(b, s, e)
  {
    hide Cut;
    if a == [] {
      assert a + b == b;
    } else {
      assert (a + b)[0] == a[0] && (a + b)[1..] == a[1..] + b;
      LeftConcat(a[1..], b, s, e);
      Assoc(Cut(a[0], s, e), CutAll(a[1..], s, e), CutAll(b, s, e));
    }
  }

  lemma {:induction false} RemovedConcat(a: seq<Vma>, b: seq<Vma>, s: int, e: int)
    ensures Removed(a + b, s, e) == Removed(a, s, e) + Removed(b, s, e)
  {
    hide Touched, Middle;
    if a == [] {
      assert a + b == b;
    } else {
      assert (a + b)[0] == a[0] && (a + b)[1..] == a[1..] + b;
      RemovedConcat(a[1..], b, s, e);
      Assoc(if Touched(a[0], s, e) then [Middle(a[0], s, e)] else [], Removed(a[1..], s, e), Removed(b, s, e));
    }
  }

  lemma Assoc(a: seq<Vma>, b: seq<Vma>, c: seq<Vma>)
    ensures (a + b) + c == a + (b + c)
  {
  }

  /** The list with the area at k split at x, and the list without the area at k. */
  function Bisected(l: seq<Vma>, k: nat, x: int): seq<Vma>
    requires k < |l|
  {
    l[..k] + [LeftPart(l[k], x), RightPart(l[k], x)] + l[k + 1..]
  }
  function Unlinked(l: seq<Vma>, k: nat): seq<Vma>
    requires k < |l|
  {
    l[..k] + l[k + 1..]
  }

  /** Splitting off what starts before s, splitting off what ends behind e and unlinking the rest is cutting [s, e) out. */
  lemma CutShape(l: seq<Vma>, i: nat, s: int, e: int)
    requires i < |l| && Touched(l[i], s, e)
    ensures var k := if l[i].start < s then i + 1 else i;
            var l1 := if l[i].start < s then Bisected(l, i, s) else l;
            && k < |l1| && l1[k].end == l[i].end
            && var l2 := if l1[k].end > e then Bisected(l1, k, e) else l1;
               && k < |l2| && l2[k] == Middle(l[i], s, e) && Unlinked(l2, k) == l[..i] + Cut(l[i], s, e) + l[i + 1..]
               && |Cut(l[i], s, e)| == (if l[i].start < s then 1 else 0) + if l1[k].end > e then 1 else 0
  {
    CutParts(l[i], s, e);
    hide Bisected, Cut, Middle, LeftPart, RightPart, Touched;
    if l[i].start < s {
      if l[i].end > e { CutBoth(l, i, s, e); } else { CutTail(l, i, s); }
    } else if l[i].end > e {
      CutHead(l, i, e);
    } else {
      assert Cut(l[i], s, e) == [];
    }
  }

  lemma CutParts(v: Vma, s: int, e: int)
    requires Touched(v, s, e)
    ensures RightPart(v, s).end == v.end
    ensures Cut(v, s, e) ==
            if v.start < s then if v.end > e then [LeftPart(v, s), RightPart(v, e)] else [LeftPart(v, s)]
            else if v.end > e then [RightPart(v, e)] else []
    ensures Middle(v, s, e) ==
            if v.start < s then if v.end > e then LeftPart(RightPart(v, s), e) else RightPart(v, s)
            else if v.end > e then LeftPart(v, e) else v
  {
  }

  lemma CutTail(l: seq<Vma>, i: nat, s: int)
    requires i < |l|
    ensures |Bisected(l, i, s)| == |l| + 1 && Bisected(l, i, s)[i + 1] == RightPart(l[i], s)
    ensures Unlinked(Bisected(l, i, s), i + 1) == l[..i] + [LeftPart(l[i], s)] + l[i + 1..]
  {
  }

  lemma CutHead(l: seq<Vma>, i: nat, e: int)
    requires i < |l|
    ensures |Bisected(l, i, e)| == |l| + 1 && Bisected(l, i, e)[i] == LeftPart(l[i], e)
    ensures Unlinked(Bisected(l, i, e), i) == l[..i] + [RightPart(l[i], e)] + l[i + 1..]
  {
  }

  lemma CutBoth(l: seq<Vma>, i: nat, s: int, e: int)
    requires i < |l|
    ensures var l1 := Bisected(l, i, s);
            && |l1| == |l| + 1 && l1[i + 1] == RightPart(l[i], s)
            && var l2 := Bisected(l1, i + 1, e);
               |l2| == |l1| + 1 && l2[i + 1] == LeftPart(RightPart(l[i], s), e) &&
               Unlinked(l2, i + 1) == l[..i] + [LeftPart(l[i], s), RightPart(l[i], e)] + l[i + 1..]
  {
  }

  lemma {:induction false} CutNothing(areas: seq<Vma>, s: int, e: int)
    requires forall i :: 0 <= i < |areas| ==> !Touched(areas[i], s, e)
    ensures CutAll(areas, s, e) == areas && Removed(areas, s, e) == []
  {
    if areas != [] {
      CutNothing(areas[1..], s, e);
      assert areas == [areas[0]] + areas[1..];
    }
  }

  /** Every piece that is left lies inside the area it came from. */
  lemma {:induction false} CutBounds(areas: seq<Vma>, s: int, e: int)
    requires Wf(areas) && Aligned(s) && Aligned(e) && 0 <= s <= e < W32
    ensures forall i :: 0 <= i < |CutAll(areas, s, e)| ==>
              GoodVma(CutAll(areas, s, e)[i]) && (areas != [] ==> areas[0].start <= CutAll(areas, s, e)[i].start)
  {
    if areas != [] {
      var rest := areas[1..];
      CutBounds(rest, s, e);
      var c, d := Cut(areas[0], s, e), CutAll(rest, s, e);
      forall i | 0 <= i < |c + d| ensures GoodVma((c + d)[i]) && areas[0].start <= (c + d)[i].start {
        if i >= |c| {
          assert (c + d)[i] == d[i - |c|];
          if rest != [] { assert rest[0] == areas[1]; }
        }
      }
    }
  }

  lemma {:induction false} CutKeepsWf(areas: seq<Vma>, s: int, e: int)
    requires Wf(areas) && Aligned(s) && Aligned(e) && 0 <= s <= e < W32
    ensures Wf(CutAll(areas, s, e))
  {
    if areas != [] {
      var rest := areas[1..];
      CutKeepsWf(rest, s, e);
      CutBounds(areas, s, e);
      CutBounds(rest, s, e);
      var c, d := Cut(areas[0], s, e), CutAll(rest, s, e);
      var r: seq<Vma> := c + d;
      forall i, j | 0 <= i < j < |r| ensures r[i].end <= r[j].start {
        if i < |c| <= j {
          assert r[i].end <= areas[0].end;
          assert r[j] == d[j - |c|];
          if rest != [] { assert rest[0] == areas[1]; }
        } else if |c| <= i {
          assert r[i] == d[i - |c|] && r[j] == d[j - |c|];
        }
      }
    }
  }

  /**
   * munmap leaves the list sorted and disjoint if and only if the end address did not wrap
   * below the start, or wrapped without any area being looked at.
   */
  lemma CutKeepsWfIff(areas: seq<Vma>, s: int, e: int)
    requires Wf(areas) && Aligned(s) && Aligned(e) && 0 <= s < W32 && 0 <= e < W32
    ensures Wf(CutAll(areas, s, e)) <==>
            (s <= e || forall i :: 0 <= i < |areas| ==> !Touched(areas[i], s, e))
  {
    if s <= e {
      CutKeepsWf(areas, s, e);
    } else if k :| 0 <= k < |areas| && Touched(areas[k], s, e) {
      hide CutAll, GoodVma;
      CutPrefix(areas, k, s, e);
      CutAllConcat(areas[..k + 1], areas[k + 1..], s, e);
      assert areas == areas[..k + 1] + areas[k + 1..];
      var r, p := CutAll(areas, s, e), |CutAll(areas[..k], s, e)|;
      assert Cut(areas[k], s, e) == [LeftPart(areas[k], s), RightPart(areas[k], e)];
      assert r[p] == LeftPart(areas[k], s) && r[p + 1] == RightPart(areas[k], e);
    } else {
      CutNothing(areas, s, e);
    }
  }

  /** A length that wraps the end address below the start leaves two areas that overlap. */
  lemma MunmapWraps()
    ensures var areas, addr, len := [Vma(0x10_0000, 0x50_0000, HEAP_FLAGS, Anon)], 0x40_0000, 0xFFE0_0000;
            var e := Add32(addr, PageAlign(len));
            Wf(areas) && e == 0x20_0000 && !Refused(areas, addr, e, len) && !Wf(CutAll(areas, addr, e))
  {
    var areas := [Vma(0x10_0000, 0x50_0000, HEAP_FLAGS, Anon)];
    CutKeepsWfIff(areas, 0x40_0000, 0x20_0000);
    assert Touched(areas[0], 0x40_0000, 0x20_0000);
  }

  /**
   * A range is refused for a kept area that it meets, and for one that only ends where it starts: so it is refused rightly
   * if and only if it meets a kept area, or no kept area ends where it starts, or it is refused anyway.
   */
  lemma RefusedIff(areas: seq<Vma>, addr: int, e: int, len: int)
    requires addr < e
    ensures var other := e > KERNEL_BASE || len == 0 || !Aligned(addr);
            var meets := exists i :: 0 <= i < |areas| && areas[i].start < e && addr < areas[i].end && areas[i].flags.keep;
            (Refused(areas, addr, e, len) <==> other || meets) <==>
            other || meets || forall i :: 0 <= i < |areas| && areas[i].flags.keep && areas[i].start < e ==> areas[i].end != addr
  {
    if i :| 0 <= i < |areas| && areas[i].flags.keep && areas[i].start < e && areas[i].end == addr {
      assert Touched(areas[i], addr, e);
    }
  }

  /** A free page above a kept area cannot be unmapped. */
  lemma RefusesNeighbour()
    ensures Refused([Vma(0x1000, 0x2000, HEAP_FLAGS.(keep := true), Anon)], 0x2000, 0x3000, 0x1000)
  {
    var areas := [Vma(0x1000, 0x2000, HEAP_FLAGS.(keep := true), Anon)];
    assert Touched(areas[0], 0x2000, 0x3000) && areas[0].flags.keep;
  }

  lemma CutOneAt(v: Vma, s: int, e: int, x: int)
    requires s <= e
    ensures At(Cut(v, s, e), x) == if Contains(v, x) && !(s <= x < e) then Some(AttrOf(v, x)) else None
  {
    var left := if v.start < s then [LeftPart(v, s)] else [];
    var right := if v.end > e then [RightPart(v, e)] else [];
    AtConcat(left, right, x);
    AtOne(v, x);
    AtOne(LeftPart(v, s), x);
    AtOne(RightPart(v, e), x);
  }

  lemma AtOne(v: Vma, x: int)
    ensures At([v], x) == if Contains(v, x) then Some(AttrOf(v, x)) else None
  {
    assert [v][1..] == [];
  }

  /**
   * munmap is exact: an address inside [s, e) is no longer covered, and every other address keeps
   * its permissions, its file and its position in that file.
   */
  lemma {:induction false} CutAt(areas: seq<Vma>, s: int, e: int, x: int)
    requires s <= e
    ensures At(CutAll(areas, s, e), x) == if s <= x < e then None else At(areas, x)
  {
    if areas != [] {
      AtConcat(Cut(areas[0], s, e), CutAll(areas[1..], s, e), x);
      CutOneAt(areas[0], s, e, x);
      CutAt(areas[1..], s, e, x);
    }
  }

  /** The pieces handed to the page-table code are exactly the covered part of [s, e). */
  lemma {:induction false} RemovedAt(areas: seq<Vma>, s: int, e: int, x: int)
    requires s <= e
    ensures At(Removed(areas, s, e), x) == if s <= x < e then At(areas, x) else None
  {
    if areas != [] {
      var one := if Touched(areas[0], s, e) then [Middle(areas[0], s, e)] else [];
      AtConcat(one, Removed(areas[1..], s, e), x);
      assert At(one, x) == if s <= x < e && Contains(areas[0], x) then Some(AttrOf(areas[0], x)) else None;
      RemovedAt(areas[1..], s, e, x);
    }
  }

  lemma {:induction false} RemovedBounds(areas: seq<Vma>, s: int, e: int)
    requires Wf(areas) && Aligned(s) && Aligned(e) && 0 <= s <= e < W32
    ensures forall i :: 0 <= i < |Removed(areas, s, e)| ==>
              GoodVma(Removed(areas, s, e)[i]) && s <= Removed(areas, s, e)[i].start && Removed(areas, s, e)[i].end <= e
  {
    if areas != [] {
      RemovedBounds(areas[1..], s, e);
    }
  }

  lemma CutEmpty(s: int, e: int)
    ensures CutAll([], s, e) == [] && Removed([], s, e) == []
  {
  }

  /** One more area processed. */
  lemma CutPrefix(was: seq<Vma>, j: nat, s: int, e: int)
    requires j < |was|
    ensures CutAll(was[..j + 1], s, e) == CutAll(was[..j], s, e) + Cut(was[j], s, e)
    ensures Removed(was[..j + 1], s, e) ==
            Removed(was[..j], s, e) + if Touched(was[j], s, e) then [Middle(was[j], s, e)] else []
  {
    assert was[..j + 1] == was[..j] + [was[j]];
    CutAllConcat(was[..j], [was[j]], s, e);
    assert [was[j]][1..] == [];
    assert CutAll([was[j]], s, e) == Cut(was[j], s, e) + CutAll([], s, e);
  }

  lemma UntouchedSuffix(was: seq<Vma>, j: nat, s: int, e: int)
    requires Wf(was) && j <= |was| && (j < |was| ==> was[j].start >= e)
    ensures forall i :: 0 <= i < |was[j..]| ==> !Touched(was[j..][i], s, e)
  {
    forall i | j < i < |was| ensures was[i].start >= e { assert was[j].end <= was[i].start; }
  }

  /** The list while it is walked: what is done, the next area, and the rest. */
  lemma NextArea(l: seq<Vma>, done: seq<Vma>, was: seq<Vma>, j: nat)
    requires j < |was| && l == done + was[j..]
    ensures |done| < |l| && l[|done|] == was[j] && l[..|done|] == done && l[|done| + 1..] == was[j + 1..]
    ensures l == done + [was[j]] + was[j + 1..]
  {
  }

  /** The early exit of the loop: once an area starts at or after e, so do all that follow. */
  lemma CutSuffix(was: seq<Vma>, j: nat, s: int, e: int)
    requires Wf(was) && j <= |was| && (j < |was| ==> was[j].start >= e)
    ensures CutAll(was, s, e) == CutAll(was[..j], s, e) + was[j..]
    ensures Removed(was, s, e) == Removed(was[..j], s, e)
  {
    hide CutAll, Removed;
    UntouchedSuffix(was, j, s, e);
    hide Wf, Touched;
    CutNothing(was[j..], s, e);
    CutAllConcat(was[..j], was[j..], s, e);
    assert was == was[..j] + was[j..];
  }

  // ---------------------------------------------------------------- creating areas

  function HighArea(areas: seq<Vma>, start: int, end: int, len: int, flags: Flags): Option<Vma> {
    var addr := FindHigh(areas, start, end, PageAlign(len));
    if addr == 0 then None else Some(Vma(addr, PageAlign(Add32(addr, len)), flags, Anon))
  }

  /** The new area is the highest free range of the rounded-up size, if there is one, and the list stays well formed. */
  ghost predicate HighAreaRight(areas: seq<Vma>, start: int, end: int, len: int, flags: Flags, r: Option<Vma>) {
    && IsHighest(areas, start, end, PageUp(len), if r.Some? then r.value.start else 0)
    && (r.Some? ==> r.value == Vma(r.value.start, r.value.start + PageUp(len), flags, Anon) && Wf(Insert(areas, r.value)))
  }

  /**
   * vma_create_high is right exactly when the search is, for the rounded-up length; a length that rounds up to 2^32 is
   * searched for as length 0, and must come back empty-handed.
   */
  lemma HighAreaCorrectIff(areas: seq<Vma>, start: int, end: int, len: int, flags: Flags)
    requires Wf(areas) && 0 < start < W32 && 0 < len < W32 && Aligned(end) && 0 <= end < W32
    ensures HighAreaRight(areas, start, end, len, flags, HighArea(areas, start, end, len, flags)) <==>
            if PageUp(len) < W32 then FindHighFits(areas, start, end, PageUp(len)) else ComesBackEmpty(areas, start, end, 0)
  {
    hide Aligned, Insert, FindHigh, Fits, PageUp, PageAlign, Wf, FindHighFits, ComesBackEmpty;
    RoundedLen(len);
    if PageUp(len) < W32 {
      FindHighCorrectIff(areas, start, end, PageUp(len));
      if FindHighFits(areas, start, end, PageUp(len)) { HighAreaCorrect(areas, start, end, len, flags); }
    } else {
      FindHighZeroIff(areas, start, end, 0);
      NoPlaceForAll(areas, start, end, PageUp(len), FindHigh(areas, start, end, 0));
    }
  }

  lemma RoundedLen(len: int)
    requires 0 < len < W32
    ensures 0 < len <= PageUp(len) <= W32 && Aligned(PageUp(len)) && PageAlign(len) == (if PageUp(len) == W32 then 0 else PageUp(len))
  {
    PageAlignExact(len);
  }

  /** Nothing as long as the address space fits anywhere. */
  lemma NoPlaceForAll(areas: seq<Vma>, start: int, end: int, len: int, r: int)
    requires 0 < start && end < W32 <= len
    ensures IsHighest(areas, start, end, len, r) <==> r == 0
  {
  }

  lemma HighAreaCorrect(areas: seq<Vma>, start: int, end: int, len: int, flags: Flags)
    requires Wf(areas) && 0 < start < W32 && 0 < len && Aligned(end) && 0 <= end < W32 && PageUp(len) < W32
    requires FindHighFits(areas, start, end, PageUp(len))
    ensures HighAreaRight(areas, start, end, len, flags, HighArea(areas, start, end, len, flags))
  {
    hide Aligned, Insert, FindHigh, Fits, PageUp, PageAlign, Wf, FindHighFits;
    PageUpRange(len);
    RoundedLen(len);
    FindHighCorrectIff(areas, start, end, PageUp(len));
    FindHighAligned(areas, start, end, PageUp(len));
    var r := HighArea(areas, start, end, len, flags);
    if r.Some? {
      assert Candidate(areas, start, end, PageUp(len), r.value.start);
      AlignedEnd(r.value.start, len);
      FreeFits(areas, r.value);
      InsertKeepsWf(areas, r.value);
    }
  }

  lemma FreeFits(areas: seq<Vma>, v: Vma)
    requires Wf(areas) && FreeRange(areas, v.start, v.end) && v.start < v.end
    ensures Fits(areas, v)
  {
  }

  function LowArea(areas: seq<Vma>, start: int, end: int, len: int, flags: Flags): Option<Vma> {
    var addr := FindLow(areas, start, end, len);
    if addr == 0 then None else Some(Vma(addr, PageAlign(Add32(addr, len)), flags, Anon))
  }

  /** The new area covers the request, lies in the bounds and keeps the list well formed. */
  ghost predicate LowAreaRight(areas: seq<Vma>, start: int, end: int, len: int, flags: Flags, r: Option<Vma>) {
    r.Some? ==>
      && start <= r.value.start && r.value.start + len <= end
      && r.value == Vma(r.value.start, PageUp(r.value.start + len), flags, Anon)
      && Wf(Insert(areas, r.value))
  }

  /** An area of len bytes from c on starts at a page and does not run past the top of the address space. */
  predicate PlaceFits(c: int, len: int) { Aligned(c) && PageUp(c + len) < W32 }

  /** The place the search takes, if it takes one, is such a place. */
  ghost predicate LowAreaFits(areas: seq<Vma>, start: int, end: int, len: int) {
    forall i :: 0 <= i <= |areas| && LowAccepts(areas, start, end, len, i) && Reached(areas, start, i) != 0 &&
                (forall j :: 0 <= j < i ==> LowPasses(areas, start, end, len, j)) ==>
                  PlaceFits(Reached(areas, start, i), len)
  }

  /** vma_create_low is right exactly when the place the search takes is aligned and does not wrap, rounded up. */
  lemma LowAreaCorrectIff(areas: seq<Vma>, start: int, end: int, len: int, flags: Flags)
    requires Wf(areas) && 0 <= start < W32 && 0 <= len < W32 && 0 <= end < W32
    ensures LowAreaRight(areas, start, end, len, flags, LowArea(areas, start, end, len, flags)) <==> LowAreaFits(areas, start, end, len)
  {
    hide Insert, FindLow, Fits, FreeRange, PageUp, PlaceFits, LowAreaRight;
    var i := LowStage(areas, start, end, len);
    var r := LowArea(areas, start, end, len, flags);
    assert forall k :: 0 <= k < |areas| && LowAccepts(areas, start, end, len, k) ==> !LowPasses(areas, start, end, len, k);
    if r.Some? {
      LowTaken(areas, start, end, len, i);
      LowInserted(areas, start, end, len, i, r.value);
    } else {
      NoArea(areas, start, end, len, flags);
    }
  }

  lemma NoArea(areas: seq<Vma>, start: int, end: int, len: int, flags: Flags)
    ensures LowAreaRight(areas, start, end, len, flags, None)
  {
  }

  lemma LowInserted(areas: seq<Vma>, start: int, end: int, len: int, i: nat, v: Vma)
    requires Wf(areas) && 0 <= start < W32 && 0 <= len < W32 && 0 <= end < W32 && i <= |areas|
    requires v.start == Reached(areas, start, i) && 0 <= v.start < W32 && v.end == PageAlign(Add32(v.start, len)) && v.back.Anon?
    requires v.start + len < W32 <==> start <= v.start && v.start + len <= end
    requires v.start + len < W32 ==> forall w: Vma :: w.start == v.start && w.end == PageUp(v.start + len) ==> Fits(areas, w)
    ensures LowAreaRight(areas, start, end, len, v.flags, Some(v)) <==> PlaceFits(v.start, len)
  {
    hide Insert, Fits;
    if v.start + len < W32 {
      PageAlignExact(v.start + len);
      if PlaceFits(v.start, len) { InsertKeepsWf(areas, v); }
      if !Aligned(v.start) { InsertedBad(areas, v); }
    } else {
      PageUpAbove(v.start + len);
    }
  }

  lemma PageUpAbove(n: int)
    requires W32 <= n
    ensures W32 <= PageUp(n)
  {
  }

  lemma InsertedBad(areas: seq<Vma>, v: Vma)
    requires !GoodVma(v)
    ensures !Wf(Insert(areas, v))
  {
    InsertShape(areas, v);
    assert Insert(areas, v)[InsertIndex(areas, v.start)] == v;
  }

  function FixedArea(areas: seq<Vma>, start: int, len: int, flags: Flags): Option<Vma> {
    var k := FindIndex(areas, start);
    if k < |areas| && (Contains(areas[k], start) || Sub32(areas[k].start, start) < len) then None
    else Some(Vma(start, PageAlign(Add32(start, len)), flags, Anon))
  }

  /**
   * vma_create_fixed refuses exactly the requests that meet an existing area. An area it creates covers
   * the request and keeps the list well formed exactly when the rounded-up end is representable.
   */
  lemma FixedAreaCorrect(areas: seq<Vma>, start: int, len: int, flags: Flags)
    requires Wf(areas) && Aligned(start) && 0 <= start < W32 && 0 <= len < W32
    ensures var r := FixedArea(areas, start, len, flags);
            && (r.Some? <==> forall i :: 0 <= i < |areas| ==>
                               !Contains(areas[i], start) && !(start < areas[i].start < start + len))
            && (r.Some? ==> r.value.start == start && r.value.flags == flags && r.value.back.Anon?)
            && (r.Some? ==> ((Wf(Insert(areas, r.value)) && start + len <= r.value.end) <==> PageUp(start + len) < W32))
  {
    var r, k := FixedArea(areas, start, len, flags), FindIndex(areas, start);
    if r.Some? {
      FixedGap(areas, start, len);
      FixedEnd(start, len);
      PageUpRange(start + len);
      if PageUp(start + len) < W32 {
        FixedFits(areas, r.value, len);
        InsertKeepsWf(areas, r.value);
      }
    } else if !Contains(areas[k], start) {
      assert Sub32(areas[k].start, start) == areas[k].start - start;
    }
  }

  /** The last page of the address space: the area made for it ends at address 0. */
  lemma FixedWraps()
    ensures FixedArea([], 0xFFFF_F000, 0x1000, HEAP_FLAGS) == Some(Vma(0xFFFF_F000, 0, HEAP_FLAGS, Anon))
    ensures !Wf(Insert([], Vma(0xFFFF_F000, 0, HEAP_FLAGS, Anon)))
  {
    var v := Vma(0xFFFF_F000, 0, HEAP_FLAGS, Anon);
    assert Insert([], v) == [v] && !GoodVma([v][0]);
  }

  function Grown(areas: seq<Vma>, k: nat, amount: int): seq<Vma>
    requires k < |areas|
  {
    areas[k := areas[k].(end := Add32(areas[k].end, PageUp(amount)))]
  }

  // ---------------------------------------------------------------- sbrk arithmetic

  /** Index of the area holding x, as vma_get finds it. */
  function GetIndex(areas: seq<Vma>, x: int): Option<nat> {
    var k := FindIndex(areas, x);
    if k < |areas| && Contains(areas[k], x) then Some(k) else None
  }

  /** The one-page area get_heap maps when the break is not inside any area. */
  function HeapPage(brk: int): Vma {
    Vma(PageBase(brk - 1), PageBase(brk - 1) + FRAME_SIZE, HEAP_FLAGS, Anon)
  }

  lemma HeapPageEnd(brk: int)
    ensures HeapPage(brk) == Vma(PageBase(brk - 1), PageUp(brk), HEAP_FLAGS, Anon)
  {
    PageUpRange(brk);
  }

  lemma HeapPageFits(areas: seq<Vma>, brk: int)
    requires Wf(areas) && 0 < brk <= W32 - FRAME_SIZE && GetIndex(areas, brk - 1).None?
    ensures GoodVma(HeapPage(brk)) && Contains(HeapPage(brk), brk - 1) && Fits(areas, HeapPage(brk))
  {
    var v := HeapPage(brk);
    GetIsComplete(areas, brk - 1);
    forall i | 0 <= i < |areas|
      ensures areas[i].end <= v.start || (v.start < areas[i].start && v.end <= areas[i].start)
    {
      if Contains(areas[i], brk - 1) {
        AtIndex(areas, i, brk - 1);
        assert false;
      }
      OtherSideOfPage(areas[i].start, areas[i].end, brk - 1);
    }
  }

  /** Page-aligned bounds that do not enclose x do not cut x's page. */
  lemma OtherSideOfPage(start: int, end: int, x: int)
    requires Aligned(start) && Aligned(end) && !(start <= x < end) && start <= end
    ensures end <= PageBase(x) || (PageBase(x) < start && PageBase(x) + FRAME_SIZE <= start)
  {
    if x < start { PageUpLeast(PageBase(x) + 1, start); }
  }

  function WithHeap(areas: seq<Vma>, brk: int): seq<Vma> {
    if GetIndex(areas, brk - 1).Some? then areas else Insert(areas, HeapPage(brk))
  }

  function HeapIndex(areas: seq<Vma>, brk: int): nat {
    var i := GetIndex(areas, brk - 1);
    if i.Some? then i.value else InsertIndex(areas, HeapPage(brk).start)
  }

  /** get_heap always yields an area holding the byte below the break, in a well-formed list. */
  lemma HeapHoldsBreak(areas: seq<Vma>, brk: int)
    requires Wf(areas) && 0 < brk <= W32 - FRAME_SIZE
    ensures var heap, k := WithHeap(areas, brk), HeapIndex(areas, brk);
            Wf(heap) && k < |heap| && Contains(heap[k], brk - 1)
  {
    hide Wf;
    if GetIndex(areas, brk - 1).None? {
      HeapPageFits(areas, brk);
      InsertKeepsWf(areas, HeapPage(brk));
      InsertShape(areas, HeapPage(brk));
    }
  }

  /** Whether sbrk has to extend the heap area, and whether the next area stands in the way. */
  predicate Grows(heap: Vma, brk: int, inc: int) { inc > 0 && Add32(brk, inc) >= heap.end }

  predicate Blocked(areas: seq<Vma>, k: nat, inc: int) {
    k + 1 < |areas| && areas[k + 1].start < Add32(areas[k].end, inc)
  }

  function SbrkError(areas: seq<Vma>, brk: int, inc: int, verified: bool): Option<Error>
    requires Wf(areas) && 0 < brk <= W32 - FRAME_SIZE
  {
    HeapHoldsBreak(areas, brk);
    var heap, k := WithHeap(areas, brk), HeapIndex(areas, brk);
    if !verified then Some(EFAULT)
    else if Add32(brk, inc) < heap[k].start then Some(EINVAL)
    else if Grows(heap[k], brk, inc) && Blocked(heap, k, inc) then Some(ENOMEM)
    else None
  }

  function SbrkAreas(areas: seq<Vma>, brk: int, inc: int, verified: bool): seq<Vma>
    requires Wf(areas) && 0 < brk <= W32 - FRAME_SIZE
  {
    HeapHoldsBreak(areas, brk);
    var heap, k := WithHeap(areas, brk), HeapIndex(areas, brk);
    if !verified then areas
    else if SbrkError(areas, brk, inc, verified).None? && Grows(heap[k], brk, inc) then Grown(heap, k, inc)
    else heap
  }

  /**
   * A successful sbrk leaves the break at or below the end of the heap area it used exactly when a
   * decrement does not pass address zero and the grown area does not pass the top of the address space.
   */
  lemma SbrkBreakIff(areas: seq<Vma>, brk: int, inc: int)
    requires Wf(areas) && 0 < brk <= W32 - FRAME_SIZE && -0x8000_0000 <= inc < 0x8000_0000
    requires SbrkError(areas, brk, inc, true).None?
    ensures var heap, k := WithHeap(areas, brk), HeapIndex(areas, brk);
            var after := SbrkAreas(areas, brk, inc, true);
            && k < |heap| == |after| && after[k].start == heap[k].start
            && (Add32(brk, inc) <= after[k].end <==>
                  && (inc <= 0 ==> 0 <= brk + inc || brk + inc + W32 <= heap[k].end)
                  && (Grows(heap[k], brk, inc) ==> heap[k].end + PageUp(inc) < W32))
  {
    hide Wf;
    HeapHoldsBreak(areas, brk);
    var heap, k := WithHeap(areas, brk), HeapIndex(areas, brk);
    HeapEndBounded(heap, k);
    if Grows(heap[k], brk, inc) {
      BreakBelowHeapEnd(brk, heap[k].end, inc);
    } else if inc <= 0 {
      assert Add32(brk, inc) == if 0 <= brk + inc then brk + inc else brk + inc + W32;
    }
  }

  /** The area sbrk works on: the one that holds the byte below the break, or a page there if there is none. */
  ghost predicate IsHeap(areas: seq<Vma>, brk: int, v: Vma) {
    && Contains(v, brk - 1)
    && (v !in areas ==>
          && v == Vma(PageBase(brk - 1), PageBase(brk - 1) + FRAME_SIZE, HEAP_FLAGS, Anon)
          && forall i :: 0 <= i < |areas| ==> !Contains(areas[i], brk - 1))
  }

  /** Some area at or above end starts below limit. */
  ghost predicate InTheWay(areas: seq<Vma>, end: int, limit: int) {
    exists j :: 0 <= j < |areas| && end <= areas[j].start < limit
  }

  /**
   * What sbrk answers and does with v as its heap area. A break below the area is invalid; growth into another area finds no
   * memory; otherwise the break moves and is not below the area. The area covers what it covered and, if it had to grow,
   * the increment rounded up; every other address is as before.
   */
  ghost predicate SbrkDoes(areas: seq<Vma>, brk: int, inc: int, v: Vma, err: Option<Error>, after: seq<Vma>, brk': int) {
    var newBrk := Add32(brk, inc);
    var grow := inc > 0 && v.end <= newBrk;
    && (err == Some(EINVAL) <==> newBrk < v.start)
    && (err == Some(ENOMEM) <==> v.start <= newBrk && grow && InTheWay(areas, v.end, Add32(v.end, inc)))
    && (err.Some? ==> err == Some(EINVAL) || err == Some(ENOMEM))
    && brk' == (if err.None? then newBrk else brk) && (err.None? ==> v.start <= brk')
    && (err.None? && grow ==> v.end + PageUp(inc) < W32 ==>
          forall x :: At(after, x) == if v.start <= x < v.end + PageUp(inc) then Some(AttrOf(v, x)) else At(areas, x))
    && (err.Some? || !grow ==> forall x :: At(after, x) == if Contains(v, x) then Some(AttrOf(v, x)) else At(areas, x))
  }

  lemma NextInTheWay(heap: seq<Vma>, k: nat, limit: int)
    requires Wf(heap) && k < |heap| && heap[k].start < heap[k].end
    ensures InTheWay(heap, heap[k].end, limit) <==> k + 1 < |heap| && heap[k + 1].start < limit
  {
    hide GoodVma;
    if j :| 0 <= j < |heap| && heap[k].end <= heap[j].start < limit {
      assert heap[j].start <= heap[j].end by { assert GoodVma(heap[j]); HeapEndBounded(heap, j); }
      assert k < j;
      if k + 1 < j { HeapEndBounded(heap, k + 1); }
    }
  }

  lemma HeapIs(areas: seq<Vma>, brk: int)
    requires Wf(areas) && 0 < brk <= W32 - FRAME_SIZE
    ensures var heap, k := WithHeap(areas, brk), HeapIndex(areas, brk);
            && k < |heap| && IsHeap(areas, brk, heap[k]) && Wf(heap)
            && (forall x :: At(heap, x) == if Contains(heap[k], x) then Some(AttrOf(heap[k], x)) else At(areas, x))
            && (forall limit :: InTheWay(heap, heap[k].end, limit) <==> InTheWay(areas, heap[k].end, limit))
  {
    hide At;
    HeapHoldsBreak(areas, brk);
    var heap, k := WithHeap(areas, brk), HeapIndex(areas, brk);
    if GetIndex(areas, brk - 1).Some? {
      forall x | Contains(heap[k], x) ensures At(heap, x) == Some(AttrOf(heap[k], x)) { AtIndex(heap, k, x); }
    } else {
      HeapPageFits(areas, brk);
      InsertShape(areas, heap[k]);
      GetIsComplete(areas, brk - 1);
      forall i | 0 <= i < |areas| ensures !Contains(areas[i], brk - 1) {
        if Contains(areas[i], brk - 1) { AtIndex(areas, i, brk - 1); }
      }
      forall x ensures At(heap, x) == if Contains(heap[k], x) then Some(AttrOf(heap[k], x)) else At(areas, x) { InsertAt(areas, heap[k], x); }
      forall limit ensures InTheWay(heap, heap[k].end, limit) <==> InTheWay(areas, heap[k].end, limit) { InsertedInTheWay(areas, heap[k], limit); }
    }
  }

  lemma InsertedInTheWay(areas: seq<Vma>, v: Vma, limit: int)
    requires v.start < v.end
    ensures InTheWay(Insert(areas, v), v.end, limit) <==> InTheWay(areas, v.end, limit)
  {
    hide Insert;
    InsertShape(areas, v);
    var heap, k := Insert(areas, v), InsertIndex(areas, v.start);
    if j :| 0 <= j < |heap| && v.end <= heap[j].start < limit {
      var i := if j < k then j else j - 1;
      assert areas[i] == heap[j];
    }
    if i :| 0 <= i < |areas| && v.end <= areas[i].start < limit {
      var j := if i < k then i else i + 1;
      assert heap[j] == areas[i];
    }
  }

  /** sbrk does what is described above, for the one area that is the heap. */
  lemma SbrkMeaning(areas: seq<Vma>, brk: int, inc: int) returns (v: Vma)
    requires Wf(areas) && 0 < brk <= W32 - FRAME_SIZE && -0x8000_0000 <= inc < 0x8000_0000
    ensures var err := SbrkError(areas, brk, inc, true);
            IsHeap(areas, brk, v) && SbrkDoes(areas, brk, inc, v, err, SbrkAreas(areas, brk, inc, true), if err.None? then Add32(brk, inc) else brk)
  {
    hide Wf, At, InTheWay, IsHeap, PageUp, WithHeap, HeapIndex, Aligned, AttrOf;
    HeapIs(areas, brk);
    HeapHoldsBreak(areas, brk);
    var heap, k := WithHeap(areas, brk), HeapIndex(areas, brk);
    v := heap[k];
    HeapEndBounded(heap, k);
    NextInTheWay(heap, k, Add32(v.end, inc));
    if SbrkError(areas, brk, inc, true).None? && Grows(v, brk, inc) && v.end + PageUp(inc) < W32 {
      GrowKeepsWf(heap, k, inc);
      PageUpRange(inc);
      GrownIndex(heap, k, inc, k);
      forall x ensures At(Grown(heap, k, inc), x) == if v.start <= x < v.end + PageUp(inc) then Some(AttrOf(v, x)) else At(areas, x) {
        GrownAt(heap, k, inc, x);
      }
    }
  }

  lemma HeapEndBounded(areas: seq<Vma>, k: nat)
    requires Wf(areas) && k < |areas|
    ensures 0 <= areas[k].start <= areas[k].end < W32
  {
  }

  /** Decrementing past zero moves the break to the top of the address space instead of failing. */
  lemma SbrkWrapsBelowZero()
    ensures var heap := Vma(0x10_0000, 0x10_1000, HEAP_FLAGS, Anon);
            && Wf([heap]) && SbrkError([heap], 0x10_1000, -0x20_0000, true).None?
            && Add32(0x10_1000, -0x20_0000) == 0xFFF0_1000
  {
    var heap := Vma(0x10_0000, 0x10_1000, HEAP_FLAGS, Anon);
    assert GetIndex([heap], 0x10_0FFF) == Some(0) by { assert FindIndex([heap], 0x10_0FFF) == 0; }
  }

  /** With the break far below the end of the heap area, sbrk grows the area past 2^32, and it ends below its start. */
  lemma SbrkBreaksList()
    ensures var areas := [Vma(0x5000_0000, 0xB000_0000, HEAP_FLAGS, Anon), Vma(0xBFFF_8000, KERNEL_BASE, HEAP_FLAGS, Anon)];
            Wf(areas) && SbrkError(areas, 0x6000_0000, 0x6000_0000, true).None? && !Wf(SbrkAreas(areas, 0x6000_0000, 0x6000_0000, true))
  {
    var areas := [Vma(0x5000_0000, 0xB000_0000, HEAP_FLAGS, Anon), Vma(0xBFFF_8000, KERNEL_BASE, HEAP_FLAGS, Anon)];
    assert GetIndex(areas, 0x5FFF_FFFF) == Some(0) by { assert FindIndex(areas, 0x5FFF_FFFF) == 0; }
    SbrkKeepsWfIff(areas, 0x6000_0000, 0x6000_0000, true);
  }

  /** sbrk keeps the list well formed exactly when it does not grow the heap area, or grows it to an end not below its start. */
  lemma SbrkKeepsWfIff(areas: seq<Vma>, brk: int, inc: int, verified: bool)
    requires Wf(areas) && 0 < brk <= W32 - FRAME_SIZE && -0x8000_0000 <= inc < 0x8000_0000
    ensures var heap, k := WithHeap(areas, brk), HeapIndex(areas, brk);
            && k < |heap|
            && (Wf(SbrkAreas(areas, brk, inc, verified)) <==>
                  (SbrkError(areas, brk, inc, verified).None? && Grows(heap[k], brk, inc) ==>
                    heap[k].end + PageUp(inc) < W32 || heap[k].start <= heap[k].end + PageUp(inc) - W32))
  {
    hide Wf, PageUp;
    HeapHoldsBreak(areas, brk);
    var heap, k := WithHeap(areas, brk), HeapIndex(areas, brk);
    HeapEndBounded(heap, k);
    if verified && SbrkError(areas, brk, inc, verified).None? && Grows(heap[k], brk, inc) {
      PageUpRange(inc);
      GrowKeepsWfIff(heap, k, inc);
    }
  }

  // ---------------------------------------------------------------- runs

  /** The requests that edit the list. */
  datatype Request =
    | High(start: int, end: int, len: int, flags: Flags)
    | Low(start: int, end: int, len: int, flags: Flags)
    | Fixed(start: int, len: int, flags: Flags)
    | Unmap(addr: int, len: int)
    | Sbrk(inc: int)

  datatype Space = Space(areas: seq<Vma>, brk: int)

  function Added(areas: seq<Vma>, v: Option<Vma>): seq<Vma> {
    if v.Some? then Insert(areas, v.value) else areas
  }

  predicate Refused(areas: seq<Vma>, addr: int, e: int, len: int) {
    || e > KERNEL_BASE || len == 0 || !Aligned(addr)
    || exists i :: 0 <= i < |areas| && Touched(areas[i], addr, e) && areas[i].flags.keep
  }

  /** The sums the kernel forms while serving this request do not mislead it. */
  ghost predicate Admissible(s: Space, r: Request) {
    match r
    case High(start, end, len, _) =>
      && 0 < start < W32 && 0 < len < W32 && Aligned(end) && 0 <= end < W32
      && if PageUp(len) < W32 then FindHighFits(s.areas, start, end, PageUp(len)) else ComesBackEmpty(s.areas, start, end, 0)
    case Low(start, end, len, _) =>
      0 <= start < W32 && 0 <= len < W32 && 0 <= end < W32 && LowAreaFits(s.areas, start, end, len)
    case Fixed(start, len, _) => 0 <= start && Aligned(start) && 0 <= len && PageUp(start + len) < W32
    case Unmap(addr, len) => 0 <= addr && 0 <= len && addr + PageUp(len) < W32
    case Sbrk(inc) =>
      && 0 < s.brk <= W32 - FRAME_SIZE && -0x8000_0000 <= inc < 0x8000_0000 && 0 < s.brk + inc <= W32 - FRAME_SIZE
      && var heap, k := WithHeap(s.areas, s.brk), HeapIndex(s.areas, s.brk);
         k < |heap| && (Grows(heap[k], s.brk, inc) ==> heap[k].end + PageUp(inc) < W32)
  }

  ghost function Serve(s: Space, r: Request): Space
    requires Wf(s.areas) && Admissible(s, r)
  {
    match r
    case High(start, end, len, flags) => s.(areas := Added(s.areas, HighArea(s.areas, start, end, len, flags)))
    case Low(start, end, len, flags) => s.(areas := Added(s.areas, LowArea(s.areas, start, end, len, flags)))
    case Fixed(start, len, flags) => s.(areas := Added(s.areas, FixedArea(s.areas, start, len, flags)))
    case Unmap(addr, len) =>
      var e := Add32(addr, PageAlign(len));
      if Refused(s.areas, addr, e, len) then s else s.(areas := CutAll(s.areas, addr, e))
    case Sbrk(inc) =>
      Space(SbrkAreas(s.areas, s.brk, inc, true),
            if SbrkError(s.areas, s.brk, inc, true).None? then Add32(s.brk, inc) else s.brk)
  }

  lemma ServeKeepsWf(s: Space, r: Request)
    requires Wf(s.areas) && Admissible(s, r)
    ensures Wf(Serve(s, r).areas)
  {
    hide Wf, PageUp, HighArea, LowArea, FixedArea, CutAll, SbrkAreas, FindHighFits, LowAreaFits, ComesBackEmpty, Insert;
    match r
    case High(start, end, len, flags) => HighAreaCorrectIff(s.areas, start, end, len, flags);
    case Low(start, end, len, flags) => LowAreaCorrectIff(s.areas, start, end, len, flags);
    case Fixed(start, len, flags) =>
      PageUpRange(start + len);
      FixedAreaCorrect(s.areas, start, len, flags);
    case Unmap(addr, len) =>
      PageUpRange(len);
      PageAlignExact(len);
      if Aligned(addr) { CutKeepsWf(s.areas, addr, addr + PageUp(len)); }
    case Sbrk(inc) => SbrkKeepsWfIff(s.areas, s.brk, inc, true);
  }

  ghost predicate AdmissibleRun(s: Space, rs: seq<Request>)
    requires Wf(s.areas)
    decreases |rs|
  {
    rs != [] ==> Admissible(s, rs[0]) && (ServeKeepsWf(s, rs[0]); AdmissibleRun(Serve(s, rs[0]), rs[1..]))
  }

  ghost function ServeAll(s: Space, rs: seq<Request>): Space
    requires Wf(s.areas) && AdmissibleRun(s, rs)
    decreases |rs|
  {
    if rs == [] then s else (ServeKeepsWf(s, rs[0]); ServeAll(Serve(s, rs[0]), rs[1..]))
  }

  /** Over every run of requests whose sums stay in 32 bits, the list is sorted, aligned and disjoint. */
  lemma {:induction false} RunKeepsWf(s: Space, rs: seq<Request>)
    requires Wf(s.areas) && AdmissibleRun(s, rs)
    ensures Wf(ServeAll(s, rs).areas)
    decreases |rs|
  {
    hide Wf;
    if rs != [] {
      ServeKeepsWf(s, rs[0]);
      RunKeepsWf(Serve(s, rs[0]), rs[1..]);
    }
  }

  /** struct mm_struct, without its page directory. */
  class Mm {
    var areas: seq<Vma>
    var brk: int

    constructor (areas: seq<Vma>, brk: int)
      ensures this.areas == areas && this.brk == brk
    {
      this.areas, this.brk := areas, brk;
    }

    /** vma_find. */
    method Find(x: int) returns (k: nat)
      ensures k == FindIndex(areas, x)
    {
      k := 0;
      while k < |areas|
        invariant 0 <= k <= |areas|
        invariant FindIndex(areas, x) == k + FindIndex(areas[k..], x)
      {
        if areas[k].end > x {
          return;
        }
        k := k + 1;
      }
    }

    /** vma_insert. */
    method InsertArea(v: Vma)
      modifies this`areas
      ensures areas == Insert(old(areas), v)
    {
      var k := 0;
      while k < |areas|
        invariant 0 <= k <= |areas|
        invariant InsertIndex(areas, v.start) == k + InsertIndex(areas[k..], v.start)
      {
        if areas[k].start > v.start {
          break;
        }
        k := k + 1;
      }
      areas := areas[..k] + [v] + areas[k..];
    }

    /** vma_find_space_high: walks the list backwards, lowering `end` as it goes. */
    method FindSpaceHigh(start: int, end: int, len: int) returns (r: int)
      requires 0 <= len < W32
      ensures r == FindHigh(areas, start, end, PageAlign(len))
    {
      var n, top, length := |areas|, end, PageAlign(len);
      assert areas[..n] == areas;
      while n > 0
        invariant 0 <= n <= |areas|
        invariant FindHigh(areas, start, end, length) == FindHigh(areas[..n], start, top, length)
      {
        var v := areas[n - 1];
        assert areas[..n][..n - 1] == areas[..n - 1];
        if v.start < top {
          if Add32(start, length) > top {
            return 0;
          }
          if Add32(v.end, length) <= top {
            return Sub32(top, length);
          }
          top := v.start;
        }
        n := n - 1;
      }
      if top <= start || top - start < length {
        return 0;
      }
      return top - length;
    }

    /** vma_find_space. */
    method FindSpace(start: int, end: int, len: int) returns (r: int)
      ensures r == FindLow(areas, start, end, len)
    {
      var n, lo := 0, start;
      while n < |areas|
        invariant 0 <= n <= |areas|
        invariant FindLow(areas, start, end, len) == FindLow(areas[n..], lo, end, len)
      {
        var v := areas[n];
        assert areas[n..][1..] == areas[n + 1..];
        if v.end > lo {
          if Add32(lo, len) >= end {
            return 0;
          }
          if Add32(lo, len) < v.start {
            return lo;
          }
          lo := v.end;
        }
        n := n + 1;
      }
      if lo >= end || Add32(lo, len) > end {
        return 0;
      }
      return lo;
    }

    /** vma_create_high. */
    method CreateHigh(start: int, end: int, len: int, flags: Flags) returns (r: Option<Vma>)
      requires 0 <= len < W32
      modifies this`areas
      ensures r == HighArea(old(areas), start, end, len, flags)
      ensures areas == if r.Some? then Insert(old(areas), r.value) else old(areas)
    {
      var addr := FindSpaceHigh(start, end, len);
      if addr == 0 {
        return None;
      }
      var v := Vma(addr, PageAlign(Add32(addr, len)), flags, Anon);
      InsertArea(v);
      r := Some(v);
    }

    /** vma_create_low. */
    method CreateLow(start: int, end: int, len: int, flags: Flags) returns (r: Option<Vma>)
      modifies this`areas
      ensures r == LowArea(old(areas), start, end, len, flags)
      ensures areas == if r.Some? then Insert(old(areas), r.value) else old(areas)
    {
      var addr := FindSpace(start, end, len);
      if addr == 0 {
        return None;
      }
      var v := Vma(addr, PageAlign(Add32(addr, len)), flags, Anon);
      InsertArea(v);
      r := Some(v);
    }

    /** vma_create_fixed. */
    method CreateFixed(start: int, len: int, flags: Flags) returns (r: Option<Vma>)
      modifies this`areas
      ensures r == FixedArea(old(areas), start, len, flags)
      ensures areas == if r.Some? then Insert(old(areas), r.value) else old(areas)
    {
      var k := Find(start);
      if k < |areas| && (Contains(areas[k], start) || Sub32(areas[k].start, start) < len) {
        return None;
      }
      var v := Vma(start, PageAlign(Add32(start, len)), flags, Anon);
      InsertArea(v);
      r := Some(v);
    }

    /** vma_map, with no check that the range is free. */
    method MapRange(dst: int, len: int, flags: Flags) returns (v: Vma)
      requires 0 <= dst && 0 < len && dst + len <= W32 - FRAME_SIZE
      modifies this`areas
      ensures v == Vma(PageBase(dst), PageUp(dst + len), flags, Anon)
      ensures areas == Insert(old(areas), v)
    {
      var nrPages := (dst % FRAME_SIZE + (len - 1)) / FRAME_SIZE + 1;
      v := Vma(PageBase(dst), PageBase(dst) + nrPages * FRAME_SIZE, flags, Anon);
      InsertArea(v);
    }

    /** vma_grow_up with the area's own flags, the only way the kernel calls it. */
    method GrowUp(k: nat, amount: int) returns (ok: bool)
      requires k < |areas| && 0 < amount < 0x8000_0000
      modifies this`areas
      ensures ok <==> !Blocked(old(areas), k, amount)
      ensures areas == if ok then Grown(old(areas), k, amount) else old(areas)
    {
      if k + 1 < |areas| {
        var next := areas[k + 1];
        if next.start < Add32(areas[k].end, amount) {
          return false;
        }
      }
      PageAlignExact(amount);
      areas := areas[k := areas[k].(end := Add32(areas[k].end, PageAlign(amount)))];
      return true;
    }

    /** vma_bisect: the left half stays in place, the right half becomes its successor. */
    method Bisect(k: nat, split: int)
      requires k < |areas|
      modifies this`areas
      ensures areas == Bisected(old(areas), k, split)
    {
      var v := areas[k];
      var right := RightPart(v, split);
      areas := areas[k := LeftPart(v, split)];
      areas := areas[..k + 1] + [right] + areas[k + 1..];
    }

    /** vm_unmap's list half. */
    method Unlink(k: nat)
      requires k < |areas|
      modifies this`areas
      ensures areas == Unlinked(old(areas), k)
    {
      areas := areas[..k] + areas[k + 1..];
    }

    /** The test for areas that must not be unmapped, with its early exit. */
    method AnyKept(s: int, e: int) returns (kept: bool)
      requires Wf(areas)
      ensures kept <==> exists i :: 0 <= i < |areas| && Touched(areas[i], s, e) && areas[i].flags.keep
    {
      var i := 0;
      while i < |areas|
        invariant 0 <= i <= |areas|
        invariant forall j :: 0 <= j < i ==> !(Touched(areas[j], s, e) && areas[j].flags.keep)
      {
        if areas[i].end >= s {
          if areas[i].start >= e {
            forall j | i <= j < |areas| ensures !Touched(areas[j], s, e) {
              if i < j { assert areas[i].end <= areas[j].start; }
            }
            return false;
          }
          if areas[i].flags.keep {
            return true;
          }
        }
        i := i + 1;
      }
      return false;
    }

    /**
     * One round of sys_munmap's loop: split the area at i where the range starts and where it ends,
     * and take the middle out. `next` is where the saved successor now stands.
     */
    method CutOne(i: nat, s: int, e: int) returns (next: nat, middle: Vma)
      requires i < |areas| && Touched(areas[i], s, e)
      modifies this`areas
      ensures areas == old(areas)[..i] + Cut(old(areas)[i], s, e) + old(areas)[i + 1..]
      ensures next == i + |Cut(old(areas)[i], s, e)| && middle == Middle(old(areas)[i], s, e)
    {
      hide Bisected, Unlinked, Middle, Cut;
      ghost var l := areas;
      var v, k := areas[i], i;
      next := i + 1;
      CutShape(l, i, s, e);
      if v.start < s {
        Bisect(k, s);
        k, next := k + 1, next + 1;
      }
      if areas[k].end > e {
        Bisect(k, e);
        next := next + 1;
      }
      middle := areas[k];
      Unlink(k);
      next := next - 1;
    }

    /** The loop of sys_munmap, which splits and removes areas of the list it walks. */
    method CutRange(s: int, e: int) returns (removed: seq<Vma>)
      requires Wf(areas)
      modifies this`areas
      ensures areas == CutAll(old(areas), s, e) && removed == Removed(old(areas), s, e)
    {
      hide Wf, CutAll, Removed, Middle;
      ghost var was := areas;
      CutEmpty(s, e);
      assert was[..0] == [] && was[0..] == was;
      ghost var j := 0;
      var i := 0;
      removed := [];
      while i < |areas|
        invariant 0 <= j <= |was| && i == |CutAll(was[..j], s, e)|
        invariant areas == CutAll(was[..j], s, e) + was[j..]
        invariant removed == Removed(was[..j], s, e)
        decreases |was| - j
      {
        CutPrefix(was, j, s, e);
        ghost var done := CutAll(was[..j], s, e);
        NextArea(areas, done, was, j);
        if areas[i].end < s {
          i := i + 1;
        } else if areas[i].start >= e {
          break;
        } else {
          var middle;
          i, middle := CutOne(i, s, e);
          removed := removed + [middle];
        }
        j := j + 1;
      }
      CutSuffix(was, j, s, e);
    }

    /**
     * sys_munmap. On failure nothing changes; on success the list is the old one with the range cut
     * out, and `removed` lists the pieces whose pages are to be unmapped.
     */
    method Munmap(addr: int, len: int) returns (err: Option<Error>, removed: seq<Vma>)
      requires Wf(areas) && 0 <= addr < W32 && 0 <= len < W32
      modifies this`areas
      ensures var e := Add32(addr, PageAlign(len));
              && (err.Some? <==> Refused(old(areas), addr, e, len))
              && (err.Some? ==> err.value == EINVAL && areas == old(areas) && removed == [])
              && (err.None? ==> areas == CutAll(old(areas), addr, e) && removed == Removed(old(areas), addr, e))
    {
      var e := Add32(addr, PageAlign(len));
      if e > KERNEL_BASE {
        return Some(EINVAL), [];
      }
      if len == 0 || !Aligned(addr) {
        return Some(EINVAL), [];
      }
      var kept := AnyKept(addr, e);
      if kept {
        return Some(EINVAL), [];
      }
      removed := CutRange(addr, e);
      return None, removed;
    }

    /** get_heap: the area holding the byte below the break, mapping one page there if need be. */
    method GetHeap() returns (k: nat)
      requires Wf(areas) && 0 < brk <= W32 - FRAME_SIZE
      modifies this`areas
      ensures areas == WithHeap(old(areas), brk) && k == HeapIndex(old(areas), brk)
    {
      hide Wf, Insert, InsertIndex;
      k := Find(brk - 1);
      if k < |areas| && Contains(areas[k], brk - 1) {
        return;
      }
      HeapPageEnd(brk);
      k := InsertIndex(areas, HeapPage(brk).start);
      var v := MapRange(brk - 1, 1, HEAP_FLAGS);
    }

    /** sys_sbrk; `verified` is the outcome of checking the result pointer. */
    method Sbrk(inc: int, verified: bool) returns (err: Option<Error>, oldBrk: int)
      requires Wf(areas) && 0 < brk <= W32 - FRAME_SIZE && -0x8000_0000 <= inc < 0x8000_0000
      modifies this`areas, this`brk
      ensures !verified ==> err == Some(EFAULT) && areas == old(areas) && brk == old(brk)
      ensures verified ==> exists v :: IsHeap(old(areas), old(brk), v) && SbrkDoes(old(areas), old(brk), inc, v, err, areas, brk)
      ensures err == SbrkError(old(areas), old(brk), inc, verified)
      ensures areas == SbrkAreas(old(areas), old(brk), inc, verified)
      ensures brk == if err.None? then Add32(old(brk), inc) else old(brk)
      ensures oldBrk == old(brk)
    {
      hide Wf, Insert, PageUp, HeapPage, IsHeap, SbrkDoes;
      ghost var v := SbrkMeaning(areas, brk, inc);
      oldBrk := brk;
      var newBrk := Add32(brk, inc);
      if !verified {
        return Some(EFAULT), oldBrk;
      }
      HeapHoldsBreak(areas, brk);
      var k := GetHeap();
      if newBrk < areas[k].start {
        return Some(EINVAL), oldBrk;
      }
      if inc > 0 && newBrk >= areas[k].end {
        var ok := GrowUp(k, inc);
        if !ok {
          return Some(ENOMEM), oldBrk;
        }
      }
      brk := newBrk;
      return None, oldBrk;
    }
  }

  // ---------------------------------------------------------------- facts behind the methods

  lemma {:induction false} FindHighAligned(areas: seq<Vma>, start: int, end: int, len: int)
    requires Wf(areas) && Aligned(end) && Aligned(len)
    ensures Aligned(FindHigh(areas, start, end, len))
    decreases |areas|
  {
    if areas != [] {
      var v := areas[|areas| - 1];
      var rest := areas[..|areas| - 1];
      FindHighAligned(rest, start, end, len);
      FindHighAligned(rest, start, v.start, len);
      Sub32Aligned(end, len);
    }
  }

  lemma Sub32Aligned(a: int, b: int)
    requires Aligned(a) && Aligned(b)
    ensures Aligned(Sub32(a, b))
  {
    var x := a - b;
    assert x % W32 == x - FRAME_SIZE * (0x10_0000 * (x / W32));
  }

  lemma PageUpShift(addr: int, len: int)
    requires Aligned(addr)
    ensures PageUp(addr + len) == addr + PageUp(len)
  {
    var k := addr / FRAME_SIZE;
    assert addr == FRAME_SIZE * k;
    assert (addr + len) % FRAME_SIZE == len % FRAME_SIZE;
  }

  lemma AlignedEnd(addr: int, len: int)
    requires Aligned(addr) && 0 <= addr && 0 < len && addr + PageUp(len) < W32
    ensures PageAlign(Add32(addr, len)) == addr + PageUp(len)
  {
    PageUpShift(addr, len);
    hide PageUp, PageAlign, Aligned;
    PageUpRange(len);
    PageAlignExact(addr + len);
  }

  lemma FixedGap(areas: seq<Vma>, start: int, len: int)
    requires Wf(areas) && 0 <= start < W32 && 0 <= len
    requires var k := FindIndex(areas, start);
             k < |areas| ==> !Contains(areas[k], start) && Sub32(areas[k].start, start) >= len
    ensures forall i :: 0 <= i < |areas| ==> areas[i].end <= start || (start < areas[i].start && start + len <= areas[i].start)
  {
    var k := FindIndex(areas, start);
    if k < |areas| {
      assert Sub32(areas[k].start, start) == areas[k].start - start;
      forall i | k < i < |areas| ensures areas[k].start <= areas[i].start {
        assert areas[k].end <= areas[i].start;
      }
    }
  }

  lemma FixedFits(areas: seq<Vma>, v: Vma, len: int)
    requires Wf(areas) && 0 <= len && v.end == PageUp(v.start + len)
    requires forall i :: 0 <= i < |areas| ==>
               areas[i].end <= v.start || (v.start < areas[i].start && v.start + len <= areas[i].start)
    ensures Fits(areas, v)
  {
    forall i | 0 <= i < |areas| && areas[i].end > v.start ensures v.end <= areas[i].start {
      PageUpLeast(v.start + len, areas[i].start);
    }
  }

  lemma FixedEnd(start: int, len: int)
    requires Aligned(start) && 0 <= start < W32 && 0 <= len < W32
    ensures PageUp(start + len) < W32 ==>
              PageAlign(Add32(start, len)) == PageUp(start + len) && GoodVma(Vma(start, PageUp(start + len), HEAP_FLAGS, Anon))
    ensures PageUp(start + len) >= W32 ==> PageAlign(Add32(start, len)) < start + len
  {
    PageUpRange(start + len);
    if start + len < W32 {
      PageAlignExact(start + len);
    } else {
      var t := start + len - W32;
      assert Add32(start, len) == t;
      PageAlignExact(t);
    }
  }

  lemma PageUpRange(n: int)
    ensures n <= PageUp(n) < n + FRAME_SIZE && Aligned(PageUp(n))
  {
  }

  lemma AlignedSum(a: int, b: int)
    requires Aligned(a) && Aligned(b)
    ensures Aligned(a + b)
  {
  }

  /**
   * An area that is not blocked grows to a well-formed list exactly when its new end does not wrap, or wraps to no less
   * than its start.
   */
  lemma GrowKeepsWfIff(areas: seq<Vma>, k: nat, amount: int)
    requires Wf(areas) && k < |areas| && 0 < amount < 0x8000_0000 && !Blocked(areas, k, amount)
    ensures Wf(Grown(areas, k, amount)) <==> areas[k].start <= Grown(areas, k, amount)[k].end
    ensures Grown(areas, k, amount)[k].end ==
            if areas[k].end + PageUp(amount) < W32 then areas[k].end + PageUp(amount) else areas[k].end + PageUp(amount) - W32
  {
    hide PageUp, Add32, Aligned;
    var v, r := areas[k], Grown(areas, k, amount);
    GrownEnd(v.end, amount);
    if v.end + PageUp(amount) < W32 {
      GrowKeepsWf(areas, k, amount);
    } else if v.start <= r[k].end {
      ShrunkKeepsWf(areas, k, r[k].end);
    } else {
      assert !GoodVma(r[k]);
    }
  }

  lemma GrownEnd(end: int, amount: int)
    requires 0 <= end < W32 && Aligned(end) && 0 < amount < 0x8000_0000
    ensures var e := end + PageUp(amount);
            && 0 < PageUp(amount) <= 0x8000_0000 && Aligned(Add32(end, PageUp(amount)))
            && Add32(end, PageUp(amount)) == if e < W32 then e else e - W32
  {
    PageUpRange(amount);
    AlignedSum(end, PageUp(amount));
  }

  lemma ShrunkKeepsWf(areas: seq<Vma>, k: nat, end: int)
    requires Wf(areas) && k < |areas| && areas[k].start <= end <= areas[k].end && Aligned(end)
    ensures Wf(areas[k := areas[k].(end := end)])
  {
  }

  lemma GrowKeepsWf(areas: seq<Vma>, k: nat, amount: int)
    requires Wf(areas) && k < |areas| && 0 < amount && areas[k].end + PageUp(amount) < W32
    requires !Blocked(areas, k, amount)
    ensures Wf(Grown(areas, k, amount)) && Grown(areas, k, amount)[k].end == areas[k].end + PageUp(amount)
  {
    var v, up := areas[k], PageUp(amount);
    PageUpRange(amount);
    assert Add32(v.end, up) == v.end + up && Add32(v.end, amount) == v.end + amount;
    if k + 1 < |areas| { PageUpLeast(amount, areas[k + 1].start - v.end); }
    AlignedSum(v.end, up);
    hide PageUp, Add32, Aligned;
    var r := Grown(areas, k, amount);
    forall j | k < j < |areas| ensures v.end + up <= areas[j].start {
      if j > k + 1 { assert areas[k + 1].start <= areas[k + 1].end <= areas[j].start; }
    }
    forall i, j | 0 <= i < j < |r| ensures r[i].end <= r[j].start {
      assert areas[i].end <= areas[j].start && r[j].start == areas[j].start;
    }
  }

  /** Growing an area changes nothing about the addresses that were covered. */
  lemma GrownExtends(areas: seq<Vma>, k: nat, amount: int, x: int)
    requires Wf(areas) && k < |areas| && Wf(Grown(areas, k, amount)) && areas[k].end <= Grown(areas, k, amount)[k].end
    requires At(areas, x).Some?
    ensures At(Grown(areas, k, amount), x) == At(areas, x)
  {
    hide Aligned, Grown, At;
    var i := AtSome(areas, x);
    AtIndex(areas, i, x);
    GrownIndex(areas, k, amount, i);
    AtIndex(Grown(areas, k, amount), i, x);
  }

  lemma GrownAt(areas: seq<Vma>, k: nat, amount: int, x: int)
    requires Wf(areas) && k < |areas| && Wf(Grown(areas, k, amount)) && areas[k].end <= Grown(areas, k, amount)[k].end
    ensures At(Grown(areas, k, amount), x) ==
            if Contains(Grown(areas, k, amount)[k], x) then Some(AttrOf(areas[k], x)) else At(areas, x)
  {
    hide Aligned, Grown, At;
    var g := Grown(areas, k, amount);
    GrownIndex(areas, k, amount, k);
    if Contains(g[k], x) {
      AtIndex(g, k, x);
    } else if At(areas, x).Some? {
      GrownExtends(areas, k, amount, x);
    } else if At(g, x).Some? {
      var i := AtSome(g, x);
      GrownIndex(areas, k, amount, i);
      AtIndex(areas, i, x);
    }
  }

  lemma GrownIndex(areas: seq<Vma>, k: nat, amount: int, i: nat)
    requires k < |areas| && i < |areas|
    ensures var g := Grown(areas, k, amount);
            |g| == |areas| && g[i] == if i == k then areas[k].(end := g[k].end) else areas[i]
  {
  }

  lemma BreakBelowHeapEnd(brk: int, end: int, inc: int)
    requires 0 < brk <= end < W32 && 0 < inc < 0x8000_0000 && Add32(brk, inc) >= end
    ensures Add32(brk, inc) <= Add32(end, PageUp(inc)) <==> end + PageUp(inc) < W32
  {
  }
}
