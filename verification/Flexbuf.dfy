/** The paged byte queue under pipes: kernel/flexbuf.c and the data path of fs/pipe.c. */
module Flexbuf {
  import opened Machine
  import opened KernelPages

  const PIPE_BUF: int := 4096
  /** Slots for page pointers in a fresh buffer. */
  const SLOTS: int := 8

  /** pages_in_range, in 32 bits. */
  function PagesInRange(addr: int, len: int): int { (addr % FRAME_SIZE + (len - 1) % W32) % W32 / FRAME_SIZE + 1 }

  /** The pages that [addr, addr + len) touches. */
  function PagesTouched(addr: int, len: int): int { if len == 0 then 0 else (addr + len - 1) / FRAME_SIZE - addr / FRAME_SIZE + 1 }

  /** The count is right exactly for ranges that are not empty. */
  lemma PagesInRangeIff(addr: int, len: int)
    requires 0 <= addr && 0 <= len && addr + len < W32
    ensures PagesInRange(addr, len) == PagesTouched(addr, len) <==> len > 0
  {
  }

  // ---------------------------------------------------------------- bytes behind slots

  type Memory = map<int, Page>

  /** The first n slots point at different pages. */
  ghost predicate LiveSlots(mem: Memory, slots: seq<int>, n: int) {
    && 0 <= n <= |slots|
    && (forall i :: 0 <= i < n ==> slots[i] in mem)
    && (forall i, j :: 0 <= i < j < n ==> slots[i] != slots[j])
  }

  /** The byte at offset x from the start of the first page. */
  ghost function ByteAt(mem: Memory, slots: seq<int>, x: int): Byte {
    if 0 <= x && x / FRAME_SIZE < |slots| && slots[x / FRAME_SIZE] in mem then mem[slots[x / FRAME_SIZE]][x % FRAME_SIZE] else 0
  }

  /** The bytes buffered. */
  ghost function Queue(mem: Memory, slots: seq<int>, pos: int, size: int): (q: seq<Byte>)
    ensures |q| == if size < 0 then 0 else size
    ensures forall i :: 0 <= i < |q| ==> q[i] == ByteAt(mem, slots, pos + i)
  {
    seq<Byte>(if size < 0 then 0 else size, i => ByteAt(mem, slots, pos + i))
  }

  /** How much of a transfer of len bytes at offset p is done when page is next. */
  function DoneBefore(p: int, len: int, page: int): int {
    if page <= p / FRAME_SIZE then 0 else Min(len, page * FRAME_SIZE - p)
  }

  /** The part of a page that one round of a transfer covers. */
  lemma RoundFacts(p: int, len: int, page: int)
    requires 0 <= p && 1 <= len && p / FRAME_SIZE <= page <= (p + len - 1) / FRAME_SIZE
    ensures var done := DoneBefore(p, len, page);
            var start := if page == p / FRAME_SIZE then p % FRAME_SIZE else 0;
            var end := Min(FRAME_SIZE, start + len - done);
            && 0 <= done < len && p + done == page * FRAME_SIZE + start && 0 <= start < end <= FRAME_SIZE
            && DoneBefore(p, len, page + 1) == done + end - start <= len
  {
  }

  lemma AllDone(p: int, len: int)
    requires 0 <= p && 1 <= len
    ensures DoneBefore(p, len, (p + len - 1) / FRAME_SIZE + 1) == len && DoneBefore(p, len, p / FRAME_SIZE) == 0
  {
  }

  /** Overwriting part of the page in slot i. */
  function PageWrite(page: Page, start: int, s: seq<Byte>): Page
    requires 0 <= start && start + |s| <= FRAME_SIZE
  {
    page[..start] + s + page[start + |s|..]
  }

  /** now reads as was does, with s written at offset p. */
  ghost predicate Wrote(was: Memory, now: Memory, slots: seq<int>, n: int, p: int, s: seq<Byte>) {
    && LiveSlots(now, slots, n)
    && forall x :: 0 <= x < n * FRAME_SIZE ==> ByteAt(now, slots, x) == if p <= x < p + |s| then s[x - p] else ByteAt(was, slots, x)
  }

  /** Writing into one live page moves no byte of another. */
  lemma WroteMore(was: Memory, mem: Memory, slots: seq<int>, n: int, p: int, s: seq<Byte>, page: int, start: int, t: seq<Byte>)
    requires Wrote(was, mem, slots, n, p, s) && 0 <= page < n && 0 <= p && 0 <= start && start + |t| <= FRAME_SIZE
    requires p + |s| == page * FRAME_SIZE + start
    ensures Wrote(was, mem[slots[page] := PageWrite(mem[slots[page]], start, t)], slots, n, p, s + t)
  {
    var now := mem[slots[page] := PageWrite(mem[slots[page]], start, t)];
    forall x | 0 <= x < n * FRAME_SIZE
      ensures ByteAt(now, slots, x) == if p <= x < p + |s + t| then (s + t)[x - p] else ByteAt(was, slots, x)
    {
      var q := x / FRAME_SIZE;
      assert ByteAt(mem, slots, x) == if p <= x < p + |s| then s[x - p] else ByteAt(was, slots, x);
      if q != page {
        assert slots[q] != slots[page];
      }
    }
  }

  lemma WithinPages(pos: int, size: int, off: int, len: int)
    requires 0 <= pos < FRAME_SIZE && 0 <= off && 1 <= len && off + len <= size
    ensures 0 <= (pos + off) / FRAME_SIZE <= (pos + off + len - 1) / FRAME_SIZE < PagesTouched(pos, size)
  {
  }

  lemma PageCount(p: int, len: int)
    requires 0 <= p && 1 <= len && p + len < W32
    ensures PagesInRange(p, len) == (p + len - 1) / FRAME_SIZE - p / FRAME_SIZE + 1
  {
    PagesInRangeIff(p, len);
  }

  lemma SlotLive(mem: Memory, slots: seq<int>, n: int, page: int)
    requires LiveSlots(mem, slots, n) && 0 <= page < n
    ensures page < |slots| && slots[page] in mem
  {
  }

  // ---------------------------------------------------------------- the buffer

  class Buffer {
    const k: KernelMap
    var size: int
    var pos: int
    /** The page pointers; those beyond the pages in use point anywhere. */
    var slots: seq<int>
    /** Page memory, by page number. */
    var mem: Memory

    /** flexbuf_nr_pages. */
    function NrPages(): int
      reads this
    {
      if size == 0 then 0 else PagesInRange(pos, size)
    }

    ghost predicate Valid()
      reads this, k
    {
      && k.Valid() && mem.Keys <= k.present
      && 0 <= pos < FRAME_SIZE && 0 <= size <= PIPE_BUF && |slots| == SLOTS
      && LiveSlots(mem, slots, PagesTouched(pos, size))
    }

    ghost function Contents(): seq<Byte>
      reads this
    {
      Queue(mem, slots, pos, size)
    }

    /** flexbuf_alloc with no initial size. */
    constructor (k: KernelMap)
      requires k.Valid()
      ensures Valid() && this.k == k && Contents() == [] && pos == 0
    {
      this.k := k;
      size, pos, slots, mem := 0, 0, seq(SLOTS, _ => 0), map[];
    }

    /**
     * The loop of flexbuf_do_io at length 0: it copies no byte, but reads as many page pointers as pages_in_range says. It
     * strays if one of them lies behind the descriptor.
     */
    method EmptyTransfer(p: int) returns (stray: bool)
      requires |slots| == SLOTS && 0 <= p < SLOTS * FRAME_SIZE
      ensures stray <==> p % FRAME_SIZE == 0
    {
      var first, pages := p / FRAME_SIZE, PagesInRange(p, 0);
      var page := first;
      while page - first < pages
        invariant first <= page <= SLOTS && page <= first + pages
      {
        if page >= |slots| { return true; }
        page := page + 1;
      }
      stray := false;
    }

    /** flexbuf_do_io, reading: it strays exactly when nothing is to be read at a page boundary. */
    method Read(ub: array<Byte>, length: int, off: int) returns (n: int, stray: bool)
      requires Valid() && 0 <= off <= size && 0 <= length < W32 && Min(length, size - off) <= ub.Length
      modifies ub
      ensures n == Min(length, size - off) && ub[..n] == Contents()[off..off + n] && ub[n..] == old(ub[n..])
      ensures stray <==> n == 0 && (pos + off) % FRAME_SIZE == 0
    {
      stray := false;
      if Min(length, size - off) == 0 {
        n := 0;
        stray := EmptyTransfer(pos + off);
      } else {
        n := ReadSome(ub, length, off);
      }
    }

    method ReadSome(ub: array<Byte>, length: int, off: int) returns (n: int)
      requires Valid() && 0 <= off < size && 1 <= length < W32 && Min(length, size - off) <= ub.Length
      modifies ub
      ensures n == Min(length, size - off) && ub[..n] == Contents()[off..off + n] && ub[n..] == old(ub[n..])
    {
      hide LowestFree, DoneBefore, PagesInRange, PagesTouched, ByteAt, Delivered, LiveSlots, ReadSoFar;
      var len, p := Min(length, size - off), pos + off;
      ghost var last, np := (p + len - 1) / FRAME_SIZE, PagesTouched(pos, size);
      WithinPages(pos, size, off, len);
      var start := p % FRAME_SIZE;
      var end := Min(FRAME_SIZE, start + len);
      var first, pages := p / FRAME_SIZE, PagesInRange(p, len);
      PageCount(p, len);
      AllDone(p, len);
      hide Buffer.Valid, Min;
      n := 0;
      var page := first;
      ghost var was := ub[..];
      ReadNothing(ub[..], mem, slots, p);
      while page - first < pages
        invariant first <= page <= last + 1 && n == DoneBefore(p, len, page) && 0 <= n <= len
        invariant page <= last ==> start == (if page == first then p % FRAME_SIZE else 0) && end == Min(FRAME_SIZE, start + len - n)
        invariant ReadSoFar(was, ub[..], mem, slots, p, n)
      {
        RoundFacts(p, len, page);
        SlotLive(mem, slots, np, page);
        ghost var before := ub[..];
        CopyOut(ub, n, mem[slots[page]], start, end);
        ReadStep(was, before, ub[..], mem, slots, p, n, page, start, end);
        n := n + end - start;
        start := 0;
        end := Min(FRAME_SIZE, len - n);
        page := page + 1;
      }
      ReadAll(was, ub[..], mem, slots, pos, size, off, n);
    }

    /** flexbuf_do_io, writing: what lies behind the buffer's size is cut off, and it strays as reading does. */
    method Write(src: seq<Byte>, off: int) returns (n: int, stray: bool)
      requires Valid() && 0 <= off <= size
      modifies this`mem
      ensures Valid() && n == Min(|src|, size - off) && Wrote(old(mem), mem, slots, PagesTouched(pos, size), pos + off, src[..n])
      ensures stray <==> n == 0 && (pos + off) % FRAME_SIZE == 0
    {
      stray := false;
      n := Min(|src|, size - off);
      if n == 0 {
        WroteNothing(mem, slots, PagesTouched(pos, size), pos + off);
        stray := EmptyTransfer(pos + off);
      } else {
        n := WriteSome(src[..n], off);
      }
    }

    method WriteSome(src: seq<Byte>, off: int) returns (n: int)
      requires Valid() && 0 <= off && 1 <= |src| && off + |src| <= size
      modifies this`mem
      ensures Valid() && n == |src| && Wrote(old(mem), mem, slots, PagesTouched(pos, size), pos + off, src)
    {
      hide LowestFree, DoneBefore, PagesInRange, PagesTouched, ByteAt, LiveSlots, Wrote, PageWrite;
      var len, p := |src|, pos + off;
      ghost var last, np := (p + len - 1) / FRAME_SIZE, PagesTouched(pos, size);
      WithinPages(pos, size, off, len);
      var start := p % FRAME_SIZE;
      var end := Min(FRAME_SIZE, start + len);
      var first, pages := p / FRAME_SIZE, PagesInRange(p, len);
      PageCount(p, len);
      AllDone(p, len);
      hide Min;
      WroteNothing(mem, slots, np, p);
      ghost var keys := mem.Keys;
      assert src[..0] == [];
      n := 0;
      var page := first;
      while page - first < pages
        invariant first <= page <= last + 1 && n == DoneBefore(p, len, page) && 0 <= n <= len && mem.Keys == keys
        invariant page <= last ==> start == (if page == first then p % FRAME_SIZE else 0) && end == Min(FRAME_SIZE, start + len - n)
        invariant Wrote(old(mem), mem, slots, np, p, src[..n])
      {
        RoundFacts(p, len, page);
        WroteLive(old(mem), mem, slots, np, p, src[..n]);
        SlotLive(mem, slots, np, page);
        var piece := src[n..n + end - start];
        WroteMore(old(mem), mem, slots, np, p, src[..n], page, start, piece);
        assert src[..n] + piece == src[..n + end - start];
        var id := slots[page];
        mem := mem[id := PageWrite(mem[id], start, piece)];
        n := n + end - start;
        start := 0;
        end := Min(FRAME_SIZE, len - n);
        page := page + 1;
      }
      assert src[..n] == src;
      WroteLive(old(mem), mem, slots, np, p, src);
    }

    /** flexbuf_realloc to a larger size that the slots suffice for. */
    method Grow(newSize: int)
      requires Valid() && size < newSize <= PIPE_BUF
      modifies this`size, this`slots, this`mem, k`present, k`firstFree
      ensures Valid() && size == newSize && Queue(mem, slots, pos, old(size)) == old(Contents())
    {
      hide LowestFree, LiveSlots, PagesTouched, ByteAt, PagesInRange;
      var oldPages, newPages := NrPages(), PagesInRange(pos, newSize);
      FewPages(pos, size);
      FewPages(pos, newSize);
      MorePages(pos, size, newSize);
      ghost var was := Contents();
      var page := oldPages;
      while page < newPages
        invariant oldPages <= page <= newPages && |slots| == SLOTS && LiveSlots(mem, slots, page)
        invariant k.Valid() && mem.Keys <= k.present && Queue(mem, slots, pos, size) == was
        modifies this`slots, this`mem, k`present, k`firstFree
      {
        ghost var before := k.present;
        var id := k.KallocPages(1);
        assert id !in before by { RunStart(before, k.low, id); }
        var junk: Page := *;
        AddPage(mem, slots, page, id, junk, pos, size);
        slots, mem := slots[page := id], mem[id := junk];
        page := page + 1;
      }
      size := newSize;
    }

    /** flexbuf_enqueue. */
    method Enqueue(src: seq<Byte>) returns (n: int, stray: bool)
      requires Valid() && size + |src| <= PIPE_BUF
      modifies this`size, this`slots, this`mem, k`present, k`firstFree
      ensures Valid() && n == |src| && Contents() == old(Contents()) + src
      ensures stray <==> src == [] && old(pos + size) % FRAME_SIZE == 0
    {
      hide LowestFree, LiveSlots, PagesTouched, ByteAt, Wrote, Queue;
      var at := size;
      if size + |src| > size { Grow(size + |src|); }
      ghost var before := mem;
      n, stray := Write(src, at);
      assert src[..n] == src;
      RoomFor(pos, size);
      QueueAppend(before, mem, slots, PagesTouched(pos, size), pos, at, src);
    }

    /** flexbuf_dequeue. */
    method Dequeue(dst: array<Byte>, length: int) returns (n: int, stray: bool)
      requires Valid() && 0 <= length < W32 && Min(length, size) <= dst.Length
      modifies this`size, this`pos, this`slots, dst
      ensures Valid() && n == Min(length, old(size)) && dst[..n] == old(Contents())[..n] && dst[n..] == old(dst[n..])
      ensures Contents() == old(Contents())[n..] && pos == (old(pos) + n) % FRAME_SIZE
      ensures stray <==> n == 0 && old(pos) == 0
    {
      hide LowestFree, LiveSlots, PagesTouched, ByteAt, Queue;
      n, stray := Read(dst, length, 0);
      var shift := (pos + n) / FRAME_SIZE;
      FewPages(pos, size);
      Shifted(mem, slots, pos, size, n);
      ghost var was := slots;
      var page := 0;
      while page < shift
        invariant 0 <= page <= shift && |slots| == SLOTS && slots == Moved(was, page)
        modifies this`slots
      {
        slots := slots[page := slots[shift + page]];
        page := page + 1;
      }
      size := size - n;
      pos := (pos + n) % FRAME_SIZE;
    }
  }

  lemma RoomFor(pos: int, size: int)
    requires 0 <= pos < FRAME_SIZE && 0 <= size
    ensures size > 0 ==> pos + size <= PagesTouched(pos, size) * FRAME_SIZE
  {
  }

  lemma QueueAppend(was: Memory, now: Memory, slots: seq<int>, np: int, pos: int, at: int, src: seq<Byte>)
    requires Wrote(was, now, slots, np, pos + at, src) && 0 <= pos && 0 <= at
    requires at + |src| > 0 ==> pos + at + |src| <= np * FRAME_SIZE
    ensures Queue(now, slots, pos, at + |src|) == Queue(was, slots, pos, at) + src
  {
  }

  /** The slots after dropping one page in front, or none. */
  function Moved(slots: seq<int>, shift: int): seq<int>
    requires |slots| == SLOTS
  {
    if shift == 0 then slots else slots[0 := slots[1]]
  }

  lemma ShiftFacts(pos: int, size: int, n: int)
    requires 0 <= pos < FRAME_SIZE && 0 <= n <= size <= PIPE_BUF
    ensures var shift, pos' := (pos + n) / FRAME_SIZE, (pos + n) % FRAME_SIZE;
            && 0 <= shift <= 1 && pos' == pos + n - shift * FRAME_SIZE && (shift == 1 ==> pos' + (size - n) <= FRAME_SIZE)
            && 0 <= PagesTouched(pos', size - n) + shift
            && (size > n ==> PagesTouched(pos', size - n) + shift <= PagesTouched(pos, size) && (shift == 1 ==> PagesTouched(pos', size - n) == 1))
            && (size == n ==> PagesTouched(pos', size - n) == 0)
  {
  }

  lemma ShiftedLive(mem: Memory, slots: seq<int>, n: int, n': int, shift: int)
    requires LiveSlots(mem, slots, n) && |slots| == SLOTS && 0 <= shift <= 1 && 0 <= n' && (n' > 0 ==> n' + shift <= n)
    requires shift == 1 ==> n' <= 1
    ensures LiveSlots(mem, Moved(slots, shift), n')
  {
  }

  lemma ShiftedQueue(mem: Memory, slots: seq<int>, pos: int, size: int, n: int, pos': int, shift: int)
    requires 0 <= n <= size && |slots| == SLOTS && 0 <= shift <= 1 && 0 <= pos' == pos + n - shift * FRAME_SIZE
    requires shift == 1 ==> pos' + (size - n) <= FRAME_SIZE
    ensures Queue(mem, Moved(slots, shift), pos', size - n) == Queue(mem, slots, pos, size)[n..]
  {
  }

  /** Dropping whole pages in front and moving pos back by as much leaves the remaining bytes where they are. */
  lemma Shifted(mem: Memory, slots: seq<int>, pos: int, size: int, n: int)
    requires 0 <= pos < FRAME_SIZE && 0 <= n <= size <= PIPE_BUF && |slots| == SLOTS && LiveSlots(mem, slots, PagesTouched(pos, size))
    ensures var shift, pos' := (pos + n) / FRAME_SIZE, (pos + n) % FRAME_SIZE;
            && 0 <= shift <= 1 && LiveSlots(mem, Moved(slots, shift), PagesTouched(pos', size - n))
            && Queue(mem, Moved(slots, shift), pos', size - n) == Queue(mem, slots, pos, size)[n..]
  {
    hide ByteAt, PagesTouched, LiveSlots, Moved, Queue;
    var shift, pos' := (pos + n) / FRAME_SIZE, (pos + n) % FRAME_SIZE;
    ShiftFacts(pos, size, n);
    ShiftedLive(mem, slots, PagesTouched(pos, size), PagesTouched(pos', size - n), shift);
    ShiftedQueue(mem, slots, pos, size, n, pos', shift);
  }

  /** A buffer held to PIPE_BUF bytes is on at most two pages. */
  lemma FewPages(pos: int, size: int)
    requires 0 <= pos < FRAME_SIZE && 0 <= size <= PIPE_BUF
    ensures 0 <= PagesTouched(pos, size) <= 2 && (size == 0 ==> PagesTouched(pos, size) == 0) && (size > 0 ==> PagesInRange(pos, size) == PagesTouched(pos, size))
  {
  }

  lemma MorePages(pos: int, size: int, more: int)
    requires 0 <= pos < FRAME_SIZE && 0 <= size <= more
    ensures PagesTouched(pos, size) <= PagesTouched(pos, more)
    ensures size > 0 ==> pos + size <= PagesTouched(pos, size) * FRAME_SIZE
  {
  }

  /** A fresh page in the next slot leaves all bytes in front of it alone. */
  lemma AddPage(mem: Memory, slots: seq<int>, page: int, id: int, junk: Page, pos: int, size: int)
    requires LiveSlots(mem, slots, page) && page < |slots| && id !in mem && 0 <= pos && (size > 0 ==> pos + size <= page * FRAME_SIZE)
    ensures LiveSlots(mem[id := junk], slots[page := id], page + 1)
    ensures Queue(mem[id := junk], slots[page := id], pos, size) == Queue(mem, slots, pos, size)
  {
  }

  lemma WroteNothing(mem: Memory, slots: seq<int>, n: int, p: int)
    requires LiveSlots(mem, slots, n)
    ensures Wrote(mem, mem, slots, n, p, [])
  {
  }

  lemma WroteLive(was: Memory, now: Memory, slots: seq<int>, n: int, p: int, s: seq<Byte>)
    requires Wrote(was, now, slots, n, p, s)
    ensures LiveSlots(now, slots, n)
  {
  }

  /** memcpy out of a page. */
  method CopyOut(ub: array<Byte>, at: int, src: Page, start: int, end: int)
    requires 0 <= start <= end <= FRAME_SIZE && 0 <= at && at + end - start <= ub.Length
    modifies ub
    ensures ub[..] == old(ub[..at]) + src[start..end] + old(ub[at + end - start..])
  {
    forall i | start <= i < end { ub[at + i - start] := src[i]; }
  }

  /** The first n bytes of ub are the bytes from offset p on. */
  ghost predicate Delivered(ub: seq<Byte>, mem: Memory, slots: seq<int>, p: int, n: int) {
    0 <= n <= |ub| && forall i :: 0 <= i < n ==> ub[i] == ByteAt(mem, slots, p + i)
  }

  /** n bytes have been read into what was was, and nothing behind them was touched. */
  ghost predicate ReadSoFar(was: seq<Byte>, now: seq<Byte>, mem: Memory, slots: seq<int>, p: int, n: int) {
    |now| == |was| && Delivered(now, mem, slots, p, n) && now[n..] == was[n..]
  }

  lemma ReadNothing(ub: seq<Byte>, mem: Memory, slots: seq<int>, p: int)
    ensures ReadSoFar(ub, ub, mem, slots, p, 0)
  {
  }

  lemma ReadStep(orig: seq<Byte>, was: seq<Byte>, now: seq<Byte>, mem: Memory, slots: seq<int>, p: int, n: int, page: int, start: int, end: int)
    requires ReadSoFar(orig, was, mem, slots, p, n) && 0 <= page < |slots| && slots[page] in mem && 0 <= start <= end <= FRAME_SIZE
    requires p + n == page * FRAME_SIZE + start && 0 <= n && n + end - start <= |was|
    requires now == was[..n] + mem[slots[page]][start..end] + was[n + end - start..]
    ensures ReadSoFar(orig, now, mem, slots, p, n + end - start)
  {
  }

  lemma ReadAll(was: seq<Byte>, now: seq<Byte>, mem: Memory, slots: seq<int>, pos: int, size: int, off: int, n: int)
    requires ReadSoFar(was, now, mem, slots, pos + off, n) && 0 <= off && 0 <= n && off + n <= size
    ensures n <= |now| == |was| && now[..n] == Queue(mem, slots, pos, size)[off..off + n] && now[n..] == was[n..]
  {
    hide ByteAt;
    DeliveredIs(now, mem, slots, pos, size, off, n);
  }

  lemma DeliveredIs(ub: seq<Byte>, mem: Memory, slots: seq<int>, pos: int, size: int, off: int, n: int)
    requires Delivered(ub, mem, slots, pos + off, n) && 0 <= off && off + n <= size
    ensures ub[..n] == Queue(mem, slots, pos, size)[off..off + n]
  {
    hide ByteAt;
    forall i | 0 <= i < n ensures ub[i] == Queue(mem, slots, pos, size)[off + i] { assert pos + off + i == pos + (off + i); }
  }
}
