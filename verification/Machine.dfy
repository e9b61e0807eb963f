/** Widths, page geometry and alignment of a 32-bit x86 machine. */
module Machine {
  const W32: int := 0x1_0000_0000
  const FRAME_SIZE: int := 4096
  /** Where the kernel half of every address space starts. */
  const KERNEL_BASE: int := 0xC000_0000
  /** Entries in a page table or a page directory. */
  const TABLE_ENTRIES: int := 1024
  /** Page directory entries that map user memory. */
  const KERNEL_PDI: int := 768
  /** User page numbers: KERNEL_PDI * TABLE_ENTRIES. */
  const USER_PAGES: int := 786432

  type Byte = b: int | 0 <= b < 256
  type Page = p: seq<Byte> | |p| == FRAME_SIZE witness seq(FRAME_SIZE, _ => 0)

  function ZeroPage(): Page { seq(FRAME_SIZE, _ => 0) }

  function Min(a: int, b: int): int { if a < b then a else b }
  function Max(a: int, b: int): int { if a < b then b else a }

  /** A list without its entry j. */
  function DropAt<T>(s: seq<T>, j: int): seq<T>
    requires 0 <= j < |s|
  {
    s[..j] + s[j + 1..]
  }

  /** Unsigned 32-bit addition and subtraction. */
  function Add32(a: int, b: int): int { (a + b) % W32 }
  function Sub32(a: int, b: int): int { (a - b) % W32 }

  predicate Aligned(a: int) { a % FRAME_SIZE == 0 }

  function PageBase(a: int): int { a - a % FRAME_SIZE }

  /** align_up(n, FRAME_SIZE): the sum may wrap before the mask is applied. */
  function PageAlign(n: int): int {
    if n % FRAME_SIZE != 0 then PageBase(Add32(n, FRAME_SIZE)) else n
  }

  /** Rounding up without a width. */
  function PageUp(n: int): int {
    if n % FRAME_SIZE != 0 then PageBase(n) + FRAME_SIZE else n
  }

  /** The masked form is rounding up exactly when the rounded value is representable. */
  lemma PageAlignExact(n: int)
    requires 0 <= n < W32
    ensures PageAlign(n) == PageUp(n) <==> PageUp(n) < W32
    ensures PageUp(n) == W32 ==> PageAlign(n) == 0
    ensures n <= PageUp(n) < n + FRAME_SIZE && Aligned(PageUp(n))
  {
    var m := n + FRAME_SIZE;
    assert m % FRAME_SIZE == n % FRAME_SIZE;
    if m < W32 {
      assert Add32(n, FRAME_SIZE) == m;
    } else {
      assert Add32(n, FRAME_SIZE) == m - W32;
      assert (m - W32) % FRAME_SIZE == m % FRAME_SIZE;
    }
  }

  /** An aligned address at or above n is at or above n rounded up. */
  lemma PageUpLeast(n: int, a: int)
    requires Aligned(a) && n <= a
    ensures PageUp(n) <= a
  {
  }

  datatype Option<+T> = None | Some(value: T)

  lemma MulMono(a: int, b: int, w: int)
    requires a <= b && 0 <= w
    ensures a * w <= b * w
  {
    assert (b - a) * w >= 0;
  }

  lemma DivBelow(i: int, w: int, n: int)
    requires 0 < w && 0 <= i < n * w
    ensures 0 <= i / w < n
  {
    assert i == i / w * w + i % w;
    if n <= i / w { MulMono(n, i / w, w); }
  }

  /** Writing a number as q * w + r with r below w determines q and r. */
  lemma DivUnique(q: int, r: int, w: int)
    requires 0 <= r < w
    ensures (q * w + r) / w == q && (q * w + r) % w == r
  {
    var x := q * w + r;
    assert x / w * w + x % w == x;
    if x / w < q { MulMono(x / w + 1, q, w); } else if q < x / w { MulMono(q + 1, x / w, w); }
  }
}
