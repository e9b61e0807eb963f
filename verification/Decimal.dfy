/** Decimal conversion without division: lib/vsprintf.c, put_dec and its helpers. */
module Decimal {
  import opened Machine

  const W64: int := 0x1_0000_0000_0000_0000

  /** A 32-bit product. */
  function Mul32(a: int, b: int): int { a * b % W32 }

  /** A 64-bit product shifted right, divisor being the power of two shifted by. */
  function MulShift(a: int, b: int, divisor: int): int
    requires 0 < divisor
  {
    a * b % W64 / divisor
  }

  // ---------------------------------------------------------------- digits

  /** The digits of n by repeated division, least significant first. */
  function Digits(base: int, n: int): (ds: seq<int>)
    requires 2 <= base && 0 <= n
    ensures 1 <= |ds| && forall j :: 0 <= j < |ds| ==> 0 <= ds[j] < base
  {
    if n < base then [n] else DivLess(n, base); [n % base] + Digits(base, n / base)
  }

  lemma DivLess(n: int, base: int)
    requires 2 <= base <= n
    ensures 1 <= n / base < n
  {
    var q := n / base;
    assert n == q * base + n % base;
    if q < 1 { MulMono(q, 0, base); } else { MulMono(2, base, q); }
  }

  /** The last k digits of n, least significant first, zeros included. */
  function LowDigits(k: nat, n: int): (ds: seq<int>)
    requires 0 <= n
    ensures |ds| == k && forall j :: 0 <= j < k ==> 0 <= ds[j] < 10
  {
    if k == 0 then [] else [n % 10] + LowDigits(k - 1, n / 10)
  }

  function Pow10(k: nat): (p: int)
    ensures 1 <= p
  {
    if k == 0 then 1 else 10 * Pow10(k - 1)
  }

  lemma PowStep(k: nat, v: int, q: int)
    requires 1 <= k && 0 <= v && 0 <= q
    ensures Pow10(k) * q == 10 * (Pow10(k - 1) * q) && 0 <= Pow10(k - 1) * q
    ensures (v + Pow10(k) * q) % 10 == v % 10 && (v + Pow10(k) * q) / 10 == v / 10 + Pow10(k - 1) * q
  {
    var p := Pow10(k - 1);
    assert 10 * p * q == 10 * (p * q);
    MulMono(0, p, q);
  }

  /** Splitting a number splits its digits. */
  lemma {:induction false} LowDigitsAppend(k: nat, m: nat, v: int, q: int)
    requires 0 <= v < Pow10(k) && 0 <= q
    ensures 0 <= Pow10(k) * q && LowDigits(k + m, v + Pow10(k) * q) == LowDigits(k, v) + LowDigits(m, q)
  {
    if k > 0 {
      LowDigitsAppend(k - 1, m, v / 10, q);
      PowStep(k, v, q);
    }
  }

  lemma {:induction false} DigitsAppend(k: nat, v: int, q: int)
    requires 0 <= v < Pow10(k) && 1 <= q
    ensures 0 <= Pow10(k) * q && Digits(10, v + Pow10(k) * q) == LowDigits(k, v) + Digits(10, q)
  {
    if k > 0 {
      DigitsAppend(k - 1, v / 10, q);
      PowStep(k, v, q);
      MulMono(1, Pow10(k - 1), q);
    }
  }

  /** Digits has no leading zeros: it is the shortest list of low digits that loses nothing. */
  lemma {:induction false} DigitsAreLow(k: nat, n: int)
    requires 1 <= k && 0 <= n < Pow10(k) && (k == 1 || Pow10(k - 1) <= n)
    ensures Digits(10, n) == LowDigits(k, n)
  {
    if k > 1 { DigitsAreLow(k - 1, n / 10); }
  }

  /** The top one of k low digits. */
  lemma {:induction false} LowDigitsTop(k: nat, n: int)
    requires 0 <= n < Pow10(k + 1)
    ensures LowDigits(k + 1, n) == LowDigits(k, n) + [n / Pow10(k)]
    ensures 0 <= n / Pow10(k) < 10 && (n / Pow10(k) == 0 <==> n < Pow10(k))
  {
    if k > 0 {
      LowDigitsTop(k - 1, n / 10);
      DivDiv(n, Pow10(k - 1));
    }
  }

  lemma DivDiv(n: int, p: int)
    requires 0 <= n && 1 <= p
    ensures n / 10 / p == n / (10 * p)
  {
    var a := n / 10;
    assert a == a / p * p + a % p;
    DivUnique(a / p, 10 * (a % p) + n % 10, 10 * p);
    assert a / p * (10 * p) == 10 * (a / p * p);
  }

  /** The characters of ds stand in buf from index at on. */
  ghost predicate Spelled(buf: seq<Byte>, at: int, ds: seq<int>) {
    0 <= at && at + |ds| <= |buf| && forall x :: at <= x < at + |ds| ==> buf[x] == '0' as int + ds[x - at]
  }

  /** Nothing outside [at, to) changed. */
  ghost predicate Outside(was: seq<Byte>, now: seq<Byte>, at: int, to: int) {
    |now| == |was| && forall x :: 0 <= x < |was| && !(at <= x < to) ==> now[x] == was[x]
  }

  // ---------------------------------------------------------------- reciprocals

  lemma Tenth32(x: int)
    requires 0 <= x < 1_073_741_829
    ensures MulShift(x, 0x1999999a, W32) == x / 10
  {
  }

  lemma Tenth199a(x: int)
    requires 0 <= x < 16_389
    ensures Mul32(x, 0x199a) / 0x1_0000 == x / 10
  {
  }

  lemma Tenthccd(x: int)
    requires 0 <= x < 16_389
    ensures Mul32(x, 0xccd) / 0x8000 == x / 10
  {
  }

  lemma Tenthcd(x: int)
    requires 0 <= x < 1_029
    ensures Mul32(x, 0xcd) / 0x800 == x / 10
  {
  }

  lemma TenThousandth(x: int)
    requires 0 <= x < 1_128_869_999
    ensures MulShift(x, 0x346DC5D7, 0x800_0000_0000) == x / 10_000
  {
    var q, r := x / 10_000, x % 10_000;
    assert x * 0x346DC5D7 == 0x800_0000_0000 * q + (7792 * q + 0x346DC5D7 * r);
  }

  // ---------------------------------------------------------------- the conversion

  /** The digits ds have been written from index at on and nothing else was touched. */
  ghost predicate Put(was: seq<Byte>, now: seq<Byte>, at: int, ds: seq<int>) {
    Spelled(now, at, ds) && Outside(was, now, at, at + |ds|)
  }

  lemma PutOne(was: seq<Byte>, now: seq<Byte>, at: int, ds: seq<int>, d: int)
    requires Put(was, now, at, ds) && 0 <= d < 10 && at + |ds| < |now|
    ensures Put(was, now[at + |ds| := '0' as int + d], at, ds + [d])
  {
  }

  lemma DigitStep(n: int)
    requires 0 <= n
    ensures n >= 10 ==> Digits(10, n) == [n % 10] + Digits(10, n / 10)
    ensures n < 10 ==> Digits(10, n) == [n]
    ensures n < 10 <==> n / 10 == 0
  {
  }

  /** Writing one digit of r, the digits of all having been written as far as r. */
  method PutDigit(buf: array<Byte>, at: int, e: int, r: int, tenth: int, ghost was: seq<Byte>, ghost ds: seq<int>, ghost all: seq<int>)
    requires 0 <= r && tenth == r / 10 && Put(was, buf[..], at, ds) && e == at + |ds|
    requires at + |all| <= buf.Length && all == ds + Digits(10, r)
    modifies buf
    ensures Put(was, buf[..], at, ds + [r % 10])
    ensures if tenth == 0 then all == ds + [r % 10] else all == ds + [r % 10] + Digits(10, tenth)
  {
    DigitStep(r);
    PutOne(was, buf[..], at, ds, r % 10);
    buf[e] := r - 10 * tenth + '0' as int;
    assert buf[..] == old(buf[..])[e := '0' as int + r % 10];
  }

  /** put_dec_trunc8. */
  method PutDecTrunc8(buf: array<Byte>, at: int, n: int) returns (e: int)
    requires 0 <= n < 1_073_741_829 && 0 <= at && at + |Digits(10, n)| <= buf.Length
    modifies buf
    ensures e == at + |Digits(10, n)| && Put(old(buf[..]), buf[..], at, Digits(10, n))
  {
    hide Put, Digits, Mul32, MulShift;
    ghost var was, all, ds := buf[..], Digits(10, n), [];
    var r, q := n, 0;
    e := at;
    PutNothing(was, at);
    while r >= 10000
      invariant 0 <= r <= n && Put(was, buf[..], at, ds) && e == at + |ds| && all == ds + Digits(10, r)
    {
      q := MulShift(r, 0x1999999a, W32);
      Tenth32(r);
      PutDigit(buf, at, e, r, q, was, ds, all);
      ds, r, e := ds + [r % 10], q, e + 1;
    }
    q := Mul32(r, 0x199a) / 0x1_0000;
    Tenth199a(r);
    PutDigit(buf, at, e, r, q, was, ds, all);
    ds, e := ds + [r % 10], e + 1;
    if q == 0 { return; }
    r := Mul32(q, 0xcd) / 0x800;
    Tenthcd(q);
    PutDigit(buf, at, e, q, r, was, ds, all);
    ds, e := ds + [q % 10], e + 1;
    if r == 0 { return; }
    q := Mul32(r, 0xcd) / 0x800;
    Tenthcd(r);
    PutDigit(buf, at, e, r, q, was, ds, all);
    ds, e := ds + [r % 10], e + 1;
    if q == 0 { return; }
    PutDigit(buf, at, e, q, 0, was, ds, all);
    e := e + 1;
  }

  lemma PutNothing(was: seq<Byte>, at: int)
    requires 0 <= at <= |was|
    ensures Put(was, was, at, [])
  {
  }

  lemma PutMore(was: seq<Byte>, mid: seq<Byte>, now: seq<Byte>, at: int, ds: seq<int>, more: seq<int>)
    requires Put(was, mid, at, ds) && Put(mid, now, at + |ds|, more)
    ensures Put(was, now, at, ds + more)
  {
  }

  /** Writing the lowest of the low digits of r that remain to be written. */
  method PutLow(buf: array<Byte>, at: int, e: int, r: int, tenth: int, ghost was: seq<Byte>, ghost ds: seq<int>, ghost all: seq<int>)
    requires 0 <= r && tenth == r / 10 && Put(was, buf[..], at, ds) && e == at + |ds|
    requires at + |all| <= buf.Length && |ds| < |all| && all == ds + LowDigits(|all| - |ds|, r)
    modifies buf
    ensures Put(was, buf[..], at, ds + [r % 10]) && all == ds + [r % 10] + LowDigits(|all| - |ds| - 1, tenth)
  {
    PutOne(was, buf[..], at, ds, r % 10);
    buf[e] := r - 10 * tenth + '0' as int;
    assert buf[..] == old(buf[..])[e := '0' as int + r % 10];
  }

  /** put_dec_full9. */
  method PutDecFull9(buf: array<Byte>, at: int, n: int) returns (e: int)
    requires 0 <= n < 1_000_000_000 && 0 <= at && at + 9 <= buf.Length
    modifies buf
    ensures e == at + 9 && Put(old(buf[..]), buf[..], at, LowDigits(9, n))
  {
    hide Put, Mul32, MulShift;
    ghost var was, all, ds := buf[..], LowDigits(9, n), [];
    PutNothing(was, at);
    var q := n;
    var r := MulShift(q, 0x1999999a, W32);
    Tenth32(q);
    PutLow(buf, at, at, q, r, was, ds, all);
    ds := ds + [q % 10];
    q := MulShift(r, 0x1999999a, W32);
    Tenth32(r);
    PutLow(buf, at, at + 1, r, q, was, ds, all);
    ds := ds + [r % 10];
    r := MulShift(q, 0x1999999a, W32);
    Tenth32(q);
    PutLow(buf, at, at + 2, q, r, was, ds, all);
    ds := ds + [q % 10];
    q := MulShift(r, 0x1999999a, W32);
    Tenth32(r);
    PutLow(buf, at, at + 3, r, q, was, ds, all);
    ds := ds + [r % 10];
    r := MulShift(q, 0x1999999a, W32);
    Tenth32(q);
    PutLow(buf, at, at + 4, q, r, was, ds, all);
    ds := ds + [q % 10];
    q := Mul32(r, 0x199a) / 0x1_0000;
    Tenth199a(r);
    PutLow(buf, at, at + 5, r, q, was, ds, all);
    ds := ds + [r % 10];
    r := Mul32(q, 0xcd) / 0x800;
    Tenthcd(q);
    PutLow(buf, at, at + 6, q, r, was, ds, all);
    ds := ds + [q % 10];
    q := Mul32(r, 0xcd) / 0x800;
    Tenthcd(r);
    PutLow(buf, at, at + 7, r, q, was, ds, all);
    ds := ds + [r % 10];
    PutLow(buf, at, at + 8, q, 0, was, ds, all);
    assert all == ds + [q % 10];
    e := at + 9;
  }

  /** put_dec_full4. */
  method PutDecFull4(buf: array<Byte>, at: int, n: int)
    requires 0 <= n < 10_000 && 0 <= at && at + 4 <= buf.Length
    modifies buf
    ensures Put(old(buf[..]), buf[..], at, LowDigits(4, n))
  {
    hide Put, Mul32, MulShift;
    ghost var was, all, ds := buf[..], LowDigits(4, n), [];
    PutNothing(was, at);
    var q := n;
    var r := Mul32(q, 0xccd) / 0x8000;
    Tenthccd(q);
    PutLow(buf, at, at, q, r, was, ds, all);
    ds := ds + [q % 10];
    q := Mul32(r, 0xcd) / 0x800;
    Tenthcd(r);
    PutLow(buf, at, at + 1, r, q, was, ds, all);
    ds := ds + [r % 10];
    r := Mul32(q, 0xcd) / 0x800;
    Tenthcd(q);
    PutLow(buf, at, at + 2, q, r, was, ds, all);
    ds := ds + [q % 10];
    PutLow(buf, at, at + 3, r, 0, was, ds, all);
    assert all == ds + [r % 10];
  }

  /** put_dec_helper4. */
  method PutDecHelper4(buf: array<Byte>, at: int, x: int) returns (q: int)
    requires 0 <= x <= 1_125_520_955 && 0 <= at && at + 4 <= buf.Length
    modifies buf
    ensures q == x / 10_000 && Put(old(buf[..]), buf[..], at, LowDigits(4, x % 10_000))
  {
    q := MulShift(x, 0x346DC5D7, 0x800_0000_0000);
    TenThousandth(x);
    PutDecFull4(buf, at, x - q * 10_000);
  }

  /** The zero-strip loop, on a buffer holding k low digits of n. */
  method StripZeros(buf: array<Byte>, at: int, k: nat, n: int) returns (e: int)
    requires 1 <= n < Pow10(k) && Spelled(buf[..], at, LowDigits(k, n))
    ensures e == at + |Digits(10, n)| && Digits(10, n) == LowDigits(e - at, n) && e <= at + k
    ensures Spelled(buf[..], at, Digits(10, n))
  {
    hide Digits;
    var j := k;
    while buf[at + j - 1] == '0' as int
      invariant 1 <= j <= k && n < Pow10(j) && Spelled(buf[..], at, LowDigits(j, n))
      decreases j
    {
      StripStep(buf[..], at, j, n);
      j := j - 1;
    }
    StripStep(buf[..], at, j, n);
    DigitsAreLow(j, n);
    e := at + j;
  }

  lemma StripStep(buf: seq<Byte>, at: int, j: nat, n: int)
    requires 1 <= j && 1 <= n < Pow10(j) && Spelled(buf, at, LowDigits(j, n))
    ensures if buf[at + j - 1] == '0' as int then 2 <= j && n < Pow10(j - 1) && Spelled(buf, at, LowDigits(j - 1, n)) else Pow10(j - 1) <= n
  {
    hide LowDigits;
    LowDigitsTop(j - 1, n);
    assert buf[at + j - 1] == '0' as int + LowDigits(j, n)[j - 1];
    assert LowDigits(j, n)[..j - 1] == LowDigits(j - 1, n);
  }

  // The sixteen-bit groups of n, and the sums put_dec hands to its helpers.
  function Chunk0(n: int): int { n % W32 % 0x1_0000 }
  function Chunk1(n: int): int { n % W32 / 0x1_0000 }
  function Chunk2(n: int): int { n / W32 % 0x1_0000 }
  function Chunk3(n: int): int { n / W32 / 0x1_0000 }
  function Sum0(n: int): int { (656 * Chunk3(n) + 7296 * Chunk2(n) + 5536 * Chunk1(n) + Chunk0(n)) % W32 }
  function Sum1(n: int, q: int): int { (q + 7671 * Chunk3(n) + 9496 * Chunk2(n) + 6 * Chunk1(n)) % W32 }
  function Sum2(n: int, q: int): int { (q + 4749 * Chunk3(n) + 42 * Chunk2(n)) % W32 }
  function Sum3(n: int, q: int): int { (q + 281 * Chunk3(n)) % W32 }

  lemma Chunks(n: int)
    requires 0 <= n < W64
    ensures 0 <= Chunk0(n) < 0x1_0000 && 0 <= Chunk1(n) < 0x1_0000 && 0 <= Chunk2(n) < 0x1_0000 && 0 <= Chunk3(n) < 0x1_0000
    ensures n == Chunk0(n) + 0x1_0000 * Chunk1(n) + W32 * Chunk2(n) + 0x1_0000_0000_0000 * Chunk3(n)
  {
  }

  lemma SumsFit(d0: int, d1: int, d2: int, d3: int)
    requires 0 <= d0 < 0x1_0000 && 0 <= d1 < 0x1_0000 && 0 <= d2 < 0x1_0000 && 0 <= d3 < 0x1_0000
    ensures var q0 := 656 * d3 + 7296 * d2 + 5536 * d1 + d0;
            var q1 := q0 / 10_000 + 7671 * d3 + 9496 * d2 + 6 * d1;
            var q2 := q1 / 10_000 + 4749 * d3 + 42 * d2;
            var q3 := q2 / 10_000 + 281 * d3;
            && q0 <= 1_125_520_955 && q1 <= 1_125_520_955 && q2 <= 1_125_520_955 && q3 < 100_000_000
            && d0 + 0x1_0000 * d1 + W32 * d2 + 0x1_0000_0000_0000 * d3 ==
               q0 % 10_000 + 10_000 * (q1 % 10_000 + 10_000 * (q2 % 10_000)) + 1_000_000_000_000 * q3
  {
  }

  /** The sums stay within what the helper divides exactly, and carry n in groups of four digits. */
  lemma Regroup(n: int)
    requires 0 <= n < W64
    ensures var q0 := Sum0(n);
            var q1 := Sum1(n, q0 / 10_000);
            var q2 := Sum2(n, q1 / 10_000);
            var q3 := Sum3(n, q2 / 10_000);
            && 0 <= q0 <= 1_125_520_955 && 0 <= q1 <= 1_125_520_955 && 0 <= q2 <= 1_125_520_955 && 0 <= q3 < 100_000_000
            && n == q0 % 10_000 + 10_000 * (q1 % 10_000 + 10_000 * (q2 % 10_000)) + 1_000_000_000_000 * q3
  {
    hide Chunk0, Chunk1, Chunk2, Chunk3, Sum0, Sum1, Sum2, Sum3;
    Chunks(n);
    var d0, d1, d2, d3 := Chunk0(n), Chunk1(n), Chunk2(n), Chunk3(n);
    SumsFit(d0, d1, d2, d3);
    var q0 := 656 * d3 + 7296 * d2 + 5536 * d1 + d0;
    var q1 := q0 / 10_000 + 7671 * d3 + 9496 * d2 + 6 * d1;
    var q2 := q1 / 10_000 + 4749 * d3 + 42 * d2;
    var q3 := q2 / 10_000 + 281 * d3;
    SumsAre(n, q0, q1, q2, q3);
  }

  /** Without overflow the sums are the plain sums. */
  lemma SumsAre(n: int, q0: int, q1: int, q2: int, q3: int)
    requires 0 <= q0 < W32 && 0 <= q1 < W32 && 0 <= q2 < W32 && 0 <= q3 < W32
    requires q0 == 656 * Chunk3(n) + 7296 * Chunk2(n) + 5536 * Chunk1(n) + Chunk0(n)
    requires q1 == q0 / 10_000 + 7671 * Chunk3(n) + 9496 * Chunk2(n) + 6 * Chunk1(n)
    requires q2 == q1 / 10_000 + 4749 * Chunk3(n) + 42 * Chunk2(n)
    requires q3 == q2 / 10_000 + 281 * Chunk3(n)
    ensures Sum0(n) == q0 && Sum1(n, q0 / 10_000) == q1 && Sum2(n, q1 / 10_000) == q2 && Sum3(n, q2 / 10_000) == q3
  {
    hide Chunk0, Chunk1, Chunk2, Chunk3;
    NoWrap(q0);
    NoWrap(q1);
    NoWrap(q2);
    NoWrap(q3);
  }

  lemma NoWrap(x: int)
    requires 0 <= x < W32
    ensures x % W32 == x
  {
  }

  /** Three groups of four digits are twelve low digits. */
  lemma ThreeGroups(v0: int, v1: int, v2: int)
    requires 0 <= v0 < 10_000 && 0 <= v1 < 10_000 && 0 <= v2 < 10_000
    ensures LowDigits(12, v0 + 10_000 * (v1 + 10_000 * v2)) == LowDigits(4, v0) + LowDigits(4, v1) + LowDigits(4, v2)
  {
    hide LowDigits;
    Powers();
    LowDigitsAppend(4, 4, v1, v2);
    LowDigitsAppend(4, 8, v0, v1 + 10_000 * v2);
  }

  /** The three helper calls of put_dec. */
  method PutGroups(buf: array<Byte>, at: int, n: int) returns (q: int, ghost low: int)
    requires 0 <= n < W64 && 0 <= at && at + 12 <= buf.Length
    modifies buf
    ensures 0 <= low < Pow10(12) && n == low + Pow10(12) * q && 0 <= q < 100_000_000
    ensures Put(old(buf[..]), buf[..], at, LowDigits(12, low))
  {
    hide Put, LowDigits, Pow10, Sum0, Sum1, Sum2, Sum3;
    Regroup(n);
    ghost var was := buf[..];
    q := Sum0(n);
    ghost var v0 := q % 10_000;
    q := PutDecHelper4(buf, at, q);
    ghost var b0 := buf[..];
    q := Sum1(n, q);
    ghost var v1 := q % 10_000;
    q := PutDecHelper4(buf, at + 4, q);
    ghost var b1 := buf[..];
    q := Sum2(n, q);
    ghost var v2 := q % 10_000;
    q := PutDecHelper4(buf, at + 8, q);
    q := Sum3(n, q);
    low := v0 + 10_000 * (v1 + 10_000 * v2);
    PutMore(was, b0, b1, at, LowDigits(4, v0), LowDigits(4, v1));
    PutMore(was, b1, buf[..], at, LowDigits(4, v0) + LowDigits(4, v1), LowDigits(4, v2));
    ThreeGroups(v0, v1, v2);
    Powers();
  }

  /** put_dec, second algorithm. */
  method PutDec(buf: array<Byte>, at: int, n: int) returns (e: int)
    requires 0 <= n < W64 && 0 <= at && at + 20 <= buf.Length
    modifies buf
    ensures e == at + |Digits(10, n)| <= at + 20 && Spelled(buf[..], at, Digits(10, n))
    ensures Outside(old(buf[..]), buf[..], at, at + 20)
  {
    hide Digits, LowDigits, Pow10, Spelled, Outside;
    Powers();
    if n < 100_000_000 {
      AtMost(8, n);
      e := PutDecTrunc8(buf, at, n);
      OutsideMore(old(buf[..]), buf[..], at, e, at + 20);
      return;
    }
    var q, low := PutGroups(buf, at, n);
    ghost var mid := buf[..];
    if q != 0 {
      DigitsAppend(12, low, q);
      AtMost(8, q);
      e := PutDecTrunc8(buf, at + 12, q);
      PutMore(old(buf[..]), mid, buf[..], at, LowDigits(12, low), Digits(10, q));
      OutsideMore(old(buf[..]), buf[..], at, e, at + 20);
    } else {
      e := StripZeros(buf, at, 12, n);
      OutsideMore(old(buf[..]), buf[..], at, at + 12, at + 20);
    }
  }

  lemma OutsideMore(was: seq<Byte>, now: seq<Byte>, at: int, to: int, more: int)
    requires Outside(was, now, at, to) && to <= more
    ensures Outside(was, now, at, more)
  {
  }

  lemma {:induction false} AtMost(k: nat, n: int)
    requires 1 <= k && 0 <= n < Pow10(k)
    ensures |Digits(10, n)| <= k
  {
    if n >= 10 { AtMost(k - 1, n / 10); }
  }

  lemma Powers()
    ensures Pow10(4) == 10_000 && Pow10(8) == 100_000_000 && Pow10(9) == 1_000_000_000 && Pow10(12) == 1_000_000_000_000
  {
    assert Pow10(2) == 100 && Pow10(4) == 10_000 && Pow10(6) == 1_000_000 && Pow10(8) == 100_000_000 && Pow10(10) == 10_000_000_000;
  }

  /** The first algorithm on numbers it handles without dividing. */
  method PutDecFirst(buf: array<Byte>, at: int, n: int) returns (e: int)
    requires 0 <= n < 1_000_000_000 && 0 <= at && at + 9 <= buf.Length
    modifies buf
    ensures e == at + |Digits(10, n)| && Put(old(buf[..]), buf[..], at, Digits(10, n))
  {
    hide Put, LowDigits, Digits;
    Powers();
    if n >= 100_000_000 {
      e := PutDecFull9(buf, at, n);
      DigitsAreLow(9, n);
    } else {
      AtMost(8, n);
      e := PutDecTrunc8(buf, at, n);
    }
  }
}
