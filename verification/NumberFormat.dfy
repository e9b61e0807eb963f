/** Formatting one argument into a bounded buffer: lib/vsprintf.c, number, string, pointer. */
module NumberFormat {
  import opened Machine
  import opened Decimal

  /** Signed 16-bit and unsigned wrap-around. */
  function S16(x: int): (r: int)
    ensures -0x8000 <= r < 0x8000 && (r - x) % 0x1_0000 == 0 && (-0x8000 <= x < 0x8000 ==> r == x)
  {
    (x + 0x8000) % 0x1_0000 - 0x8000
  }

  datatype PrintFlags = PrintFlags(zeropad: bool, sign: bool, plus: bool, space: bool, left: bool, small: bool, special: bool)

  datatype Kind =
    | Plain | Width | Precision | Char | Str | Ptr | PercentChar | Invalid | LongLong | ULong | Long
    | UByte | SByte | UShort | Short | UInt | Int | NrChars | SizeT | PtrDiff

  /** struct printf_spec. */
  datatype Spec = Spec(kind: Kind, flags: PrintFlags, base: int, qualifier: Byte, width: int, precision: int)

  ghost predicate GoodSpec(spec: Spec) { -0x8000 <= spec.width < 0x8000 && -0x8000 <= spec.precision < 0x8000 }

  // ---------------------------------------------------------------- characters

  function Rep(c: Byte, n: int): (s: seq<Byte>)
    ensures |s| == if n < 0 then 0 else n
    ensures forall i :: 0 <= i < |s| ==> s[i] == c
  {
    seq(if n < 0 then 0 else n, _ => c)
  }

  /** c with bit 0x20 set. */
  function Or20(c: Byte): Byte { if c / 0x20 % 2 == 1 then c else c + 0x20 }

  /** A digit as printed. */
  function DigitChar(d: int, small: bool): Byte
    requires 0 <= d < 16
  {
    var c := if d < 10 then '0' as int + d else 'A' as int + d - 10;
    if small then Or20(c) else c
  }

  /** Digits as printed, in the order given. */
  function Chars(ds: seq<int>, small: bool): (s: seq<Byte>)
    requires forall i :: 0 <= i < |ds| ==> 0 <= ds[i] < 16
    ensures |s| == |ds| && forall i :: 0 <= i < |s| ==> s[i] == DigitChar(ds[i], small)
  {
    seq(|ds|, i requires 0 <= i < |ds| => DigitChar(ds[i], small))
  }

  function Backwards<T>(s: seq<T>): (r: seq<T>)
    ensures |r| == |s| && forall i :: 0 <= i < |r| ==> r[i] == s[|s| - 1 - i]
  {
    seq(|s|, i requires 0 <= i < |s| => s[|s| - 1 - i])
  }

  /** A number as written: most significant digit first, no leading zeros. */
  function Numeral(base: int, n: int, small: bool): (s: seq<Byte>)
    requires 2 <= base <= 16 && 0 <= n
    ensures |s| == |Digits(base, n)|
  {
    Backwards(Chars(Digits(base, n), small))
  }

  // ---------------------------------------------------------------- bounded output

  /** now is was with as much of text written at its start as fits in size bytes. */
  ghost predicate Out(was: seq<Byte>, now: seq<Byte>, size: int, text: seq<Byte>) {
    && 0 <= size <= |was| == |now|
    && forall x :: 0 <= x < |now| ==> now[x] == if x < size && x < |text| then text[x] else was[x]
  }

  lemma OutNothing(was: seq<Byte>, size: int)
    requires 0 <= size <= |was|
    ensures Out(was, was, size, [])
  {
  }

  /** Storing a character if there is room, and stepping over it in any case. */
  method Emit(buf: array<Byte>, size: int, str: int, c: Byte, ghost was: seq<Byte>, ghost text: seq<Byte>)
    requires Out(was, buf[..], size, text) && str == |text|
    modifies buf
    ensures Out(was, buf[..], size, text + [c])
  {
    if str < size { buf[str] := c; }
  }

  /** while (--field_width >= 0): how many rounds, and what is left of the width. */
  function PadCount(w: int): int { if w == -0x8000 then 0x8000 else if w > 0 then w else 0 }
  function PadRest(w: int): int { if w == -0x8000 || w > 0 then -1 else w - 1 }

  method Pad(buf: array<Byte>, size: int, str: int, c: Byte, width: int, ghost was: seq<Byte>, ghost text: seq<Byte>)
    returns (str': int, width': int)
    requires Out(was, buf[..], size, text) && str == |text| && -0x8000 <= width < 0x8000
    modifies buf
    ensures Out(was, buf[..], size, text + Rep(c, PadCount(width))) && str' == str + PadCount(width) && width' == PadRest(width)
  {
    hide Out;
    str', width' := str, S16(width - 1);
    ghost var n := 0;
    assert text + Rep(c, 0) == text;
    while width' >= 0
      invariant -0x8000 <= width' < 0x8000 && 0 <= n && Out(was, buf[..], size, text + Rep(c, n)) && str' == str + n
      invariant if PadCount(width) > 0 then -1 <= width' == PadCount(width) - 1 - n else n == 0 && width' == PadRest(width)
      decreases width'
    {
      Emit(buf, size, str', c, was, text + Rep(c, n));
      assert text + Rep(c, n) + [c] == text + Rep(c, n + 1);
      str', width', n := str' + 1, S16(width' - 1), n + 1;
    }
  }

  /** Copying text out, character by character. */
  method EmitAll(buf: array<Byte>, size: int, str: int, s: seq<Byte>, ghost was: seq<Byte>, ghost text: seq<Byte>) returns (str': int)
    requires Out(was, buf[..], size, text) && str == |text|
    modifies buf
    ensures Out(was, buf[..], size, text + s) && str' == str + |s|
  {
    hide Out;
    var i := 0;
    str' := str;
    assert text + s[..0] == text;
    while i < |s|
      invariant 0 <= i <= |s| && Out(was, buf[..], size, text + s[..i]) && str' == str + i
    {
      Emit(buf, size, str', s[i], was, text + s[..i]);
      assert text + s[..i] + [s[i]] == text + s[..i + 1];
      str', i := str' + 1, i + 1;
    }
    assert s[..i] == s;
  }

  // ---------------------------------------------------------------- number

  lemma {:induction false} DigitCount(base: int, n: int, k: nat)
    requires 2 <= base && 0 <= n < Pow2(k) && 1 <= k
    ensures |Digits(base, n)| <= k
  {
    if n >= base {
      DivLess(n, base);
      Halves(n, base);
      DigitCount(base, n / base, k - 1);
    }
  }

  function Pow2(k: nat): (p: int)
    ensures 1 <= p
  {
    if k == 0 then 1 else 2 * Pow2(k - 1)
  }

  lemma Halves(n: int, base: int)
    requires 2 <= base <= n
    ensures 2 * (n / base) <= n
  {
    DivLess(n, base);
    MulMono(2, base, n / base);
    assert n == n / base * base + n % base;
  }

  lemma Fits64(base: int, n: int)
    requires 2 <= base && 0 <= n < W64
    ensures |Digits(base, n)| <= 64
  {
    Doubling(2);
    Doubling(4);
    Doubling(8);
    Doubling(16);
    Doubling(32);
    DigitCount(base, n, 64);
  }

  lemma {:induction false} Doubling(k: nat)
    ensures Pow2(2 * k) == Pow2(k) * Pow2(k)
  {
    if k > 0 {
      Doubling(k - 1);
      var p := Pow2(k - 1);
      assert Pow2(2 * k) == 2 * Pow2(2 * k - 1) == 4 * Pow2(2 * (k - 1));
      assert (2 * p) * (2 * p) == 4 * (p * p);
    }
  }

  /** The lowest digit by masking the lowest byte, and the rest by shifting. */
  function MaskLow(n: int, base: int): int
    requires 0 < base
  {
    n % 0x100 % base
  }
  function ShiftRest(n: int, base: int): int
    requires 0 < base
  {
    n / base
  }

  lemma MaskAndShift(n: int, base: int)
    requires 0 <= n && (base == 8 || base == 16)
    ensures 0 <= MaskLow(n, base) < 16 && 0 <= ShiftRest(n, base) <= n && (n > 0 ==> ShiftRest(n, base) < n)
    ensures Digits(base, n) == [MaskLow(n, base)] + if ShiftRest(n, base) == 0 then [] else Digits(base, ShiftRest(n, base))
  {
    hide Digits;
    Masked(n, base);
    DigitsUnfold(base, n);
  }

  lemma Masked(n: int, base: int)
    requires 0 <= n && (base == 8 || base == 16)
    ensures n % 0x100 % base == n % base && 0 <= n % base < 16 && 0 <= n / base <= n && (n < base ==> n % base == n)
  {
    MaskedByte(n);
  }

  lemma MaskedByte(n: int)
    requires 0 <= n
    ensures n % 0x100 % 8 == n % 8 && n % 0x100 % 16 == n % 16
  {
    var a, r := n / 0x100, n % 0x100;
    DivUnique(32 * a + r / 8, r % 8, 8);
    DivUnique(16 * a + r / 16, r % 16, 16);
  }

  lemma NextDigit(all: seq<int>, i: nat, d: int)
    requires i <= |all| && all[i..] != [] && all[i..][0] == d
    ensures i < |all| && all[i] == d && all[i..][1..] == all[i + 1..]
  {
  }

  /** The mask-and-shift loop for base 8 and 16. */
  method ShiftDigits(tmp: array<Byte>, num: int, base: int, small: bool) returns (i: int)
    requires 0 <= num < W64 && tmp.Length == 66 && (base == 8 || base == 16) && |Digits(base, num)| <= 64
    modifies tmp
    ensures i == |Digits(base, num)| && tmp[..i] == Chars(Digits(base, num), small)
  {
    hide Digits, DigitChar, MaskLow, ShiftRest, Chars;
    ghost var all := Digits(base, num);
    var n, more := num, true;
    i := 0;
    while more
      invariant 0 <= n && 0 <= i <= |all| && all[i..] == if more then Digits(base, n) else []
      invariant forall x :: 0 <= x < i ==> tmp[x] == DigitChar(all[x], small)
      decreases more, n
    {
      MaskAndShift(n, base);
      NextDigit(all, i, MaskLow(n, base));
      tmp[i] := DigitChar(MaskLow(n, base), small);
      i, n := i + 1, ShiftRest(n, base);
      more := n != 0;
    }
    CharsAre(all, small, tmp[..i]);
  }

  lemma CharsAre(ds: seq<int>, small: bool, s: seq<Byte>)
    requires |s| == |ds| && (forall x :: 0 <= x < |ds| ==> 0 <= ds[x] < 16 && s[x] == DigitChar(ds[x], small))
    ensures s == Chars(ds, small)
  {
    hide DigitChar;
  }

  /** Filling tmp with the digits of num, least significant first. */
  method MakeDigits(tmp: array<Byte>, num: int, base: int, small: bool) returns (i: int)
    requires 0 <= num < W64 && tmp.Length == 66 && (base == 8 || base == 10 || base == 16)
    modifies tmp
    ensures 1 <= i == |Digits(base, num)| <= 64 && tmp[..i] == Chars(Digits(base, num), small)
  {
    hide Digits;
    Fits64(base, num);
    if num < base {
      DigitsUnfold(base, num);
      tmp[0] := DigitChar(num, small);
      i := 1;
    } else if base != 10 {
      i := ShiftDigits(tmp, num, base, small);
    } else {
      i := PutDec(tmp, 0, num);
    }
  }

  lemma DigitsUnfold(base: int, n: int)
    requires 2 <= base <= 16 && 0 <= n
    ensures if n < base then Digits(base, n) == [n] else Digits(base, n) == [n % base] + Digits(base, n / base)
    ensures 0 <= n / base && (n < base <==> n / base == 0)
    ensures n > 0 ==> n / base < n
  {
    if n >= base { DivLess(n, base); }
  }

  const SPACE: Byte := 32
  const ZERO: Byte := 48

  predicate Negative(num: int, flags: PrintFlags) { flags.sign && num >= W64 / 2 }

  /** The value printed behind the sign. */
  function Magnitude(num: int, flags: PrintFlags): int { if Negative(num, flags) then W64 - num else num }

  function SignText(num: int, flags: PrintFlags): (s: seq<Byte>)
    ensures |s| <= 1
  {
    if !flags.sign then []
    else if Negative(num, flags) then ['-' as int]
    else if flags.plus then ['+' as int]
    else if flags.space then [SPACE]
    else []
  }

  function PrefixText(num: int, base: int, flags: PrintFlags): (s: seq<Byte>)
    ensures |s| <= 2
  {
    if !flags.special || base == 10 then []
    else if base == 16 then [ZERO, if flags.small then Or20('X' as int) else 'X' as int]
    else if num != 0 then [ZERO]
    else []
  }

  /** The width left over for padding, before it is cut to sixteen bits. */
  function Slack(num: int, spec: Spec): int
    requires 2 <= spec.base <= 16 && 0 <= num < W64
  {
    var digits := |Digits(spec.base, Magnitude(num, spec.flags))|;
    spec.width - |SignText(num, spec.flags)| - |PrefixText(num, spec.base, spec.flags)| - Max(digits, spec.precision)
  }

  /** The three runs of padding that number() writes: before the sign, behind the prefix, behind the digits. */
  function Paddings(slack: int, flags: PrintFlags): (int, int, int) {
    var w := S16(slack);
    if flags.left then (0, 0, PadCount(w))
    else if flags.zeropad then (0, PadCount(w), PadCount(PadRest(w)))
    else (PadCount(w), PadCount(PadRest(w)), PadCount(PadRest(PadRest(w))))
  }

  function PadChar(flags: PrintFlags): Byte { if flags.zeropad && !flags.left then ZERO else SPACE }

  /** What number() writes, given all the room it wants. */
  function NumberText(num: int, spec: Spec): seq<Byte>
    requires 2 <= spec.base <= 16 && 0 <= num < W64
  {
    var m := Magnitude(num, spec.flags);
    var pads := Paddings(Slack(num, spec), spec.flags);
    Rep(SPACE, pads.0) + SignText(num, spec.flags) + PrefixText(num, spec.base, spec.flags) + Rep(PadChar(spec.flags), pads.1)
    + Rep(ZERO, Max(|Digits(spec.base, m)|, spec.precision) - |Digits(spec.base, m)|) + Numeral(spec.base, m, spec.flags.small) + Rep(SPACE, pads.2)
  }

  /** The digits in tmp, last one first. */
  method EmitDigits(buf: array<Byte>, size: int, str: int, tmp: array<Byte>, n: int, ghost was: seq<Byte>, ghost text: seq<Byte>) returns (str': int)
    requires Out(was, buf[..], size, text) && str == |text| && buf != tmp && 0 <= n <= tmp.Length
    modifies buf
    ensures Out(was, buf[..], size, text + Backwards(tmp[..n])) && str' == str + n
  {
    hide Out;
    ghost var s := Backwards(tmp[..n]);
    str' := str;
    var i := n - 1;
    assert text + s[..0] == text;
    while i >= 0
      invariant -1 <= i < n && Out(was, buf[..], size, text + s[..n - 1 - i]) && str' == str + n - 1 - i
    {
      assert s[n - 1 - i] == tmp[i];
      Emit(buf, size, str', tmp[i], was, text + s[..n - 1 - i]);
      assert text + s[..n - 1 - i] + [tmp[i]] == text + s[..n - i];
      str', i := str' + 1, i - 1;
    }
    assert s[..n] == s;
  }

  /** Rounds of zeros that bring n digits up to the precision. */
  method EmitZeros(buf: array<Byte>, size: int, str: int, n: int, precision: int, ghost was: seq<Byte>, ghost text: seq<Byte>) returns (str': int)
    requires Out(was, buf[..], size, text) && str == |text| && n <= precision
    modifies buf
    ensures Out(was, buf[..], size, text + Rep(ZERO, precision - n)) && str' == str + precision - n
  {
    hide Out;
    str' := str;
    var p := precision - 1;
    assert text + Rep(ZERO, 0) == text;
    while n <= p
      invariant n - 1 <= p < precision && str' == str + precision - 1 - p && Out(was, buf[..], size, text + Rep(ZERO, precision - 1 - p))
    {
      Emit(buf, size, str', ZERO, was, text + Rep(ZERO, precision - 1 - p));
      assert text + Rep(ZERO, precision - 1 - p) + [ZERO] == text + Rep(ZERO, precision - p);
      str', p := str' + 1, p - 1;
    }
  }

  lemma S16Chain(w: int, a: int, b: int)
    ensures S16(S16(w) - a) == S16(w - a) && S16(S16(w - a) - b) == S16(w - a - b)
  {
    hide S16;
    S16Congruent(S16(w) - a, w - a);
    S16Congruent(S16(w - a) - b, w - a - b);
  }

  lemma S16Congruent(x: int, y: int)
    requires (x - y) % 0x1_0000 == 0
    ensures S16(x) == S16(y)
  {
    var q := (x - y) / 0x1_0000;
    assert x == y + 0x1_0000 * q;
  }

  /** Padding under a condition. */
  method PadIf(cond: bool, buf: array<Byte>, size: int, str: int, c: Byte, width: int, ghost was: seq<Byte>, ghost text: seq<Byte>)
    returns (str': int, width': int)
    requires Out(was, buf[..], size, text) && str == |text| && -0x8000 <= width < 0x8000
    modifies buf
    ensures var n := if cond then PadCount(width) else 0;
            Out(was, buf[..], size, text + Rep(c, n)) && str' == str + n
    ensures width' == if cond then PadRest(width) else width
  {
    hide Out;
    str', width' := str, width;
    if cond { str', width' := Pad(buf, size, str', c, width', was, text); } else { assert text + Rep(c, 0) == text; }
  }

  lemma Assoc7(t: seq<Byte>, a: seq<Byte>, b: seq<Byte>, c: seq<Byte>, d: seq<Byte>, e: seq<Byte>, f: seq<Byte>, g: seq<Byte>)
    ensures t + (a + b + c + d + e + f + g) == t + a + b + c + d + e + f + g
    ensures |a + b + c + d + e + f + g| == |a| + |b| + |c| + |d| + |e| + |f| + |g|
  {
  }

  lemma PadRestInRange(w: int)
    requires -0x8000 <= w < 0x8000
    ensures -0x8000 <= PadRest(w) < 0x8000 && 0 <= PadCount(w)
  {
  }

  lemma NumberTextIs(text: seq<Byte>, num: int, spec: Spec, i: int, n0: int, n1: int, n2: int)
    requires 2 <= spec.base <= 16 && 0 <= num < W64 && i == |Digits(spec.base, Magnitude(num, spec.flags))|
    requires (n0, n1, n2) == Paddings(Slack(num, spec), spec.flags) && 0 <= n0 && 0 <= n1 && 0 <= n2
    ensures text + NumberText(num, spec) ==
            text + Rep(SPACE, n0) + SignText(num, spec.flags) + PrefixText(num, spec.base, spec.flags) + Rep(PadChar(spec.flags), n1)
            + Rep(ZERO, Max(i, spec.precision) - i) + Numeral(spec.base, Magnitude(num, spec.flags), spec.flags.small) + Rep(SPACE, n2)
    ensures |NumberText(num, spec)| ==
            n0 + |SignText(num, spec.flags)| + |PrefixText(num, spec.base, spec.flags)| + n1 + Max(i, spec.precision) + n2
  {
    hide Slack, Paddings, Rep, SignText, PrefixText, PadChar, Numeral, Digits;
    Assoc7(text, Rep(SPACE, n0), SignText(num, spec.flags), PrefixText(num, spec.base, spec.flags), Rep(PadChar(spec.flags), n1),
           Rep(ZERO, Max(i, spec.precision) - i), Numeral(spec.base, Magnitude(num, spec.flags), spec.flags.small), Rep(SPACE, n2));
  }

  /** The counter number() pads with, and what its padding loops make of it. */
  lemma NumberWidth(num: int, spec: Spec, i: int)
    requires 2 <= spec.base <= 16 && 0 <= num < W64 && i == |Digits(spec.base, Magnitude(num, spec.flags))|
    ensures var w := S16(S16(S16(spec.width - |SignText(num, spec.flags)|) - |PrefixText(num, spec.base, spec.flags)|) - Max(i, spec.precision));
            var w1 := if !spec.flags.zeropad && !spec.flags.left then PadRest(w) else w;
            var w2 := if !spec.flags.left then PadRest(w1) else w1;
            && -0x8000 <= w1 < 0x8000 && -0x8000 <= w2 < 0x8000 && 0 <= PadCount(w) && 0 <= PadCount(w1) && 0 <= PadCount(w2)
            && Paddings(Slack(num, spec), spec.flags) ==
               (if !spec.flags.zeropad && !spec.flags.left then PadCount(w) else 0, if !spec.flags.left then PadCount(w1) else 0, PadCount(w2))
            && 0 <= Magnitude(num, spec.flags) < W64 && i <= Max(i, spec.precision)
  {
    hide Digits, S16, SignText, PrefixText, PadRest, PadCount;
    S16Chain(spec.width - |SignText(num, spec.flags)|, |PrefixText(num, spec.base, spec.flags)|, Max(i, spec.precision));
    var w := S16(Slack(num, spec));
    PadRestInRange(w);
    PadRestInRange(PadRest(w));
    PadRestInRange(PadRest(PadRest(w)));
  }

  /** What number() writes from the digits on. */
  method NumberTail(buf: array<Byte>, size: int, str: int, tmp: array<Byte>, i: int, precision: int, width: int,
                    ghost was: seq<Byte>, ghost text: seq<Byte>)
    returns (str': int)
    requires Out(was, buf[..], size, text) && str == |text| && buf != tmp && 0 <= i <= tmp.Length && i <= precision
    requires -0x8000 <= width < 0x8000
    modifies buf
    ensures Out(was, buf[..], size, text + Rep(ZERO, precision - i) + Backwards(tmp[..i]) + Rep(SPACE, PadCount(width)))
    ensures str' == str + precision + PadCount(width)
  {
    hide Out, PadCount, Rep, Backwards;
    str' := EmitZeros(buf, size, str, i, precision, was, text);
    str' := EmitDigits(buf, size, str', tmp, i, was, text + Rep(ZERO, precision - i));
    ghost var w;
    str', w := Pad(buf, size, str', SPACE, width, was, text + Rep(ZERO, precision - i) + Backwards(tmp[..i]));
  }

  /** number(). */
  method Number(buf: array<Byte>, size: int, str: int, num: int, spec: Spec, ghost was: seq<Byte>, ghost text: seq<Byte>) returns (str': int)
    requires Out(was, buf[..], size, text) && str == |text| && 0 <= num < W64 && GoodSpec(spec)
    requires spec.base == 8 || spec.base == 10 || spec.base == 16
    modifies buf
    ensures Out(was, buf[..], size, text + NumberText(num, spec)) && str' == str + |NumberText(num, spec)|
  {
    hide Out, Digits, Chars, Rep, Backwards, SignText, PrefixText, PadCount, PadRest, S16, DigitChar, PadChar, NumberText;
    var tmp := new Byte[66](_ => 0);
    var flags, sign, prefix := spec.flags, SignText(num, spec.flags), PrefixText(num, spec.base, spec.flags);
    var m := Magnitude(num, flags);
    var i := MakeDigits(tmp, m, spec.base, flags.small);
    var precision := Max(i, spec.precision);
    var w0 := S16(S16(S16(spec.width - |sign|) - |prefix|) - precision);
    NumberWidth(num, spec, i);
    hide Max, Magnitude, Slack, Paddings;
    var w1, w2;
    str', w1 := PadIf(!flags.zeropad && !flags.left, buf, size, str, SPACE, w0, was, text);
    ghost var n0 := if !flags.zeropad && !flags.left then PadCount(w0) else 0;
    ghost var t := text + Rep(SPACE, n0);
    str' := EmitAll(buf, size, str', sign, was, t);
    t := t + sign;
    str' := EmitAll(buf, size, str', prefix, was, t);
    t := t + prefix;
    str', w2 := PadIf(!flags.left, buf, size, str', PadChar(flags), w1, was, t);
    ghost var n1 := if !flags.left then PadCount(w1) else 0;
    t := t + Rep(PadChar(flags), n1);
    str' := NumberTail(buf, size, str', tmp, i, precision, w2, was, t);
    NumberTextIs(text, num, spec, i, n0, n1, PadCount(w2));
  }

  // ---------------------------------------------------------------- layout

  /** How far the width counter is stepped below zero when there is nothing to pad. */
  function Steps(flags: PrintFlags): int { if flags.left then 0 else if flags.zeropad then 1 else 2 }

  /** The width counter never steps from the least sixteen-bit number to the greatest. */
  predicate NoUnderflow(slack: int, flags: PrintFlags) { slack - Steps(flags) > -0x8000 || slack <= -0x1_0000 }

  /** Sign, prefix and digits, filled up to the width on the side and with the character the flags say. */
  function Field(num: int, spec: Spec): seq<Byte>
    requires 2 <= spec.base <= 16 && 0 <= num < W64
  {
    var m := Magnitude(num, spec.flags);
    var head := SignText(num, spec.flags) + PrefixText(num, spec.base, spec.flags);
    var digits := Rep(ZERO, spec.precision - |Digits(spec.base, m)|) + Numeral(spec.base, m, spec.flags.small);
    var fill := spec.width - |head| - |digits|;
    if spec.flags.left then head + digits + Rep(SPACE, fill)
    else if spec.flags.zeropad then head + Rep(ZERO, fill) + digits
    else Rep(SPACE, fill) + head + digits
  }

  lemma PaddingsIff(slack: int, flags: PrintFlags)
    requires -0x1_0003 < slack < 0x8000
    ensures NoUnderflow(slack, flags) ==>
      Paddings(slack, flags) == if flags.left then (0, 0, Max(0, slack)) else if flags.zeropad then (0, Max(0, slack), 0) else (Max(0, slack), 0, 0)
    ensures !NoUnderflow(slack, flags) ==>
      var pads := Paddings(slack, flags);
      slack < 0 && pads.0 + pads.1 + pads.2 > 0
    ensures var pads := Paddings(slack, flags);
            0 <= pads.0 && 0 <= pads.1 && 0 <= pads.2
  {
  }

  lemma SlackBounds(num: int, spec: Spec)
    requires 2 <= spec.base <= 16 && 0 <= num < W64 && GoodSpec(spec)
    ensures -0x1_0003 < Slack(num, spec) < 0x8000
  {
    hide Digits;
    Fits64(spec.base, Magnitude(num, spec.flags));
  }

  lemma Regrouped(a: seq<Byte>, b: seq<Byte>, z: seq<Byte>, d: seq<Byte>, f: seq<Byte>)
    ensures [] + a + b + [] + z + d + f == a + b + (z + d) + f
    ensures [] + a + b + f + z + d + [] == a + b + f + (z + d)
    ensures f + a + b + [] + z + d + [] == f + (a + b) + (z + d)
  {
  }

  lemma FieldLength(num: int, spec: Spec)
    requires 2 <= spec.base <= 16 && 0 <= num < W64
    ensures var i := |Digits(spec.base, Magnitude(num, spec.flags))|;
            |Field(num, spec)| == |SignText(num, spec.flags)| + |PrefixText(num, spec.base, spec.flags)|
                                  + Max(i, spec.precision) + Max(0, Slack(num, spec))
  {
    hide SignText, PrefixText, Digits;
  }

  lemma RepBelow(c: Byte, n: int)
    ensures Rep(c, Max(0, n)) == Rep(c, n) && Rep(c, 0) == []
  {
  }

  lemma FieldWhen(num: int, spec: Spec)
    requires 2 <= spec.base <= 16 && 0 <= num < W64 && GoodSpec(spec) && NoUnderflow(Slack(num, spec), spec.flags)
    ensures NumberText(num, spec) == Field(num, spec)
  {
    hide Rep, SignText, PrefixText, Numeral, Digits, Paddings, NoUnderflow;
    SlackBounds(num, spec);
    var slack, flags := Slack(num, spec), spec.flags;
    PaddingsIff(slack, flags);
    RepBelow(SPACE, slack);
    RepBelow(ZERO, slack);
    var m := Magnitude(num, flags);
    var zeros := spec.precision - |Digits(spec.base, m)|;
    RepBelow(ZERO, zeros);
    RepBelow(PadChar(flags), 0);
    Regrouped(SignText(num, flags), PrefixText(num, spec.base, flags), Rep(ZERO, zeros), Numeral(spec.base, m, flags.small),
              Rep(PadChar(flags), slack));
  }

  /** number() fills its field up to the width as the flags say, if and only if its width counter does not underflow. */
  lemma FieldIff(num: int, spec: Spec)
    requires 2 <= spec.base <= 16 && 0 <= num < W64 && GoodSpec(spec)
    ensures NumberText(num, spec) == Field(num, spec) <==> NoUnderflow(Slack(num, spec), spec.flags)
  {
    hide Field, NumberText, SignText, PrefixText, Numeral, Digits, Paddings, NoUnderflow, Slack;
    var slack, flags := Slack(num, spec), spec.flags;
    SlackBounds(num, spec);
    PaddingsIff(slack, flags);
    if NoUnderflow(slack, flags) {
      FieldWhen(num, spec);
    } else {
      var pads := Paddings(slack, flags);
      FieldLength(num, spec);
      NumberTextIs([], num, spec, |Digits(spec.base, Magnitude(num, flags))|, pads.0, pads.1, pads.2);
    }
  }

  /** An unsigned decimal with precision 32767 and no width gets 32768 spaces too many. */
  lemma Underflows(num: int, spec: Spec)
    requires 0 <= num < W64 && spec.base == 10 && spec.width == -1 && spec.precision == 0x7fff
    requires !spec.flags.sign && !spec.flags.left && !spec.flags.zeropad
    ensures |NumberText(num, spec)| == |Field(num, spec)| + 0x8000
  {
    hide Field, NumberText, Numeral, Digits;
    Fits64(10, num);
    FieldLength(num, spec);
    var pads := Paddings(Slack(num, spec), spec.flags);
    NumberTextIs([], num, spec, |Digits(10, num)|, pads.0, pads.1, pads.2);
  }
}
