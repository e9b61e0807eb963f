/** Bounded formatting: lib/vsprintf.c, string, pointer and vsnprintf. */
module Vsnprintf {
  import opened Machine
  import opened Decimal
  import opened NumberFormat
  import opened FormatDecode
  import opened Strtox

  /** A variadic argument: its bits, and the string it points at if it is used as one. */
  datatype Arg = Arg(num: int, text: seq<Byte>)

  // ---------------------------------------------------------------- strings and characters

  /** "(null)". */
  const NullText: seq<Byte> := [40, 110, 117, 108, 108, 41]

  /** strnlen with the precision turned into an unsigned bound. */
  function Shown(s: seq<Byte>, precision: int): (n: int)
    requires -0x8000 <= precision < 0x8000
    ensures 0 <= n <= |s|
  {
    var bound := precision % W32;
    if bound < |s| then bound else |s|
  }

  /** while (len < field_width--): what is left of the width. */
  function TrimRest(len: int, w: int): int { if len < w then len - 1 else S16(w - 1) }

  function StringText(s: seq<Byte>, spec: Spec): seq<Byte>
    requires GoodSpec(spec)
  {
    var len := Shown(s, spec.precision);
    var w := if spec.flags.left then spec.width else TrimRest(len, spec.width);
    Rep(SPACE, if spec.flags.left then 0 else spec.width - len) + s[..len] + Rep(SPACE, w - len)
  }

  /** A string field is the shown part, filled up to the width on the side the flags say. */
  function StringField(s: seq<Byte>, spec: Spec): seq<Byte>
    requires GoodSpec(spec)
  {
    var len := Shown(s, spec.precision);
    if spec.flags.left then s[..len] + Rep(SPACE, spec.width - len) else Rep(SPACE, spec.width - len) + s[..len]
  }

  /** string() writes that field, except that the least sixteen-bit width wraps around to the greatest. */
  lemma StringFieldIff(s: seq<Byte>, spec: Spec)
    requires GoodSpec(spec)
    ensures StringText(s, spec) == StringField(s, spec) <==>
            spec.flags.left || spec.width != -0x8000 || Shown(s, spec.precision) >= 0x7fff
  {
  }

  /** "%32768s" of "a", whose width is cut to -32768. */
  lemma StringFieldWraps()
    ensures var spec := Spec(Str, NoFlags, 10, 255, S16(32768), -1);
            StringField([Ch('a')], spec) == [Ch('a')] && |StringText([Ch('a')], spec)| == 32767
  {
  }

  method PadTo(buf: array<Byte>, size: int, str: int, len: int, width: int, ghost was: seq<Byte>, ghost text: seq<Byte>)
    returns (str': int, width': int)
    requires Out(was, buf[..], size, text) && str == |text| && 0 <= len && -0x8000 <= width < 0x8000
    modifies buf
    ensures Out(was, buf[..], size, text + Rep(SPACE, width - len)) && str' == str + Max(0, width - len) && width' == TrimRest(len, width)
  {
    hide Out;
    str', width' := str, width;
    ghost var n := 0;
    assert text + Rep(SPACE, 0) == text;
    while len < width'
      invariant 0 <= n && width' == width - n && (n > 0 ==> len <= width')
      invariant Out(was, buf[..], size, text + Rep(SPACE, n)) && str' == str + n
    {
      Emit(buf, size, str', SPACE, was, text + Rep(SPACE, n));
      assert text + Rep(SPACE, n) + [SPACE] == text + Rep(SPACE, n + 1);
      str', width', n := str' + 1, width' - 1, n + 1;
    }
    assert Rep(SPACE, n) == Rep(SPACE, width - len);
    width' := S16(width' - 1);
  }

  /** string(). */
  method StringOut(buf: array<Byte>, size: int, str: int, s: seq<Byte>, spec: Spec, ghost was: seq<Byte>, ghost text: seq<Byte>) returns (str': int)
    requires Out(was, buf[..], size, text) && str == |text| && GoodSpec(spec)
    modifies buf
    ensures Out(was, buf[..], size, text + StringText(s, spec)) && str' == str + |StringText(s, spec)|
  {
    hide Out, Rep, S16;
    var len, w := Shown(s, spec.precision), spec.width;
    str' := str;
    ghost var n := if spec.flags.left then 0 else spec.width - len;
    if !spec.flags.left {
      str', w := PadTo(buf, size, str', len, w, was, text);
    } else {
      assert text + Rep(SPACE, 0) == text;
    }
    ghost var t := text + Rep(SPACE, n);
    str' := EmitAll(buf, size, str', s[..len], was, t);
    ghost var w' := w;
    str', w := PadTo(buf, size, str', len, w, was, t + s[..len]);
    assert t + s[..len] + Rep(SPACE, w' - len) == text + StringText(s, spec);
  }

  /** while (--field_width > 0): how many rounds, and what is left of the width. */
  function CharPads(w: int): int { if w == -0x8000 then 0x7fff else if w > 1 then w - 1 else 0 }
  function CharRest(w: int): int { if w == -0x8000 || w > 1 then 0 else w - 1 }

  function CharText(c: Byte, spec: Spec): seq<Byte> {
    var w := if spec.flags.left then spec.width else CharRest(spec.width);
    Rep(SPACE, if spec.flags.left then 0 else CharPads(spec.width)) + [c] + Rep(SPACE, CharPads(w))
  }

  /** A character field is the character, filled up to the width on the side the flags say. */
  function CharField(c: Byte, spec: Spec): seq<Byte> {
    if spec.flags.left then [c] + Rep(SPACE, spec.width - 1) else Rep(SPACE, spec.width - 1) + [c]
  }

  /** The %c case writes that field, except that the counter wraps around for the least widths. */
  lemma CharFieldIff(c: Byte, spec: Spec)
    requires GoodSpec(spec)
    ensures CharText(c, spec) == CharField(c, spec) <==> spec.width > (if spec.flags.left then -0x8000 else -0x7fff)
  {
    var w := spec.width;
    assert |CharField(c, spec)| == 1 + Max(0, w - 1);
    assert Rep(SPACE, 0) == [] && (w <= 1 ==> Rep(SPACE, w - 1) == []);
  }

  /** "%32769c", whose width is cut to -32767. */
  lemma CharFieldWraps()
    ensures var spec := Spec(Char, NoFlags, 10, 255, S16(32769), -1);
            CharField(Ch('a'), spec) == [Ch('a')] && |CharText(Ch('a'), spec)| == 32768
  {
  }

  method PadChars(buf: array<Byte>, size: int, str: int, width: int, ghost was: seq<Byte>, ghost text: seq<Byte>)
    returns (str': int, width': int)
    requires Out(was, buf[..], size, text) && str == |text| && -0x8000 <= width < 0x8000
    modifies buf
    ensures Out(was, buf[..], size, text + Rep(SPACE, CharPads(width))) && str' == str + CharPads(width) && width' == CharRest(width)
  {
    hide Out;
    str', width' := str, S16(width - 1);
    ghost var n := 0;
    assert text + Rep(SPACE, 0) == text;
    while width' > 0
      invariant 0 <= n && Out(was, buf[..], size, text + Rep(SPACE, n)) && str' == str + n
      invariant if CharPads(width) > 0 then 0 <= width' == CharPads(width) - n else n == 0 && width' == CharRest(width)
      decreases width'
    {
      Emit(buf, size, str', SPACE, was, text + Rep(SPACE, n));
      assert text + Rep(SPACE, n) + [SPACE] == text + Rep(SPACE, n + 1);
      str', width', n := str' + 1, S16(width' - 1), n + 1;
    }
  }

  /** The %c case. */
  method CharOut(buf: array<Byte>, size: int, str: int, c: Byte, spec: Spec, ghost was: seq<Byte>, ghost text: seq<Byte>) returns (str': int)
    requires Out(was, buf[..], size, text) && str == |text| && GoodSpec(spec)
    modifies buf
    ensures Out(was, buf[..], size, text + CharText(c, spec)) && str' == str + |CharText(c, spec)|
  {
    hide Out, Rep;
    var w := spec.width;
    str' := str;
    ghost var n := if spec.flags.left then 0 else CharPads(w);
    if !spec.flags.left {
      str', w := PadChars(buf, size, str', w, was, text);
    } else {
      assert text + Rep(SPACE, 0) == text;
    }
    ghost var t := text + Rep(SPACE, n);
    Emit(buf, size, str', c, was, t);
    ghost var w' := w;
    str', w := PadChars(buf, size, str' + 1, w, was, t + [c]);
    assert t + [c] + Rep(SPACE, CharPads(w')) == text + CharText(c, spec);
  }

  // ---------------------------------------------------------------- pointers

  function PointerSpec(spec: Spec, isNull: bool): Spec {
    var width := if spec.width == -1 then (if spec.flags.special then 10 else 8) else spec.width;
    if isNull then spec.(width := width)
    else spec.(width := width, base := 16, flags := spec.flags.(small := true, zeropad := spec.flags.zeropad || spec.width == -1))
  }

  /** What pointer() writes; next is the character behind the 'p'. */
  function PointerText(p: int, next: Byte, spec: Spec): seq<Byte>
    requires GoodSpec(spec) && 0 <= p < W32
  {
    if p == 0 && next != Ch('K') then StringText(NullText, PointerSpec(spec, true))
    else NumberText(p, PointerSpec(spec, false))
  }

  /** pointer(). */
  method PointerOut(buf: array<Byte>, size: int, str: int, p: int, next: Byte, spec: Spec, ghost was: seq<Byte>, ghost text: seq<Byte>)
    returns (str': int)
    requires Out(was, buf[..], size, text) && str == |text| && GoodSpec(spec) && 0 <= p < W32
    modifies buf
    ensures Out(was, buf[..], size, text + PointerText(p, next, spec)) && str' == str + |PointerText(p, next, spec)|
  {
    hide Out, StringText, NumberText;
    var s := spec;
    var defaultWidth := if s.flags.special then 10 else 8;
    if p == 0 && next != Ch('K') {
      if s.width == -1 { s := s.(width := defaultWidth); }
      str' := StringOut(buf, size, str, NullText, s, was, text);
      return;
    }
    s := s.(flags := s.flags.(small := true));
    if s.width == -1 { s := s.(width := defaultWidth, flags := s.flags.(zeropad := true)); }
    s := s.(base := 16);
    str' := Number(buf, size, str, p, s, was, text);
  }

  // ---------------------------------------------------------------- one directive

  /** The value handed to number(): fetched at the argument's C type, then widened to 64 bits. */
  function Fetched(kind: Kind, sign: bool, num: int): (v: int)
    ensures 0 <= v < W64
  {
    match kind
    case LongLong => num % W64
    case ULong => num % W32
    case Long => Signed(num, W32) % W64
    case SizeT => if sign then Signed(num, W32) % W64 else num % W32
    case PtrDiff => Signed(num, W32) % W64
    case UByte => num % 0x100
    case SByte => Signed(num, 0x100) % W64
    case UShort => num % 0x1_0000
    case Short => Signed(num, 0x1_0000) % W64
    case Int => Signed(num, W32) % W64
    case _ => num % W32
  }

  /** The low bits of x below modulus, read as a two's complement number. */
  function Signed(x: int, modulus: int): int
    requires 0 < modulus
  {
    if x % modulus < modulus / 2 then x % modulus else x % modulus - modulus
  }

  /** What one round of the loop does: what it prints and stores, and where it leaves the format and the arguments. */
  datatype Step = Step(text: seq<Byte>, stores: seq<(int, int)>, read: nat, spec: Spec, used: nat)

  function AlnumRun(f: seq<Byte>): (n: nat)
    ensures n <= |f|
  {
    if f == [] || !IsAlnum(f[0]) then 0 else 1 + AlnumRun(f[1..])
  }

  /** What a decoded directive prints, f being the format behind it. */
  function Printout(f: seq<Byte>, spec: Spec, arg: Arg): seq<Byte>
    requires GoodSpec(spec) && (spec.base == 8 || spec.base == 10 || spec.base == 16)
  {
    match spec.kind
    case Char => CharText(arg.num % 0x100, spec)
    case Str => StringText(if arg.num % W32 < 1024 then NullText else arg.text, spec)
    case Ptr => PointerText(arg.num % W32, Head(if f == [] then [] else f[1..]), spec)
    case PercentChar => [Ch('%')]
    case Invalid => [Ch('%')]
    case _ => NumberText(Fetched(spec.kind, spec.flags.sign, arg.num), spec)
  }

  /** What the loop does with a decoded directive. */
  function Dispatch(f: seq<Byte>, d: Decoded, arg: Arg, n: int): Step
    requires Stops(f, d)
  {
    var g, kind := f[d.read..], d.spec.kind;
    if kind == Plain then Step(f[..d.read], [], d.read, d.spec, 0)
    else if kind == Width then Step([], [], d.read, d.spec.(width := S16(arg.num)), 1)
    else if kind == Precision then Step([], [], d.read, d.spec.(precision := S16(arg.num)), 1)
    else if kind == NrChars then Step([], [(arg.num, n)], d.read, d.spec, 1)
    else
      var skip := if kind == Ptr then AlnumRun(g) else 0;
      Step(Printout(g, d.spec, arg), [], d.read + skip, d.spec, if kind == PercentChar || kind == Invalid then 0 else 1)
  }

  /** One round of the loop at format f, n characters having been printed. */
  function OneStep(f: seq<Byte>, spec: Spec, arg: Arg, n: int): Step
    requires GoodSpec(spec)
  {
    DecodeProgress(f, spec);
    Dispatch(f, Decode(f, spec), arg, n)
  }

  lemma StepProgress(f: seq<Byte>, spec: Spec, arg: Arg, n: int)
    requires GoodSpec(spec)
    ensures var s := OneStep(f, spec, arg, n);
            s.read <= |f| && GoodSpec(s.spec) && (f != [] && s.read == 0 ==> Pending(spec) && !Pending(s.spec))
  {
    hide Decode, Printout;
    DecodeProgress(f, spec);
  }

  // ---------------------------------------------------------------- the loop

  /** Everything printed, and the stores made by %n as (address, value) pairs in order. */
  datatype Output = Output(text: seq<Byte>, stores: seq<(int, int)>)

  /** What formatting f prints and stores when nothing bounds it. */
  function Run(f: seq<Byte>, spec: Spec, args: int -> Arg, a: int, n: int): Output
    requires GoodSpec(spec)
    decreases |f|, if Pending(spec) then 1 else 0
  {
    if f == [] then Output([], [])
    else
      var s := OneStep(f, spec, args(a), n);
      StepProgress(f, spec, args(a), n);
      var rest := Run(f[s.read..], s.spec, args, a + s.used, n + |s.text|);
      Output(s.text + rest.text, s.stores + rest.stores)
  }

  const StartSpec: Spec := Spec(Plain, NoFlags, 0, 0, 0, 0)

  function Ideal(fmt: seq<Byte>, args: int -> Arg): Output { Run(fmt, StartSpec, args, 0, 0) }

  /** now is was with text printed at its start, cut to fit size bytes together with its NUL. */
  ghost predicate Printed(was: seq<Byte>, now: seq<Byte>, size: int, text: seq<Byte>) {
    && |now| == |was|
    && var n := if |text| < size then |text| else size - 1;
       forall x :: 0 <= x < |now| ==> now[x] == if x < n then text[x] else if x == n then 0 else was[x]
  }

  /** The room between buf and the end of the address space, if size is larger than that. */
  function Room(base: int, size: int): int { if base + size >= W32 then W32 - 1 - base else size }

  /** The literal text in front of a '%'. */
  method CopyPlain(buf: array<Byte>, size: int, str: int, s: seq<Byte>, ghost was: seq<Byte>, ghost text: seq<Byte>)
    requires Out(was, buf[..], size, text) && str == |text|
    modifies buf
    ensures Out(was, buf[..], size, text + s)
  {
    if str < size {
      var copy := if |s| > size - str then size - str else |s|;
      forall i | 0 <= i < copy { buf[str + i] := s[i]; }
    }
  }

  method SkipAlnum(fmt: seq<Byte>, start: int) returns (i: int)
    requires 0 <= start <= |fmt|
    ensures i == start + AlnumRun(fmt[start..])
  {
    i := start;
    while i < |fmt| && IsAlnum(fmt[i])
      invariant start <= i <= |fmt| && i + AlnumRun(fmt[i..]) == start + AlnumRun(fmt[start..])
    {
      Tail(fmt, i);
      i := i + 1;
    }
    if i < |fmt| { Tail(fmt, i); }
  }

  /** The cases that print something for a directive, the format pointer standing at pos. */
  method PrintOne(buf: array<Byte>, size: int, str: int, fmt: seq<Byte>, pos: int, spec: Spec, arg: Arg, ghost was: seq<Byte>, ghost text: seq<Byte>)
    returns (str': int)
    requires Out(was, buf[..], size, text) && str == |text| && 0 <= pos <= |fmt| && GoodSpec(spec)
    requires spec.base == 8 || spec.base == 10 || spec.base == 16
    requires spec.kind == Ptr ==> Head(fmt[pos..]) == Ch('p')
    modifies buf
    ensures Out(was, buf[..], size, text + Printout(fmt[pos..], spec, arg)) && str' == str + |Printout(fmt[pos..], spec, arg)|
  {
    hide Out, CharText, StringText, NumberText, PointerText, Fetched;
    match spec.kind
    case Char => str' := CharOut(buf, size, str, arg.num % 0x100, spec, was, text);
    case Str =>
      var s := if arg.num % W32 < 1024 then NullText else arg.text;
      str' := StringOut(buf, size, str, s, spec, was, text);
    case Ptr =>
      Tail(fmt, pos);
      str' := PointerOut(buf, size, str, arg.num % W32, CharAt(fmt, pos + 1), spec, was, text);
    case PercentChar =>
      Emit(buf, size, str, Ch('%'), was, text);
      str' := str + 1;
    case Invalid =>
      Emit(buf, size, str, Ch('%'), was, text);
      str' := str + 1;
    case _ =>
      str' := Number(buf, size, str, Fetched(spec.kind, spec.flags.sign, arg.num), spec, was, text);
  }

  /** The switch in the loop of vsnprintf, the format pointer having been moved to pos. */
  method Switch(buf: array<Byte>, size: int, str: int, fmt: seq<Byte>, start: int, read: int, spec: Spec, arg: Arg,
                ghost was: seq<Byte>, ghost text: seq<Byte>)
    returns (str': int, pos: int, s: Spec, used: nat, stores: seq<(int, int)>)
    requires Out(was, buf[..], size, text) && str == |text| && 0 <= start <= |fmt| && 0 <= read
    requires Stops(fmt[start..], Decoded(read, spec))
    modifies buf
    ensures var step := Dispatch(fmt[start..], Decoded(read, spec), arg, |text|);
            && Out(was, buf[..], size, text + step.text) && str' == |text + step.text|
            && pos == start + step.read && s == step.spec && used == step.used && stores == step.stores
  {
    hide Out, Printout, S16;
    str', pos, s, used, stores := str, start + read, spec, 0, [];
    assert text + [] == text && fmt[start..][read..] == fmt[pos..] && fmt[start..][..read] == fmt[start..pos];
    if s.kind == Plain {
      CopyPlain(buf, size, str, fmt[start..pos], was, text);
      str' := str + read;
    } else if s.kind == Width {
      s, used := s.(width := S16(arg.num)), 1;
    } else if s.kind == Precision {
      s, used := s.(precision := S16(arg.num)), 1;
    } else if s.kind == NrChars {
      stores, used := [(arg.num, str)], 1;
    } else {
      str' := PrintOne(buf, size, str, fmt, pos, s, arg, was, text);
      if s.kind == Ptr { pos := SkipAlnum(fmt, pos); }
      used := if s.kind == PercentChar || s.kind == Invalid then 0 else 1;
    }
  }

  /** One round of the loop in vsnprintf. */
  method Round(buf: array<Byte>, size: int, str: int, fmt: seq<Byte>, start: int, spec: Spec, arg: Arg, ghost was: seq<Byte>, ghost text: seq<Byte>)
    returns (str': int, pos: int, s: Spec, used: nat, stores: seq<(int, int)>)
    requires Out(was, buf[..], size, text) && str == |text| && 0 <= start <= |fmt| && GoodSpec(spec)
    modifies buf
    ensures var step := OneStep(fmt[start..], spec, arg, |text|);
            && Out(was, buf[..], size, text + step.text) && str' == |text + step.text|
            && pos == start + step.read && s == step.spec && used == step.used && stores == step.stores
  {
    hide Out, Decode, Dispatch, Stops;
    DecodeProgress(fmt[start..], spec);
    pos, s := DecodeNext(fmt, start, spec);
    str', pos, s, used, stores := Switch(buf, size, str, fmt, start, pos - start, s, arg, was, text);
  }

  lemma RunStep(f: seq<Byte>, spec: Spec, args: int -> Arg, a: int, text: seq<Byte>, stores: seq<(int, int)>, all: Output)
    requires GoodSpec(spec) && f != []
    requires var r := Run(f, spec, args, a, |text|);
             all == Output(text + r.text, stores + r.stores)
    ensures var s := OneStep(f, spec, args(a), |text|);
            && s.read <= |f| && GoodSpec(s.spec) && (s.read == 0 ==> Pending(spec) && !Pending(s.spec))
            && var r := Run(f[s.read..], s.spec, args, a + s.used, |text + s.text|);
               all == Output(text + s.text + r.text, stores + s.stores + r.stores)
  {
    hide OneStep;
    StepProgress(f, spec, args(a), |text|);
  }

  /** The loop of vsnprintf. */
  method FormatAll(buf: array<Byte>, size: int, fmt: seq<Byte>, args: int -> Arg) returns (str: int, stores: seq<(int, int)>)
    requires 0 <= size <= buf.Length
    modifies buf
    ensures str == |Ideal(fmt, args).text| && stores == Ideal(fmt, args).stores
    ensures Out(old(buf[..]), buf[..], size, Ideal(fmt, args).text)
  {
    hide Out, OneStep, Run;
    ghost var was, text, all := buf[..], [], Ideal(fmt, args);
    var pos, spec, a := 0, StartSpec, 0;
    str, stores := 0, [];
    OutNothing(was, size);
    assert fmt[0..] == fmt;
    while pos < |fmt|
      invariant 0 <= pos <= |fmt| && GoodSpec(spec) && Out(was, buf[..], size, text) && str == |text|
      invariant var r := Run(fmt[pos..], spec, args, a, |text|);
                all == Output(text + r.text, stores + r.stores)
      decreases |fmt| - pos, if Pending(spec) then 1 else 0
    {
      RunStep(fmt[pos..], spec, args, a, text, stores, all);
      ghost var step := OneStep(fmt[pos..], spec, args(a), |text|);
      assert fmt[pos..][step.read..] == fmt[pos + step.read..];
      var used, more;
      str, pos, spec, used, more := Round(buf, size, str, fmt, pos, spec, args(a), was, text);
      text, stores, a := text + step.text, stores + more, a + used;
    }
    assert fmt[pos..] == [] && text + [] == text && stores + [] == stores;
    RunEnd(spec, args, a, |text|);
  }

  lemma RunEnd(spec: Spec, args: int -> Arg, a: int, n: int)
    requires GoodSpec(spec)
    ensures Run([], spec, args, a, n) == Output([], [])
  {
  }

  /** vsnprintf, for a buffer at address base. */
  method VsnPrintf(buf: array<Byte>, base: int, size: int, fmt: seq<Byte>, args: int -> Arg) returns (ret: int, stores: seq<(int, int)>)
    requires 0 <= base < W32 && 0 <= size < W32 && Room(base, size) <= buf.Length
    modifies buf
    ensures size >= 0x8000_0000 ==> ret == 0 && stores == [] && buf[..] == old(buf[..])
    ensures size < 0x8000_0000 ==> ret == |Ideal(fmt, args).text| && stores == Ideal(fmt, args).stores
    ensures size < 0x8000_0000 ==> Printed(old(buf[..]), buf[..], Room(base, size), Ideal(fmt, args).text)
  {
    if size >= 0x8000_0000 { return 0, []; }
    var end := Room(base, size);
    ret, stores := FormatAll(buf, end, fmt, args);
    if end > 0 {
      if ret < end { buf[ret] := 0; } else { buf[end - 1] := 0; }
    }
  }

  /** The text "a" into a buffer of sixteen bytes at the top of the address space, its size given as 2^31: nothing is printed. */
  method HugeSize(buf: array<Byte>, args: int -> Arg) returns (ret: int)
    requires buf.Length == 16
    modifies buf
    ensures ret == 0 && buf[..] == old(buf[..]) && Ideal([Ch('a')], args).text == [Ch('a')]
  {
    var stores;
    ret, stores := VsnPrintf(buf, 0xFFFF_FFF0, 0x8000_0000, [Ch('a')], args);
    PlainText([Ch('a')], StartSpec, args, 0, 0);
  }

  // ---------------------------------------------------------------- width and precision from arguments

  /** From index a on, args reads as args' does from index b on. */
  ghost predicate SameArgs(args: int -> Arg, a: int, args': int -> Arg, b: int) {
    forall k :: a <= k ==> args(k) == args'(k - a + b)
  }

  lemma SameArgsLater(args: int -> Arg, a: int, args': int -> Arg, b: int, n: nat)
    requires SameArgs(args, a, args', b)
    ensures args(a) == args'(b) && SameArgs(args, a + n, args', b + n)
  {
  }

  lemma {:induction false} ArgShift(f: seq<Byte>, spec: Spec, args: int -> Arg, a: int, args': int -> Arg, b: int, n: int)
    requires GoodSpec(spec) && SameArgs(args, a, args', b)
    ensures Run(f, spec, args, a, n) == Run(f, spec, args', b, n)
    decreases |f|, if Pending(spec) then 1 else 0
  {
    hide OneStep, SameArgs;
    if f != [] {
      var s := OneStep(f, spec, args(a), n);
      StepProgress(f, spec, args(a), n);
      SameArgsLater(args, a, args', b, s.used);
      ArgShift(f[s.read..], s.spec, args, a + s.used, args', b + s.used, n + |s.text|);
    }
  }

  /** Decimal digits read by the decoder are the number printed by number(). */
  lemma {:induction false} DecimalsRoundTrip(n: int)
    requires 0 <= n
    ensures Decimals(Numeral(10, n, false)) == n
    ensures forall i :: 0 <= i < |Numeral(10, n, false)| ==> IsDigit(Numeral(10, n, false)[i])
    ensures n > 0 ==> Numeral(10, n, false)[0] != ZERO
  {
    hide Numeral, Decimals, DigitChar;
    NumeralSnoc(10, n, false);
    DecimalChar(n % 10);
    if n < 10 {
      NoDecimals();
      DecimalsSnoc([], DigitChar(n, false));
      assert [] + [DigitChar(n, false)] == [DigitChar(n, false)];
    } else {
      DecimalsRoundTrip(n / 10);
      DecimalsSnoc(Numeral(10, n / 10, false), DigitChar(n % 10, false));
    }
  }

  lemma DecimalChar(d: int)
    requires 0 <= d < 10
    ensures DigitChar(d, false) == Ch('0') + d && IsDigit(DigitChar(d, false))
  {
  }

  lemma {:induction false} DigitRunIs(s: seq<Byte>, rest: seq<Byte>)
    requires (forall i :: 0 <= i < |s| ==> IsDigit(s[i])) && !IsDigit(Head(rest))
    ensures DigitRun(s + rest) == |s|
  {
    if s != [] {
      DigitRunIs(s[1..], rest);
      assert (s + rest)[1..] == s[1..] + rest;
    } else {
      assert s + rest == rest;
    }
  }

  lemma {:induction false} FlagRunIs(s: seq<Byte>, rest: seq<Byte>)
    requires (forall i :: 0 <= i < |s| ==> IsFlag(s[i])) && !IsFlag(Head(rest))
    ensures FlagRun(s + rest) == |s|
  {
    if s != [] {
      FlagRunIs(s[1..], rest);
      assert (s + rest)[1..] == s[1..] + rest;
    } else {
      assert s + rest == rest;
    }
  }

  /** '%', flags, and the rest of a directive. */
  function Percent(flags: seq<Byte>, rest: seq<Byte>): seq<Byte> { [Ch('%')] + flags + rest }

  lemma DirectiveParts(flags: seq<Byte>, rest: seq<Byte>, spec: Spec)
    requires (forall i :: 0 <= i < |flags| ==> IsFlag(flags[i])) && !IsFlag(Head(rest)) && !Pending(spec)
    ensures var f := Percent(flags, rest);
            && f != [] && Decode(f, spec) == Directive(f, spec) && FlagRun(f[1..]) == |flags| && f[1..1 + |flags|] == flags && f[1 + |flags|..] == rest
  {
    var f := Percent(flags, rest);
    FlagRunIs(flags, rest);
    assert f[1..] == flags + rest;
  }

  /** The specification a directive starts from once its flags are read. */
  function Flagged(flags: seq<Byte>, spec: Spec, width: int): Spec {
    spec.(kind := Plain, flags := FlagsIn(flags, NoFlags), width := width)
  }

  /** A width written in the format: nothing, or digits that do not start with the 0 flag. */
  predicate IsWidth(digits: seq<Byte>) {
    (forall i :: 0 <= i < |digits| ==> IsDigit(digits[i])) && (digits != [] ==> digits[0] != ZERO)
  }

  /** The width it stands for, cut to sixteen bits, and -1 for none. */
  function WidthOf(digits: seq<Byte>): int { if digits == [] then -1 else S16(Decimals(digits)) }

  lemma WrittenWidth(flags: seq<Byte>, digits: seq<Byte>, rest: seq<Byte>, spec: Spec)
    requires (forall i :: 0 <= i < |flags| ==> IsFlag(flags[i])) && !Pending(spec) && IsWidth(digits)
    requires !IsDigit(Head(rest)) && (digits == [] ==> !IsFlag(Head(rest)) && Head(rest) != Ch('*'))
    ensures Decode(Percent(flags, digits + rest), spec) ==
            Skip(1 + |flags| + |digits|, FromPrecision(rest, Flagged(flags, spec, WidthOf(digits))))
  {
    hide FromPrecision, Decimals, S16;
    DigitRunIs(digits, rest);
    if digits == [] { assert digits + rest == rest; }
    DirectiveParts(flags, digits + rest, spec);
    assert (digits + rest)[..|digits|] == digits && (digits + rest)[|digits|..] == rest;
  }

  /** The number to write for a width argument: its magnitude at sixteen bits, and 65536 for zero, which reads as zero too. */
  function WrittenAs(w: int): (r: int)
    ensures 1 <= r <= 0x1_0000
  {
    if S16(w) == 0 then 0x1_0000 else if S16(w) < 0 then -S16(w) else S16(w)
  }

  lemma WrittenAsIs(w: int)
    ensures var d := Numeral(10, WrittenAs(w), false);
            IsWidth(d) && d != [] && WidthOf(d) == if S16(w) < 0 then S16(-S16(w)) else S16(w)
  {
    hide Numeral, Decimals;
    DecimalsRoundTrip(WrittenAs(w));
    NumeralSnoc(10, WrittenAs(w), false);
  }

  /** The flags a negative width argument adds to. */
  function WithMinus(flags: seq<Byte>, neg: bool): seq<Byte> { if neg then flags + [Ch('-')] else flags }

  lemma StarWidthDecode(flags: seq<Byte>, w: int, rest: seq<Byte>, spec: Spec)
    requires (forall i :: 0 <= i < |flags| ==> IsFlag(flags[i])) && !Pending(spec) && -0x8000 <= w < 0x8000
    ensures Decode(Percent(flags, [Ch('*')] + rest), spec) == Decoded(2 + |flags|, Flagged(flags, spec, -1).(kind := Width))
    ensures Decode(rest, Flagged(flags, spec, w).(kind := Width)) ==
            FromPrecision(rest, Flagged(WithMinus(flags, w < 0), spec, if w < 0 then S16(-w) else w))
  {
    hide FromPrecision;
    DirectiveParts(flags, [Ch('*')] + rest, spec);
    FlagsSnoc(flags, Ch('-'), NoFlags);
  }

  /** Two formats whose next directive decodes alike, and leaves the same format behind it, print alike. */
  lemma SameDispatch(f: seq<Byte>, d: Decoded, g: seq<Byte>, skip: nat, arg: Arg, n: int)
    requires Stops(g, d) && d.spec.kind != Plain && |f| == skip + |g| && f[skip..] == g
    ensures Stops(f, Skip(skip, d))
    ensures Dispatch(f, Skip(skip, d), arg, n) == Dispatch(g, d, arg, n).(read := skip + Dispatch(g, d, arg, n).read)
  {
    hide Printout;
    SkipStops(f, skip, d);
    assert f[skip + d.read..] == g[d.read..];
  }

  /**
   * Taking the width from an argument, whatever it is, is the same as writing it in the format, a minus sign becoming a
   * flag: the decoder, called again for the rest of the directive, goes on exactly where it would have gone on by itself.
   */
  lemma StarWidth(flags: seq<Byte>, rest: seq<Byte>, spec: Spec, args: int -> Arg, args': int -> Arg, a: int, n: int)
    requires (forall i :: 0 <= i < |flags| ==> IsFlag(flags[i])) && GoodSpec(spec) && !Pending(spec)
    requires rest != [] && !IsDigit(Head(rest)) && SameArgs(args, a + 1, args', a)
    ensures var w := args(a).num;
            Run(Percent(flags, [Ch('*')] + rest), spec, args, a, n) ==
            Run(Percent(WithMinus(flags, S16(w) < 0), Numeral(10, WrittenAs(w), false) + rest), spec, args', a, n)
  {
    hide FromPrecision, Numeral, Decode, Stops, FlagsIn, S16, Run, SameArgs, WidthOf, WrittenAs;
    var w := S16(args(a).num);
    var flags', d := WithMinus(flags, w < 0), Numeral(10, WrittenAs(args(a).num), false);
    var star, lit := Percent(flags, [Ch('*')] + rest), Percent(flags', d + rest);
    WrittenAsIs(args(a).num);
    var s, t := Flagged(flags, spec, w).(kind := Width), Flagged(flags', spec, WidthOf(d));
    StarWidthDecode(flags, w, rest, spec);
    WrittenWidth(flags', d, rest, spec);
    PrecisionStops(rest, t);
    var skip := 1 + |flags'| + |d|;
    assert lit[skip..] == rest && star[2 + |flags|..] == rest;
    StarStep(star, spec, args, a, n, 2 + |flags|, s);
    ResumeAlike(rest, s, lit, spec, FromPrecision(rest, t), skip, args, args', a, n);
  }

  /** The format left behind a '*' and the format with the number written out go on alike. */
  lemma ResumeAlike(rest: seq<Byte>, s: Spec, lit: seq<Byte>, spec: Spec, d: Decoded, skip: nat, args: int -> Arg, args': int -> Arg, a: int, n: int)
    requires GoodSpec(s) && GoodSpec(spec) && Stops(rest, d) && d.spec.kind != Plain && rest != []
    requires Decode(rest, s) == d && Decode(lit, spec) == Skip(skip, d) && |lit| == skip + |rest| && lit[skip..] == rest
    requires SameArgs(args, a + 1, args', a)
    ensures Run(rest, s, args, a + 1, n) == Run(lit, spec, args', a, n)
  {
    hide Run, OneStep, Decode, Stops, SameArgs;
    SameArgsLater(args, a + 1, args', a, 0);
    SameStep(rest, s, lit, spec, d, skip, args'(a), n);
    var one := OneStep(rest, s, args(a + 1), n);
    StepProgress(rest, s, args(a + 1), n);
    assert lit[skip + one.read..] == rest[one.read..];
    RunUnfold(rest, s, args, a + 1, n);
    RunUnfold(lit, spec, args', a, n);
    SameArgsLater(args, a + 1, args', a, one.used);
    ArgShift(rest[one.read..], one.spec, args, a + 1 + one.used, args', a + one.used, n + |one.text|);
  }

  lemma SameStep(rest: seq<Byte>, s: Spec, lit: seq<Byte>, spec: Spec, d: Decoded, skip: nat, arg: Arg, n: int)
    requires GoodSpec(s) && GoodSpec(spec) && Stops(rest, d) && d.spec.kind != Plain && rest != []
    requires Decode(rest, s) == d && Decode(lit, spec) == Skip(skip, d) && |lit| == skip + |rest| && lit[skip..] == rest
    ensures OneStep(lit, spec, arg, n) == OneStep(rest, s, arg, n).(read := skip + OneStep(rest, s, arg, n).read)
  {
    hide Decode, Dispatch, Stops;
    SameDispatch(lit, d, rest, skip, arg, n);
  }

  lemma RunUnfold(f: seq<Byte>, spec: Spec, args: int -> Arg, a: int, n: int)
    requires GoodSpec(spec) && f != []
    ensures var s := OneStep(f, spec, args(a), n);
            && s.read <= |f| && GoodSpec(s.spec)
            && var r := Run(f[s.read..], s.spec, args, a + s.used, n + |s.text|);
               Run(f, spec, args, a, n) == Output(s.text + r.text, s.stores + r.stores)
  {
    hide OneStep;
    StepProgress(f, spec, args(a), n);
  }

  /** A directive that takes its width from an argument prints nothing before it is taken up again. */
  lemma StarStep(f: seq<Byte>, spec: Spec, args: int -> Arg, a: int, n: int, read: nat, s: Spec)
    requires GoodSpec(spec) && f != [] && Pending(s) && GoodSpec(s) && 0 < read <= |f|
    requires s.kind == Width ==> Decode(f, spec) == Decoded(read, s.(width := -1)) && S16(args(a).num) == s.width
    requires s.kind == Precision ==> Decode(f, spec) == Decoded(read, s.(precision := -1)) && S16(args(a).num) == s.precision
    ensures Run(f, spec, args, a, n) == Run(f[read..], s, args, a + 1, n)
  {
    hide Decode, Run, Stops;
    DecodeProgress(f, spec);
    RunUnfold(f, spec, args, a, n);
  }

  lemma LiteralPrecision(p: int, rest: seq<Byte>, s: Spec)
    requires 0 <= p < 0x8000 && !IsDigit(Head(rest))
    ensures var d := Numeral(10, p, false);
            FromPrecision([Ch('.')] + (d + rest), s) == Skip(1 + |d|, FromQualifier(rest, s.(precision := p)))
  {
    hide FromQualifier, Numeral, Decimals, DigitRun;
    var d := Numeral(10, p, false);
    DecimalsRoundTrip(p);
    DigitRunIs(d, rest);
    assert ([Ch('.')] + (d + rest))[1..] == d + rest && (d + rest)[..|d|] == d && (d + rest)[|d|..] == rest;
    assert Head(d + rest) == d[0];
  }

  lemma StarPrecisionDecode(p: int, rest: seq<Byte>, s: Spec)
    requires s.kind == Plain
    ensures FromPrecision([Ch('.'), Ch('*')] + rest, s) == Decoded(2, s.(precision := -1, kind := Precision))
    ensures Decode(rest, s.(precision := p, kind := Precision)) == FromQualifier(rest, s.(precision := Max(0, p)))
  {
    hide FromQualifier;
    assert ([Ch('.'), Ch('*')] + rest)[1..] == [Ch('*')] + rest;
  }

  function Starred(flags: seq<Byte>, width: seq<Byte>, rest: seq<Byte>): seq<Byte> {
    Percent(flags, width + ([Ch('.'), Ch('*')] + rest))
  }

  function WithPrecision(flags: seq<Byte>, width: seq<Byte>, p: nat, rest: seq<Byte>): seq<Byte> {
    Percent(flags, width + ([Ch('.')] + (Numeral(10, p, false) + rest)))
  }

  /** How the two forms of a precision decode. */
  lemma PrecisionForms(flags: seq<Byte>, width: seq<Byte>, v: int, rest: seq<Byte>, spec: Spec)
    requires (forall i :: 0 <= i < |flags| ==> IsFlag(flags[i])) && !Pending(spec) && IsWidth(width)
    requires -0x8000 <= v < 0x8000 && !IsDigit(Head(rest))
    ensures var s := Flagged(flags, spec, WidthOf(width));
            var star, lit, n := Starred(flags, width, rest), WithPrecision(flags, width, Max(0, v), rest), 1 + |flags| + |width|;
            var d := FromQualifier(rest, s.(precision := Max(0, v)));
            var skip := n + 1 + |Numeral(10, Max(0, v), false)|;
            && |star| == n + 2 + |rest| && star[n + 2..] == rest && |lit| == skip + |rest| && lit[skip..] == rest
            && Decode(star, spec) == Decoded(n + 2, s.(precision := -1, kind := Precision))
            && Decode(rest, s.(precision := v, kind := Precision)) == d && Decode(lit, spec) == Skip(skip, d)
  {
    hide FromQualifier, FromPrecision, Numeral, Decode, FlagsIn, S16, WidthOf, IsWidth, Percent;
    var d, s := Numeral(10, Max(0, v), false), Flagged(flags, spec, WidthOf(width));
    WrittenWidth(flags, width, [Ch('.'), Ch('*')] + rest, spec);
    WrittenWidth(flags, width, [Ch('.')] + (d + rest), spec);
    StarPrecisionDecode(v, rest, s);
    LiteralPrecision(Max(0, v), rest, s);
    TailOf(flags, width, [Ch('.'), Ch('*')], rest);
    TailOf(flags, width, [Ch('.')] + d, rest);
    assert [Ch('.')] + (d + rest) == [Ch('.')] + d + rest;
  }

  /**
   * Taking the precision from an argument, whatever it is, is the same as writing it in the format, a negative one counting
   * as zero. Any flags and any width may come before it.
   */
  lemma StarPrecision(flags: seq<Byte>, width: seq<Byte>, rest: seq<Byte>, spec: Spec, args: int -> Arg, args': int -> Arg, a: int, n: int)
    requires (forall i :: 0 <= i < |flags| ==> IsFlag(flags[i])) && GoodSpec(spec) && !Pending(spec) && IsWidth(width)
    requires rest != [] && !IsDigit(Head(rest)) && SameArgs(args, a + 1, args', a)
    ensures Run(Starred(flags, width, rest), spec, args, a, n) ==
            Run(WithPrecision(flags, width, Max(0, S16(args(a).num)), rest), spec, args', a, n)
  {
    hide FromQualifier, Numeral, Decode, Stops, FlagsIn, S16, Run, SameArgs, WidthOf, IsWidth, Starred, WithPrecision;
    var v := S16(args(a).num);
    var base := Flagged(flags, spec, WidthOf(width));
    WidthGood(width);
    PrecisionForms(flags, width, v, rest, spec);
    var s, t := base.(precision := v, kind := Precision), base.(precision := Max(0, v));
    QualifierStops(rest, t);
    var star, lit := Starred(flags, width, rest), WithPrecision(flags, width, Max(0, v), rest);
    StarStep(star, spec, args, a, n, 3 + |flags| + |width|, s);
    ResumeAlike(rest, s, lit, spec, FromQualifier(rest, t), 2 + |flags| + |width| + |Numeral(10, Max(0, v), false)|, args, args', a, n);
  }

  lemma TailOf(flags: seq<Byte>, width: seq<Byte>, x: seq<Byte>, rest: seq<Byte>)
    ensures var f, n := Percent(flags, width + (x + rest)), 1 + |flags| + |width| + |x|;
            |f| == n + |rest| && f[n..] == rest && f != []
  {
  }

  lemma WidthGood(digits: seq<Byte>)
    ensures -0x8000 <= WidthOf(digits) < 0x8000
  {
    hide Decimals;
  }

  /** A negative precision counts as zero, which for numbers is as if it were left out, as the standard says. */
  lemma NegativePrecisionOfNumber(num: int, spec: Spec)
    requires 2 <= spec.base <= 16 && 0 <= num < W64
    ensures NumberText(num, spec.(precision := 0)) == NumberText(num, spec.(precision := -1))
  {
    hide Digits, Numeral;
    var a, b := spec.(precision := 0), spec.(precision := -1);
    assert Slack(num, a) == Slack(num, b);
  }

  /** The width string() fills up to, the least one wrapping around to the greatest. */
  function FilledTo(spec: Spec): int {
    if !spec.flags.left && spec.width == -0x8000 then 0x7fff else Max(0, spec.width)
  }

  /** For strings it is not: the string disappears, which shows unless it is spaces that fit in the field. */
  lemma NegativePrecisionOfStringIff(s: seq<Byte>, spec: Spec)
    requires GoodSpec(spec)
    ensures var n := Shown(s, -1);
            StringText(s, spec.(precision := 0)) == StringText(s, spec.(precision := -1)) <==>
            n <= FilledTo(spec) && forall i :: 0 <= i < n ==> s[i] == SPACE
  {
    var n, w := Shown(s, -1), FilledTo(spec);
    var a, b := StringText(s, spec.(precision := 0)), StringText(s, spec.(precision := -1));
    assert a == Rep(SPACE, w);
    if n <= w {
      var at := if spec.flags.left || spec.width == -0x8000 then 0 else w - n;
      assert |b| == w;
      forall i | 0 <= i < w ensures b[i] == if at <= i < at + n then s[i - at] else SPACE {
      }
      if a == b { forall i | 0 <= i < n ensures s[i] == SPACE { assert b[at + i] == SPACE; } }
    }
  }

  /** "%.*s" of "a" with -1. */
  lemma NegativePrecisionHidesString()
    ensures var spec := Spec(Str, NoFlags, 10, 255, -1, 0);
            StringText([Ch('a')], spec) == [] && StringText([Ch('a')], spec.(precision := -1)) == [Ch('a')]
  {
  }

  // ---------------------------------------------------------------- whole formats

  lemma {:induction false} PlainRunIs(f: seq<Byte>)
    requires forall i :: 0 <= i < |f| ==> f[i] != Ch('%')
    ensures PlainRun(f) == |f|
  {
    if f != [] { PlainRunIs(f[1..]); }
  }

  /** Text without directives is printed as it is. */
  lemma PlainText(f: seq<Byte>, spec: Spec, args: int -> Arg, a: int, n: int)
    requires GoodSpec(spec) && !Pending(spec) && forall i :: 0 <= i < |f| ==> f[i] != Ch('%')
    ensures Run(f, spec, args, a, n) == Output(f, [])
  {
    hide PlainRun, Printout, Directive, FromPrecision, FromQualifier;
    PlainRunIs(f);
    if f != [] {
      RunUnfold(f, spec, args, a, n);
      assert f[..|f|] == f && f[|f|..] == [];
    }
  }

  /** A format that is one integer directive prints one number. */
  lemma OneNumber(f: seq<Byte>, s: Spec, args: int -> Arg)
    requires f != [] && Decode(f, StartSpec) == Decoded(|f|, s) && Numeric(s.kind)
    ensures GoodSpec(s) && (s.base == 8 || s.base == 10 || s.base == 16)
    ensures Ideal(f, args).text == NumberText(Fetched(s.kind, s.flags.sign, args(0).num), s)
  {
    hide Decode, NumberText, Fetched, Run;
    DecodeProgress(f, StartSpec);
    RunUnfold(f, StartSpec, args, 0, 0);
    assert f[|f|..] == [];
    RunEnd(s, args, 1, |NumberText(Fetched(s.kind, s.flags.sign, args(0).num), s)|);
    var t := NumberText(Fetched(s.kind, s.flags.sign, args(0).num), s);
    assert t + [] == t;
  }

  /** The kinds that end in number(). */
  predicate Numeric(kind: Kind) {
    match kind
    case LongLong => true
    case ULong => true
    case Long => true
    case SizeT => true
    case PtrDiff => true
    case UByte => true
    case SByte => true
    case UShort => true
    case Short => true
    case UInt => true
    case Int => true
    case _ => false
  }
}
