/** Decoding one directive of a format string: lib/vsprintf.c, format_decode. A string is the bytes before its NUL. */
module FormatDecode {
  import opened Machine
  import opened Decimal
  import opened NumberFormat

  /** The character at the head, NUL at the end. */
  function Head(f: seq<Byte>): Byte { if f == [] then 0 else f[0] }

  function Ch(c: char): Byte
    requires c < 128 as char
  {
    c as int
  }

  predicate IsDigit(c: Byte) { Ch('0') <= c <= Ch('9') }

  predicate IsAlnum(c: Byte) {
    IsDigit(c) || Ch('A') <= c <= Ch('Z') || Ch('a') <= c <= Ch('z') || (192 <= c && c != 215 && c != 247)
  }

  const NoFlags: PrintFlags := PrintFlags(false, false, false, false, false, false, false)

  // ---------------------------------------------------------------- pieces of a directive

  /** How many characters come before the first '%'. */
  function PlainRun(f: seq<Byte>): (n: nat)
    ensures n <= |f|
  {
    if f == [] || f[0] == Ch('%') then 0 else 1 + PlainRun(f[1..])
  }

  predicate IsFlag(c: Byte) { c == Ch('-') || c == Ch('+') || c == Ch(' ') || c == Ch('#') || c == Ch('0') }

  function AddFlag(flags: PrintFlags, c: Byte): PrintFlags {
    if c == Ch('-') then flags.(left := true)
    else if c == Ch('+') then flags.(plus := true)
    else if c == Ch(' ') then flags.(space := true)
    else if c == Ch('#') then flags.(special := true)
    else flags.(zeropad := true)
  }

  function FlagRun(f: seq<Byte>): (n: nat)
    ensures n <= |f|
  {
    if f == [] || !IsFlag(f[0]) then 0 else 1 + FlagRun(f[1..])
  }

  function FlagsIn(f: seq<Byte>, flags: PrintFlags): PrintFlags {
    if f == [] then flags else FlagsIn(f[1..], AddFlag(flags, f[0]))
  }

  function DigitRun(f: seq<Byte>): (n: nat)
    ensures n <= |f|
  {
    if f == [] || !IsDigit(f[0]) then 0 else 1 + DigitRun(f[1..])
  }

  /** The value of a row of decimal digits. */
  function Decimals(f: seq<Byte>): int {
    if f == [] then 0 else 10 * Decimals(f[..|f| - 1]) + (f[|f| - 1] - Ch('0'))
  }

  predicate IsQualifier(c: Byte) { c == Ch('h') || Or20(c) == Ch('l') || Or20(c) == Ch('z') || c == Ch('t') }

  /** The length of a qualifier, and the qualifier with its doubled forms folded. */
  function QualifierRun(f: seq<Byte>): (n: nat)
    ensures n <= |f|
  {
    if !IsQualifier(Head(f)) || f == [] then 0
    else if (f[0] == Ch('l') || f[0] == Ch('h')) && Head(f[1..]) == f[0] then 2
    else 1
  }

  function Qualifier(f: seq<Byte>): Byte {
    if QualifierRun(f) == 0 then 255
    else if QualifierRun(f) == 1 then f[0]
    else if f[0] == Ch('l') then Ch('L') else Ch('H')
  }

  /** The integer kind a qualifier selects. */
  function IntegerKind(q: Byte, sign: bool): Kind {
    if q == Ch('L') then LongLong
    else if q == Ch('l') then (if sign then Long else ULong)
    else if Or20(q) == Ch('z') then SizeT
    else if q == Ch('t') then PtrDiff
    else if q == Ch('H') then (if sign then SByte else UByte)
    else if q == Ch('h') then (if sign then Short else UShort)
    else if sign then Int else UInt
  }

  /** What a decoding step yields: how many characters it consumed and the specification after it. */
  datatype Decoded = Decoded(read: nat, spec: Spec)

  function Skip(n: nat, d: Decoded): Decoded { d.(read := n + d.read) }

  /** The conversion character. */
  function Conversion(f: seq<Byte>, spec: Spec): (d: Decoded)
    ensures d.read <= 1 && (d.read == 0 <==> d.spec.kind == Ptr || d.spec.kind == Invalid) && d.read <= |f|
    ensures d.spec.kind != Plain && d.spec.kind != Width && d.spec.kind != Precision
    ensures d.spec.kind == Ptr ==> Head(f) == Ch('p')
    ensures d.spec.base == 8 || d.spec.base == 10 || d.spec.base == 16
    ensures GoodSpec(spec) ==> GoodSpec(d.spec)
  {
    var c, s := Head(f), spec.(base := 10);
    if c == Ch('c') then Decoded(1, s.(kind := Char))
    else if c == Ch('s') then Decoded(1, s.(kind := Str))
    else if c == Ch('p') then Decoded(0, s.(kind := Ptr))
    else if c == Ch('n') then Decoded(1, s.(kind := NrChars))
    else if c == Ch('%') then Decoded(1, s.(kind := PercentChar))
    else if c == Ch('o') then Decoded(1, s.(base := 8, kind := IntegerKind(s.qualifier, s.flags.sign)))
    else if c == Ch('x') then Decoded(1, s.(base := 16, flags := s.flags.(small := true), kind := IntegerKind(s.qualifier, s.flags.sign)))
    else if c == Ch('X') then Decoded(1, s.(base := 16, kind := IntegerKind(s.qualifier, s.flags.sign)))
    else if c == Ch('d') || c == Ch('i') then Decoded(1, s.(flags := s.flags.(sign := true), kind := IntegerKind(s.qualifier, true)))
    else if c == Ch('u') then Decoded(1, s.(kind := IntegerKind(s.qualifier, s.flags.sign)))
    else Decoded(0, s.(kind := Invalid))
  }

  /** From the qualifier on. */
  function FromQualifier(f: seq<Byte>, spec: Spec): Decoded {
    var n := QualifierRun(f);
    Skip(n, Conversion(f[n..], spec.(qualifier := Qualifier(f))))
  }

  /** From the precision on. */
  function FromPrecision(f: seq<Byte>, spec: Spec): Decoded {
    var s := spec.(precision := -1);
    if Head(f) != Ch('.') then FromQualifier(f, s)
    else
      var g := f[1..];
      if IsDigit(Head(g)) then
        var n := DigitRun(g);
        Skip(1 + n, FromQualifier(g[n..], s.(precision := Max(0, S16(Decimals(g[..n]))))))
      else if Head(g) == Ch('*') then Decoded(2, s.(kind := Precision))
      else Skip(1, FromQualifier(g, s))
  }

  /** From the '%' on. */
  function Directive(f: seq<Byte>, spec: Spec): Decoded
    requires f != []
  {
    var m := FlagRun(f[1..]);
    var g := f[1 + m..];
    var s := spec.(kind := Plain, flags := FlagsIn(f[1..1 + m], NoFlags), width := -1);
    if IsDigit(Head(g)) then
      var n := DigitRun(g);
      Skip(1 + m + n, FromPrecision(g[n..], s.(width := S16(Decimals(g[..n])))))
    else if Head(g) == Ch('*') then Decoded(2 + m, s.(kind := Width))
    else Skip(1 + m, FromPrecision(g, s))
  }

  /** format_decode: what the next call consumes and decodes. */
  function Decode(f: seq<Byte>, spec: Spec): Decoded {
    if spec.kind == Width then
      var s := if spec.width < 0 then spec.(width := S16(-spec.width), flags := spec.flags.(left := true)) else spec;
      FromPrecision(f, s.(kind := Plain))
    else if spec.kind == Precision then
      FromQualifier(f, spec.(precision := Max(0, spec.precision), kind := Plain))
    else
      var n := PlainRun(f);
      if n != 0 || f == [] then Decoded(n, spec.(kind := Plain)) else Directive(f, spec)
  }

  predicate Pending(spec: Spec) { spec.kind == Width || spec.kind == Precision }

  /** The step ends inside the format, at the 'p' of a pointer directive, and has decoded a base for a number. */
  ghost predicate Stops(f: seq<Byte>, d: Decoded) {
    && d.read <= |f| && GoodSpec(d.spec)
    && (d.spec.kind == Ptr ==> Head(f[d.read..]) == Ch('p'))
    && (!Pending(d.spec) && d.spec.kind != Plain ==> d.spec.base == 8 || d.spec.base == 10 || d.spec.base == 16)
  }

  lemma SkipStops(f: seq<Byte>, n: nat, d: Decoded)
    requires n <= |f| && Stops(f[n..], d)
    ensures Stops(f, Skip(n, d))
  {
    assert f[n..][d.read..] == f[n + d.read..];
  }

  lemma QualifierStops(f: seq<Byte>, spec: Spec)
    requires GoodSpec(spec)
    ensures Stops(f, FromQualifier(f, spec)) && !Pending(FromQualifier(f, spec).spec) && FromQualifier(f, spec).spec.kind != Plain
  {
  }

  lemma PrecisionStops(f: seq<Byte>, spec: Spec)
    requires GoodSpec(spec)
    ensures Stops(f, FromPrecision(f, spec)) && FromPrecision(f, spec).spec.kind != Plain
    ensures FromPrecision(f, spec).read == 0 ==> !Pending(FromPrecision(f, spec).spec)
  {
    hide FromQualifier, Stops, Decimals, S16;
    var s := spec.(precision := -1);
    QualifierStops(f, s);
    if f != [] && f[0] == Ch('.') {
      var g := f[1..];
      QualifierStops(g, s);
      SkipStops(f, 1, FromQualifier(g, s));
      var n := DigitRun(g);
      var s' := s.(precision := Max(0, S16(Decimals(g[..n]))));
      QualifierStops(g[n..], s');
      assert g[n..] == f[1 + n..];
      SkipStops(f, 1 + n, FromQualifier(g[n..], s'));
      if Head(g) == Ch('*') { StarStops(f, 2, s.(kind := Precision)); }
    }
  }

  lemma StarStops(f: seq<Byte>, n: nat, spec: Spec)
    requires n <= |f| && GoodSpec(spec) && Pending(spec)
    ensures Stops(f, Decoded(n, spec))
  {
  }

  lemma DirectiveStops(f: seq<Byte>, spec: Spec)
    requires GoodSpec(spec) && f != []
    ensures Stops(f, Directive(f, spec)) && Directive(f, spec).spec.kind != Plain && 1 <= Directive(f, spec).read
  {
    hide FromPrecision, Stops, Decimals, S16;
    var m := FlagRun(f[1..]);
    var g := f[1 + m..];
    var s := spec.(kind := Plain, flags := FlagsIn(f[1..1 + m], NoFlags), width := -1);
    PrecisionStops(g, s);
    SkipStops(f, 1 + m, FromPrecision(g, s));
    var n := DigitRun(g);
    var s' := s.(width := S16(Decimals(g[..n])));
    PrecisionStops(g[n..], s');
    assert g[n..] == f[1 + m + n..];
    SkipStops(f, 1 + m + n, FromPrecision(g[n..], s'));
    if Head(g) == Ch('*') { StarStops(f, 2 + m, s.(kind := Width)); }
  }

  /** A call consumes something, or it takes up a width or precision that was pending and leaves none. */
  lemma DecodeProgress(f: seq<Byte>, spec: Spec)
    requires GoodSpec(spec)
    ensures var d := Decode(f, spec);
            && Stops(f, d) && (f != [] && d.read == 0 ==> Pending(spec) && !Pending(d.spec)) && (d.spec.kind == Plain ==> !Pending(spec))
  {
    hide FromPrecision, FromQualifier, Directive, PlainRun;
    if spec.kind == Width {
      var s := if spec.width < 0 then spec.(width := S16(-spec.width), flags := spec.flags.(left := true)) else spec;
      PrecisionStops(f, s.(kind := Plain));
    } else if spec.kind == Precision {
      QualifierStops(f, spec.(precision := Max(0, spec.precision), kind := Plain));
    } else if f != [] {
      DirectiveStops(f, spec);
    }
  }

  // ---------------------------------------------------------------- format_decode

  /** The character a format pointer points at. */
  function CharAt(fmt: seq<Byte>, i: int): (c: Byte)
    requires 0 <= i <= |fmt|
    ensures c == Head(fmt[i..])
  {
    if i < |fmt| then fmt[i] else 0
  }

  lemma Tail(fmt: seq<Byte>, i: int)
    requires 0 <= i < |fmt|
    ensures fmt[i..] != [] && fmt[i..][0] == fmt[i] && fmt[i..][1..] == fmt[i + 1..]
  {
  }

  lemma NoDecimals()
    ensures Decimals([]) == 0
  {
  }

  lemma DecimalsSnoc(f: seq<Byte>, c: Byte)
    ensures Decimals(f + [c]) == 10 * Decimals(f) + (c - Ch('0'))
  {
    assert (f + [c])[..|f|] == f;
  }

  lemma SubSlice(fmt: seq<Byte>, start: int, a: int, b: int)
    requires 0 <= start && 0 <= a <= b && start + b <= |fmt|
    ensures fmt[start..][a..b] == fmt[start + a..start + b] && fmt[start..][b..] == fmt[start + b..]
  {
  }

  /** skip_atoi. */
  method SkipAtoi(fmt: seq<Byte>, start: int) returns (i: int, v: int)
    requires 0 <= start <= |fmt|
    ensures i == start + DigitRun(fmt[start..]) && v == Decimals(fmt[start..i])
  {
    hide Decimals;
    i, v := start, 0;
    NoDecimals();
    assert fmt[start..start] == [];
    while i < |fmt| && IsDigit(fmt[i])
      invariant start <= i <= |fmt| && i + DigitRun(fmt[i..]) == start + DigitRun(fmt[start..]) && v == Decimals(fmt[start..i])
    {
      Tail(fmt, i);
      DecimalsSnoc(fmt[start..i], fmt[i]);
      assert fmt[start..i + 1] == fmt[start..i] + [fmt[i]];
      v := v * 10 + fmt[i] - Ch('0');
      i := i + 1;
    }
    if i < |fmt| { Tail(fmt, i); }
  }

  /** The scan for the next '%'. */
  method SkipPlain(fmt: seq<Byte>, start: int) returns (i: int)
    requires 0 <= start <= |fmt|
    ensures i == start + PlainRun(fmt[start..])
  {
    i := start;
    while i < |fmt| && fmt[i] != Ch('%')
      invariant start <= i <= |fmt| && i + PlainRun(fmt[i..]) == start + PlainRun(fmt[start..])
    {
      Tail(fmt, i);
      i := i + 1;
    }
    if i < |fmt| { Tail(fmt, i); }
  }

  /** The loop over flag characters. */
  method ScanFlags(fmt: seq<Byte>, start: int) returns (i: int, flags: PrintFlags)
    requires 0 <= start <= |fmt|
    ensures i == start + FlagRun(fmt[start..]) && flags == FlagsIn(fmt[start..i], NoFlags)
  {
    i, flags := start, NoFlags;
    while i < |fmt| && IsFlag(fmt[i])
      invariant start <= i <= |fmt| && i + FlagRun(fmt[i..]) == start + FlagRun(fmt[start..])
      invariant flags == FlagsIn(fmt[start..i], NoFlags)
    {
      Tail(fmt, i);
      FlagsSnoc(fmt[start..i], fmt[i], NoFlags);
      assert fmt[start..i] + [fmt[i]] == fmt[start..i + 1];
      if fmt[i] == Ch('-') { flags := flags.(left := true); }
      else if fmt[i] == Ch('+') { flags := flags.(plus := true); }
      else if fmt[i] == Ch(' ') { flags := flags.(space := true); }
      else if fmt[i] == Ch('#') { flags := flags.(special := true); }
      else { flags := flags.(zeropad := true); }
      i := i + 1;
    }
    if i < |fmt| { Tail(fmt, i); }
  }

  lemma {:induction false} FlagsSnoc(f: seq<Byte>, c: Byte, flags: PrintFlags)
    ensures FlagsIn(f + [c], flags) == AddFlag(FlagsIn(f, flags), c)
  {
    if f != [] {
      FlagsSnoc(f[1..], c, AddFlag(flags, f[0]));
      assert (f + [c])[1..] == f[1..] + [c];
    }
  }

  /** Each flag is set if and only if its character stands among the flags, in whatever order and however often. */
  lemma {:induction false} FlagsMeaning(f: seq<Byte>)
    requires forall i :: 0 <= i < |f| ==> IsFlag(f[i])
    ensures FlagsIn(f, NoFlags) ==
            PrintFlags(Ch('0') in f, false, Ch('+') in f, Ch(' ') in f, Ch('-') in f, false, Ch('#') in f)
  {
    if f != [] {
      var g, c := f[..|f| - 1], f[|f| - 1];
      FlagsMeaning(g);
      FlagsSnoc(g, c, NoFlags);
      assert f == g + [c];
    }
  }

  /** From the label for the qualifier on. */
  method DecodeQualifier(fmt: seq<Byte>, start: int, spec: Spec) returns (i: int, s: Spec)
    requires 0 <= start <= |fmt|
    ensures var d := FromQualifier(fmt[start..], spec);
            i == start + d.read && s == d.spec
  {
    hide Conversion;
    i, s := start, spec.(qualifier := 255);
    if i < |fmt| {
      Tail(fmt, i);
      if IsQualifier(fmt[i]) {
        s := s.(qualifier := fmt[i]);
        i := i + 1;
        if CharAt(fmt, i) == s.qualifier {
          if s.qualifier == Ch('l') {
            s, i := s.(qualifier := Ch('L')), i + 1;
          } else if s.qualifier == Ch('h') {
            s, i := s.(qualifier := Ch('H')), i + 1;
          }
        }
      }
    }
    assert i == start + QualifierRun(fmt[start..]) && s.qualifier == Qualifier(fmt[start..]);
    assert fmt[start..][i - start..] == fmt[i..];
    var d := Conversion(fmt[i..], s);
    i, s := i + d.read, d.spec;
  }

  /** From the label for the precision on. */
  method DecodePrecision(fmt: seq<Byte>, start: int, spec: Spec) returns (i: int, s: Spec)
    requires 0 <= start <= |fmt|
    ensures var d := FromPrecision(fmt[start..], spec);
            i == start + d.read && s == d.spec
  {
    hide FromQualifier, Decimals, S16;
    i, s := start, spec.(precision := -1);
    if CharAt(fmt, i) == Ch('.') {
      Tail(fmt, i);
      i := i + 1;
      if IsDigit(CharAt(fmt, i)) {
        var v;
        i, v := SkipAtoi(fmt, i);
        assert fmt[start..][1..][..i - start - 1] == fmt[start + 1..i] && fmt[start..][1..][i - start - 1..] == fmt[i..];
        s := s.(precision := S16(v));
        if s.precision < 0 { s := s.(precision := 0); }
      } else if CharAt(fmt, i) == Ch('*') {
        return i + 1, s.(kind := Precision);
      }
    }
    i, s := DecodeQualifier(fmt, i, s);
  }

  /** The directive behind a '%'. */
  method DecodeDirective(fmt: seq<Byte>, start: int, spec: Spec) returns (i: int, s: Spec)
    requires 0 <= start < |fmt|
    ensures var d := Directive(fmt[start..], spec);
            i == start + d.read && s == d.spec
  {
    hide FromPrecision, Decimals, S16, FlagsIn, FlagRun, DigitRun;
    s := spec.(kind := Plain);
    var flags;
    i, flags := ScanFlags(fmt, start + 1);
    ghost var m := i - start - 1;
    SubSlice(fmt, start, 1, 1 + m);
    SubSlice(fmt, start, 0, 1);
    s := s.(flags := flags, width := -1);
    if IsDigit(CharAt(fmt, i)) {
      var v;
      ghost var from := i;
      i, v := SkipAtoi(fmt, i);
      SubSlice(fmt, from, 0, i - from);
      s := s.(width := S16(v));
    } else if CharAt(fmt, i) == Ch('*') {
      return i + 1, s.(kind := Width);
    }
    i, s := DecodePrecision(fmt, i, s);
  }

  /** format_decode. */
  method DecodeNext(fmt: seq<Byte>, start: int, spec: Spec) returns (i: int, s: Spec)
    requires 0 <= start <= |fmt|
    ensures var d := Decode(fmt[start..], spec);
            i == start + d.read && s == d.spec
  {
    hide FromQualifier, FromPrecision, Decimals, S16;
    s := spec;
    if s.kind == Width {
      if s.width < 0 { s := s.(width := S16(-s.width), flags := s.flags.(left := true)); }
      i, s := DecodePrecision(fmt, start, s.(kind := Plain));
      return;
    }
    if s.kind == Precision {
      if s.precision < 0 { s := s.(precision := 0); }
      i, s := DecodeQualifier(fmt, start, s.(kind := Plain));
      return;
    }
    s := s.(kind := Plain);
    i := SkipPlain(fmt, start);
    if i != start || i == |fmt| { return; }
    i, s := DecodeDirective(fmt, start, s);
  }
}
