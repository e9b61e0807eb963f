/**
 * Which value integer and pointer directives print: their argument at the type ISO C99, section 7.19.6.1, gives the
 * length modifier.
 */
module Directives {
  import opened Machine
  import opened Decimal
  import opened NumberFormat
  import opened FormatDecode
  import opened Strtox
  import opened StandardField
  import opened Vsnprintf

  /** A length modifier. */
  datatype Length = Default | HH | H | L | LL | Z | T

  /** An integer conversion. */
  datatype Conv = D | I | U | O | X | BigX

  function Spell(len: Length): seq<Byte> {
    match len
    case Default => []
    case HH => [Ch('h'), Ch('h')]
    case H => [Ch('h')]
    case L => [Ch('l')]
    case LL => [Ch('l'), Ch('l')]
    case Z => [Ch('z')]
    case T => [Ch('t')]
  }

  function Letter(c: Conv): Byte {
    match c
    case D => Ch('d')
    case I => Ch('i')
    case U => Ch('u')
    case O => Ch('o')
    case X => Ch('x')
    case BigX => Ch('X')
  }

  /** Two to the number of bits of the argument's type, int, long, size_t and ptrdiff_t having 32. */
  function Modulus(len: Length): int {
    match len
    case HH => 0x100
    case H => 0x1_0000
    case LL => W64
    case _ => W32
  }

  predicate IsSigned(c: Conv) { c.D? || c.I? }

  function BaseOf(c: Conv): int { if c.O? then 8 else if c.X? || c.BigX? then 16 else 10 }

  /** The value an argument has at the type the directive names. */
  function ValueAt(len: Length, c: Conv, num: int): int { if IsSigned(c) then Signed(num, Modulus(len)) else num % Modulus(len) }

  /** A value as written: a minus sign if it is negative, then its digits in the base and case of the conversion. */
  function Written(c: Conv, v: int): seq<Byte> {
    if v < 0 then [Ch('-')] + Numeral(BaseOf(c), -v, c.X?) else Numeral(BaseOf(c), v, c.X?)
  }

  /** A precision as written: none, a period alone, or a period and a number. */
  datatype Precis = NoPrec | Dot | Prec(p: nat)

  function PrecText(prec: Precis): seq<Byte> {
    match prec
    case NoPrec => []
    case Dot => [Ch('.')]
    case Prec(p) => [Ch('.')] + Numeral(10, p, false)
  }

  /** A directive: flags, width, precision, length modifier and conversion. */
  function FullFormat(flags: seq<Byte>, width: seq<Byte>, prec: Precis, len: Length, c: Conv): seq<Byte> {
    Percent(flags, width + (PrecText(prec) + (Spell(len) + [Letter(c)])))
  }

  predicate Flags(flags: seq<Byte>) { forall i :: 0 <= i < |flags| ==> IsFlag(flags[i]) }

  /** A directive of just a length modifier and a conversion. */
  function Format(len: Length, c: Conv): seq<Byte> { FullFormat([], [], NoPrec, len, c) }

  // ---------------------------------------------------------------- decoding

  function KindOf(len: Length, sign: bool): Kind {
    match len
    case Default => if sign then Int else UInt
    case HH => if sign then SByte else UByte
    case H => if sign then Short else UShort
    case L => if sign then Long else ULong
    case LL => LongLong
    case Z => SizeT
    case T => PtrDiff
  }

  /** What a directive is decoded to; a period alone leaves the precision out. */
  function FullSpec(flags: seq<Byte>, width: seq<Byte>, prec: Precis, len: Length, c: Conv): Spec {
    Spec(KindOf(len, IsSigned(c)), FlagsIn(flags, NoFlags).(sign := IsSigned(c), small := c.X?), BaseOf(c),
         Qualifier(Spell(len) + [Letter(c)]), WidthOf(width), if prec.Prec? then S16(prec.p) else -1)
  }

  function DirectiveSpec(len: Length, c: Conv): Spec { FullSpec([], [], NoPrec, len, c) }

  /** The part of a directive behind its precision, followed by g. */
  function Ending(len: Length, c: Conv, g: seq<Byte>): seq<Byte> { Spell(len) + [Letter(c)] + g }

  /** Neither a flag, a width nor a precision begins here. */
  predicate Past(h: seq<Byte>) { !IsFlag(Head(h)) && !IsDigit(Head(h)) && Head(h) != Ch('*') && Head(h) != Ch('.') }

  lemma QualifierIs(len: Length, c: Conv, g: seq<Byte>)
    ensures var f := Ending(len, c, g);
            && QualifierRun(f) == |Spell(len)| && f[|Spell(len)|..] == [Letter(c)] + g && Past(f)
            && Qualifier(f) == Qualifier(Spell(len) + [Letter(c)])
            && IntegerKind(Qualifier(f), IsSigned(c)) == KindOf(len, IsSigned(c))
  {
    var f, e := Ending(len, c, g), Spell(len) + [Letter(c)];
    assert |e| >= 2 ==> f[1..][0] == e[1] && e[1..][0] == e[1];
    assert f[|Spell(len)|..] == [Letter(c)] + g;
  }

  lemma ConversionIs(c: Conv, g: seq<Byte>, spec: Spec)
    requires !spec.flags.sign && !spec.flags.small
    ensures Conversion([Letter(c)] + g, spec) ==
            Decoded(1, spec.(base := BaseOf(c), flags := spec.flags.(sign := IsSigned(c), small := c.X?), kind := IntegerKind(spec.qualifier, IsSigned(c))))
  {
    hide IntegerKind;
    assert Head([Letter(c)] + g) == Letter(c);
  }

  lemma FromPrecisionIs(prec: Precis, h: seq<Byte>, s: Spec)
    requires (prec.Prec? ==> prec.p < 0x8000) && Past(h)
    ensures FromPrecision(PrecText(prec) + h, s) ==
            Skip(|PrecText(prec)|, FromQualifier(h, s.(precision := if prec.Prec? then prec.p else -1)))
  {
    hide FromQualifier, Numeral;
    match prec
    case NoPrec => assert [] + h == h;
    case Dot => assert ([Ch('.')] + h)[1..] == h;
    case Prec(p) =>
      LiteralPrecision(p, h, s);
      assert [Ch('.')] + Numeral(10, p, false) + h == [Ch('.')] + (Numeral(10, p, false) + h);
  }

  lemma FromQualifierIs(len: Length, c: Conv, g: seq<Byte>, s: Spec)
    requires !s.flags.sign && !s.flags.small
    ensures var e := Spell(len) + [Letter(c)];
            FromQualifier(Ending(len, c, g), s) ==
            Decoded(|e|, s.(base := BaseOf(c), flags := s.flags.(sign := IsSigned(c), small := c.X?), kind := KindOf(len, IsSigned(c)), qualifier := Qualifier(e)))
  {
    hide Conversion, QualifierRun, Qualifier, IntegerKind, Ending;
    var e := Spell(len) + [Letter(c)];
    QualifierIs(len, c, g);
    ConversionIs(c, g, s.(qualifier := Qualifier(e)));
  }

  /** Flags, width and precision, and then h. */
  function Begun(flags: seq<Byte>, width: seq<Byte>, prec: Precis, h: seq<Byte>): seq<Byte> {
    Percent(flags, width + (PrecText(prec) + h))
  }

  /** The specification once they are read. */
  function BegunSpec(flags: seq<Byte>, width: seq<Byte>, prec: Precis, spec: Spec): Spec {
    Flagged(flags, spec, WidthOf(width)).(precision := if prec.Prec? then S16(prec.p) else -1)
  }

  lemma BegunDecodes(flags: seq<Byte>, width: seq<Byte>, prec: Precis, h: seq<Byte>, spec: Spec)
    requires !Pending(spec) && Flags(flags) && IsWidth(width) && (prec.Prec? ==> prec.p < 0x8000) && Past(h)
    ensures Decode(Begun(flags, width, prec, h), spec) ==
            Skip(1 + |flags| + |width| + |PrecText(prec)|, FromQualifier(h, BegunSpec(flags, width, prec, spec)))
  {
    hide FromPrecision, FromQualifier, WidthOf, Decode, Numeral, FlagsIn, IsWidth;
    var rest := PrecText(prec) + h;
    assert Head(rest) == if prec.NoPrec? then Head(h) else Ch('.');
    WrittenWidth(flags, width, rest, spec);
    FromPrecisionIs(prec, h, Flagged(flags, spec, WidthOf(width)));
  }

  lemma BegunWith(flags: seq<Byte>, width: seq<Byte>, prec: Precis, h: seq<Byte>, g: seq<Byte>)
    ensures Begun(flags, width, prec, h) + g == Begun(flags, width, prec, h + g)
    ensures |Begun(flags, width, prec, h)| == 1 + |flags| + |width| + |PrecText(prec)| + |h|
  {
    hide PrecText;
    var x := PrecText(prec);
    assert width + (x + h) + g == width + (x + (h + g));
    assert Percent(flags, width + (x + h)) + g == Percent(flags, width + (x + h) + g);
  }

  /** A directive is decoded to the end of its conversion, whatever follows it. */
  lemma DecodeIs(flags: seq<Byte>, width: seq<Byte>, prec: Precis, len: Length, c: Conv, g: seq<Byte>, spec: Spec)
    requires !Pending(spec) && Flags(flags) && IsWidth(width) && (prec.Prec? ==> prec.p < 0x8000)
    ensures var f := FullFormat(flags, width, prec, len, c);
            Decode(f + g, spec) == Decoded(|f|, FullSpec(flags, width, prec, len, c))
  {
    hide FromPrecision, FromQualifier, QualifierRun, Qualifier, IntegerKind, WidthOf, Decode, Numeral, FlagsIn, IsWidth, Spell, KindOf, Percent,
      PrecText;
    var e := Spell(len) + [Letter(c)];
    QualifierIs(len, c, g);
    BegunWith(flags, width, prec, e, g);
    BegunDecodes(flags, width, prec, Ending(len, c, g), spec);
    FlagsMeaning(flags);
    FromQualifierIs(len, c, g, BegunSpec(flags, width, prec, spec));
  }

  // ---------------------------------------------------------------- values

  /** The one combination that is fetched with the wrong sign: an unsigned conversion of a ptrdiff_t with its top bit set. */
  predicate Misread(len: Length, c: Conv, num: int) { len.T? && !IsSigned(c) && num % W32 >= W32 / 2 }

  function FetchedBy(len: Length, c: Conv, num: int): (v: int)
    ensures 0 <= v < W64
  {
    Fetched(KindOf(len, IsSigned(c)), IsSigned(c), num)
  }

  /** What is fetched stands for the value at the argument's type, unless it is misread. */
  lemma FetchedIs(len: Length, c: Conv, num: int)
    ensures var v, w := ValueAt(len, c, num), FetchedBy(len, c, num);
            && -W64 / 2 <= v < W64 && (v < 0 ==> IsSigned(c)) && (IsSigned(c) ==> v < W64 / 2)
            && (if Misread(len, c, num) then w == v + W64 - W32 else w == if v < 0 then v + W64 else v)
  {
    hide Fetched, Signed;
    SignedFacts(num, Modulus(len));
    SignedFacts(num, W32);
    if IsSigned(c) { FetchedSigned(len, num); } else { FetchedUnsigned(len, num); }
  }

  lemma FetchedSigned(len: Length, num: int)
    ensures Fetched(KindOf(len, true), true, num) == if len.LL? then num % W64 else Signed(num, Modulus(len)) % W64
  {
    hide Signed;
  }

  lemma FetchedUnsigned(len: Length, num: int)
    ensures Fetched(KindOf(len, false), false, num) == if len.T? then Signed(num, W32) % W64 else num % Modulus(len)
  {
    hide Signed;
  }

  lemma SignedFacts(x: int, m: int)
    requires m == 0x100 || m == 0x1_0000 || m == W32 || m == W64
    ensures var v := Signed(x, m);
            && 0 <= x % m < m && -m / 2 <= v < m / 2 && v == (if x % m < m / 2 then x % m else x % m - m) && v % W64 == if v < 0 then v + W64 else v
  {
  }

  /** What number() is given by a bare directive, as text. */
  lemma BareText(spec: Spec, w: int)
    requires 0 <= w < W64 && spec.width == -1 && spec.precision == -1 && (spec.base == 8 || spec.base == 10 || spec.base == 16)
    requires !spec.flags.plus && !spec.flags.space && !spec.flags.special && !spec.flags.zeropad && !spec.flags.left
    ensures NumberText(w, spec) ==
            if Negative(w, spec.flags) then [Ch('-')] + Numeral(spec.base, W64 - w, spec.flags.small) else Numeral(spec.base, w, spec.flags.small)
  {
    hide Numeral, NumberText, NoSpaces;
    NarrowNoSpaces(w, spec);
    TextShape(w, spec);
    var d := Numeral(spec.base, Magnitude(w, spec.flags), spec.flags.small);
    assert Padded(0, spec.base, Magnitude(w, spec.flags), spec.flags.small) == d;
    assert [] + d == d;
  }

  lemma DirectivePrints(flags: seq<Byte>, width: seq<Byte>, prec: Precis, len: Length, c: Conv, args: int -> Arg)
    requires Flags(flags) && IsWidth(width) && (prec.Prec? ==> prec.p < 0x8000)
    ensures GoodSpec(FullSpec(flags, width, prec, len, c))
    ensures Ideal(FullFormat(flags, width, prec, len, c), args).text ==
            NumberText(FetchedBy(len, c, args(0).num), FullSpec(flags, width, prec, len, c))
  {
    hide Decode, NumberText, Fetched, Ideal, FlagsIn, WidthOf, IsWidth, Qualifier, Numeral;
    DecodeIs(flags, width, prec, len, c, [], StartSpec);
    assert FullFormat(flags, width, prec, len, c) + [] == FullFormat(flags, width, prec, len, c);
    OneNumber(FullFormat(flags, width, prec, len, c), FullSpec(flags, width, prec, len, c), args);
  }

  /**
   * A directive of just a length modifier and a conversion prints its argument at the type the modifier names, in the base,
   * case and sign of the conversion, if and only if it is not an unsigned conversion of a negative ptrdiff_t.
   */
  lemma BareDirectiveIff(len: Length, c: Conv, args: int -> Arg)
    ensures Ideal(Format(len, c), args).text == Written(c, ValueAt(len, c, args(0).num)) <==> !Misread(len, c, args(0).num)
  {
    hide Numeral, NumberText, Fetched, Signed, FetchedBy, Qualifier, Ideal;
    var num, spec := args(0).num, DirectiveSpec(len, c);
    var v, w := ValueAt(len, c, num), FetchedBy(len, c, num);
    DirectivePrints([], [], NoPrec, len, c, args);
    FetchedIs(len, c, num);
    hide ValueAt;
    BareText(spec, w);
    if Misread(len, c, num) {
      NumeralRoundTrip(BaseOf(c), w, c.X?);
      NumeralRoundTrip(BaseOf(c), v, c.X?);
    }
  }

  /** "%tu" of -1 prints 2^64 - 1. */
  lemma PtrDiffMisread(args: int -> Arg)
    requires args(0).num == -1
    ensures Misread(T, U, -1) && ValueAt(T, U, -1) == W32 - 1 && Ideal(Format(T, U), args).text == Numeral(10, W64 - 1, false)
  {
    hide Numeral, NumberText, Ideal, Qualifier;
    DirectivePrints([], [], NoPrec, T, U, args);
    FetchedIs(T, U, -1);
    BareText(DirectiveSpec(T, U), W64 - 1);
  }

  // ---------------------------------------------------------------- whole directives

  /** What ISO C99 makes of a directive: a period alone is precision zero. */
  function StandardSpec(flags: seq<Byte>, width: seq<Byte>, prec: Precis, len: Length, c: Conv): Spec {
    var spec := FullSpec(flags, width, prec, len, c);
    if prec.Dot? then spec.(precision := 0) else spec
  }

  /** Characters in front of a number without sign. */
  predicate PadOnly(x: seq<Byte>) { forall i :: 0 <= i < |x| ==> x[i] in [SPACE, ZERO, Ch('x'), Ch('X')] }

  /** Two fields with different numerals differ. */
  lemma TwoNumerals(x: seq<Byte>, a: seq<Byte>, c: int, y: seq<Byte>, b: seq<Byte>, d: int)
    requires PadOnly(x) && PadOnly(y) && a != [] && b != [] && 0 <= c && 0 <= d
    requires a[0] !in [SPACE, ZERO, Ch('x'), Ch('X')] && b[0] !in [SPACE, ZERO, Ch('x'), Ch('X')]
    requires a[|a| - 1] != SPACE && b[|b| - 1] != SPACE
    requires x + a + Rep(SPACE, c) == y + b + Rep(SPACE, d)
    ensures a == b
  {
    var s, t := x + a + Rep(SPACE, c), y + b + Rep(SPACE, d);
    var p, q := |x| + |a|, |y| + |b|;
    assert s[p - 1] == a[|a| - 1] && t[q - 1] == b[|b| - 1];
    assert (forall k :: p <= k < |s| ==> s[k] == SPACE) && forall k :: q <= k < |t| ==> t[k] == SPACE;
    assert p == q;
    assert s[|x|] == a[0] && t[|y|] == b[0];
    assert (forall k :: 0 <= k < |x| ==> s[k] == x[k]) && forall k :: 0 <= k < |y| ==> t[k] == y[k];
    assert |x| == |y|;
    assert s[|x|..p] == a && t[|y|..q] == b;
  }

  lemma NumeralEnds(base: int, m: int, small: bool)
    requires 2 <= base <= 16 && 1 <= m
    ensures var d := Numeral(base, m, small);
            d != [] && d[0] !in [SPACE, ZERO, Ch('x'), Ch('X')] && d[|d| - 1] != SPACE
  {
    hide Numeral;
    NumeralHead(base, m, small);
    NumeralRoundTrip(base, m, small);
  }

  lemma PrinterShape(num: int, spec: Spec) returns (x: seq<Byte>, c: int)
    requires 2 <= spec.base <= 16 && 0 <= num < W64 && !spec.flags.sign
    ensures PadOnly(x) && 0 <= c && NumberText(num, spec) == x + Numeral(spec.base, num, spec.flags.small) + Rep(SPACE, c)
  {
    hide Numeral, Digits, Paddings;
    var pads := Paddings(Slack(num, spec), spec.flags);
    c := Max(0, pads.2);
    x := Rep(SPACE, pads.0) + SignText(num, spec.flags) + PrefixText(num, spec.base, spec.flags) + Rep(PadChar(spec.flags), pads.1)
         + Rep(ZERO, Max(|Digits(spec.base, num)|, spec.precision) - |Digits(spec.base, num)|);
  }

  lemma StandardShape(num: int, spec: Spec) returns (x: seq<Byte>, c: int)
    requires 2 <= spec.base <= 16 && 0 < num < W64 && !spec.flags.sign
    ensures PadOnly(x) && 0 <= c && StandardText(num, spec) == x + Numeral(spec.base, num, spec.flags.small) + Rep(SPACE, c)
  {
    hide Numeral, Digits, StandardDigits, StandardPrefix, StandardText, PadOnly;
    var n := Numeral(spec.base, num, spec.flags.small);
    var z := StandardZeros(num, spec);
    var head := StandardPrefix(num, spec);
    StandardLaid(num, spec);
    assert [] + head == head;
    x, c := LaidShape(head, z, n, spec.width - |head| - |z + n|, spec.flags.left, spec.flags.zeropad && spec.precision < 0);
  }

  lemma StandardZeros(num: int, spec: Spec) returns (z: seq<Byte>)
    requires 2 <= spec.base <= 16 && 0 < num < W64
    ensures PadOnly(z) && StandardDigits(num, spec) == z + Numeral(spec.base, num, spec.flags.small) && PadOnly(StandardPrefix(num, spec))
  {
    hide Numeral, Digits;
    var n := Numeral(spec.base, num, spec.flags.small);
    var plain := Rep(ZERO, spec.precision - |Digits(spec.base, num)|);
    z := if spec.flags.special && spec.base == 8 && (plain + n == [] || (plain + n)[0] != ZERO) then [ZERO] + plain else plain;
    assert [ZERO] + (plain + n) == [ZERO] + plain + n;
  }

  lemma LaidShape(h: seq<Byte>, z: seq<Byte>, n: seq<Byte>, f: int, left: bool, zeros: bool) returns (x: seq<Byte>, c: int)
    requires PadOnly(h) && PadOnly(z)
    ensures PadOnly(x) && 0 <= c && Laid(h, z + n, f, left, zeros) == x + n + Rep(SPACE, c)
  {
    c := if left then Max(0, f) else 0;
    x := if left then h + z else if zeros then h + Rep(ZERO, f) + z else Rep(SPACE, f) + h + z;
    assert Rep(SPACE, 0) == [];
    assert left ==> h + (z + n) == x + n;
    assert !left ==> Laid(h, z + n, f, left, zeros) == x + n + [];
  }

  /** What is misread prints another number. */
  lemma OtherNumber(v: int, w: int, spec: Spec)
    requires (spec.base == 8 || spec.base == 10 || spec.base == 16) && 0 < v < w < W64 && !spec.flags.sign
    ensures NumberText(w, spec) != StandardText(v, spec)
  {
    hide Numeral, NumberText, StandardText, PadOnly;
    var x, c := PrinterShape(w, spec);
    var y, d := StandardShape(v, spec);
    NumeralEnds(spec.base, w, spec.flags.small);
    NumeralEnds(spec.base, v, spec.flags.small);
    NumeralRoundTrip(spec.base, v, spec.flags.small);
    NumeralRoundTrip(spec.base, w, spec.flags.small);
    if NumberText(w, spec) == StandardText(v, spec) {
      TwoNumerals(x, Numeral(spec.base, w, spec.flags.small), c, y, Numeral(spec.base, v, spec.flags.small), d);
    }
  }

  /**
   * Every integer directive, with any flags, width, precision, length modifier and conversion, prints the field ISO C99
   * prescribes for its argument at the type the modifier names, if and only if it is not an unsigned conversion of a
   * negative ptrdiff_t, the width counter does not underflow and it is none of the cases where number() departs from the
   * standard.
   */
  lemma IntegerDirectiveIff(flags: seq<Byte>, width: seq<Byte>, prec: Precis, len: Length, c: Conv, args: int -> Arg)
    requires Flags(flags) && IsWidth(width) && Decimals(width) < 0x8000 && (prec.Prec? ==> prec.p < 0x8000)
    ensures var v, spec := ValueAt(len, c, args(0).num) % W64, StandardSpec(flags, width, prec, len, c);
            Ideal(FullFormat(flags, width, prec, len, c), args).text == StandardText(v, spec) <==>
            !Misread(len, c, args(0).num) && NoUnderflow(Slack(v, spec), spec.flags) && Agreeing(v, spec)
  {
    hide Numeral, NumberText, StandardText, FetchedBy, Qualifier, Ideal, Agreeing, NoUnderflow, WidthOf, FlagsIn, IsWidth, Decimals, Slack;
    var num, spec := args(0).num, StandardSpec(flags, width, prec, len, c);
    var v, w := ValueAt(len, c, num) % W64, FetchedBy(len, c, num);
    DirectivePrints(flags, width, prec, len, c, args);
    FetchedIs(len, c, num);
    if prec.Dot? { NegativePrecisionOfNumber(w, FullSpec(flags, width, prec, len, c)); }
    hide ValueAt, StandardSpec;
    if Misread(len, c, num) {
      OtherNumber(v, w, spec);
    } else {
      StandardIff(w, spec);
    }
  }

  /** The modifier 'j' of ISO C99 is not known: "%jd" is printed as it is, and no argument is used. */
  lemma UnknownModifier(args: int -> Arg)
    ensures Ideal([Ch('%'), Ch('j'), Ch('d')], args).text == [Ch('%'), Ch('j'), Ch('d')]
  {
    hide Run, Decode, OneStep;
    var f, g := [Ch('%'), Ch('j'), Ch('d')], [Ch('j'), Ch('d')];
    var s := UnknownStep(f, args(0));
    RunUnfold(f, StartSpec, args, 0, 0);
    PlainText(g, s, args, 0, 1);
    assert f[1..] == g && [Ch('%')] + g == f;
  }

  lemma UnknownStep(f: seq<Byte>, arg: Arg) returns (s: Spec)
    requires f == [Ch('%'), Ch('j'), Ch('d')]
    ensures GoodSpec(s) && !Pending(s) && OneStep(f, StartSpec, arg, 0) == Step([Ch('%')], [], 1, s, 0)
  {
    hide Decode, Stops;
    DecodeProgress(f, StartSpec);
    UnknownDecodes(f);
    s := Decode(f, StartSpec).spec;
  }

  lemma UnknownDecodes(f: seq<Byte>)
    requires f == [Ch('%'), Ch('j'), Ch('d')]
    ensures Decode(f, StartSpec).read == 1 && Decode(f, StartSpec).spec.kind == Invalid && GoodSpec(Decode(f, StartSpec).spec)
  {
    hide Decode, Conversion, Stops;
    var g, s := [Ch('j'), Ch('d')], Flagged([], StartSpec, -1);
    assert f == Percent([], [] + g) && Head(g) == Ch('j') && g[0..] == g;
    WrittenWidth([], [], g, StartSpec);
    assert QualifierRun(g) == 0;
    DecodeProgress(f, StartSpec);
    NotKnown(g, s.(precision := -1, qualifier := 255));
  }

  lemma NotKnown(g: seq<Byte>, s: Spec)
    requires Head(g) == Ch('j') && GoodSpec(s)
    ensures Conversion(g, s).read == 0 && Conversion(g, s).spec.kind == Invalid && GoodSpec(Conversion(g, s).spec)
  {
  }

  /** A width of 65537 is cut to 1. */
  lemma WidthIsCut(len: Length, c: Conv, args: int -> Arg)
    ensures Ideal(FullFormat([], Numeral(10, 65537, false), NoPrec, len, c), args).text ==
            Ideal(FullFormat([], Numeral(10, 1, false), NoPrec, len, c), args).text
  {
    hide Ideal, NumberText, Numeral, Decimals, FetchedBy, Qualifier;
    DecimalsRoundTrip(65537);
    DecimalsRoundTrip(1);
    NumeralSnoc(10, 65537, false);
    NumeralSnoc(10, 1, false);
    DirectivePrints([], Numeral(10, 65537, false), NoPrec, len, c, args);
    DirectivePrints([], Numeral(10, 1, false), NoPrec, len, c, args);
  }

  /** "%.s": a period alone, which is precision zero in ISO C99, leaves the precision out, and the string is printed. */
  lemma PeriodAlone(args: int -> Arg)
    requires args(0).num % W32 >= 1024 && |args(0).text| < W32
    ensures Ideal([Ch('%'), Ch('.'), Ch('s')], args).text == args(0).text
  {
    hide Run, Decode, OneStep;
    var f, t := [Ch('%'), Ch('.'), Ch('s')], args(0).text;
    PeriodStep(f, args(0));
    RunUnfold(f, StartSpec, args, 0, 0);
    RunEnd(Spec(Str, NoFlags, 10, 255, -1, -1), args, 1, |t|);
    assert f[3..] == [] && t + [] == t;
  }

  lemma PeriodStep(f: seq<Byte>, arg: Arg)
    requires f == [Ch('%'), Ch('.'), Ch('s')] && arg.num % W32 >= 1024 && |arg.text| < W32
    ensures OneStep(f, StartSpec, arg, 0) == Step(arg.text, [], 3, Spec(Str, NoFlags, 10, 255, -1, -1), 1)
  {
    hide Decode, Stops, StringText;
    DecodeProgress(f, StartSpec);
    PeriodDecodes(f);
    WholeString(arg.text);
  }

  lemma WholeString(t: seq<Byte>)
    requires |t| < W32
    ensures StringText(t, Spec(Str, NoFlags, 10, 255, -1, -1)) == t
  {
    assert t[..|t|] == t;
  }

  lemma PeriodDecodes(f: seq<Byte>)
    requires f == [Ch('%'), Ch('.'), Ch('s')]
    ensures Decode(f, StartSpec) == Decoded(3, Spec(Str, NoFlags, 10, 255, -1, -1))
  {
    hide Decode, Conversion;
    var g, h, s := [Ch('.'), Ch('s')], [Ch('s')], Flagged([], StartSpec, -1);
    assert f == Percent([], [] + g) && Head(g) == Ch('.') && g[1..] == h && h[0..] == h;
    WrittenWidth([], [], g, StartSpec);
    assert QualifierRun(h) == 0 && Qualifier(h) == 255;
    StringConversion(h, s.(precision := -1, qualifier := 255));
  }

  lemma StringConversion(h: seq<Byte>, s: Spec)
    requires h == [Ch('s')]
    ensures Conversion(h, s) == Decoded(1, s.(base := 10, kind := Str))
  {
  }

  /** Parsing what a signed directive prints gives the argument's value at its type, and consumes all of it. */
  lemma SignedRoundTrip(len: Length, c: Conv, args: int -> Arg)
    requires IsSigned(c)
    ensures var text, v := Ideal(Format(len, c), args).text, ValueAt(len, c, args(0).num);
            ParsedSigned(text, 10) == (v, |text|) && StrictSigned(text, 10) == Ok(v)
  {
    hide NumberText, FetchedBy, Qualifier, Ideal, ParsedSigned, StrictSigned, NoSpaces, ValueAt;
    var num, spec := args(0).num, DirectiveSpec(len, c);
    var w := FetchedBy(len, c, num);
    DirectivePrints([], [], NoPrec, len, c, args);
    FetchedIs(len, c, num);
    NarrowNoSpaces(w, spec);
    PrintParseSigned(w, spec, [], 10);
    PrintKstrtoll(w, spec, [], 10);
    assert NumberText(w, spec) + [] == NumberText(w, spec);
  }

  /** Parsing what an unsigned directive prints gives the argument's value at its type, and consumes all of it. */
  lemma UnsignedRoundTrip(len: Length, c: Conv, args: int -> Arg)
    requires !IsSigned(c) && !Misread(len, c, args(0).num)
    ensures var text := Ideal(Format(len, c), args).text;
            Parsed(text, BaseOf(c)) == (ValueAt(len, c, args(0).num), |text|)
  {
    hide NumberText, FetchedBy, Qualifier, Ideal, Parsed, NoSpaces, ValueAt;
    var num, spec := args(0).num, DirectiveSpec(len, c);
    var w := FetchedBy(len, c, num);
    DirectivePrints([], [], NoPrec, len, c, args);
    FetchedIs(len, c, num);
    NarrowNoSpaces(w, spec);
    PrintParse(w, spec, [], spec.base);
    assert NumberText(w, spec) + [] == NumberText(w, spec);
  }

  // ---------------------------------------------------------------- pointers

  /**
   * A pointer printed with the default width is eight hexadecimal digits, behind "0x" with the alternative form, and parses
   * back to the pointer.
   */
  lemma PointerRoundTrip(p: int, next: Byte, spec: Spec)
    requires 0 < p < W32 && GoodSpec(spec) && spec.width == -1 && spec.precision <= 8 && !spec.flags.left && !spec.flags.sign
    ensures |PointerText(p, next, spec)| == (if spec.flags.special then 10 else 8)
    ensures Parsed(PointerText(p, next, spec), 16) == (p, |PointerText(p, next, spec)|)
    ensures spec.flags.special ==> Parsed(PointerText(p, next, spec), 0) == (p, |PointerText(p, next, spec)|)
  {
    hide Numeral, NumberText, Parsed;
    var s := PointerSpec(spec, false);
    EightDigits(p);
    FieldLength(p, s);
    FieldWhen(p, s);
    PrintParse(p, s, [], 16);
    assert NumberText(p, s) + [] == NumberText(p, s);
    if spec.flags.special { PrintParse(p, s, [], 0); }
  }

  function Pow16(k: nat): (p: int)
    ensures 1 <= p
  {
    if k == 0 then 1 else 16 * Pow16(k - 1)
  }

  lemma {:induction false} HexCount(p: int, k: nat)
    requires 1 <= k && 0 <= p < Pow16(k)
    ensures |Digits(16, p)| <= k
  {
    if p >= 16 { HexCount(p / 16, k - 1); }
  }

  lemma EightDigits(p: int)
    requires 0 <= p < W32
    ensures |Digits(16, p)| <= 8
  {
    assert Pow16(2) == 0x100 && Pow16(4) == 0x1_0000 && Pow16(6) == 0x100_0000 && Pow16(8) == W32;
    HexCount(p, 8);
  }
}
