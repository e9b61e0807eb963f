/** What a format prints, piece by piece: every directive prints for itself and takes its own arguments. */
module Formats {
  import opened Machine
  import opened Decimal
  import opened NumberFormat
  import opened FormatDecode
  import opened Strtox
  import opened Vsnprintf
  import opened Directives

  // ---------------------------------------------------------------- the specification between directives

  /** What a specification carries over to the next call of the decoder: nothing, unless a width or precision is pending. */
  function Core(spec: Spec): Spec {
    match spec.kind
    case Width => Spec(Width, spec.flags, 0, 0, spec.width, 0)
    case Precision => Spec(Precision, spec.flags, 0, 0, spec.width, spec.precision)
    case _ => StartSpec
  }

  lemma ConversionAlike(f: seq<Byte>, s: Spec, t: Spec)
    requires s.flags == t.flags && s.width == t.width && s.precision == t.precision && s.qualifier == t.qualifier
    ensures Conversion(f, s) == Conversion(f, t)
  {
    hide IntegerKind;
  }

  lemma QualifierAlike(f: seq<Byte>, s: Spec, t: Spec)
    requires s.flags == t.flags && s.width == t.width && s.precision == t.precision
    ensures FromQualifier(f, s) == FromQualifier(f, t)
  {
    hide Conversion, Qualifier, QualifierRun;
    var n := QualifierRun(f);
    ConversionAlike(f[n..], s.(qualifier := Qualifier(f)), t.(qualifier := Qualifier(f)));
  }

  /** Decoding steps that print the same and carry the same over. */
  predicate SameDecoded(d: Decoded, e: Decoded) {
    && d.read == e.read && d.spec.kind == e.spec.kind && Core(d.spec) == Core(e.spec)
    && (d.spec.kind == Plain || Pending(d.spec) || d.spec == e.spec)
  }

  lemma PrecisionAlike(f: seq<Byte>, s: Spec, t: Spec)
    requires s.flags == t.flags && s.width == t.width
    ensures SameDecoded(FromPrecision(f, s), FromPrecision(f, t))
  {
    hide FromQualifier, Decimals, DigitRun;
    var s', t' := s.(precision := -1), t.(precision := -1);
    QualifierAlike(f, s', t');
    if Head(f) == Ch('.') {
      var g := f[1..];
      QualifierAlike(g, s', t');
      var n := DigitRun(g);
      var p := Max(0, S16(Decimals(g[..n])));
      QualifierAlike(g[n..], s'.(precision := p), t'.(precision := p));
    }
  }

  lemma SkipAlike(n: nat, d: Decoded, e: Decoded)
    requires SameDecoded(d, e)
    ensures SameDecoded(Skip(n, d), Skip(n, e))
  {
  }

  lemma DirectiveAlike(f: seq<Byte>, s: Spec, t: Spec)
    requires f != []
    ensures SameDecoded(Directive(f, s), Directive(f, t))
  {
    hide FromPrecision, SameDecoded, Decimals, FlagsIn;
    var m := FlagRun(f[1..]);
    var g := f[1 + m..];
    var flags, n := FlagsIn(f[1..1 + m], NoFlags), DigitRun(g);
    var s', t' := s.(kind := Plain, flags := flags, width := -1), t.(kind := Plain, flags := flags, width := -1);
    var w := S16(Decimals(g[..n]));
    PrecisionAlike(g, s', t');
    SkipAlike(1 + m, FromPrecision(g, s'), FromPrecision(g, t'));
    PrecisionAlike(g[n..], s'.(width := w), t'.(width := w));
    SkipAlike(1 + m + n, FromPrecision(g[n..], s'.(width := w)), FromPrecision(g[n..], t'.(width := w)));
    StarAlike(2 + m, s', t');
  }

  lemma StarAlike(n: nat, s: Spec, t: Spec)
    requires s.flags == t.flags && s.width == t.width
    ensures SameDecoded(Decoded(n, s.(kind := Width)), Decoded(n, t.(kind := Width)))
  {
  }

  lemma DecodeAlike(f: seq<Byte>, s: Spec, t: Spec)
    requires Core(s) == Core(t)
    ensures SameDecoded(Decode(f, s), Decode(f, t))
  {
    hide FromPrecision, FromQualifier, Directive, PlainRun;
    match s.kind
    case Width =>
      var s' := if s.width < 0 then s.(width := S16(-s.width), flags := s.flags.(left := true)) else s;
      var t' := if t.width < 0 then t.(width := S16(-t.width), flags := t.flags.(left := true)) else t;
      PrecisionAlike(f, s'.(kind := Plain), t'.(kind := Plain));
    case Precision =>
      QualifierAlike(f, s.(precision := Max(0, s.precision), kind := Plain), t.(precision := Max(0, t.precision), kind := Plain));
      NotPlain(f, s.(precision := Max(0, s.precision), kind := Plain));
    case _ =>
      if f != [] { DirectiveAlike(f, s, t); }
  }

  lemma NotPlain(f: seq<Byte>, s: Spec)
    ensures FromQualifier(f, s).spec.kind != Plain && !Pending(FromQualifier(f, s).spec)
  {
    hide Qualifier, QualifierRun;
  }

  lemma StepAlike(f: seq<Byte>, s: Spec, t: Spec, arg: Arg, n: int)
    requires GoodSpec(s) && GoodSpec(t) && Core(s) == Core(t)
    ensures var a, b := OneStep(f, s, arg, n), OneStep(f, t, arg, n);
            a.text == b.text && a.stores == b.stores && a.read == b.read && a.used == b.used && Core(a.spec) == Core(b.spec)
  {
    hide Decode, Printout;
    DecodeProgress(f, s);
    DecodeProgress(f, t);
    DecodeAlike(f, s, t);
  }

  /** The output does not depend on what an earlier directive left behind. */
  lemma {:induction false} RunAlike(f: seq<Byte>, s: Spec, t: Spec, args: int -> Arg, a: int, n: int)
    requires GoodSpec(s) && GoodSpec(t) && Core(s) == Core(t)
    ensures Run(f, s, args, a, n) == Run(f, t, args, a, n)
    decreases |f|, if Pending(s) then 1 else 0
  {
    hide OneStep, Core;
    if f != [] {
      StepAlike(f, s, t, args(a), n);
      var x, y := OneStep(f, s, args(a), n), OneStep(f, t, args(a), n);
      StepProgress(f, s, args(a), n);
      StepProgress(f, t, args(a), n);
      RunAlike(f[x.read..], x.spec, y.spec, args, a + x.used, n + |x.text|);
    }
  }

  // ---------------------------------------------------------------- the count of characters

  /** Stores of counts, each k larger. */
  function Moved(stores: seq<(int, int)>, k: int): seq<(int, int)> {
    seq(|stores|, i requires 0 <= i < |stores| => (stores[i].0, stores[i].1 + k))
  }

  lemma MovedConcat(a: seq<(int, int)>, b: seq<(int, int)>, k: int)
    ensures Moved(a + b, k) == Moved(a, k) + Moved(b, k) && Moved([], k) == []
  {
  }

  lemma StepMoved(f: seq<Byte>, s: Spec, arg: Arg, n: int, k: int)
    requires GoodSpec(s)
    ensures OneStep(f, s, arg, n + k) == OneStep(f, s, arg, n).(stores := Moved(OneStep(f, s, arg, n).stores, k))
  {
    hide Decode, Printout;
    DecodeProgress(f, s);
    assert Moved([], k) == [] && Moved([(arg.num, n)], k) == [(arg.num, n + k)];
  }

  /** What was printed before only shows in the counts that %n stores. */
  lemma {:induction false} RunMoved(f: seq<Byte>, s: Spec, args: int -> Arg, a: int, n: int, k: int)
    requires GoodSpec(s)
    ensures var r := Run(f, s, args, a, n);
            Run(f, s, args, a, n + k) == Output(r.text, Moved(r.stores, k))
    decreases |f|, if Pending(s) then 1 else 0
  {
    hide OneStep, Moved;
    MovedConcat([], [], k);
    if f != [] {
      StepMoved(f, s, args(a), n, k);
      StepProgress(f, s, args(a), n);
      var x := OneStep(f, s, args(a), n);
      RunMoved(f[x.read..], x.spec, args, a + x.used, n + |x.text|, k);
      var r := Run(f[x.read..], x.spec, args, a + x.used, n + |x.text|);
      MovedConcat(x.stores, r.stores, k);
    }
  }

  // ---------------------------------------------------------------- one piece and the rest

  /** First a, then b; the counts stored in b include the text of a. */
  function Follow(a: Output, b: Output): Output { Output(a.text + b.text, a.stores + Moved(b.stores, |a.text|)) }

  /** The arguments from the k-th on. */
  function From(args: int -> Arg, k: int): int -> Arg { i => args(i + k) }

  /** A format whose first piece f is dealt with in one round: its output, then that of the rest with the arguments left. */
  lemma FirstPiece(f: seq<Byte>, g: seq<Byte>, step: Step, args: int -> Arg)
    requires f != [] && GoodSpec(step.spec) && !Pending(step.spec) && step.read == |f| && OneStep(f + g, StartSpec, args(0), 0) == step
    ensures Ideal(f + g, args) == Follow(Output(step.text, step.stores), Ideal(g, From(args, step.used)))
  {
    hide OneStep, Run;
    RunUnfold(f + g, StartSpec, args, 0, 0);
    assert (f + g)[|f|..] == g;
    var k, n := step.used, |step.text|;
    RunAlike(g, step.spec, StartSpec, args, k, n);
    RunMoved(g, StartSpec, args, k, 0, n);
    ArgShift(g, StartSpec, args, k, From(args, k), 0, 0);
  }

  lemma NothingFollows(a: Output, args: int -> Arg)
    ensures Follow(a, Ideal([], args)) == a
  {
    assert Moved([], |a.text|) == [];
  }

  // ---------------------------------------------------------------- text

  lemma {:induction false} PlainRunOf(t: seq<Byte>, g: seq<Byte>)
    requires forall i :: 0 <= i < |t| ==> t[i] != Ch('%')
    ensures PlainRun(t + g) == |t| + PlainRun(g)
  {
    if t == [] {
      assert t + g == g;
    } else {
      PlainRunOf(t[1..], g);
      assert (t + g)[1..] == t[1..] + g;
    }
  }

  lemma PlainStep(f: seq<Byte>, n: nat, arg: Arg)
    requires n == PlainRun(f) && n > 0
    ensures OneStep(f, StartSpec, arg, 0) == Step(f[..n], [], n, StartSpec, 0)
  {
    hide PlainRun, Directive, Printout;
    DecodeProgress(f, StartSpec);
  }

  /** Text is printed as it is, and the rest behind it. */
  lemma TextThen(t: seq<Byte>, g: seq<Byte>, args: int -> Arg)
    requires forall i :: 0 <= i < |t| ==> t[i] != Ch('%')
    ensures Ideal(t + g, args) == Follow(Output(t, []), Ideal(g, args))
  {
    hide Ideal, Follow, PlainRun;
    var n := PlainRun(g);
    var p, h := g[..n], g[n..];
    PlainRunOf(t, g);
    assert t + g == (t + p) + h && g == p + h;
    PlainFirst(t + p, h, args);
    PlainFirst(p, h, args);
    TextTwice(t, p, Ideal(h, args));
  }

  /** Text in front of a directive, or at the end, is one piece. */
  lemma PlainFirst(t: seq<Byte>, h: seq<Byte>, args: int -> Arg)
    requires PlainRun(t + h) == |t|
    ensures Ideal(t + h, args) == Follow(Output(t, []), Ideal(h, args))
  {
    hide Ideal, Follow, OneStep, PlainRun;
    if t == [] {
      assert t + h == h;
      FollowNothing(Ideal(h, args));
    } else {
      assert (t + h)[..|t|] == t;
      PlainStep(t + h, |t|, args(0));
      FirstPiece(t, h, Step(t, [], |t|, StartSpec, 0), args);
      SameFrom(h, args);
    }
  }

  lemma SameFrom(g: seq<Byte>, args: int -> Arg)
    ensures Ideal(g, From(args, 0)) == Ideal(g, args)
  {
    hide Run;
    ArgShift(g, StartSpec, args, 0, From(args, 0), 0, 0);
  }

  lemma FollowNothing(b: Output)
    ensures Follow(Output([], []), b) == b
  {
    assert Moved(b.stores, 0) == b.stores && [] + b.text == b.text && [] + b.stores == b.stores;
  }

  lemma TextTwice(t: seq<Byte>, p: seq<Byte>, b: Output)
    ensures Follow(Output(t + p, []), b) == Follow(Output(t, []), Follow(Output(p, []), b))
  {
    assert t + p + b.text == t + (p + b.text);
    assert Moved([] + Moved(b.stores, |p|), |t|) == Moved(b.stores, |t + p|);
  }

  // ---------------------------------------------------------------- directives

  /** A number directive takes one argument, and leaves the rest of the format and of the arguments to what follows. */
  lemma NumberThen(flags: seq<Byte>, width: seq<Byte>, prec: Precis, len: Length, c: Conv, g: seq<Byte>, args: int -> Arg)
    requires Flags(flags) && IsWidth(width) && (prec.Prec? ==> prec.p < 0x8000)
    ensures var f := FullFormat(flags, width, prec, len, c);
            Ideal(f, args).stores == [] && Ideal(f + g, args) == Follow(Ideal(f, args), Ideal(g, From(args, 1)))
  {
    hide OneStep, Ideal, FullFormat, FullSpec;
    var f := FullFormat(flags, width, prec, len, c);
    var step := NumberStep(flags, width, prec, len, c, g, args(0));
    var alone := NumberStep(flags, width, prec, len, c, [], args(0));
    FirstPiece(f, g, step, args);
    FirstPiece(f, [], alone, args);
    assert f + [] == f;
    NothingFollows(Output(step.text, []), From(args, 1));
  }

  lemma NumberStep(flags: seq<Byte>, width: seq<Byte>, prec: Precis, len: Length, c: Conv, g: seq<Byte>, arg: Arg) returns (step: Step)
    requires Flags(flags) && IsWidth(width) && (prec.Prec? ==> prec.p < 0x8000)
    ensures var f, s := FullFormat(flags, width, prec, len, c), FullSpec(flags, width, prec, len, c);
            && f != [] && GoodSpec(s) && !Pending(s) && OneStep(f + g, StartSpec, arg, 0) == step
            && step == Step(NumberText(FetchedBy(len, c, arg.num), s), [], |f|, s, 1)
  {
    hide Decode, NumberText, Fetched, FlagsIn, WidthOf, IsWidth, Qualifier, FullFormat;
    var f, s := FullFormat(flags, width, prec, len, c), FullSpec(flags, width, prec, len, c);
    DecodeIs(flags, width, prec, len, c, g, StartSpec);
    NumericStep(f + g, |f|, s, arg);
    step := Step(NumberText(FetchedBy(len, c, arg.num), s), [], |f|, s, 1);
    FormatNonEmpty(flags, width, prec, len, c);
  }

  lemma FormatNonEmpty(flags: seq<Byte>, width: seq<Byte>, prec: Precis, len: Length, c: Conv)
    ensures FullFormat(flags, width, prec, len, c) != []
  {
  }

  lemma NumericStep(f: seq<Byte>, n: nat, s: Spec, arg: Arg)
    requires Decode(f, StartSpec) == Decoded(n, s) && Vsnprintf.Numeric(s.kind)
    ensures GoodSpec(s) && !Pending(s) && (s.base == 8 || s.base == 10 || s.base == 16)
    ensures OneStep(f, StartSpec, arg, 0) == Step(NumberText(Fetched(s.kind, s.flags.sign, arg.num), s), [], n, s, 1)
  {
    hide Decode, NumberText, Fetched;
    DecodeProgress(f, StartSpec);
  }

  /** The conversions other than numbers, with the kind each selects. */
  function OtherKind(x: Byte): Kind {
    if x == Ch('c') then Char else if x == Ch('s') then Str else if x == Ch('n') then NrChars else if x == Ch('%') then PercentChar
    else if x == Ch('p') then Ptr else Invalid
  }

  function OtherSpec(flags: seq<Byte>, width: seq<Byte>, prec: Precis, x: Byte): Spec {
    BegunSpec(flags, width, prec, StartSpec).(base := 10, qualifier := 255, kind := OtherKind(x))
  }

  lemma OtherDecodes(flags: seq<Byte>, width: seq<Byte>, prec: Precis, x: Byte, g: seq<Byte>)
    requires Flags(flags) && IsWidth(width) && (prec.Prec? ==> prec.p < 0x8000)
    requires x == Ch('c') || x == Ch('s') || x == Ch('n') || x == Ch('%') || x == Ch('p')
    ensures var f := Begun(flags, width, prec, [x]);
            Decode(f + g, StartSpec) == Decoded(if x == Ch('p') then |f| - 1 else |f|, OtherSpec(flags, width, prec, x))
  {
    hide Decode, BegunSpec, Begun, Conversion;
    var h := [x] + g;
    assert Head(h) == x && h[0..] == h;
    BegunWith(flags, width, prec, [x], g);
    BegunDecodes(flags, width, prec, h, StartSpec);
    OtherConversion(h, BegunSpec(flags, width, prec, StartSpec).(qualifier := 255));
  }

  lemma OtherConversion(h: seq<Byte>, s: Spec)
    requires var x := Head(h); x == Ch('c') || x == Ch('s') || x == Ch('n') || x == Ch('%') || x == Ch('p')
    ensures QualifierRun(h) == 0 && Qualifier(h) == 255
    ensures Conversion(h, s) == Decoded(if Head(h) == Ch('p') then 0 else 1, s.(base := 10, kind := OtherKind(Head(h))))
  {
  }

  /** What a directive other than a number or pointer prints and stores. */
  function OtherOut(flags: seq<Byte>, width: seq<Byte>, prec: Precis, x: Byte, arg: Arg): Output
    requires GoodSpec(OtherSpec(flags, width, prec, x))
  {
    var s := OtherSpec(flags, width, prec, x);
    if x == Ch('c') then Output(CharText(arg.num % 0x100, s), [])
    else if x == Ch('s') then Output(StringText(if arg.num % W32 < 1024 then NullText else arg.text, s), [])
    else if x == Ch('n') then Output([], [(arg.num, 0)])
    else Output([Ch('%')], [])
  }

  lemma GoodOther(flags: seq<Byte>, width: seq<Byte>, prec: Precis, x: Byte)
    ensures GoodSpec(OtherSpec(flags, width, prec, x)) && !Pending(OtherSpec(flags, width, prec, x))
  {
    hide Decimals;
  }

  /** Characters, strings and counts take one argument, the percent sign none. */
  lemma OtherThen(flags: seq<Byte>, width: seq<Byte>, prec: Precis, x: Byte, g: seq<Byte>, args: int -> Arg)
    requires Flags(flags) && IsWidth(width) && (prec.Prec? ==> prec.p < 0x8000)
    requires x == Ch('c') || x == Ch('s') || x == Ch('n') || x == Ch('%')
    ensures GoodSpec(OtherSpec(flags, width, prec, x))
    ensures Ideal(Begun(flags, width, prec, [x]) + g, args) ==
            Follow(OtherOut(flags, width, prec, x, args(0)), Ideal(g, From(args, if x == Ch('%') then 0 else 1)))
  {
    hide Decode, Stops, BegunSpec, Begun, Ideal, CharText, StringText, NumberText;
    GoodOther(flags, width, prec, x);
    BegunWith(flags, width, prec, [x], g);
    var f := Begun(flags, width, prec, [x]);
    OtherDecodes(flags, width, prec, x, g);
    DecodeProgress(f + g, StartSpec);
    var out := OtherOut(flags, width, prec, x, args(0));
    FirstPiece(f, g, Step(out.text, out.stores, |f|, OtherSpec(flags, width, prec, x), if x == Ch('%') then 0 else 1), args);
  }

  /** A pointer takes one argument, and skips the letters and digits behind it. */
  lemma PointerThen(flags: seq<Byte>, width: seq<Byte>, prec: Precis, g: seq<Byte>, args: int -> Arg)
    requires Flags(flags) && IsWidth(width) && (prec.Prec? ==> prec.p < 0x8000)
    ensures var s := OtherSpec(flags, width, prec, Ch('p'));
            && GoodSpec(s)
            && Ideal(Begun(flags, width, prec, [Ch('p')]) + g, args) ==
               Follow(Output(PointerText(args(0).num % W32, Head(g), s), []), Ideal(g[AlnumRun(g)..], From(args, 1)))
  {
    hide BegunSpec, Begun, Ideal, PointerText, OneStep, OtherSpec, Flags, IsWidth, AlnumRun, Follow, GoodSpec, Pending;
    GoodOther(flags, width, prec, Ch('p'));
    BegunWith(flags, width, prec, [Ch('p')], g);
    var f, k, s := Begun(flags, width, prec, [Ch('p')]), AlnumRun(g), OtherSpec(flags, width, prec, Ch('p'));
    PointerStep(flags, width, prec, g, args(0));
    var p, h := f + g[..k], g[k..];
    assert p + h == f + g;
    FirstPiece(p, h, Step(PointerText(args(0).num % W32, Head(g), s), [], |f| + k, s, 1), args);
  }

  lemma PointerStep(flags: seq<Byte>, width: seq<Byte>, prec: Precis, g: seq<Byte>, arg: Arg)
    requires Flags(flags) && IsWidth(width) && (prec.Prec? ==> prec.p < 0x8000) && GoodSpec(OtherSpec(flags, width, prec, Ch('p')))
    ensures var f, s := Begun(flags, width, prec, [Ch('p')]), OtherSpec(flags, width, prec, Ch('p'));
            OneStep(f + g, StartSpec, arg, 0) == Step(PointerText(arg.num % W32, Head(g), s), [], |f| + AlnumRun(g), s, 1)
  {
    hide Decode, Begun, PointerText, Flags, IsWidth, AlnumRun, OtherSpec, OneStep, GoodSpec, PrecText;
    var f, s := Begun(flags, width, prec, [Ch('p')]), OtherSpec(flags, width, prec, Ch('p'));
    assert s.kind == Ptr by { PointerKind(flags, width, prec); }
    BegunWith(flags, width, prec, [Ch('p')], g);
    OtherDecodes(flags, width, prec, Ch('p'), g);
    PointerTail(flags, width, prec, g);
    PointerDispatch(f + g, |f| - 1, s, arg);
  }

  lemma PointerKind(flags: seq<Byte>, width: seq<Byte>, prec: Precis)
    ensures OtherSpec(flags, width, prec, Ch('p')).kind == Ptr
  {
  }

  lemma PointerDispatch(f: seq<Byte>, n: nat, s: Spec, arg: Arg)
    requires Decode(f, StartSpec) == Decoded(n, s) && s.kind == Ptr && n < |f| && GoodSpec(s)
    ensures OneStep(f, StartSpec, arg, 0) == Step(PointerText(arg.num % W32, Head(f[n..][1..]), s), [], n + AlnumRun(f[n..]), s, 1)
  {
    hide Decode, PointerText, AlnumRun;
    DecodeProgress(f, StartSpec);
  }

  lemma PointerTail(flags: seq<Byte>, width: seq<Byte>, prec: Precis, g: seq<Byte>)
    ensures var f := Begun(flags, width, prec, [Ch('p')]);
            var h := (f + g)[|f| - 1..];
            h == [Ch('p')] + g && AlnumRun(h) == 1 + AlnumRun(g) && Head(h[1..]) == Head(g)
  {
    hide PrecText;
    BegunWith(flags, width, prec, [Ch('p')], g);
    var h := [Ch('p')] + g;
    assert h[1..] == g;
  }

  /** Without flags, width and precision a character is printed as it is, and a string as it is or as "(null)". */
  lemma BareOthers(g: seq<Byte>, args: int -> Arg)
    requires |args(0).text| < W32
    ensures Ideal([Ch('%'), Ch('c')] + g, args) == Follow(Output([args(0).num % 0x100], []), Ideal(g, From(args, 1)))
    ensures Ideal([Ch('%'), Ch('s')] + g, args) ==
            Follow(Output(if args(0).num % W32 < 1024 then NullText else args(0).text, []), Ideal(g, From(args, 1)))
    ensures Ideal([Ch('%'), Ch('n')] + g, args) == Follow(Output([], [(args(0).num, 0)]), Ideal(g, From(args, 1)))
    ensures Ideal([Ch('%'), Ch('%')] + g, args) == Follow(Output([Ch('%')], []), Ideal(g, args))
  {
    hide Ideal, CharText, StringText, WidthOf, IsWidth, Follow;
    assert IsWidth([]) && WidthOf([]) == -1 by { NoWidth(); }
    BareBegun(Ch('c'));
    BareBegun(Ch('s'));
    BareBegun(Ch('n'));
    BareBegun(Ch('%'));
    OtherThen([], [], NoPrec, Ch('c'), g, args);
    OtherThen([], [], NoPrec, Ch('s'), g, args);
    OtherThen([], [], NoPrec, Ch('n'), g, args);
    OtherThen([], [], NoPrec, Ch('%'), g, args);
    BareTexts(args(0).num % 0x100, if args(0).num % W32 < 1024 then NullText else args(0).text);
    SameFrom(g, args);
  }

  /** "%p" of a null pointer is "(null)" in a field of eight characters; other pointers are eight hexadecimal digits. */
  lemma BarePointer(g: seq<Byte>, args: int -> Arg)
    ensures var p, rest := args(0).num % W32, Ideal(g[AlnumRun(g)..], From(args, 1));
            var t := if p == 0 && Head(g) != Ch('K') then [SPACE, SPACE] + NullText else EightHex(p);
            |Digits(16, p)| <= 8 && Ideal([Ch('%'), Ch('p')] + g, args) == Follow(Output(t, []), rest)
  {
    hide Ideal, AlnumRun, Follow, WidthOf, IsWidth, PointerText, EightHex;
    NoWidth();
    BareBegun(Ch('p'));
    PointerThen([], [], NoPrec, g, args);
    EightDigits(args(0).num % W32);
    BarePointerText(args(0).num % W32, Head(g));
  }

  lemma BarePointerText(p: int, next: Byte)
    requires 0 <= p < W32 && |Digits(16, p)| <= 8
    ensures var s := OtherSpec([], [], NoPrec, Ch('p'));
            && GoodSpec(s)
            && PointerText(p, next, s) == if p == 0 && next != Ch('K') then [SPACE, SPACE] + NullText else EightHex(p)
  {
    assert OtherSpec([], [], NoPrec, Ch('p')) == Spec(Ptr, NoFlags, 10, 255, -1, -1);
    hide OtherSpec, NumberText, StringText, EightHex;
    NullField();
    HexField(p);
  }

  function EightHex(p: int): seq<Byte>
    requires 0 <= p
  {
    Rep(ZERO, 8 - |Digits(16, p)|) + Numeral(16, p, true)
  }

  lemma NullField()
    ensures StringText(NullText, Spec(Ptr, NoFlags, 10, 255, 8, -1)) == [SPACE, SPACE] + NullText
  {
    var s := Spec(Ptr, NoFlags, 10, 255, 8, -1);
    assert Shown(NullText, -1) == 6 && NullText[..6] == NullText && Rep(SPACE, 2) == [SPACE, SPACE];
  }

  lemma HexField(p: int)
    requires 0 <= p < W32 && |Digits(16, p)| <= 8
    ensures NumberText(p, Spec(Ptr, NoFlags.(small := true, zeropad := true), 16, 255, 8, -1)) == EightHex(p)
  {
    hide Numeral, Digits, NumberText;
    var q := Spec(Ptr, NoFlags.(small := true, zeropad := true), 16, 255, 8, -1);
    FieldLength(p, q);
    FieldWhen(p, q);
    var z, d := Rep(ZERO, 8 - |Digits(16, p)|), Numeral(16, p, true);
    assert [] + z + ([] + d) == z + d;
  }

  lemma NoWidth()
    ensures IsWidth([]) && WidthOf([]) == -1
  {
  }

  lemma BareBegun(x: Byte)
    ensures Begun([], [], NoPrec, [x]) == [Ch('%'), x]
  {
  }

  lemma BareTexts(c: Byte, t: seq<Byte>)
    requires |t| < W32
    ensures CharText(c, OtherSpec([], [], NoPrec, Ch('c'))) == [c]
    ensures GoodSpec(OtherSpec([], [], NoPrec, Ch('s'))) && StringText(t, OtherSpec([], [], NoPrec, Ch('s'))) == t
  {
    assert t[..|t|] == t;
  }

  // ---------------------------------------------------------------- whole formats

  /** A piece of a format: text, a number, or another conversion but the pointer. */
  datatype Piece =
    | Text(t: seq<Byte>)
    | Numeric(flags: seq<Byte>, width: seq<Byte>, prec: Precis, len: Length, c: Conv)
    | Other(flags: seq<Byte>, width: seq<Byte>, prec: Precis, x: Byte)

  predicate Proper(p: Piece) {
    match p
    case Text(t) => forall i :: 0 <= i < |t| ==> t[i] != Ch('%')
    case Numeric(flags, width, prec, _, _) => Flags(flags) && IsWidth(width) && (prec.Prec? ==> prec.p < 0x8000)
    case Other(flags, width, prec, x) =>
      && Flags(flags) && IsWidth(width) && (prec.Prec? ==> prec.p < 0x8000)
      && (x == Ch('c') || x == Ch('s') || x == Ch('n') || x == Ch('%'))
  }

  function Spelling(p: Piece): seq<Byte> {
    match p
    case Text(t) => t
    case Numeric(flags, width, prec, len, c) => FullFormat(flags, width, prec, len, c)
    case Other(flags, width, prec, x) => Begun(flags, width, prec, [x])
  }

  function Uses(p: Piece): nat { if p.Text? || (p.Other? && p.x == Ch('%')) then 0 else 1 }

  /** What a piece prints and stores by itself. */
  function PieceOut(p: Piece, args: int -> Arg): Output {
    match p
    case Text(t) => Output(t, [])
    case Numeric(flags, width, prec, len, c) => Ideal(FullFormat(flags, width, prec, len, c), args)
    case Other(flags, width, prec, x) =>
      GoodOther(flags, width, prec, x);
      OtherOut(flags, width, prec, x, args(0))
  }

  function Whole(ps: seq<Piece>): seq<Byte> { if ps == [] then [] else Spelling(ps[0]) + Whole(ps[1..]) }

  /** The pieces' outputs one behind the other, each with the arguments the ones before it left. */
  function Outputs(ps: seq<Piece>, args: int -> Arg): Output
    decreases |ps|
  {
    if ps == [] then Output([], []) else Follow(PieceOut(ps[0], args), Outputs(ps[1..], From(args, Uses(ps[0]))))
  }

  /** A format prints what its pieces print, in order, each using up its own arguments. */
  lemma {:induction false} FormatMeans(ps: seq<Piece>, args: int -> Arg)
    requires forall i :: 0 <= i < |ps| ==> Proper(ps[i])
    ensures Ideal(Whole(ps), args) == Outputs(ps, args)
    decreases |ps|
  {
    hide Ideal, Follow, FullFormat, Begun, Flags, IsWidth;
    if ps == [] {
      NothingPrinted(args);
    } else {
      var g := Whole(ps[1..]);
      FormatMeans(ps[1..], From(args, Uses(ps[0])));
      match ps[0] {
        case Text(t) =>
          TextThen(t, g, args);
          SameFrom(g, args);
        case Numeric(flags, width, prec, len, c) => NumberThen(flags, width, prec, len, c, g, args);
        case Other(flags, width, prec, x) => OtherThen(flags, width, prec, x, g, args);
      }
    }
  }

  lemma NothingPrinted(args: int -> Arg)
    ensures Ideal([], args) == Output([], [])
  {
  }

  /** "%d %d%n" with one, two and the address of a count prints "1 2" and stores 3. */
  lemma TwoNumbers(args: int -> Arg)
    requires args(0).num == 1 && args(1).num == 2
    ensures Ideal([Ch('%'), Ch('d'), Ch(' '), Ch('%'), Ch('d'), Ch('%'), Ch('n')], args) ==
            Output([Ch('1'), Ch(' '), Ch('2')], [(args(2).num, 3)])
  {
    hide Ideal, IsWidth, Follow, FullFormat, Begun;
    var d, count := [Ch('%'), Ch('d')], [Ch('%'), Ch('n')];
    var behind := [Ch(' ')] + (d + count);
    var args1, args2, st := From(args, 1), From(From(args, 1), 1), args(2).num;
    NoWidth();
    BareFormat();
    OneDecimal(args, 1);
    OneDecimal(args1, 2);
    CountAlone(args2);
    NumberThen([], [], NoPrec, Default, D, behind, args);
    TextThen([Ch(' ')], d + count, args1);
    NumberThen([], [], NoPrec, Default, D, count, args1);
    FollowIs([Ch('2')], [], st, 0);
    FollowIs([Ch(' ')], [Ch('2')], st, 1);
    FollowIs([Ch('1')], [Ch(' '), Ch('2')], st, 2);
    assert d + behind == [Ch('%'), Ch('d'), Ch(' '), Ch('%'), Ch('d'), Ch('%'), Ch('n')];
    assert [Ch('2')] + [] == [Ch('2')] && [Ch(' ')] + [Ch('2')] == [Ch(' '), Ch('2')] && [Ch('1')] + [Ch(' '), Ch('2')] == [Ch('1'), Ch(' '), Ch('2')];
    assert args2(0) == args(2);
  }

  lemma BareFormat()
    ensures FullFormat([], [], NoPrec, Default, D) == [Ch('%'), Ch('d')]
  {
  }

  lemma OneDecimal(args: int -> Arg, n: int)
    requires args(0).num == n && 0 <= n < 10
    ensures Ideal(FullFormat([], [], NoPrec, Default, D), args) == Output([Ch('0') + n], [])
  {
    hide Ideal, Numeral;
    BareDirectiveIff(Default, D, args);
    NumeralSnoc(10, n, false);
    NoWidth();
    NumberThen([], [], NoPrec, Default, D, [], args);
  }

  lemma CountAlone(args: int -> Arg)
    ensures Ideal([Ch('%'), Ch('n')], args) == Output([], [(args(0).num, 0)])
  {
    hide Ideal, IsWidth, Begun;
    NoWidth();
    BareBegun(Ch('n'));
    OtherThen([], [], NoPrec, Ch('n'), [], args);
    assert [Ch('%'), Ch('n')] + [] == [Ch('%'), Ch('n')];
    NothingFollows(Output([], [(args(0).num, 0)]), From(args, 1));
  }

  lemma FollowIs(t: seq<Byte>, u: seq<Byte>, st: int, n: int)
    ensures Follow(Output(t, []), Output(u, [(st, n)])) == Output(t + u, [(st, n + |t|)])
  {
    assert Moved([(st, n)], |t|) == [(st, n + |t|)];
  }
}
