/** The field ISO C99, section 7.19.6.1, prescribes for an integer, and when number() writes it. */
module StandardField {
  import opened Machine
  import opened Decimal
  import opened NumberFormat
  import opened FormatDecode
  import opened Strtox

  /** The digits: at least as many as the precision says, none for zero at precision zero, and a leading zero for '#' octal. */
  function StandardDigits(m: int, spec: Spec): seq<Byte>
    requires 2 <= spec.base <= 16 && 0 <= m
  {
    var plain := if m == 0 && spec.precision == 0 then [] else
      Rep(ZERO, spec.precision - |Digits(spec.base, m)|) + Numeral(spec.base, m, spec.flags.small);
    if spec.flags.special && spec.base == 8 && (plain == [] || plain[0] != ZERO) then [ZERO] + plain else plain
  }

  /** The prefix: only for '#' hexadecimal, and only for a value that is not zero. */
  function StandardPrefix(m: int, spec: Spec): seq<Byte> {
    if spec.flags.special && spec.base == 16 && m != 0 then PrefixText(m, 16, spec.flags) else []
  }

  /** The field: filled up to the width with spaces, or with zeros if the 0 flag stands without '-' and without a precision. */
  function StandardText(num: int, spec: Spec): seq<Byte>
    requires 2 <= spec.base <= 16 && 0 <= num < W64
  {
    var m := Magnitude(num, spec.flags);
    var head := SignText(num, spec.flags) + StandardPrefix(m, spec);
    var digits := StandardDigits(m, spec);
    var fill := spec.width - |head| - |digits|;
    if spec.flags.left then head + digits + Rep(SPACE, fill)
    else if spec.flags.zeropad && spec.precision < 0 then head + Rep(ZERO, fill) + digits
    else Rep(SPACE, fill) + head + digits
  }

  // ---------------------------------------------------------------- where number() differs

  /** Zero at precision zero: number() prints a digit. */
  predicate ZeroAtZero(num: int, spec: Spec) {
    num == 0 && spec.precision == 0 && !(spec.flags.special && spec.base == 8)
  }

  /** '#' octal with a precision above the number of digits: number() prints a zero too many. */
  predicate OctalTooLong(num: int, spec: Spec)
    requires 2 <= spec.base <= 16 && 0 <= num < W64
  {
    spec.flags.special && spec.base == 8 && num != 0 && spec.precision > |Digits(8, Magnitude(num, spec.flags))|
  }

  /** '#' hexadecimal zero: number() prints a prefix. */
  predicate HexZero(num: int, spec: Spec) { num == 0 && spec.flags.special && spec.base == 16 }

  /** The 0 flag with a precision, and room to fill: number() fills with zeros. */
  predicate ZerosWithPrecision(num: int, spec: Spec)
    requires 2 <= spec.base <= 16 && 0 <= num < W64
  {
    spec.flags.zeropad && !spec.flags.left && spec.precision >= 0 && Slack(num, spec) > 0
  }

  predicate Agreeing(num: int, spec: Spec)
    requires 2 <= spec.base <= 16 && 0 <= num < W64
  {
    !ZeroAtZero(num, spec) && !OctalTooLong(num, spec) && !HexZero(num, spec) && !ZerosWithPrecision(num, spec)
  }

  lemma MagnitudeZero(num: int, flags: PrintFlags)
    requires 0 <= num < W64
    ensures Magnitude(num, flags) == 0 <==> num == 0
  {
  }

  /** The digits and prefixes of the two, apart from the cases above: the same, or one zero counted as prefix. */
  lemma SameParts(num: int, spec: Spec)
    requires (spec.base == 8 || spec.base == 10 || spec.base == 16) && 0 <= num < W64
    requires !ZeroAtZero(num, spec) && !OctalTooLong(num, spec) && !HexZero(num, spec)
    ensures var m := Magnitude(num, spec.flags);
            var z := Rep(ZERO, spec.precision - |Digits(spec.base, m)|) + Numeral(spec.base, m, spec.flags.small);
            if PrefixText(num, spec.base, spec.flags) == [ZERO] then
              spec.base == 8 && spec.precision <= |Digits(8, m)| && StandardPrefix(m, spec) == [] && StandardDigits(m, spec) == [ZERO] + z
            else StandardPrefix(m, spec) == PrefixText(num, spec.base, spec.flags) && StandardDigits(m, spec) == z
  {
    hide Numeral;
    var m := Magnitude(num, spec.flags);
    MagnitudeZero(num, spec.flags);
    NumeralSnoc(spec.base, 0, spec.flags.small);
    if m > 0 { NumeralHead(spec.base, m, spec.flags.small); }
  }

  // ---------------------------------------------------------------- the same field

  /** Head and digits filled up by f characters. */
  function Laid(h: seq<Byte>, z: seq<Byte>, f: int, left: bool, zeros: bool): seq<Byte> {
    if left then h + z + Rep(SPACE, f) else if zeros then h + Rep(ZERO, f) + z else Rep(SPACE, f) + h + z
  }

  lemma FieldLaid(num: int, spec: Spec)
    requires 2 <= spec.base <= 16 && 0 <= num < W64
    ensures var m := Magnitude(num, spec.flags);
            var z := Rep(ZERO, spec.precision - |Digits(spec.base, m)|) + Numeral(spec.base, m, spec.flags.small);
            var h := SignText(num, spec.flags) + PrefixText(num, spec.base, spec.flags);
            Field(num, spec) == Laid(h, z, spec.width - |h| - |z|, spec.flags.left, spec.flags.zeropad) &&
            Slack(num, spec) == spec.width - |h| - |z|
  {
    hide Numeral, SignText, PrefixText, Digits, Magnitude;
  }

  lemma StandardLaid(num: int, spec: Spec)
    requires 2 <= spec.base <= 16 && 0 <= num < W64
    ensures var m := Magnitude(num, spec.flags);
            var h, z := SignText(num, spec.flags) + StandardPrefix(m, spec), StandardDigits(m, spec);
            StandardText(num, spec) == Laid(h, z, spec.width - |h| - |z|, spec.flags.left, spec.flags.zeropad && spec.precision < 0)
  {
    hide SignText, StandardPrefix, StandardDigits, Magnitude, Rep;
  }

  /** A zero in front of the digits may as well be counted as prefix. */
  lemma ZeroMoves(a: seq<Byte>, z: seq<Byte>, f: int, left: bool, zeros: bool)
    ensures Laid(a + [ZERO], z, f, left, zeros) == Laid(a + [], [ZERO] + z, f, left, zeros)
  {
    assert [ZERO] + Rep(ZERO, f) == Rep(ZERO, f) + [ZERO];
    assert a + [ZERO] + Rep(ZERO, f) + z == a + ([ZERO] + Rep(ZERO, f)) + z;
  }

  /** Without room to fill it does not matter what to fill with. */
  lemma NoFill(h: seq<Byte>, z: seq<Byte>, f: int, left: bool)
    requires left || f <= 0
    ensures Laid(h, z, f, left, true) == Laid(h, z, f, left, false)
  {
  }

  lemma AgreeingSame(num: int, spec: Spec)
    requires (spec.base == 8 || spec.base == 10 || spec.base == 16) && 0 <= num < W64 && Agreeing(num, spec)
    ensures Field(num, spec) == StandardText(num, spec)
  {
    hide Numeral, Rep, SignText, PrefixText, StandardDigits, StandardPrefix, ZeroAtZero, OctalTooLong, HexZero, Digits, Laid, Field,
      StandardText, Slack;
    SameParts(num, spec);
    FieldLaid(num, spec);
    StandardLaid(num, spec);
    var m, a, left := Magnitude(num, spec.flags), SignText(num, spec.flags), spec.flags.left;
    var z := Rep(ZERO, spec.precision - |Digits(spec.base, m)|) + Numeral(spec.base, m, spec.flags.small);
    var h, h', z' := a + PrefixText(num, spec.base, spec.flags), a + StandardPrefix(m, spec), StandardDigits(m, spec);
    var f := spec.width - |h| - |z|;
    if PrefixText(num, spec.base, spec.flags) == [ZERO] {
      ZeroMoves(a, z, f, left, spec.flags.zeropad);
    }
    assert Laid(h, z, f, left, spec.flags.zeropad) == Laid(h', z', f, left, spec.flags.zeropad);
    if left || f <= 0 { NoFill(h', z', f, left); }
  }

  // ---------------------------------------------------------------- different fields

  /** The field number() is meant to write, part by part. */
  lemma FieldParts(num: int, spec: Spec, h: seq<Byte>, z: seq<Byte>, k: int)
    requires 2 <= spec.base <= 16 && 0 <= num < W64
    requires h == SignText(num, spec.flags) + PrefixText(num, spec.base, spec.flags)
    requires var m := Magnitude(num, spec.flags);
             z == Rep(ZERO, spec.precision - |Digits(spec.base, m)|) + Numeral(spec.base, m, spec.flags.small)
    ensures |Field(num, spec)| == Max(0, Slack(num, spec)) + |h| + |z|
    ensures var at := if spec.flags.left || spec.flags.zeropad then 0 else Max(0, Slack(num, spec));
            0 <= k < |h| ==> Field(num, spec)[at + k] == h[k]
    ensures var from := if spec.flags.left then |h| else Max(0, Slack(num, spec)) + |h|;
            0 <= k < |z| ==> Field(num, spec)[from + k] == z[k]
    ensures spec.flags.zeropad && !spec.flags.left && 0 <= k < Slack(num, spec) ==> Field(num, spec)[|h| + k] == ZERO
  {
    hide Numeral, SignText, PrefixText, Digits, Magnitude;
  }

  lemma SignNotDigit(num: int, flags: PrintFlags)
    ensures forall c :: c in SignText(num, flags) ==> c != ZERO && c != Ch('x') && c != Ch('X')
  {
  }

  lemma HexZeroDiffers(num: int, spec: Spec)
    requires 0 <= num < W64 && HexZero(num, spec)
    ensures Field(num, spec) != StandardText(num, spec)
  {
    hide Numeral, SignText, Digits, Field;
    var a, p := SignText(num, spec.flags), PrefixText(num, 16, spec.flags);
    var x := p[1];
    SignNotDigit(num, spec.flags);
    NumeralSnoc(16, 0, spec.flags.small);
    FieldParts(num, spec, a + p, Rep(ZERO, spec.precision - |Digits(16, 0)|) + Numeral(16, 0, spec.flags.small), |a| + 1);
    assert (a + p)[|a| + 1] == x;
    assert x in Field(num, spec);
    assert x !in StandardText(num, spec);
  }

  lemma ZeroAtZeroDiffers(num: int, spec: Spec)
    requires (spec.base == 8 || spec.base == 10 || spec.base == 16) && 0 <= num < W64 && ZeroAtZero(num, spec)
    ensures Field(num, spec) != StandardText(num, spec)
  {
    hide Numeral, SignText, PrefixText, Digits, Field;
    var a, p := SignText(num, spec.flags), PrefixText(num, spec.base, spec.flags);
    SignNotDigit(num, spec.flags);
    NumeralSnoc(spec.base, 0, spec.flags.small);
    FieldParts(num, spec, a + p, Rep(ZERO, spec.precision - |Digits(spec.base, 0)|) + Numeral(spec.base, 0, spec.flags.small), 0);
    assert ZERO in Field(num, spec);
    assert ZERO !in StandardText(num, spec);
  }

  lemma OctalStandardIs(num: int, spec: Spec)
    requires 2 <= spec.base <= 16 && 0 <= num < W64 && OctalTooLong(num, spec)
    ensures var m := Magnitude(num, spec.flags);
            var z := Rep(ZERO, spec.precision - |Digits(8, m)|) + Numeral(8, m, spec.flags.small);
            StandardText(num, spec) == OctalStandard(spec, SignText(num, spec.flags), z)
  {
    hide Numeral, SignText, Digits;
    MagnitudeZero(num, spec.flags);
  }

  /** One zero more than the precision asks for, where the standard has the sign, a space or nothing. */
  lemma OctalDiffers(num: int, spec: Spec)
    requires 2 <= spec.base <= 16 && 0 <= num < W64 && OctalTooLong(num, spec)
    ensures Field(num, spec) != StandardText(num, spec)
  {
    hide Numeral, SignText, Field, Digits, StandardText, OctalStandard, Slack;
    var m, a := Magnitude(num, spec.flags), SignText(num, spec.flags);
    var d, i, p := Numeral(8, m, spec.flags.small), |Digits(8, m)|, spec.precision;
    var z, h := Rep(ZERO, p - i) + d, a + [ZERO];
    SignNotDigit(num, spec.flags);
    MagnitudeZero(num, spec.flags);
    NumeralHead(8, m, spec.flags.small);
    OctalStandardIs(num, spec);
    FieldParts(num, spec, h, z, |a|);
    if spec.flags.left {
      FieldParts(num, spec, h, z, p - i - 1);
      OctalLeft(spec, a, z, d);
    } else if |Field(num, spec)| == |OctalStandard(spec, a, z)| {
      OctalTail(spec, a, z, |Field(num, spec)| - p - 1);
      if spec.flags.zeropad && Slack(num, spec) > 0 { FieldParts(num, spec, h, z, Slack(num, spec) - 1); }
    }
  }

  lemma OctalLeft(spec: Spec, a: seq<Byte>, z: seq<Byte>, d: seq<Byte>)
    requires spec.flags.left && d != [] && d[0] != ZERO && |d| <= |z| && z[|z| - |d|] == d[0]
    ensures |OctalStandard(spec, a, z)| > |a| + (|z| - |d|) && OctalStandard(spec, a, z)[|a| + (|z| - |d|)] != ZERO
  {
  }

  function OctalStandard(spec: Spec, a: seq<Byte>, z: seq<Byte>): seq<Byte> {
    var f := spec.width - |a| - |z|;
    if spec.flags.left then a + [] + z + Rep(SPACE, f) else Rep(SPACE, f) + (a + []) + z
  }

  lemma OctalTail(spec: Spec, a: seq<Byte>, z: seq<Byte>, k: int)
    requires !spec.flags.left && 0 <= k && k == |OctalStandard(spec, a, z)| - |z| - 1 && forall c :: c in a ==> c != ZERO
    ensures OctalStandard(spec, a, z)[k] != ZERO
  {
    if a != [] {
      var c := a[|a| - 1];
      assert c in a && OctalStandard(spec, a, z)[k] == c;
    } else {
      assert OctalStandard(spec, a, z)[k] == SPACE;
    }
  }

  lemma ZerosDiffer(num: int, spec: Spec)
    requires (spec.base == 8 || spec.base == 10 || spec.base == 16) && 0 <= num < W64 && ZerosWithPrecision(num, spec)
    requires !ZeroAtZero(num, spec) && !OctalTooLong(num, spec) && !HexZero(num, spec)
    ensures Field(num, spec) != StandardText(num, spec)
  {
    hide Numeral, SignText, Field, Digits, StandardDigits, StandardPrefix, ZeroAtZero, OctalTooLong, HexZero, Rep;
    SameParts(num, spec);
    SignNotDigit(num, spec.flags);
    var m, a, p := Magnitude(num, spec.flags), SignText(num, spec.flags), PrefixText(num, spec.base, spec.flags);
    var z := Rep(ZERO, spec.precision - |Digits(spec.base, m)|) + Numeral(spec.base, m, spec.flags.small);
    FieldParts(num, spec, a + p, z, |a|);
    FieldParts(num, spec, a + p, z, 0);
    assert Field(num, spec)[|a|] == ZERO;
    var h, d := a + StandardPrefix(m, spec), StandardDigits(m, spec);
    SpacesFirst(a, StandardPrefix(m, spec), d, spec.width - |h| - |d|);
  }

  lemma SpacesFirst(a: seq<Byte>, p: seq<Byte>, d: seq<Byte>, f: int)
    requires 0 < f && |a| <= 1 && forall c :: c in a ==> c != ZERO
    ensures |Rep(SPACE, f) + (a + p) + d| > |a| && (Rep(SPACE, f) + (a + p) + d)[|a|] != ZERO
  {
    var s := Rep(SPACE, f) + (a + p) + d;
    if |a| < f {
      assert s[|a|] == SPACE;
    } else {
      var c := a[0];
      assert c in a && s[1] == c;
    }
  }

  // ---------------------------------------------------------------- the theorem

  lemma FieldStandardIff(num: int, spec: Spec)
    requires (spec.base == 8 || spec.base == 10 || spec.base == 16) && 0 <= num < W64
    ensures Field(num, spec) == StandardText(num, spec) <==> Agreeing(num, spec)
  {
    hide Field, StandardText;
    if Agreeing(num, spec) {
      AgreeingSame(num, spec);
    } else if HexZero(num, spec) {
      HexZeroDiffers(num, spec);
    } else if ZeroAtZero(num, spec) {
      ZeroAtZeroDiffers(num, spec);
    } else if OctalTooLong(num, spec) {
      OctalDiffers(num, spec);
    } else {
      ZerosDiffer(num, spec);
    }
  }

  lemma PartsNoLonger(num: int, spec: Spec)
    requires (spec.base == 8 || spec.base == 10 || spec.base == 16) && 0 <= num < W64
    ensures var m := Magnitude(num, spec.flags);
            |StandardPrefix(m, spec)| + |StandardDigits(m, spec)| <=
            |PrefixText(num, spec.base, spec.flags)| + Max(|Digits(spec.base, m)|, spec.precision)
  {
    hide Numeral, Digits;
    MagnitudeZero(num, spec.flags);
    NumeralSnoc(spec.base, 0, spec.flags.small);
  }

  /** The standard never asks for more than number() writes. */
  lemma StandardNoLonger(num: int, spec: Spec)
    requires (spec.base == 8 || spec.base == 10 || spec.base == 16) && 0 <= num < W64
    ensures |StandardText(num, spec)| <= |Field(num, spec)|
  {
    hide Numeral, SignText, PrefixText, StandardDigits, StandardPrefix, Digits, Field;
    PartsNoLonger(num, spec);
    FieldLength(num, spec);
  }

  /**
   * number() writes the field the standard prescribes, if and only if its width counter does not underflow and the
   * directive is none of: zero at precision zero, '#' octal with a precision above its digits, '#' hexadecimal zero, and
   * the 0 flag together with a precision that leaves room to fill.
   */
  lemma StandardIff(num: int, spec: Spec)
    requires (spec.base == 8 || spec.base == 10 || spec.base == 16) && 0 <= num < W64 && GoodSpec(spec)
    ensures NumberText(num, spec) == StandardText(num, spec) <==> NoUnderflow(Slack(num, spec), spec.flags) && Agreeing(num, spec)
  {
    hide Field, StandardText, NumberText, Agreeing, SignText, PrefixText, Digits, Paddings, NoUnderflow, Slack;
    var slack, flags := Slack(num, spec), spec.flags;
    FieldIff(num, spec);
    FieldStandardIff(num, spec);
    if !NoUnderflow(slack, flags) {
      SlackBounds(num, spec);
      PaddingsIff(slack, flags);
      var pads := Paddings(slack, flags);
      FieldLength(num, spec);
      StandardNoLonger(num, spec);
      NumberTextIs([], num, spec, |Digits(spec.base, Magnitude(num, flags))|, pads.0, pads.1, pads.2);
    }
  }

  // ---------------------------------------------------------------- one input for each difference

  function Bare(base: int, width: int, precision: int): Spec {
    Spec(UInt, PrintFlags(false, false, false, false, false, false, false), base, 255, width, precision)
  }

  /** "%.0d" of 0 prints "0" where the standard prints nothing. */
  lemma PrintsZeroAtZero()
    ensures NumberText(0, Bare(10, -1, 0)) != StandardText(0, Bare(10, -1, 0))
  {
    StandardIff(0, Bare(10, -1, 0));
  }

  /** "%#x" of 0 prints "0X0" or "0x0" where the standard prints "0". */
  lemma PrintsPrefixOfZero(spec: Spec)
    requires spec.flags.special && spec.base == 16 && GoodSpec(spec)
    ensures NumberText(0, spec) != StandardText(0, spec)
  {
    StandardIff(0, spec);
  }

  /** "%#.5o" of 8 prints six digits where the standard prints five. */
  lemma PrintsOctalTooLong()
    ensures var spec := Bare(8, -1, 5).(flags := Bare(8, -1, 5).flags.(special := true));
            NumberText(8, spec) != StandardText(8, spec)
  {
    var spec := Bare(8, -1, 5).(flags := Bare(8, -1, 5).flags.(special := true));
    assert Digits(8, 8) == [0, 1];
    StandardIff(8, spec);
  }

  /** "%08.3d" of 5 fills with zeros where the standard fills with spaces. */
  lemma PrintsZerosWithPrecision()
    ensures var spec := Bare(10, 8, 3).(flags := Bare(10, 8, 3).flags.(zeropad := true));
            NumberText(5, spec) != StandardText(5, spec)
  {
    var spec := Bare(10, 8, 3).(flags := Bare(10, 8, 3).flags.(zeropad := true));
    assert Digits(10, 5) == [5];
    StandardIff(5, spec);
  }
}
