/** Exactly which printed numbers parse back. */
module RoundTrip {
  import opened Machine
  import opened Decimal
  import opened NumberFormat
  import opened FormatDecode
  import opened Strtox

  // ---------------------------------------------------------------- the text

  /** No padding with spaces is written. */
  predicate NoSpacePads(num: int, spec: Spec)
    requires 2 <= spec.base <= 16 && 0 <= num < W64
  {
    var pads := Paddings(Slack(num, spec), spec.flags);
    pads.0 <= 0 && pads.2 <= 0 && (pads.1 <= 0 || PadChar(spec.flags) == ZERO)
  }

  /** How many zeros stand in front of the digits: padding, and those the precision asks for. */
  function Zeros(num: int, spec: Spec): nat
    requires 2 <= spec.base <= 16 && 0 <= num < W64
  {
    Max(0, Paddings(Slack(num, spec), spec.flags).1) + Max(0, spec.precision - |Digits(spec.base, Magnitude(num, spec.flags))|)
  }

  lemma SpacelessText(num: int, spec: Spec)
    requires 2 <= spec.base <= 16 && 0 <= num < W64 && NoSpacePads(num, spec)
    ensures NumberText(num, spec) == SignText(num, spec.flags) + (PrefixText(num, spec.base, spec.flags)
            + Padded(Zeros(num, spec), spec.base, Magnitude(num, spec.flags), spec.flags.small))
  {
    hide Numeral, SignText, PrefixText, Digits, Rep, Paddings, Slack;
    var pads, m := Paddings(Slack(num, spec), spec.flags), Magnitude(num, spec.flags);
    var i := |Digits(spec.base, m)|;
    RepNone(pads.0);
    RepNone(pads.2);
    RepBelow(PadChar(spec.flags), pads.1);
    RepBelow(ZERO, 0);
    RepBelow(SPACE, 0);
    RepSum(Max(0, pads.1), Max(i, spec.precision) - i);
    Regroup(SignText(num, spec.flags), PrefixText(num, spec.base, spec.flags), Rep(PadChar(spec.flags), pads.1),
            Rep(ZERO, Max(i, spec.precision) - i), Numeral(spec.base, m, spec.flags.small));
  }

  lemma RepNone(n: int)
    ensures n <= 0 ==> Rep(SPACE, n) == []
  {
  }

  lemma Regroup(a: seq<Byte>, b: seq<Byte>, f: seq<Byte>, z: seq<Byte>, d: seq<Byte>)
    ensures [] + a + b + f + z + d + [] == a + (b + (f + z + d))
  {
  }

  /** Padding with spaces puts a space into the text. */
  lemma SpaceInText(num: int, spec: Spec) returns (k: nat)
    requires 2 <= spec.base <= 16 && 0 <= num < W64 && !NoSpacePads(num, spec)
    ensures k < |NumberText(num, spec)| && NumberText(num, spec)[k] == SPACE
  {
    hide Numeral, SignText, PrefixText, Digits, Paddings, Slack;
    var pads, m := Paddings(Slack(num, spec), spec.flags), Magnitude(num, spec.flags);
    var i := |Digits(spec.base, m)|;
    var a, b := Rep(SPACE, pads.0), SignText(num, spec.flags) + PrefixText(num, spec.base, spec.flags);
    var t := NumberText(num, spec);
    if pads.0 > 0 {
      k := 0;
    } else if pads.2 > 0 {
      k := |t| - 1;
    } else {
      k := |a| + |b|;
      assert t[k] == Rep(PadChar(spec.flags), pads.1)[0];
    }
  }

  // ---------------------------------------------------------------- parsing stops at a space

  lemma {:induction false} RunStops(s: seq<Byte>, base: int, k: nat)
    requires k < |s| && !DigitIn(base, s[k])
    ensures NumberRun(s, base) <= k
  {
    if k > 0 && DigitIn(base, s[0]) { RunStops(s[1..], base, k - 1); }
  }

  lemma StopsAtSpace(s: seq<Byte>, base: int, k: nat)
    requires k < |s| && s[k] == SPACE
    ensures Parsed(s, base).1 <= k
  {
    hide Value;
    var skip, radix := HexPrefix(s, base), Radix(s, base);
    assert skip <= k;
    assert s[skip..][k - skip] == SPACE;
    RunStops(s[skip..], radix, k - skip);
  }

  // ---------------------------------------------------------------- digits in another base

  lemma {:induction false} ValuePositive(d: seq<Byte>, base: int)
    requires d != [] && 1 <= base && AllDigits(d, base) && DigitValue(d[0]) >= 1
    ensures Value(d, base) >= 1
  {
    var n := |d| - 1;
    if n > 0 {
      ValuePositive(d[..n], base);
      DigitNonNeg(d[n]);
      MulMono(1, Value(d[..n], base), base);
    } else {
      assert d[..0] == [];
    }
  }

  lemma DigitNonNeg(c: Byte)
    ensures DigitValue(c) >= 0
  {
  }

  /** The same digits are worth more in a larger base, unless there is only one. */
  lemma {:induction false} ValueLess(d: seq<Byte>, a: int, b: int)
    requires 1 <= |d| && 1 <= a < b && AllDigits(d, a) && DigitValue(d[0]) >= 1
    ensures if |d| == 1 then Value(d, a) == Value(d, b) else Value(d, a) < Value(d, b)
  {
    hide DigitValue;
    var n := |d| - 1;
    if n == 0 {
      assert d[..0] == [];
    } else {
      ValueLess(d[..n], a, b);
      ValuePositive(d[..n], a);
      MulLess(Value(d[..n], a), Value(d[..n], b), a, b);
    }
  }

  lemma MulLess(x: int, y: int, a: int, b: int)
    requires 1 <= x <= y && 1 <= a < b
    ensures a * x < b * y
  {
    MulMono(x, y, a);
    MulMono(a + 1, b, y);
  }

  lemma HeadValue(base: int, m: int, small: bool)
    requires 2 <= base <= 16 && 1 <= m
    ensures var d := Numeral(base, m, small);
            d != [] && DigitValue(d[0]) >= 1 && DigitIn(base, d[0]) && (|d| == 1 <==> m < base)
  {
    hide Numeral;
    NumeralHead(base, m, small);
    NumeralRoundTrip(base, m, small);
    DigitsUnfold(base, m);
    DigitZero(Numeral(base, m, small)[0]);
  }

  lemma DigitZero(c: Byte)
    ensures DigitValue(c) == 0 ==> c == ZERO
    ensures DigitValue(c) >= 0
  {
  }

  lemma DigitInLarger(a: int, b: int, c: Byte)
    requires a <= b && DigitIn(a, c)
    ensures DigitIn(b, c)
  {
  }

  /** What parsing the numeral d in base r yields, were it followed by tail. */
  predicate Reads(d: seq<Byte>, tail: seq<Byte>, r: int, m: int) {
    var n := NumberRun(d + tail, r);
    n == |d| && Value((d + tail)[..n], r) % W64 == m
  }

  lemma ReadsWhole(d: seq<Byte>, tail: seq<Byte>, r: int, m: int)
    requires r <= 16 && Ends(tail, 16)
    ensures Reads(d, tail, r, m) <==> AllDigits(d, r) && Value(d, r) % W64 == m
  {
    hide Value, DigitIn;
    assert (d + tail)[..|d|] == d;
    if AllDigits(d, r) {
      if DigitIn(r, Head(tail)) { DigitInLarger(r, 16, Head(tail)); }
      RunIs(d, tail, r);
    } else {
      var k :| 0 <= k < |d| && !DigitIn(r, d[k]);
      assert (d + tail)[k] == d[k];
      RunStops(d + tail, r, k);
    }
  }

  /** Digits of m in a larger base, read in a smaller one: right exactly for one digit of the smaller base. */
  lemma SmallerBase(k: nat, b: int, m: int, small: bool, r: int)
    requires 2 <= r < b <= 16 && 0 <= m < W64
    ensures var d := Padded(k, b, m, small);
            AllDigits(d, r) && Value(d, r) % W64 == m <==> m < r
  {
    hide Numeral, Value, DigitValue, DigitChar;
    var d, e := Padded(k, b, m, small), Numeral(b, m, small);
    ZeroIsDigit(r);
    assert AllDigits(d, r) <==> AllDigits(e, r) by { PaddedDigits(k, e, r); }
    LeadingZeros(k, e, r);
    NumeralRoundTrip(b, m, small);
    if m == 0 {
      NumeralSnoc(b, 0, small);
      NumeralSnoc(r, 0, small);
      NumeralRoundTrip(r, 0, small);
    } else {
      HeadValue(b, m, small);
      if AllDigits(e, r) {
        ValueLess(e, r, b);
        ValuePositive(e, r);
      }
      if m < r {
        NumeralSnoc(b, m, small);
        NumeralSnoc(r, m, small);
        NumeralRoundTrip(r, m, small);
      } else if |e| == 1 {
        NumeralSnoc(b, m, small);
        DigitRoundTrip(m, small);
        OneDigitTooLarge(e, m, r);
      }
    }
  }

  lemma OneDigitTooLarge(e: seq<Byte>, m: int, r: int)
    requires |e| == 1 && DigitValue(e[0]) == m && r <= m
    ensures !AllDigits(e, r)
  {
  }

  lemma ZeroIsDigit(r: int)
    requires 2 <= r
    ensures DigitIn(r, ZERO)
  {
  }

  lemma PaddedDigits(k: nat, e: seq<Byte>, r: int)
    requires DigitIn(r, ZERO)
    ensures AllDigits(Rep(ZERO, k) + e, r) <==> AllDigits(e, r)
  {
    hide DigitIn;
    var d := Rep(ZERO, k) + e;
    forall i | 0 <= i < |e| ensures d[k + i] == e[i] {
    }
  }

  /** The octal digits of m, read as decimal, are m modulo 2^64. */
  predicate OctalAsDecimal(m: int)
    requires 0 <= m
  {
    Value(Numeral(8, m, false), 10) % W64 == m
  }

  /** The base can be told from the text, or it does not matter. */
  predicate TellsBase(num: int, spec: Spec)
    requires 2 <= spec.base <= 16 && 0 <= num < W64
  {
    var m, k := Magnitude(num, spec.flags), Zeros(num, spec);
    if spec.base == 10 then k == 0 || m < 8
    else if spec.base == 8 then spec.flags.special || k > 0 || OctalAsDecimal(m)
    else spec.flags.special || m < 8 || (k == 0 && m < 10)
  }

  lemma CaseOfDigits(m: int, small: bool)
    requires 0 <= m
    ensures Numeral(8, m, small) == Numeral(8, m, false)
  {
  }

  // ---------------------------------------------------------------- base 0

  lemma ParsedReads(d: seq<Byte>, tail: seq<Byte>, r: int, pbase: int, m: int)
    requires Radix(d + tail, pbase) == r && HexPrefix(d + tail, pbase) == 0
    ensures Parsed(d + tail, pbase) == (m, |d|) <==> Reads(d, tail, r, m)
  {
    hide Value, Radix, HexPrefix;
    assert (d + tail)[0..] == d + tail;
    var n := NumberRun(d + tail, r);
    assert (d + tail)[0..0 + n] == (d + tail)[..n];
  }

  /** A numeral without prefix, read with base 0. */
  lemma BareAutodetect(k: nat, b: int, m: int, small: bool, tail: seq<Byte>)
    requires (b == 8 || b == 10 || b == 16) && 0 <= m < W64 && Ends(tail, 16)
    ensures var d := Padded(k, b, m, small);
            Parsed(d + tail, 0) == (m, |d|) <==>
              if b == 10 then k == 0 || m < 8
              else if b == 8 then k > 0 || OctalAsDecimal(m)
              else m < 8 || (k == 0 && m < 10)
  {
    hide Numeral, Value, DigitValue, Parsed, Reads;
    var d := Padded(k, b, m, small);
    EndsSmaller(tail, b);
    PaddedRoundTrip(k, b, m, small, tail);
    NoHexPrefix(d, tail, b, 0);
    if m > 0 { NumeralHead(b, m, small); } else { NumeralSnoc(b, 0, small); }
    var r := if d[0] == ZERO then 8 else 10;
    ParsedReads(d, tail, r, 0, m);
    ReadsWhole(d, tail, r, m);
    assert d[0] == ZERO <==> k > 0 || m == 0;
    if r < b {
      SmallerBase(k, b, m, small, r);
    } else if r > b {
      CaseOfDigits(m, small);
      DecimalDigits(d);
      assert d == Numeral(8, m, small);
    } else if b == 8 && m == 0 && k == 0 {
      NumeralSnoc(8, 0, false);
      ValueSnoc([], ZERO, 10);
      assert [] + [ZERO] == Numeral(8, 0, false);
      ZeroValue();
    }
  }

  lemma ZeroValue()
    ensures DigitValue(ZERO) == 0 && DigitChar(0, false) == ZERO && DigitChar(0, true) == ZERO
  {
  }

  lemma DecimalDigits(d: seq<Byte>)
    requires AllDigits(d, 8)
    ensures AllDigits(d, 10)
  {
    forall i | 0 <= i < |d| ensures DigitIn(10, d[i]) { DigitInLarger(8, 10, d[i]); }
  }

  lemma EndsSmaller(tail: seq<Byte>, b: int)
    requires Ends(tail, 16) && b <= 16
    ensures Ends(tail, b)
  {
  }

  // ---------------------------------------------------------------- the theorems

  /** What parsing the text of num in pbase, tail following, should yield. */
  predicate ReadBack(num: int, spec: Spec, tail: seq<Byte>, pbase: int)
    requires 2 <= spec.base <= 16 && 0 <= num < W64
  {
    Parsed(NumberText(num, spec) + tail, pbase) == (num, |NumberText(num, spec)|)
  }

  lemma SpacelessIff(num: int, spec: Spec, tail: seq<Byte>, pbase: int)
    requires (spec.base == 8 || spec.base == 10 || spec.base == 16) && (pbase == spec.base || pbase == 0)
    requires 0 <= num < W64 && !spec.flags.sign && Ends(tail, 16) && NoSpacePads(num, spec)
    ensures ReadBack(num, spec, tail, pbase) <==> pbase == spec.base || TellsBase(num, spec)
  {
    hide Numeral, Parsed, Value, DigitValue, NumberText, NoSpacePads, Zeros, OctalAsDecimal;
    SpacelessText(num, spec);
    EndsSmaller(tail, spec.base);
    var k, small := Zeros(num, spec), spec.flags.small;
    var d := Padded(k, spec.base, num, small);
    assert [] + ([] + d) == d;
    if spec.base == 16 && spec.flags.special {
      var p := PrefixText(num, 16, spec.flags);
      PrefixedParse(p[1], k, num, small, tail, pbase);
      assert p == [ZERO, p[1]] && [] + (p + d) + tail == p + (d + tail);
    } else if spec.base == 8 && spec.flags.special && num != 0 {
      PaddedParse(k + 1, 8, num, small, tail, pbase);
      assert [ZERO] + d == Padded(k + 1, 8, num, small) && [] + ([ZERO] + d) == [ZERO] + d;
    } else if pbase == spec.base {
      PaddedParse(k, spec.base, num, small, tail, pbase);
    } else {
      BareAutodetect(k, spec.base, num, small, tail);
      if num == 0 { OctalZero(); }
    }
  }

  lemma OctalZero()
    ensures OctalAsDecimal(0)
  {
    NumeralSnoc(8, 0, false);
    ValueSnoc([], ZERO, 10);
    assert [] + [ZERO] == Numeral(8, 0, false);
  }

  /**
   * An unsigned number as printed parses back to itself, consuming exactly its text, if and only if the text is not padded
   * with spaces and, with base 0, shows its base: '#' for octal and hexadecimal and no leading zeros for decimal do, and so
   * does whatever makes the other base give the same number.
   */
  lemma PrintParseIff(num: int, spec: Spec, tail: seq<Byte>, pbase: int)
    requires (spec.base == 8 || spec.base == 10 || spec.base == 16) && (pbase == spec.base || pbase == 0)
    requires 0 <= num < W64 && !spec.flags.sign && Ends(tail, 16)
    ensures ReadBack(num, spec, tail, pbase) <==> NoSpacePads(num, spec) && (pbase == spec.base || TellsBase(num, spec))
  {
    hide Parsed, NumberText, NoSpacePads, TellsBase;
    if NoSpacePads(num, spec) {
      SpacelessIff(num, spec, tail, pbase);
    } else {
      var k := SpaceInText(num, spec);
      assert (NumberText(num, spec) + tail)[k] == SPACE;
      StopsAtSpace(NumberText(num, spec) + tail, pbase, k);
    }
  }

  lemma NineteenDigits()
    ensures Pow10(19) < W64
  {
    Powers();
    assert Pow10(13) == 10_000_000_000_000 && Pow10(15) == 1_000_000_000_000_000 && Pow10(17) == 100_000_000_000_000_000;
  }

  /** Octal digits are never the number when read as decimal, between eight and the numbers of nineteen octal digits. */
  lemma OctalAsDecimalNever(m: int)
    requires 8 <= m && |Digits(8, m)| <= 19
    ensures !OctalAsDecimal(m)
  {
    NineteenDigits();
    hide Numeral, DigitValue, Value, Pow10, AllDigits;
    var d := Numeral(8, m, false);
    HeadValue(8, m, false);
    NumeralRoundTrip(8, m, false);
    ValueLess(d, 8, 10);
    DecimalDigits(d);
    DecimalBound(d, 19);
  }

  /** Octal digits read as decimal, one digit and three digits at a time. */
  lemma OneDigit(m: int)
    requires 0 <= m
    ensures Value(Numeral(8, m, false), 10) == if m < 8 then m else 10 * Value(Numeral(8, m / 8, false), 10) + m % 8
  {
    hide Numeral, DigitChar, DigitValue;
    NumeralSnoc(8, m, false);
    DigitRoundTrip(m % 8, false);
    if m < 8 {
      ValueSnoc([], DigitChar(m, false), 10);
      assert [] + [DigitChar(m, false)] == [DigitChar(m, false)];
    } else {
      ValueSnoc(Numeral(8, m / 8, false), DigitChar(m % 8, false), 10);
    }
  }

  /** The octal digits of m, read as decimal, are v. */
  ghost predicate ReadAs(m: int, v: int) { 0 <= m && Value(Numeral(8, m, false), 10) == v }

  lemma OneMoreDigit(p: int, v: int, e: int)
    requires 1 <= p && 0 <= e < 8 && ReadAs(p, v)
    ensures ReadAs(8 * p + e, 10 * v + e)
  {
    hide Numeral, Value;
    OneDigit(8 * p + e);
    DivUnique(p, e, 8);
  }

  lemma ThreeDigits(p: int, v: int, e: int)
    requires 1 <= p && 0 <= e < 512 && ReadAs(p, v)
    ensures ReadAs(512 * p + e, 1000 * v + 100 * (e / 64) + 10 * (e / 8 % 8) + e % 8)
  {
    hide ReadAs;
    OneMoreDigit(p, v, e / 64);
    OneMoreDigit(8 * p + e / 64, 10 * v + e / 64, e / 8 % 8);
    OneMoreDigit(64 * p + e / 8, 100 * v + 10 * (e / 64) + e / 8 % 8, e % 8);
  }

  lemma SingleDigit(m: int)
    requires 0 <= m < 8
    ensures ReadAs(m, m)
  {
    hide Numeral, Value, Digits;
    OneDigit(m);
  }

  lemma ManyDigits()
    ensures ReadAs(2056813840551831956, 162132124513714564624)
  {
    hide ReadAs;
    SingleDigit(1);
    ThreeDigits(1, 1, 401);
    ThreeDigits(913, 1621, 209);
    ThreeDigits(467665, 1621321, 165);
    ThreeDigits(239444645, 1621321245, 95);
    ThreeDigits(122595658335, 1621321245137, 101);
    ThreeDigits(62768977067621, 1621321245137145, 422);
    OneMoreDigit(32137716258622374, 1621321245137145646, 2);
    OneMoreDigit(257101730068978994, 16213212451371456462, 4);
  }

  lemma ReadAsDecimal(m: int, v: int)
    requires ReadAs(m, v) && v % W64 == m
    ensures OctalAsDecimal(m)
  {
    hide Numeral, Value, Digits;
  }

  /** Beyond nineteen digits it does happen: these eight numbers read the same as octal and as decimal modulo 2^64. */
  lemma OctalReadsAsDecimal(r: int)
    requires 0 <= r < 8
    ensures OctalAsDecimal(16454510724414655648 + r)
  {
    hide ReadAs, Numeral, Value, Digits;
    ManyDigits();
    OneMoreDigit(2056813840551831956, 162132124513714564624, r);
    DivUnique(87, 16454510724414655648 + r, W64);
    ReadAsDecimal(16454510724414655648 + r, 1621321245137145646240 + r);
  }

  lemma {:induction false} DecimalBound(d: seq<Byte>, k: nat)
    requires AllDigits(d, 10) && |d| <= k
    ensures 0 <= Value(d, 10) < Pow10(k)
  {
    if d != [] {
      DecimalBound(d[..|d| - 1], k - 1);
      DigitNonNeg(d[|d| - 1]);
    }
  }

  // ---------------------------------------------------------------- signed numbers

  predicate SignedReadBack(num: int, spec: Spec, tail: seq<Byte>, pbase: int)
    requires 2 <= spec.base <= 16 && 0 <= num < W64
  {
    ParsedSigned(NumberText(num, spec) + tail, pbase) == (Signed64(num), |NumberText(num, spec)|)
  }

  lemma SignedInjective(x: int, y: int)
    requires 0 <= x < W64 && 0 <= y < W64
    ensures Signed64(x) == Signed64(y) <==> x == y
    ensures Signed64(-x) == Signed64(W64 - y) <==> x == y
  {
    hide Signed64;
    SignedIs(x);
    SignedIs(y);
    SignedNeg(x);
    SignedWrap(y);
  }

  lemma SignedWrap(y: int)
    requires 0 <= y < W64
    ensures Signed64(W64 - y) == if y <= W64 / 2 then -y else W64 - y
  {
  }

  lemma SignedNeg(x: int)
    requires 0 <= x < W64
    ensures Signed64(-x) == if x <= W64 / 2 then -x else W64 - x
  {
  }

  lemma SignedIs(x: int)
    requires 0 <= x < W64
    ensures Signed64(x) == if x < W64 / 2 then x else x - W64
  {
  }

  /** Digits read with base ten or 0. */
  lemma DecimalReads(k: nat, m: int, small: bool, tail: seq<Byte>, pbase: int)
    requires 0 <= m < W64 && Ends(tail, 16) && (pbase == 10 || pbase == 0)
    ensures var d := Padded(k, 10, m, small);
            Parsed(d + tail, pbase) == (m, |d|) <==> pbase == 10 || k == 0 || m < 8
  {
    hide Parsed, Padded;
    if pbase == 10 {
      EndsSmaller(tail, 10);
      PaddedParse(k, 10, m, small, tail, 10);
    } else {
      BareAutodetect(k, 10, m, small, tail);
    }
  }

  lemma SpacelessSignedIff(num: int, spec: Spec, tail: seq<Byte>, pbase: int)
    requires spec.base == 10 && spec.flags.sign && (pbase == 10 || pbase == 0) && 0 <= num < W64 && Ends(tail, 16) && NoSpacePads(num, spec)
    requires Negative(num, spec.flags) || (!spec.flags.plus && !spec.flags.space)
    ensures SignedReadBack(num, spec, tail, pbase) <==> pbase == 10 || Zeros(num, spec) == 0 || Magnitude(num, spec.flags) < 8
  {
    hide Parsed, Padded, NumberText, NoSpacePads, Zeros, Signed64, DigitIn;
    var k, small, m := Zeros(num, spec), spec.flags.small, Magnitude(num, spec.flags);
    var d := Padded(k, 10, m, small);
    SpacelessText(num, spec);
    EndsSmaller(tail, 10);
    PaddedRoundTrip(k, 10, m, small, tail);
    SignGlue(SignText(num, spec.flags), d, tail, NumberText(num, spec));
    DecimalReads(k, m, small, tail, pbase);
    SignedInjective(Parsed(d + tail, pbase).0, m);
    DigitNotSign(d[0]);
    if Negative(num, spec.flags) { BehindSign(Ch('-'), d + tail); }
  }

  lemma PlusStops(s: seq<Byte>, base: int)
    requires s != [] && (s[0] == Ch('+') || s[0] == SPACE)
    ensures Head(s) != Ch('-') && Parsed(s, base).1 == 0
  {
    hide Value;
    assert s[0..][0] == s[0];
  }

  /**
   * A signed decimal as printed parses back to itself, consuming exactly its text, if and only if it is not padded with
   * spaces, has no plus or space in front, and with base 0 has no leading zeros or a single digit below eight.
   */
  lemma PrintParseSignedIff(num: int, spec: Spec, tail: seq<Byte>, pbase: int)
    requires spec.base == 10 && spec.flags.sign && (pbase == 10 || pbase == 0) && 0 <= num < W64 && Ends(tail, 16)
    ensures SignedReadBack(num, spec, tail, pbase) <==>
            && NoSpacePads(num, spec) && (Negative(num, spec.flags) || (!spec.flags.plus && !spec.flags.space))
            && (pbase == 10 || Zeros(num, spec) == 0 || Magnitude(num, spec.flags) < 8)
  {
    hide Parsed, Padded, NumberText, NoSpacePads, Zeros, Signed64;
    var t := NumberText(num, spec);
    var s := t + tail;
    if !NoSpacePads(num, spec) {
      var k := SpaceInText(num, spec);
      assert s[k] == SPACE;
      StopsAtSpace(s, pbase, k);
      if Head(s) == Ch('-') {
        assert s[1..][k - 1] == SPACE;
        StopsAtSpace(s[1..], pbase, k - 1);
      }
    } else if Negative(num, spec.flags) || (!spec.flags.plus && !spec.flags.space) {
      SpacelessSignedIff(num, spec, tail, pbase);
    } else {
      SpacelessText(num, spec);
      assert s[0] == SignText(num, spec.flags)[0];
      PlusStops(s, pbase);
    }
  }
}
