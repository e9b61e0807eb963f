/** Parsing integers: lib/kstrtox.c, and the simple_strto* functions of lib/vsprintf.c. */
module Strtox {
  import opened Machine
  import opened Decimal
  import opened NumberFormat
  import opened FormatDecode

  const NOT_A_DIGIT: int := 99

  /** The value of a digit in any base up to sixteen, letters in either case. */
  function DigitValue(c: Byte): int {
    if Ch('0') <= c <= Ch('9') then c - Ch('0')
    else if Ch('a') <= Or20(c) <= Ch('f') then Or20(c) - Ch('a') + 10
    else NOT_A_DIGIT
  }

  predicate DigitIn(base: int, c: Byte) { DigitValue(c) < base && DigitValue(c) != NOT_A_DIGIT }

  /** How many characters in front are digits of the base. */
  function NumberRun(s: seq<Byte>, base: int): (n: nat)
    ensures n <= |s|
  {
    if s == [] || !DigitIn(base, s[0]) then 0 else 1 + NumberRun(s[1..], base)
  }

  /** The value of a row of digits, most significant first. */
  function Value(s: seq<Byte>, base: int): int {
    if s == [] then 0 else base * Value(s[..|s| - 1], base) + DigitValue(s[|s| - 1])
  }

  lemma ValueSnoc(s: seq<Byte>, c: Byte, base: int)
    ensures Value([], base) == 0 && Value(s + [c], base) == base * Value(s, base) + DigitValue(c)
  {
    assert (s + [c])[..|s|] == s;
  }

  /** The base a numeral is parsed in, and the length of the prefix skipped. */
  function Radix(s: seq<Byte>, base: int): int {
    if base != 0 then base
    else if Head(s) != Ch('0') then 10
    else if 2 <= |s| && Or20(s[1]) == Ch('x') && DigitIn(16, Head(s[2..])) then 16
    else 8
  }

  function HexPrefix(s: seq<Byte>, base: int): (n: nat)
    ensures n <= |s|
  {
    if Radix(s, base) == 16 && 2 <= |s| && s[0] == Ch('0') && Or20(s[1]) == Ch('x') then 2 else 0
  }

  /** _parse_integer_fixup_radix. */
  method FixupRadix(s: seq<Byte>, base: int) returns (skip: int, base': int)
    ensures base' == Radix(s, base) && skip == HexPrefix(s, base)
  {
    base' := base;
    if base' == 0 {
      if Head(s) == Ch('0') {
        if 2 <= |s| && Or20(s[1]) == Ch('x') && DigitIn(16, CharAt(s, 2)) { base' := 16; } else { base' := 8; }
      } else {
        base' := 10;
      }
    }
    skip := 0;
    if base' == 16 && Head(s) == Ch('0') && 2 <= |s| && Or20(s[1]) == Ch('x') { skip := 2; }
  }

  /** _parse_integer on the characters from start on. */
  method ParseInteger(s: seq<Byte>, start: int, base: int) returns (rv: int, res: int)
    requires 0 <= start <= |s| && 0 <= base
    ensures rv == NumberRun(s[start..], base) && res == Value(s[start..start + rv], base) % W64
  {
    hide Value, DigitValue;
    res, rv := 0, 0;
    ValueSnoc([], 0, base);
    assert s[start..start] == [];
    while start + rv < |s|
      invariant 0 <= rv <= |s| - start && rv + NumberRun(s[start + rv..], base) == NumberRun(s[start..], base)
      invariant res == Value(s[start..start + rv], base) % W64
    {
      var i := start + rv;
      Tail(s, i);
      var val := DigitValue(s[i]);
      if val == NOT_A_DIGIT || val >= base { break; }
      ValueSnoc(s[start..i], s[i], base);
      assert s[start..i + 1] == s[start..i] + [s[i]];
      MulMod(res, Value(s[start..i], base), base, val);
      res := (res * base + val) % W64;
      rv := rv + 1;
    }
  }

  lemma MulMod(r: int, v: int, base: int, d: int)
    requires r == v % W64
    ensures (r * base + d) % W64 == (base * v + d) % W64
  {
    var q := v / W64;
    assert v == q * W64 + r;
    assert base * v + d == (r * base + d) + (base * q) * W64;
    ModAdd(r * base + d, base * q);
  }

  lemma ModAdd(x: int, k: int)
    ensures (x + k * W64) % W64 == x % W64
  {
  }

  // ---------------------------------------------------------------- the parsers

  /** What parsing s yields: the value of its longest numeral modulo 2^64 and how many characters that takes. */
  function Parsed(s: seq<Byte>, base: int): (r: (int, int))
    ensures 0 <= r.0 < W64 && 0 <= r.1 <= |s|
  {
    var skip, radix := HexPrefix(s, base), Radix(s, base);
    var n := NumberRun(s[skip..], radix);
    (Value(s[skip..skip + n], radix) % W64, skip + n)
  }

  /** simple_strtoull: the value and the end of the parsed text. */
  method SimpleStrtoull(s: seq<Byte>, base: int) returns (v: int, end: int)
    requires 0 <= base
    ensures (v, end) == Parsed(s, base)
  {
    var skip, radix := FixupRadix(s, base);
    var rv;
    rv, v := ParseInteger(s, skip, radix);
    end := skip + rv;
  }

  /** A 64-bit word as a signed number. */
  function Signed64(x: int): int { if x % W64 < W64 / 2 then x % W64 else x % W64 - W64 }

  /** What parsing s with an optional minus sign yields. */
  function ParsedSigned(s: seq<Byte>, base: int): (int, int) {
    if Head(s) == Ch('-') then (Signed64(-Parsed(s[1..], base).0), 1 + Parsed(s[1..], base).1)
    else (Signed64(Parsed(s, base).0), Parsed(s, base).1)
  }

  /** simple_strtoll. */
  method SimpleStrtoll(s: seq<Byte>, base: int) returns (v: int, end: int)
    requires 0 <= base
    ensures (v, end) == ParsedSigned(s, base)
  {
    if Head(s) == Ch('-') {
      v, end := SimpleStrtoull(s[1..], base);
      v, end := Signed64(-v), 1 + end;
    } else {
      v, end := SimpleStrtoull(s, base);
      v := Signed64(v);
    }
  }

  // ---------------------------------------------------------------- printing and parsing

  /** A digit printed is the digit read. */
  lemma DigitRoundTrip(d: int, small: bool)
    requires 0 <= d < 16
    ensures DigitValue(DigitChar(d, small)) == d
  {
  }

  lemma NumeralSnoc(base: int, n: int, small: bool)
    requires 2 <= base <= 16 && 0 <= n
    ensures if n < base then Numeral(base, n, small) == [DigitChar(n, small)]
            else 0 <= n / base < n && 0 <= n % base < 16 && Numeral(base, n, small) == Numeral(base, n / base, small) + [DigitChar(n % base, small)]
  {
    hide DigitChar;
    DigitsUnfold(base, n);
  }

  /** All characters of a numeral are digits of its base. */
  ghost predicate AllDigits(s: seq<Byte>, base: int) { forall i :: 0 <= i < |s| ==> DigitIn(base, s[i]) }

  lemma {:induction false} NumeralRoundTrip(base: int, n: int, small: bool)
    requires 2 <= base <= 16 && 0 <= n
    ensures Value(Numeral(base, n, small), base) == n && AllDigits(Numeral(base, n, small), base)
  {
    hide Numeral, DigitValue, DigitChar, Value;
    NumeralSnoc(base, n, small);
    if n < base {
      DigitRoundTrip(n, small);
      ValueSnoc([], DigitChar(n, small), base);
      assert [] + [DigitChar(n, small)] == [DigitChar(n, small)];
    } else {
      NumeralRoundTrip(base, n / base, small);
      DigitRoundTrip(n % base, small);
      ValueSnoc(Numeral(base, n / base, small), DigitChar(n % base, small), base);
      assert base * (n / base) + n % base == n && n % base < base;
    }
  }

  lemma {:induction false} LeadingZeros(k: nat, s: seq<Byte>, base: int)
    ensures Value(Rep(ZERO, k) + s, base) == Value(s, base)
  {
    if s != [] {
      LeadingZeros(k, s[..|s| - 1], base);
      assert (Rep(ZERO, k) + s)[..|Rep(ZERO, k) + s| - 1] == Rep(ZERO, k) + s[..|s| - 1];
    } else if k > 0 {
      LeadingZeros(k - 1, s, base);
      assert Rep(ZERO, k)[..k - 1] == Rep(ZERO, k - 1);
      assert Rep(ZERO, k) + s == Rep(ZERO, k) && Rep(ZERO, k - 1) + s == Rep(ZERO, k - 1);
    } else {
      assert Rep(ZERO, 0) + s == [];
    }
  }

  /** The run ends where the digits end. */
  lemma {:induction false} RunIs(s: seq<Byte>, tail: seq<Byte>, base: int)
    requires AllDigits(s, base) && !DigitIn(base, Head(tail))
    ensures NumberRun(s + tail, base) == |s|
  {
    if s != [] {
      RunIs(s[1..], tail, base);
      assert (s + tail)[1..] == s[1..] + tail;
    } else {
      assert s + tail == tail;
    }
  }

  /** zeros, then the digits of m. */
  function Padded(k: nat, base: int, m: int, small: bool): seq<Byte>
    requires 2 <= base <= 16 && 0 <= m
  {
    Rep(ZERO, k) + Numeral(base, m, small)
  }

  lemma PaddedRoundTrip(k: nat, base: int, m: int, small: bool, tail: seq<Byte>)
    requires 2 <= base <= 16 && 0 <= m && !DigitIn(base, Head(tail))
    ensures var s := Padded(k, base, m, small);
            Value(s, base) == m && NumberRun(s + tail, base) == |s| && AllDigits(s, base) && 1 <= |s|
  {
    hide Numeral, Value;
    NumeralRoundTrip(base, m, small);
    LeadingZeros(k, Numeral(base, m, small), base);
    RunIs(Padded(k, base, m, small), tail, base);
  }

  /** No spaces are printed: the field is full, or filled with zeros. */
  predicate NoSpaces(num: int, spec: Spec)
    requires 2 <= spec.base <= 16 && 0 <= num < W64
  {
    && NoUnderflow(Slack(num, spec), spec.flags)
    && ((spec.flags.zeropad && !spec.flags.left) || Slack(num, spec) <= 0)
  }

  /** How many zeros stand in front of the digits. */
  function ZeroCount(num: int, spec: Spec): (k: nat)
    requires 2 <= spec.base <= 16 && 0 <= num < W64
  {
    var digits := |Digits(spec.base, Magnitude(num, spec.flags))|;
    Max(0, spec.precision - digits) + if spec.flags.zeropad && !spec.flags.left then Max(0, Slack(num, spec)) else 0
  }

  lemma TextShape(num: int, spec: Spec)
    requires 2 <= spec.base <= 16 && 0 <= num < W64 && GoodSpec(spec) && NoSpaces(num, spec)
    ensures NumberText(num, spec) == SignText(num, spec.flags) + (PrefixText(num, spec.base, spec.flags)
            + Padded(ZeroCount(num, spec), spec.base, Magnitude(num, spec.flags), spec.flags.small))
  {
    hide SignText, PrefixText, Numeral, Digits, Rep;
    FieldWhen(num, spec);
    var flags, slack, m := spec.flags, Slack(num, spec), Magnitude(num, spec.flags);
    var p := spec.precision - |Digits(spec.base, m)|;
    RepBelow(SPACE, slack);
    RepBelow(ZERO, slack);
    RepBelow(ZERO, p);
    RepSum(Max(0, slack), Max(0, p));
    RepBelow(SPACE, 0);
    ShapeRegroup(SignText(num, flags), PrefixText(num, spec.base, flags), Rep(ZERO, slack), Rep(ZERO, p), Numeral(spec.base, m, flags.small));
  }

  lemma RepSum(a: nat, b: nat)
    ensures Rep(ZERO, a) + Rep(ZERO, b) == Rep(ZERO, a + b)
  {
  }

  lemma ShapeRegroup(a: seq<Byte>, b: seq<Byte>, f: seq<Byte>, z: seq<Byte>, d: seq<Byte>)
    ensures a + b + f + (z + d) == a + (b + (f + z + d))
    ensures a + b + (z + d) + [] == a + (b + (z + d)) && [] + (a + b) + (z + d) == a + (b + (z + d))
  {
  }

  lemma ParsedIs(p: seq<Byte>, d: seq<Byte>, tail: seq<Byte>, base: int, pbase: int)
    requires AllDigits(d, base) && !DigitIn(base, Head(tail))
    requires Radix(p + (d + tail), pbase) == base && HexPrefix(p + (d + tail), pbase) == |p|
    ensures Parsed(p + (d + tail), pbase) == (Value(d, base) % W64, |p| + |d|)
  {
    hide Radix, HexPrefix, Value, DigitIn;
    var s := p + (d + tail);
    assert s[|p|..] == d + tail && s[|p|..|p| + |d|] == d;
    RunIs(d, tail, base);
  }

  /** What follows a numeral does not continue it. */
  predicate Ends(tail: seq<Byte>, base: int) { !DigitIn(base, Head(tail)) && Or20(Head(tail)) != Ch('x') }

  lemma NoHexPrefix(d: seq<Byte>, tail: seq<Byte>, base: int, pbase: int)
    requires 1 <= |d| && AllDigits(d, base) && base <= 16 && Ends(tail, base)
    ensures HexPrefix(d + tail, pbase) == 0
    ensures Radix(d + tail, pbase) == if pbase != 0 then pbase else if d[0] == ZERO then 8 else 10
  {
    assert 2 <= |d| ==> (d + tail)[1] == d[1];
    assert |d| == 1 && tail != [] ==> (d + tail)[1] == tail[0];
  }

  lemma {:induction false} NumeralHead(base: int, n: int, small: bool)
    requires 2 <= base <= 16 && 1 <= n
    ensures 1 <= |Numeral(base, n, small)| && Numeral(base, n, small)[0] != ZERO
  {
    hide Numeral;
    NumeralSnoc(base, n, small);
    if n >= base {
      DigitsUnfold(base, n);
      NumeralHead(base, n / base, small);
    }
  }

  /** Parsing a padded numeral in its own base, or in the base its first digit suggests. */
  lemma PaddedParse(k: nat, base: int, m: int, small: bool, tail: seq<Byte>, pbase: int)
    requires 2 <= base <= 16 && 0 <= m < W64 && Ends(tail, base)
    requires pbase == base || (pbase == 0 && base == 8 && (k > 0 || m == 0)) || (pbase == 0 && base == 10 && k == 0)
    ensures Parsed(Padded(k, base, m, small) + tail, pbase) == (m, |Padded(k, base, m, small)|)
  {
    hide Numeral, Parsed, Value, DigitValue;
    var d := Padded(k, base, m, small);
    PaddedRoundTrip(k, base, m, small, tail);
    assert [] + (d + tail) == d + tail;
    if m > 0 { NumeralHead(base, m, small); } else { NumeralSnoc(base, 0, small); }
    if pbase == 0 && base == 10 && m == 0 {
      PaddedRoundTrip(k, 8, 0, small, tail);
      NumeralSnoc(8, 0, small);
      NoHexPrefix(d, tail, 8, pbase);
      ParsedIs([], d, tail, 8, pbase);
    } else {
      NoHexPrefix(d, tail, base, pbase);
      ParsedIs([], d, tail, base, pbase);
    }
  }

  /** Parsing a numeral behind "0x". */
  lemma PrefixedParse(x: Byte, k: nat, m: int, small: bool, tail: seq<Byte>, pbase: int)
    requires Or20(x) == Ch('x') && 0 <= m < W64 && Ends(tail, 16) && (pbase == 16 || pbase == 0)
    ensures Parsed([ZERO, x] + (Padded(k, 16, m, small) + tail), pbase) == (m, 2 + |Padded(k, 16, m, small)|)
  {
    hide Numeral, Parsed, Value, DigitValue;
    var d := Padded(k, 16, m, small);
    PaddedRoundTrip(k, 16, m, small, tail);
    var s := [ZERO, x] + (d + tail);
    assert s[2..] == d + tail && s[0] == ZERO && s[1] == x && Head(s[2..]) == d[0];
    ParsedIs([ZERO, x], d, tail, 16, pbase);
  }

  /** The base can be told from the text. */
  predicate Detectable(num: int, spec: Spec)
    requires 2 <= spec.base <= 16 && 0 <= num < W64
  {
    if spec.base == 10 then ZeroCount(num, spec) == 0 else spec.flags.special
  }

  /** Printing an unsigned number and parsing the text gives the number back and consumes exactly that text. */
  lemma PrintParse(num: int, spec: Spec, tail: seq<Byte>, pbase: int)
    requires spec.base == 8 || spec.base == 10 || spec.base == 16
    requires 0 <= num < W64 && GoodSpec(spec) && !spec.flags.sign && NoSpaces(num, spec) && Ends(tail, spec.base)
    requires pbase == spec.base || (pbase == 0 && Detectable(num, spec))
    ensures Parsed(NumberText(num, spec) + tail, pbase) == (num, |NumberText(num, spec)|)
  {
    hide Numeral, Parsed, Value, DigitValue, NumberText, NoSpaces, ZeroCount;
    TextShape(num, spec);
    var k, small := ZeroCount(num, spec), spec.flags.small;
    var d := Padded(k, spec.base, num, small);
    assert [] + ([] + d) == d;
    if spec.base == 16 && spec.flags.special {
      var p := PrefixText(num, 16, spec.flags);
      PrefixedParse(p[1], k, num, small, tail, pbase);
      assert p == [ZERO, p[1]] && [] + (p + d) + tail == p + (d + tail);
    } else if spec.base == 8 && spec.flags.special && num != 0 {
      PaddedParse(k + 1, 8, num, small, tail, pbase);
      assert [ZERO] + d == Padded(k + 1, 8, num, small) && [] + ([ZERO] + d) == [ZERO] + d;
    } else {
      PaddedParse(k, spec.base, num, small, tail, pbase);
    }
  }

  /** The same for signed numbers in base ten. */
  lemma PrintParseSigned(num: int, spec: Spec, tail: seq<Byte>, pbase: int)
    requires spec.base == 10 && spec.flags.sign && !spec.flags.plus && !spec.flags.space
    requires 0 <= num < W64 && GoodSpec(spec) && NoSpaces(num, spec) && Ends(tail, 10)
    requires pbase == 10 || (pbase == 0 && ZeroCount(num, spec) == 0)
    ensures ParsedSigned(NumberText(num, spec) + tail, pbase) == (Signed64(num), |NumberText(num, spec)|)
  {
    hide Padded, Parsed, NumberText, NoSpaces, ZeroCount, Signed64, SignText;
    var k, small, m := ZeroCount(num, spec), spec.flags.small, Magnitude(num, spec.flags);
    PaddedParse(k, 10, m, small, tail, pbase);
    SignedShape(num, spec, tail);
    SignKept(num);
    SignIs(num, spec.flags);
    if Negative(num, spec.flags) { BehindSign(Ch('-'), Padded(k, 10, m, small) + tail); }
  }

  /** A signed number as printed: its sign, then digits. */
  lemma SignedShape(num: int, spec: Spec, tail: seq<Byte>)
    requires spec.base == 10 && 0 <= num < W64 && GoodSpec(spec) && NoSpaces(num, spec) && Ends(tail, 10)
    ensures var d := Padded(ZeroCount(num, spec), 10, Magnitude(num, spec.flags), spec.flags.small);
            var sign := SignText(num, spec.flags);
            && NumberText(num, spec) + tail == (if sign == [] then d + tail else [sign[0]] + (d + tail))
            && |NumberText(num, spec)| == |sign| + |d| && 1 <= |d| && DigitIn(10, Head(d + tail))
  {
    hide Padded, NumberText, NoSpaces, ZeroCount, DigitIn, SignText, NumberRun, Value;
    TextShape(num, spec);
    var d, sign := Padded(ZeroCount(num, spec), 10, Magnitude(num, spec.flags), spec.flags.small), SignText(num, spec.flags);
    PaddedRoundTrip(ZeroCount(num, spec), 10, Magnitude(num, spec.flags), spec.flags.small, tail);
    SignGlue(sign, d, tail, NumberText(num, spec));
  }

  lemma SignGlue(sign: seq<Byte>, d: seq<Byte>, tail: seq<Byte>, text: seq<Byte>)
    requires |sign| <= 1 && 1 <= |d| && text == sign + ([] + d)
    ensures text + tail == (if sign == [] then d + tail else [sign[0]] + (d + tail))
    ensures |text| == |sign| + |d| && Head(d + tail) == d[0]
  {
    assert sign != [] ==> sign == [sign[0]];
  }

  lemma BehindSign(c: Byte, rest: seq<Byte>)
    ensures Head([c] + rest) == c && ([c] + rest)[1..] == rest
  {
  }

  /** A field no wider than its number, with a precision no number outgrows, prints no spaces. */
  lemma NarrowNoSpaces(num: int, spec: Spec)
    requires 2 <= spec.base <= 16 && 0 <= num < W64 && -1 <= spec.width <= 1 && -1 <= spec.precision <= 64
    ensures NoSpaces(num, spec)
  {
    hide Digits;
    Fits64(spec.base, Magnitude(num, spec.flags));
  }

  // ---------------------------------------------------------------- strict parsing

  datatype StrtoError = EINVAL | ERANGE
  datatype Strto = Ok(value: int) | Err(error: StrtoError)

  /** A whole numeral, with nothing behind it but a newline. */
  function Whole(s: seq<Byte>, base: int): Strto {
    var end := Parsed(s, base).1;
    if end == HexPrefix(s, base) || !(end == |s| || s[end..] == [10]) then Err(EINVAL) else Ok(Parsed(s, base).0)
  }

  /** _kstrtoull. */
  method WholeNumber(s: seq<Byte>, base: int) returns (r: Strto)
    requires 0 <= base
    ensures r == Whole(s, base)
  {
    var skip, radix := FixupRadix(s, base);
    var rv, v := ParseInteger(s, skip, radix);
    if rv == 0 { return Err(EINVAL); }
    var end := skip + rv;
    ghost var stop := end;
    if CharAt(s, end) == 10 { end := end + 1; }
    assert s[stop..] == [10] <==> stop < |s| && s[stop] == 10 && stop + 1 == |s|;
    if end != |s| { return Err(EINVAL); }
    r := Ok(v);
  }

  /** What kstrtoll accepts: a sign, a whole numeral, and a value that keeps the sign it was written with. */
  function StrictSigned(s: seq<Byte>, base: int): Strto {
    if Head(s) == Ch('-') then
      var r := Whole(s[1..], base);
      if r.Ok? && Signed64(-r.value) >= 0 then Err(ERANGE) else if r.Ok? then Ok(Signed64(-r.value)) else r
    else
      var r := Whole(if Head(s) == Ch('+') then s[1..] else s, base);
      if r.Ok? && Signed64(r.value) < 0 then Err(ERANGE) else r
  }

  lemma WholePadded(k: nat, m: int, small: bool, tail: seq<Byte>, pbase: int)
    requires 0 <= m < W64 && (tail == [] || tail == [10]) && (pbase == 10 || (pbase == 0 && k == 0))
    ensures Whole(Padded(k, 10, m, small) + tail, pbase) == Ok(m)
  {
    hide Numeral, Parsed, Value;
    var d := Padded(k, 10, m, small);
    PaddedParse(k, 10, m, small, tail, pbase);
    PaddedRoundTrip(k, 10, m, small, tail);
    NoHexPrefix(d, tail, 10, pbase);
    assert (d + tail)[|d|..] == tail;
  }

  lemma SignKept(num: int)
    requires 0 <= num < W64
    ensures if num < W64 / 2 then Signed64(num) == num else Signed64(num) < 0 && Signed64(-(W64 - num)) == Signed64(num)
  {
  }

  lemma DigitNotSign(c: Byte)
    requires DigitIn(10, c)
    ensures c != Ch('-') && c != Ch('+')
  {
  }

  lemma LineEnds(tail: seq<Byte>)
    requires tail == [] || tail == [10]
    ensures Ends(tail, 10)
  {
  }

  lemma SignIs(num: int, flags: PrintFlags)
    requires flags.sign && !flags.space
    ensures SignText(num, flags) == if Negative(num, flags) then [Ch('-')] else if flags.plus then [Ch('+')] else []
  {
  }

  lemma StrictReads(rest: seq<Byte>, base: int, v: int)
    requires Whole(rest, base) == Ok(v) && DigitIn(10, Head(rest))
    ensures Signed64(-v) < 0 ==> StrictSigned([Ch('-')] + rest, base) == Ok(Signed64(-v))
    ensures Signed64(v) >= 0 ==> StrictSigned([Ch('+')] + rest, base) == Ok(v) && StrictSigned(rest, base) == Ok(v)
  {
    hide Whole, Signed64;
    BehindSign(Ch('-'), rest);
    BehindSign(Ch('+'), rest);
    DigitNotSign(Head(rest));
  }

  /** kstrtoll accepts every signed number as printed, with or without a newline, and returns it. */
  lemma PrintKstrtoll(num: int, spec: Spec, tail: seq<Byte>, pbase: int)
    requires spec.base == 10 && spec.flags.sign && !spec.flags.space && (tail == [] || tail == [10])
    requires 0 <= num < W64 && GoodSpec(spec) && NoSpaces(num, spec)
    requires pbase == 10 || (pbase == 0 && ZeroCount(num, spec) == 0)
    ensures StrictSigned(NumberText(num, spec) + tail, pbase) == Ok(Signed64(num))
  {
    hide Padded, Whole, NumberText, NoSpaces, ZeroCount, Signed64, DigitIn, StrictSigned, Ends, SignText;
    LineEnds(tail);
    var k, small, m, sign := ZeroCount(num, spec), spec.flags.small, Magnitude(num, spec.flags), SignText(num, spec.flags);
    WholePadded(k, m, small, tail, pbase);
    SignedShape(num, spec, tail);
    SignKept(num);
    StrictReads(Padded(k, 10, m, small) + tail, pbase, m);
    SignIs(num, spec.flags);
  }

  // ---------------------------------------------------------------- what the strict parsers accept

  predicate IsHexPrefix(p: seq<Byte>) { |p| == 2 && p[0] == ZERO && Or20(p[1]) == Ch('x') }

  /**
   * Prefix p and digits d make a numeral in base b when parsed with the given base: the base itself, with "0x" allowed for
   * sixteen; or for base 0 sixteen behind "0x", eight behind a leading zero, and ten otherwise.
   */
  ghost predicate IsNumeral(p: seq<Byte>, d: seq<Byte>, base: int, b: int) {
    && d != [] && AllDigits(d, b)
    && if p != [] then IsHexPrefix(p) && b == 16 && (base == 16 || base == 0)
       else if base != 0 then b == base
       else b == if d[0] == ZERO then 8 else 10
  }

  /** s is a numeral for n, with at most a newline behind it. */
  ghost predicate Denotes(s: seq<Byte>, base: int, n: int) {
    exists p, d, t, b :: SpelledAs(s, base, n, p, d, t, b)
  }

  ghost predicate SpelledAs(s: seq<Byte>, base: int, n: int, p: seq<Byte>, d: seq<Byte>, t: seq<Byte>, b: int) {
    s == p + d + t && IsNumeral(p, d, base, b) && (t == [] || t == [10]) && n == Value(d, b)
  }

  lemma DigitNotX(base: int, c: Byte)
    ensures DigitIn(base, c) ==> Or20(c) != Ch('x') && c != Ch('-') && c != Ch('+')
  {
  }

  /** The base is found and the prefix skipped as the spelling says. */
  lemma RadixIs(s: seq<Byte>, base: int, n: int, p: seq<Byte>, d: seq<Byte>, t: seq<Byte>, b: int)
    requires 0 <= base && SpelledAs(s, base, n, p, d, t, b)
    ensures Radix(s, base) == b && HexPrefix(s, base) == |p|
  {
    hide Value, DigitValue;
    DigitNotX(b, d[0]);
    if |d| > 1 { DigitNotX(b, d[1]); }
    if p == [] {
      assert s[0] == d[0] && (|d| > 1 ==> s[1] == d[1]) && (|d| == 1 && t != [] ==> s[1] == 10);
    } else {
      assert s[0] == p[0] && s[1] == p[1] && s[2..] == d + t && Head(d + t) == d[0];
    }
  }

  lemma EndIsNoDigit(t: seq<Byte>, b: int)
    requires t == [] || t == [10]
    ensures !DigitIn(b, Head(t))
  {
  }

  lemma SpelledParses(s: seq<Byte>, base: int, n: int, p: seq<Byte>, d: seq<Byte>, t: seq<Byte>, b: int)
    requires 0 <= base && SpelledAs(s, base, n, p, d, t, b)
    ensures Whole(s, base) == Ok(n % W64)
  {
    hide Radix, HexPrefix, Value, DigitValue;
    RadixIs(s, base, n, p, d, t, b);
    assert s == p + (d + t);
    EndIsNoDigit(t, b);
    ParsedIs(p, d, t, b, base);
    assert s[|p| + |d|..] == t;
  }

  lemma {:induction false} RunDigits(s: seq<Byte>, base: int)
    ensures AllDigits(s[..NumberRun(s, base)], base)
  {
    if s != [] && DigitIn(base, s[0]) {
      RunDigits(s[1..], base);
      var n := NumberRun(s[1..], base);
      assert s[..n + 1] == [s[0]] + s[1..][..n];
    }
  }

  lemma AcceptedDenotes(s: seq<Byte>, base: int) returns (n: int)
    requires 0 <= base && Whole(s, base).Ok?
    ensures Denotes(s, base, n)
  {
    hide Value, DigitValue, DigitIn, NumberRun;
    var skip, b := HexPrefix(s, base), Radix(s, base);
    var k := NumberRun(s[skip..], b);
    RunDigits(s[skip..], b);
    var p, d, t := s[..skip], s[skip..skip + k], s[skip + k..];
    assert d == s[skip..][..k] && s == p + d + t;
    n := Value(d, b);
    assert SpelledAs(s, base, n, p, d, t, b);
  }

  /** The strict parser accepts exactly the texts that denote a number, and returns that number modulo 2^64. */
  lemma WholeIff(s: seq<Byte>, base: int)
    requires 0 <= base
    ensures Whole(s, base).Ok? <==> exists n :: Denotes(s, base, n)
    ensures forall n :: Denotes(s, base, n) ==> Whole(s, base) == Ok(n % W64)
    ensures Whole(s, base).Err? ==> Whole(s, base) == Err(EINVAL)
  {
    hide SpelledAs, Radix, HexPrefix, Parsed;
    forall n | Denotes(s, base, n) ensures Whole(s, base) == Ok(n % W64) {
      var p, d, t, b :| SpelledAs(s, base, n, p, d, t, b);
      SpelledParses(s, base, n, p, d, t, b);
    }
    if Whole(s, base).Ok? {
      var n := AcceptedDenotes(s, base);
    }
  }

  /** A number with an optional plus sign. */
  ghost predicate DenotesPlus(s: seq<Byte>, base: int, n: int) {
    Denotes(s, base, n) || (Head(s) == Ch('+') && Denotes(s[1..], base, n))
  }

  /** A number behind a minus sign. */
  ghost predicate DenotesMinus(s: seq<Byte>, base: int, n: int) {
    Head(s) == Ch('-') && Denotes(s[1..], base, n)
  }

  lemma NoSignInFront(s: seq<Byte>, base: int, n: int)
    requires 0 <= base && Denotes(s, base, n)
    ensures Head(s) != Ch('+') && Head(s) != Ch('-')
  {
    var p, d, t, b :| SpelledAs(s, base, n, p, d, t, b);
    DigitNotX(b, d[0]);
    assert Head(s) == if p == [] then d[0] else p[0];
  }

  /**
   * The meaning of an unsigned reading r, over all texts: a text is accepted if and only if it is a number with an
   * optional plus sign, and the number is returned modulo 2^64.
   */
  ghost predicate ReadsUnsigned(s: seq<Byte>, base: int, r: Strto) {
    && (r.Ok? <==> exists n :: DenotesPlus(s, base, n))
    && (forall n :: DenotesPlus(s, base, n) ==> r == Ok(n % W64) && (r == Ok(n) <==> 0 <= n < W64))
    && (r.Err? ==> r == Err(EINVAL))
  }

  lemma KstrtoullMeaning(s: seq<Byte>, base: int)
    requires 0 <= base
    ensures ReadsUnsigned(s, base, Whole(if Head(s) == Ch('+') then s[1..] else s, base))
  {
    hide Denotes, Whole;
    WholeIff(s, base);
    if s != [] { WholeIff(s[1..], base); }
    forall n | Denotes(s, base, n) ensures Head(s) != Ch('+') { NoSignInFront(s, base, n); }
    if Head(s) == Ch('+') {
      if n :| Denotes(s[1..], base, n) { assert DenotesPlus(s, base, n); }
    } else {
      if n :| Denotes(s, base, n) { assert DenotesPlus(s, base, n); }
    }
  }

  /**
   * The meaning of a signed reading r, over all texts. Without a minus sign the number modulo 2^64 is returned if it is
   * below 2^63. Behind a minus sign its negation is returned if it is at least 1 and at most 2^63. A number outside is out
   * of range, zero behind a minus sign included; a text that is no number is invalid.
   */
  ghost predicate ReadsSigned(s: seq<Byte>, base: int, r: Strto) {
    && (forall n :: DenotesPlus(s, base, n) ==> r == if n % W64 < W64 / 2 then Ok(n % W64) else Err(ERANGE))
    && (forall n :: DenotesMinus(s, base, n) ==>
          r == if 1 <= n % W64 <= W64 / 2 then Ok(-(n % W64)) else Err(ERANGE))
    && ((forall n :: !DenotesPlus(s, base, n) && !DenotesMinus(s, base, n)) ==> r == Err(EINVAL))
  }

  lemma SignOfValue(v: int)
    requires 0 <= v < W64
    ensures Signed64(v) < 0 <==> v >= W64 / 2
    ensures v < W64 / 2 ==> Signed64(v) == v
    ensures Signed64(-v) >= 0 <==> !(1 <= v <= W64 / 2)
    ensures 1 <= v <= W64 / 2 ==> Signed64(-v) == -v
  {
  }

  lemma StrictPlus(s: seq<Byte>, base: int)
    requires 0 <= base && Head(s) != Ch('-')
    ensures ReadsSigned(s, base, StrictSigned(s, base))
  {
    KstrtoullMeaning(s, base);
    hide DenotesPlus, Denotes, Whole, Signed64;
    var r := Whole(if Head(s) == Ch('+') then s[1..] else s, base);
    if r.Ok? { SignOfValue(r.value); }
  }

  lemma StrictMinus(s: seq<Byte>, base: int)
    requires 0 <= base && Head(s) == Ch('-')
    ensures ReadsSigned(s, base, StrictSigned(s, base))
  {
    hide Denotes, Whole, Signed64;
    WholeIff(s[1..], base);
    forall n ensures !Denotes(s, base, n) {
      if Denotes(s, base, n) { NoSignInFront(s, base, n); }
    }
    var r := Whole(s[1..], base);
    if r.Ok? {
      SignOfValue(r.value);
      var n :| Denotes(s[1..], base, n);
      assert DenotesMinus(s, base, n);
    }
  }

  lemma KstrtollMeaning(s: seq<Byte>, base: int)
    requires 0 <= base
    ensures ReadsSigned(s, base, StrictSigned(s, base))
  {
    hide ReadsSigned;
    if Head(s) == Ch('-') { StrictMinus(s, base); } else { StrictPlus(s, base); }
  }

  /** kstrtoull. */
  method Kstrtoull(s: seq<Byte>, base: int) returns (r: Strto)
    requires 0 <= base
    ensures ReadsUnsigned(s, base, r)
    ensures r == Whole(if Head(s) == Ch('+') then s[1..] else s, base)
  {
    hide ReadsUnsigned;
    if Head(s) == Ch('+') { r := WholeNumber(s[1..], base); } else { r := WholeNumber(s, base); }
    KstrtoullMeaning(s, base);
  }

  /** kstrtoll. */
  method Kstrtoll(s: seq<Byte>, base: int) returns (r: Strto)
    requires 0 <= base
    ensures ReadsSigned(s, base, r)
  {
    hide ReadsSigned, ReadsUnsigned;
    KstrtollMeaning(s, base);
    if Head(s) == Ch('-') {
      r := WholeNumber(s[1..], base);
      if r.Err? { return; }
      if Signed64(-r.value) >= 0 { return Err(ERANGE); }
      r := Ok(Signed64(-r.value));
    } else {
      r := Kstrtoull(s, base);
      if r.Err? { return; }
      if Signed64(r.value) < 0 { return Err(ERANGE); }
    }
  }

  /** "-0" is refused. */
  lemma MinusZeroRefused()
    ensures StrictSigned([Ch('-'), Ch('0')], 10) == Err(ERANGE)
  {
    var s, d := [Ch('-'), Ch('0')], [Ch('0')];
    assert s[1..] == d;
    ValueSnoc([], Ch('0'), 10);
    assert [] + [Ch('0')] == d && [] + d + [] == d;
    assert SpelledAs(d, 10, 0, [], d, [], 10);
    assert Denotes(d, 10, 0) && DenotesMinus(s, 10, 0);
    KstrtollMeaning(s, 10);
  }
}
