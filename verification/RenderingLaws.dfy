/** What the integer renderings mean, and exactly how far they are what they should be. */
module RenderingLaws {
  import opened Bytes
  import opened Numerals
  import opened Format
  import opened Rendering
  import Itoa
  import Printing

  /** The field that the C standard asks for (section 7.21.6.1 of ISO/IEC 9899:2011): zeros up to the precision or,
      unless left-aligned, to the zero-filled width, the sign before them, spaces outside. */
  function Ideal(digits: seq<byte>, sign: seq<byte>, f: Field): seq<byte> {
    var zeros: seq<byte> := seq(Less(BodyLength(digits, sign, f), |digits|), i => '0' as int);
    Spread(sign + zeros + digits, f.width, f.left)
  }

  /** A text with the spaces that a width asks for behind or before it. */
  function Spread(text: seq<byte>, width: nat, left: bool): seq<byte> {
    var spaces: seq<byte> := seq(Less(width, |text|), i => ' ' as int);
    if left then text + spaces else spaces + text
  }

  function Less(a: nat, b: nat): nat {
    if a < b then 0 else a - b
  }

  /** `Padded` does that, except that it leaves out the spaces where zero fill takes their place. */
  lemma {:induction false} SpreadIs(text: seq<byte>, width: nat, left: bool)
    ensures Spread(text, width, left) == Padded(text, width, left, false)
    ensures left || |text| >= width ==> Spread(text, width, left) == Padded(text, width, left, true)
  {
    assert Repeat(SPACE, 0) + text == text;
  }

  lemma {:induction false} IdealIs(digits: seq<byte>, sign: seq<byte>, f: Field)
    ensures Ideal(digits, sign, f) == Padded(IdealBody(digits, sign, f), f.width, f.left, f.zeroPad)
  {
    var body := IdealBody(digits, sign, f);
    var zeros: seq<byte> := seq(Less(BodyLength(digits, sign, f), |digits|), i => '0' as int);
    assert zeros == Repeat(DIGIT_0, Monus(BodyLength(digits, sign, f), |digits|));
    SpreadIs(body, f.width, f.left);
    assert f.zeroPad && !f.left ==> |body| >= f.width;
    hide Spread;
    hide Padded;
    hide BodyLength;
    hide Repeat;
  }

  /** How many digits and zeros the field asks for. */
  function BodyLength(digits: seq<byte>, sign: seq<byte>, f: Field): nat {
    Max(|digits|, Max(f.prec, if f.zeroPad && !f.left then Less(f.width, |sign|) else 0))
  }

  function Max(a: nat, b: nat): nat {
    if a > b then a else b
  }

  /** Sign, zeros and digits fit in the conversion buffer, or all that is lost is a space that padding restores. */
  predicate FitsBuffer(digits: seq<byte>, sign: seq<byte>, f: Field) {
    var n := BodyLength(digits, sign, f);
    || n + |sign| <= NTOA_BUFFER
    || (sign == [SPACE] && n == NTOA_BUFFER && f.width > NTOA_BUFFER && !f.left && !f.zeroPad)
  }

  /** The precision asks for no zeros, or is not hidden by left alignment. */
  predicate PrecisionShows(digits: seq<byte>, f: Field) {
    f.left ==> f.prec <= |digits|
  }

  /** Before padding, the code's text: what fits of the zeros, and the sign if there is still room. */
  function Body(digits: seq<byte>, sign: seq<byte>, f: Field): seq<byte> {
    var n := BodyLength(digits, sign, f);
    Prefixed(Repeat(DIGIT_0, Monus(if n < NTOA_BUFFER then n else NTOA_BUFFER, |digits|)) + digits, sign)
  }

  lemma {:induction false} FillTwice(digits: seq<byte>, a: nat, b: nat)
    requires |digits| <= NTOA_BUFFER
    ensures Fill(Fill(digits, a), b)
         == Repeat(DIGIT_0, Monus(if Max(a, b) < NTOA_BUFFER then Max(a, b) else NTOA_BUFFER, |digits|)) + digits
  {
  }

  /** Zero fill leaves room for the sign; no other field is narrowed. */
  lemma {:induction false} DigitWidthIs(negative: bool, f: Field)
    ensures var sign := SignText(negative, f);
            |sign| <= 1 && DigitWidth(negative, f) == if f.zeroPad && !f.left then Less(f.width, |sign|) else f.width
  {
  }

  lemma {:induction false} ZerosAndDigits(digits: seq<byte>, negative: bool, f: Field)
    requires |digits| <= NTOA_BUFFER && (f.left ==> f.prec <= |digits|)
    ensures var n := BodyLength(digits, SignText(negative, f), f);
            ZeroPadded(digits, negative, f)
            == Repeat(DIGIT_0, Monus(if n < NTOA_BUFFER then n else NTOA_BUFFER, |digits|)) + digits
  {
    DigitWidthIs(negative, f);
    if f.left {
      assert Repeat(DIGIT_0, 0) + digits == digits;
    } else {
      FillTwice(digits, f.prec, if f.zeroPad then DigitWidth(negative, f) else 0);
    }
    hide Fill;
    hide Repeat;
    hide DigitWidth;
    hide SignText;
  }

  lemma {:induction false} NoSpacesDue(text: seq<byte>, negative: bool, f: Field)
    ensures Padded(text, DigitWidth(negative, f), f.left, f.zeroPad) == Padded(text, f.width, f.left, f.zeroPad)
  {
    DigitWidthIs(negative, f);
    hide DigitWidth;
    hide SignText;
    hide Repeat;
  }

  lemma {:induction false} UnhashedFormat(digits: seq<byte>, negative: bool, base: nat, upper: bool, f: Field)
    requires !f.hash
    ensures NtoaFormat(digits, negative, base, upper, f)
         == Padded(Prefixed(ZeroPadded(digits, negative, f), SignText(negative, f)), DigitWidth(negative, f), f.left, f.zeroPad)
  {
    hide Padded;
    hide Prefixed;
    hide ZeroPadded;
    hide SignText;
    hide DigitWidth;
  }

  lemma {:induction false} FormatIsBody(digits: seq<byte>, negative: bool, base: nat, upper: bool, f: Field)
    requires |digits| <= NTOA_BUFFER && !f.hash && (f.left ==> f.prec <= |digits|)
    ensures var sign := SignText(negative, f);
            NtoaFormat(digits, negative, base, upper, f) == Padded(Body(digits, sign, f), f.width, f.left, f.zeroPad)
  {
    UnhashedFormat(digits, negative, base, upper, f);
    ZerosAndDigits(digits, negative, f);
    NoSpacesDue(Prefixed(ZeroPadded(digits, negative, f), SignText(negative, f)), negative, f);
    hide NtoaFormat;
    hide ZeroPadded;
    hide SignText;
    hide Padded;
    hide Prefixed;
    hide Repeat;
    hide BodyLength;
  }

  /** Characters of digits, as opposed to signs and spaces. */
  predicate DigitLike(cs: seq<byte>) {
    forall i :: 0 <= i < |cs| ==> cs[i] >= DIGIT_0
  }

  /** The sign, zeros and digits of the ideal field, unpadded. */
  function IdealBody(digits: seq<byte>, sign: seq<byte>, f: Field): seq<byte> {
    sign + Repeat(DIGIT_0, Monus(BodyLength(digits, sign, f), |digits|)) + digits
  }

  lemma {:induction false} RoomSuffices(digits: seq<byte>, sign: seq<byte>, f: Field)
    requires |digits| <= NTOA_BUFFER && |sign| <= 1 && FitsBuffer(digits, sign, f)
    ensures Padded(Body(digits, sign, f), f.width, f.left, f.zeroPad) == Ideal(digits, sign, f)
  {
    IdealIs(digits, sign, f);
    hide Ideal;
    var n := BodyLength(digits, sign, f);
    var zeros := Repeat(DIGIT_0, Monus(n, |digits|));
    if n + |sign| <= NTOA_BUFFER {
      assert sign + (zeros + digits) == sign + zeros + digits;
      if sign == [] { assert [] + (zeros + digits) == zeros + digits; }
    } else {
      var text := zeros + digits;
      assert [SPACE] + text == [SPACE] + zeros + digits;
      PadShift(text, f.width);
    }
  }

  lemma {:induction false} PadShift(text: seq<byte>, width: nat)
    requires width > |text|
    ensures Repeat(SPACE, width - |text|) + text == Repeat(SPACE, width - |text| - 1) + ([SPACE] + text)
  {
  }

  /** What stands at a place of a padded text, and how long it is. */
  lemma {:induction false} PaddedAt(text: seq<byte>, width: nat, left: bool, zeroPad: bool, j: nat)
    ensures var (padded, n) := (Padded(text, width, left, zeroPad), Monus(width, |text|));
            && |padded| == |text| + (if zeroPad && !left then 0 else n)
            && (left && j < |text| ==> padded[j] == text[j])
            && (!left && !zeroPad && j < n ==> padded[j] == SPACE)
            && (!left && !zeroPad && n <= j < n + |text| ==> padded[j] == text[j - n])
  {
  }

  /** Without room the sign is lost or digits are, and that shows. */
  lemma {:induction false} RoomIsNeeded(digits: seq<byte>, sign: seq<byte>, f: Field)
    requires |digits| <= NTOA_BUFFER && DigitLike(digits) && sign in {[], [MINUS], [PLUS], [SPACE]}
    requires !FitsBuffer(digits, sign, f) && PrecisionShows(digits, f)
    ensures Padded(Body(digits, sign, f), f.width, f.left, f.zeroPad) != Ideal(digits, sign, f)
  {
    var b, i := Body(digits, sign, f), IdealBody(digits, sign, f);
    FullBody(digits, sign, f);
    IdealIs(digits, sign, f);
    hide *;
    var j := if f.left || f.width < |i| then 0 else f.width - |b| - 1;
    PaddedAt(b, f.width, f.left, f.zeroPad, j);
    PaddedAt(i, f.width, f.left, f.zeroPad, j);
    MonusIs(f.width, |b|);
    MonusIs(f.width, |i|);
  }

  lemma {:induction false} MonusIs(a: int, b: int)
    ensures Monus(a, b) == if a > b then a - b else 0
  {
  }

  /** A body that fills the buffer, and one longer than that: what tells them apart. */
  lemma {:induction false} FullBody(digits: seq<byte>, sign: seq<byte>, f: Field)
    requires |digits| <= NTOA_BUFFER && DigitLike(digits) && sign in {[], [MINUS], [PLUS], [SPACE]}
    requires !FitsBuffer(digits, sign, f) && PrecisionShows(digits, f)
    ensures var (b, i) := (Body(digits, sign, f), IdealBody(digits, sign, f));
            && 0 < |b| < |i|
            && (f.left ==> i[0] != b[0])
            && (!f.left && !f.zeroPad && f.width >= |i| ==> i[|i| - |b| - 1] != SPACE)
            && (!f.left && f.zeroPad ==> |i| >= f.width)
  {
    var n := BodyLength(digits, sign, f);
    SignAndBody(digits, sign, f);
    assert n + |sign| > NTOA_BUFFER;
    hide Body;
    hide IdealBody;
    hide DigitLike;
  }

  lemma {:induction false} SignAndBody(digits: seq<byte>, sign: seq<byte>, f: Field)
    requires |digits| <= NTOA_BUFFER && DigitLike(digits) && sign in {[], [MINUS], [PLUS], [SPACE]}
    requires BodyLength(digits, sign, f) + |sign| > NTOA_BUFFER
    ensures var (b, i, n) := (Body(digits, sign, f), IdealBody(digits, sign, f), BodyLength(digits, sign, f));
            && |b| == NTOA_BUFFER && b[0] >= DIGIT_0 && |i| == |sign| + n
            && (sign != [] ==> i[0] == sign[0])
            && (n > NTOA_BUFFER ==> i[|i| - NTOA_BUFFER - 1] >= DIGIT_0)
            && (n == NTOA_BUFFER ==> i[0] == sign[0])
  {
  }

  /** A precision that left alignment makes the code ignore shows, too. */
  lemma {:induction false} PrecisionIsLost(digits: seq<byte>, negative: bool, base: nat, upper: bool, f: Field)
    requires |digits| <= NTOA_BUFFER && DigitLike(digits) && !f.hash && f.left && f.prec > |digits|
    ensures NtoaFormat(digits, negative, base, upper, f) != Ideal(digits, SignText(negative, f), f)
  {
    var sign := SignText(negative, f);
    var b, i := Prefixed(digits, sign), IdealBody(digits, sign, f);
    LeftFormat(digits, negative, base, upper, f);
    LongerBody(digits, sign, f);
    hide NtoaFormat;
    hide IdealBody;
    var code, ideal := NtoaFormat(digits, negative, base, upper, f), Ideal(digits, sign, f);
    IdealIs(digits, sign, f);
    assert ideal == Padded(i, f.width, f.left, f.zeroPad);
    assert ideal[|b|] == i[|b|];
    if |code| > |b| { assert code[|b|] == SPACE; }
  }

  lemma {:induction false} LeftFormat(digits: seq<byte>, negative: bool, base: nat, upper: bool, f: Field)
    requires !f.hash && f.left
    ensures NtoaFormat(digits, negative, base, upper, f)
         == Padded(Prefixed(digits, SignText(negative, f)), f.width, true, f.zeroPad)
  {
  }

  lemma {:induction false} LongerBody(digits: seq<byte>, sign: seq<byte>, f: Field)
    requires |digits| <= NTOA_BUFFER && DigitLike(digits) && |sign| <= 1 && f.prec > |digits|
    ensures var b, i := Prefixed(digits, sign), IdealBody(digits, sign, f);
            |b| < |i| && i[|b|] >= DIGIT_0
  {
  }

  /** The integer format law, for every field without '#': the text is the field of the C standard if and only if
      the conversion buffer has room and left alignment does not hide a precision. */
  lemma {:induction false} FormatExact(digits: seq<byte>, negative: bool, base: nat, upper: bool, f: Field)
    requires |digits| <= NTOA_BUFFER && DigitLike(digits) && !f.hash
    ensures var sign := SignText(negative, f);
            NtoaFormat(digits, negative, base, upper, f) == Ideal(digits, sign, f)
            <==> FitsBuffer(digits, sign, f) && PrecisionShows(digits, f)
  {
    var sign := SignText(negative, f);
    hide NtoaFormat;
    hide Ideal;
    hide Body;
    if !PrecisionShows(digits, f) {
      PrecisionIsLost(digits, negative, base, upper, f);
      return;
    }
    FormatIsBody(digits, negative, base, upper, f);
    if FitsBuffer(digits, sign, f) {
      RoomSuffices(digits, sign, f);
    } else {
      RoomIsNeeded(digits, sign, f);
    }
  }

  /** The ideal field is as long as its widest demand, whatever the alignment and padding. */
  lemma {:induction false} IdealLength(digits: seq<byte>, sign: seq<byte>, f: Field)
    requires |sign| <= 1
    ensures |Ideal(digits, sign, f)| == Max(f.width, |sign| + Max(|digits|, f.prec))
  {
  }

  lemma {:induction false} DigitsAreDigitLike(value: nat, base: nat, upper: bool, hasPrec: bool)
    requires 2 <= base <= 16
    ensures DigitLike(NtoaDigits(value, base, upper, hasPrec))
  {
    NumeralIsCanonical(value, base);
    var ds := Numeral(value, base);
    hide Numeral;
    TailBelow(ds, base, NTOA_BUFFER);
    CharsAreDigitLike(Tail(ds, NTOA_BUFFER), if upper then UPPER_A else LOWER_A);
  }

  lemma {:induction false} TailBelow(ds: seq<nat>, base: nat, k: nat)
    requires forall i :: 0 <= i < |ds| ==> ds[i] < base
    ensures forall i :: 0 <= i < |Tail(ds, k)| ==> Tail(ds, k)[i] < base
  {
  }

  lemma {:induction false} CharsAreDigitLike(ds: seq<nat>, letterA: byte)
    requires letterA in {LOWER_A, UPPER_A} && forall i :: 0 <= i < |ds| ==> ds[i] < 16
    ensures DigitLike(Chars(ds, letterA))
  {
  }

  /** The layout alone, for value, digits and field as the code reads them: without an effective '#' they are laid out
      as the standard asks if and only if the conversion buffer has room and left alignment hides no precision. */
  lemma {:induction false} IntegerTextExact(spec: byte, length: seq<byte>, f: Field, a: Arg)
    requires Fits(a, if IsLongLong(length) then KDWord else KWord)
    requires f.hash ==> BaseOf(spec) == 10 || IntegerOf(spec, length, a) == 0
    ensures var (v, g) := (IntegerOf(spec, length, a), IntegerField(spec, f));
            var digits := NtoaDigits(if v < 0 then -v else v, BaseOf(spec), spec == UPPER_X, g.hasPrec);
            IntegerText(spec, length, f, a) == Ideal(digits, SignText(v < 0, g), g)
            <==> FitsBuffer(digits, SignText(v < 0, g), g) && PrecisionShows(digits, g)
  {
    hide Ntoa;
    hide NtoaDigits;
    hide Ideal;
    hide FitsBuffer;
    hide SignText;
    hide IntegerOf;
    var v := IntegerOf(spec, length, a);
    NtoaExact(if v < 0 then -v else v, v < 0, BaseOf(spec), spec == UPPER_X, IntegerField(spec, f));
  }

  lemma {:induction false} NtoaExact(value: nat, negative: bool, base: nat, upper: bool, g: Field)
    requires 2 <= base <= 16 && (g.hash ==> value == 0)
    ensures var (digits, sign) := (NtoaDigits(value, base, upper, g.hasPrec), SignText(negative, g));
            Ntoa(value, negative, base, upper, g) == Ideal(digits, sign, g)
            <==> FitsBuffer(digits, sign, g) && PrecisionShows(digits, g)
  {
    var digits, h := NtoaDigits(value, base, upper, g.hasPrec), g.(hash := false);
    DigitsAreDigitLike(value, base, upper, g.hasPrec);
    HashAside(digits, negative, g);
    hide NtoaDigits;
    hide NtoaFormat;
    hide Ideal;
    hide FitsBuffer;
    hide DigitLike;
    FormatExact(digits, negative, base, upper, h);
  }

  lemma {:induction false} HashAside(digits: seq<byte>, negative: bool, g: Field)
    ensures var (h, sign) := (g.(hash := false), SignText(negative, g));
            && SignText(negative, h) == sign
            && Ideal(digits, sign, h) == Ideal(digits, sign, g) && FitsBuffer(digits, sign, h) == FitsBuffer(digits, sign, g)
  {
  }

  /** The digits of a 32-bit argument are all there, and so are those of a 64-bit one except in base 2. */
  lemma {:induction false} DigitsDenote(value: nat, base: nat, upper: bool)
    requires base in {2, 8, 10, 16} && value < TWO_64 && (base == 2 ==> value < TWO_32)
    ensures NtoaDigits(value, base, upper, false) == Chars(Numeral(value, base), if upper then UPPER_A else LOWER_A)
    ensures Value(Numeral(value, base), base) == value
  {
    ValueOfNumeral(value, base);
    FourBytes();
    EightBytes();
    if base == 2 {
      DigitsOfBytes(value, 2, 4);
    } else {
      PowQuarters(base, 8);
      NumeralLength(value, base, 32);
    }
  }

  // ----- the value of an argument

  /** The argument as it was passed. */
  function Passed(length: seq<byte>, a: Arg): nat
    requires Fits(a, if IsLongLong(length) then KDWord else KWord)
  {
    if IsLongLong(length) then a.d else a.w
  }

  /** The types that the length modifiers ask for are told apart by how many values they have. */
  predicate SameModulo(x: int, v: int, length: seq<byte>) {
    if IsLongLong(length) then (x - v) % TWO_64 == 0
    else if length == [LOWER_H, LOWER_H] then (x - v) % 256 == 0
    else if length == [LOWER_H] then (x - v) % 0x1_0000 == 0
    else (x - v) % TWO_32 == 0
  }

  function TypeSize(length: seq<byte>): int {
    if IsLongLong(length) then TWO_64
    else if length == [LOWER_H, LOWER_H] then 256
    else if length == [LOWER_H] then 0x1_0000
    else TWO_32
  }

  /** `v` is `x` converted to the signed or unsigned type that the length modifier asks for. */
  predicate Converted(v: int, x: nat, length: seq<byte>, signed: bool) {
    SameModulo(x, v, length) && if signed then -TypeSize(length) <= 2 * v < TypeSize(length) else 0 <= v < TypeSize(length)
  }

  lemma {:induction false} ConvertedUnique(v: int, w: int, x: nat, length: seq<byte>, signed: bool)
    requires Converted(v, x, length, signed) && Converted(w, x, length, signed)
    ensures v == w
  {
    hide *;
    ConvertedIs(v, x, length, signed);
    ConvertedIs(w, x, length, signed);
    SameResidue(v, w, x, TypeSize(length));
  }

  lemma {:induction false} SameResidue(v: int, w: int, x: int, m: int)
    requires m > 0 && (x - v) % m == 0 && (x - w) % m == 0 && -m < v - w < m
    ensures v == w
  {
    var i, j := (x - v) / m, (x - w) / m;
    assert x - v == m * i && x - w == m * j;
    var k := j - i;
    assert v - w == m * k;
    SmallMultiple(m, k);
  }

  lemma {:induction false} SmallMultiple(m: int, k: int)
    requires m > 0
    ensures k >= 1 ==> m * k >= m
    ensures k <= -1 ==> m * k <= -m
  {
    if k >= 1 {
      assert m * (k - 1) >= 0;
    } else if k <= -1 {
      assert m * (-1 - k) >= 0;
    }
  }

  lemma {:induction false} LowPart(x: nat, m: nat)
    requires m > 0
    ensures 0 <= x % m < m && (x - x % m) % m == 0 && (x - (x % m - m)) % m == 0
  {
    var q := x / m;
    assert x - x % m == q * m + 0;
    assert x - (x % m - m) == (q + 1) * m + 0;
    RemainderIs(q, 0, m);
    RemainderIs(q + 1, 0, m);
  }

  /** What is rendered, from the low bits of the argument. */
  lemma {:induction false} IntegerOfIs(spec: byte, length: seq<byte>, a: Arg)
    requires Fits(a, if IsLongLong(length) then KDWord else KWord)
    ensures var m := TypeSize(length);
            m > 0 && var u := Passed(length, a) % m;
                     IntegerOf(spec, length, a)
                     == if IsSigned(spec) && length != [LOWER_H, LOWER_H] && 2 * u >= m then u - m else u
  {
    hide IsSigned;
  }

  lemma {:induction false} ConvertedIs(v: int, x: nat, length: seq<byte>, signed: bool)
    ensures var m := TypeSize(length);
            && m in {TWO_64, 256, 0x1_0000, TWO_32} && (length == [LOWER_H, LOWER_H] ==> m == 256)
            && (Converted(v, x, length, signed)
                <==> (x - v) % m == 0 && if signed then -m <= 2 * v < m else 0 <= v < m)
  {
  }

  /** The integer rendered is the argument converted to the type that specifier and length ask for, except for
      "%hhd" and "%hhi" of a byte above 127: there it is the unsigned `char`. */
  lemma {:induction false} IntegerOfExact(spec: byte, length: seq<byte>, a: Arg)
    requires Fits(a, if IsLongLong(length) then KDWord else KWord)
    ensures Converted(IntegerOf(spec, length, a), Passed(length, a), length, IsSigned(spec))
            <==> !(IsSigned(spec) && length == [LOWER_H, LOWER_H] && Passed(length, a) % 256 >= 128)
    ensures Converted(IntegerOf(spec, length, a), Passed(length, a), length,
                      IsSigned(spec) && length != [LOWER_H, LOWER_H])
  {
    hide *;
    var v, x := IntegerOf(spec, length, a), Passed(length, a);
    IntegerOfIs(spec, length, a);
    ConvertedIs(v, x, length, IsSigned(spec));
    ConvertedIs(v, x, length, IsSigned(spec) && length != [LOWER_H, LOWER_H]);
    LowPart(x, TypeSize(length));
  }

  // ----- the printers agree

  /** A field without flags, width or precision. */
  const BARE: Field := Field(false, false, false, false, false, false, 0, 0)

  lemma {:induction false} BareFormat(digits: seq<byte>, base: nat, upper: bool)
    ensures NtoaFormat(digits, false, base, upper, BARE) == digits
  {
    assert Repeat(DIGIT_0, 0) + digits == digits && Repeat(SPACE, 0) + digits == digits && [] + digits == digits;
  }

  /** For every 32-bit value and every base they share, the four printers write the same numeral. */
  lemma {:induction false} PrintersAgree(value: nat, base: nat)
    requires value < TWO_32 && 2 <= base <= 36
    ensures Ntoa(value, false, base, true, BARE) == Printing.NumberText(value, base) == Chars(Numeral(value, base), UPPER_A)
    ensures Ntoa(value, false, base, false, BARE) == Chars(Numeral(value, base), LOWER_A)
    ensures value < TWO_31 ==> Itoa.Rendering(value, base) == Chars(Numeral(value, base), LOWER_A)
  {
    FourBytes();
    DigitsOfBytes(value, base, 4);
    hide NtoaFormat;
    hide Chars;
    Printing.NumberTextIsNumeral(value, base);
    BareFormat(Chars(Numeral(value, base), UPPER_A), base, true);
    BareFormat(Chars(Numeral(value, base), LOWER_A), base, false);
  }

  /** For any value the 32-slot buffer holds digits that denote the value modulo the base to the 32, and the
      64-bit printers agree exactly when that is the value itself. */
  lemma {:induction false} LongDigits(value: nat, base: nat)
    requires base >= 2
    ensures var kept := Tail(Numeral(value, base), NTOA_BUFFER);
            && Ntoa(value, false, base, true, BARE) == Chars(kept, UPPER_A)
            && Pow(base, NTOA_BUFFER) > 0 && Value(kept, base) == value % Pow(base, NTOA_BUFFER)
            && (kept == Numeral(value, base) <==> value < Pow(base, NTOA_BUFFER))
  {
    hide NtoaFormat;
    hide Pow;
    ValueOfTail(value, base, NTOA_BUFFER);
    NumeralLength(value, base, NTOA_BUFFER);
    BareFormat(Chars(Tail(Numeral(value, base), NTOA_BUFFER), UPPER_A), base, true);
  }

  // ----- formats as lists of items

  /** A format printed from any list of literals and plain directives writes the texts of that list's
      items one after the other, with the arguments in order. */
  lemma {:induction false} FormatMeans(items: seq<Item>, args: seq<Arg>)
    requires forall k :: 0 <= k < |items| ==> PlainItem(items[k])
    ensures Decode(Show(items), 0) == items
    ensures Accepts(items, args) ==> Accepts(Decode(Show(items), 0), args)
                                     && Output(Decode(Show(items), 0), args) == Output(items, args)
  {
    assert Show(items)[0..] == Show(items);
    DecodeShown(Show(items), 0, items);
  }
}
