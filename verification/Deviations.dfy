/** One input for each way in which the text of a directive fails to be the standard's. */
module Deviations {
  import opened Bytes
  import opened Numerals
  import opened Format
  import opened Rendering
  import opened Denotation
  import opened HashFlag
  import opened Standard
  import opened StandardHash
  import Laws = RenderingLaws
  import Other = StandardOutput

  /** A format of one plain directive writes the text of that directive. */
  lemma {:induction false} OneDirective(fmt: seq<byte>, d: Directive, args: seq<Arg>)
    requires fmt == [PERCENT] + ShowDirective(d) && Plain(d) && !IsUnsupported(d.spec) && FitAll(args, Kinds(d))
    ensures Decode(fmt, 0) == [Conversion(d)] && Accepts([Conversion(d)], args)
    ensures Output([Conversion(d)], args) == ConversionText(d, args)
  {
    var items := [Conversion(d)];
    assert items[1..] == [] && Show(items) == fmt && fmt[0..] == fmt;
    assert forall k :: 0 <= k < |items| ==> PlainItem(items[k]);
    assert args[..|Kinds(d)|] == args && args[|Kinds(d)|..] == [];
    assert Accepts([], []) && Output([], []) == [];
    hide ConversionText;
    hide Plain;
    hide Kinds;
    hide ShowDirective;
    hide Decode;
    DecodeShown(fmt, 0, items);
  }

  /** What the code makes of digits and a field. */
  function Laid(digits: seq<byte>, negative: bool, h: Field): seq<byte> {
    Padded(Prefixed(ZeroPadded(digits, negative, h), SignText(negative, h)), DigitWidth(negative, h), h.left, h.zeroPad)
  }

  lemma {:induction false} LaidIs(n: nat, negative: bool, base: nat, upper: bool, h: Field)
    requires base >= 2 && (h.hash ==> n == 0)
    ensures Ntoa(n, negative, base, upper, h) == Laid(NtoaDigits(n, base, upper, h.hasPrec), negative, h)
  {
    hide Ntoa;
    NtoaIs(n, negative, base, upper, h);
    hide *;
  }

  /** The format consists of the directive, the code's output for the arguments is `text`, and the standard's is
      another one. */
  ghost predicate Deviates(fmt: seq<byte>, d: Directive, args: seq<Arg>, text: seq<byte>) {
    var items := Decode(fmt, 0);
    && items == [Conversion(d)] && Accepts(items, args) && Output(items, args) == text
    && IntegerSpecifier(d.spec) && FitAll(args, Kinds(d)) && StandardText(d, args) != text
  }

  /** The directive `d` is all there is to `fmt`; its stars and its value are read from `args`. */
  ghost predicate Reads(fmt: seq<byte>, d: Directive, args: seq<Arg>, widthStar: word, precStar: word, a: Arg) {
    && fmt == [PERCENT] + ShowDirective(d) && Plain(d) && IntegerSpecifier(d.spec) && FitAll(args, Kinds(d))
    && WidthStar(d, args) == widthStar && PrecisionStar(d, args) == precStar && ValueArg(d, args) == a
    && NoPrefixDue(d, a)
  }

  lemma {:induction false} DeviatesIf(fmt: seq<byte>, d: Directive, args: seq<Arg>, widthStar: word, precStar: word, a: Arg,
                                      v: int, h: Field, digits: seq<byte>, text: seq<byte>)
    requires Reads(fmt, d, args, widthStar, precStar, a)
    requires Fits(a, if IsLongLong(d.length) then KDWord else KWord)
    requires v == IntegerOf(d.spec, d.length, a) && h == IntegerField(d.spec, FieldOf(d, widthStar, precStar))
    requires (h.hash ==> v == 0) && digits == NtoaDigits(Magnitude(v), BaseOf(d.spec), d.spec == UPPER_X, h.hasPrec)
    requires text == Laid(digits, v < 0, h) && !Meets(d, widthStar, precStar, a)
    ensures Deviates(fmt, d, args, text)
  {
    hide *;
    ReadsMeans(fmt, d, args, widthStar, precStar, a);
    IntegersAreSupported(d.spec);
    DeviatesIs(fmt, d, args, text);
    OneDirective(fmt, d, args);
    DirectiveExact(d, args);
    ConversionIs(d, args);
    TextIsNtoa(d.spec, d.length, FieldOf(d, widthStar, precStar), a);
    MagnitudeIs(v);
    IntegerRange(d.spec, d.length, a);
    LaidIs(Magnitude(v), v < 0, BaseOf(d.spec), d.spec == UPPER_X, h);
  }

  lemma {:induction false} ReadsMeans(fmt: seq<byte>, d: Directive, args: seq<Arg>, widthStar: word, precStar: word, a: Arg)
    requires Reads(fmt, d, args, widthStar, precStar, a)
    ensures fmt == [PERCENT] + ShowDirective(d) && Plain(d) && IntegerSpecifier(d.spec) && FitAll(args, Kinds(d))
    ensures WidthStar(d, args) == widthStar && PrecisionStar(d, args) == precStar && ValueArg(d, args) == a
    ensures NoPrefixDue(d, a)
  {
  }

  /** A value alone. */
  lemma {:induction false} ReadsValue(fmt: seq<byte>, d: Directive, a: Arg)
    requires fmt == [PERCENT] + ShowDirective(d) && Plain(d) && IntegerSpecifier(d.spec) && !d.width.Star? && !d.precision.Star?
    requires Fits(a, if IsLongLong(d.length) then KDWord else KWord) && NoPrefixDue(d, a)
    ensures Reads(fmt, d, [a], 0, 0, a)
  {
    hide Plain;
    hide NoPrefixDue;
    hide ShowDirective;
    assert [a][0..] == [a];
    assert Kinds(d) == [if IsLongLong(d.length) then KDWord else KWord];
  }

  /** A precision and a value. */
  lemma {:induction false} ReadsPrecision(fmt: seq<byte>, d: Directive, precStar: word, a: Arg)
    requires fmt == [PERCENT] + ShowDirective(d) && Plain(d) && IntegerSpecifier(d.spec) && !d.width.Star? && d.precision.Star?
    requires Fits(a, if IsLongLong(d.length) then KDWord else KWord) && NoPrefixDue(d, a)
    ensures Reads(fmt, d, [Word(precStar), a], 0, precStar, a)
  {
    hide Plain;
    hide NoPrefixDue;
    hide ShowDirective;
    var args := [Word(precStar), a];
    assert args[0..] == args && args[1..] == [a];
    assert Kinds(d) == [KWord, if IsLongLong(d.length) then KDWord else KWord];
  }

  lemma {:induction false} DeviatesIs(fmt: seq<byte>, d: Directive, args: seq<Arg>, text: seq<byte>)
    requires IntegerSpecifier(d.spec) && FitAll(args, Kinds(d))
    ensures var items := Decode(fmt, 0);
            Deviates(fmt, d, args, text) <==>
              items == [Conversion(d)] && Accepts(items, args) && Output(items, args) == text && StandardText(d, args) != text
  {
    hide Decode;
    hide Accepts;
    hide Output;
    hide StandardText;
  }

  lemma {:induction false} IntegersAreSupported(spec: byte)
    requires IntegerSpecifier(spec)
    ensures !IsUnsupported(spec)
  {
  }

  // ----- some digits

  lemma {:induction false} Seven(upper: bool, hasPrec: bool)
    ensures NtoaDigits(7, 10, upper, hasPrec) == StandardDigits(7, 10, upper, hasPrec) == [DIGIT_0 + 7]
  {
    assert Numeral(7, 10) == [7];
    hide Numeral;
  }

  lemma {:induction false} One(upper: bool, hasPrec: bool)
    ensures NtoaDigits(1, 10, upper, hasPrec) == StandardDigits(1, 10, upper, hasPrec) == [DIGIT_0 + 1]
  {
    assert Numeral(1, 10) == [1];
    hide Numeral;
  }

  lemma {:induction false} FortyTwo(upper: bool, hasPrec: bool)
    ensures NtoaDigits(42, 10, upper, hasPrec) == StandardDigits(42, 10, upper, hasPrec) == [DIGIT_0 + 4, DIGIT_0 + 2]
  {
    assert Numeral(4, 10) == [4];
    assert Numeral(42, 10) == [4] + [2];
    hide Numeral;
  }

  lemma {:induction false} TwoHundred(upper: bool)
    ensures NtoaDigits(200, 10, upper, false) == [DIGIT_0 + 2, DIGIT_0, DIGIT_0]
  {
    assert Numeral(2, 10) == [2];
    assert Numeral(20, 10) == [2] + [0];
    assert Numeral(200, 10) == [2, 0] + [0];
    hide Numeral;
  }

  lemma {:induction false} PowerDigits(k: nat)
    ensures Numeral(Pow(2, k), 2) == [1] + seq(k, i => 0)
    decreases k
  {
    if k == 0 {
      assert Numeral(1, 2) == [1];
    } else {
      PowerDigits(k - 1);
      PowGrows(2, k);
      DivModUnique(Pow(2, k - 1), 0, 2);
      assert Pow(2, k) == Pow(2, k - 1) * 2 + 0;
      assert [1] + seq(k, i => 0) == [1] + seq(k - 1, i => 0) + [0];
    }
  }

  lemma {:induction false} LastThirtyTwo(upper: bool)
    ensures NtoaDigits(TWO_32, 2, upper, false) == Repeat(DIGIT_0, 32)
  {
    TwoToTheThirtyTwo();
    PowerDigits(32);
    hide Numeral;
    hide Pow;
    assert Tail(Numeral(TWO_32, 2), 32) == seq(32, i => 0);
  }

  lemma {:induction false} OneDigit(c: byte)
    requires IsDigit(c)
    ensures Atoi([c]) == NumberIn([c], 10) == c - DIGIT_0
  {
    var ds: seq<byte> := [c];
    assert ds[..0] == [] && Atoi([]) == 0 && NumberIn([], 10) == 0;
  }

  lemma {:induction false} TwoDigits(b: byte, c: byte)
    requires IsDigit(b) && IsDigit(c)
    ensures Atoi([b, c]) == NumberIn([b, c], 10) == (b - DIGIT_0) * 10 + c - DIGIT_0
  {
    OneDigit(b);
    var ds: seq<byte> := [b, c];
    assert ds[..1] == [b];
  }

  // ----- the inputs

  /** The word of the int -1. */
  const MINUS_ONE: word := 0xFFFF_FFFF

  /** A field without flags, width or precision. */
  const PLAIN: Field := Field(false, false, false, false, false, false, 0, 0)

  /** "4294967301", 5 more than 2^32. */
  const WIDE: seq<byte> := [52, 50, 57, 52, 57, 54, 55, 51, 48, 49]

  lemma {:induction false} WideNumber()
    ensures NumberIn(WIDE, 10) == TWO_32 + 5 && Atoi(WIDE) == 5
  {
    AtoiIsNumber(WIDE);
    hide Atoi;
    FirstFive();
    hide NumberIn;
    PrefixNumber(WIDE, 5);
    PrefixNumber(WIDE, 6);
    PrefixNumber(WIDE, 7);
    PrefixNumber(WIDE, 8);
    PrefixNumber(WIDE, 9);
    assert WIDE[..10] == WIDE;
  }

  lemma {:induction false} FirstFive()
    ensures NumberIn(WIDE[..5], 10) == 42949
  {
    assert WIDE[..0] == [] && NumberIn([], 10) == 0;
    hide NumberIn;
    PrefixNumber(WIDE, 0);
    PrefixNumber(WIDE, 1);
    PrefixNumber(WIDE, 2);
    PrefixNumber(WIDE, 3);
    PrefixNumber(WIDE, 4);
  }

  lemma {:induction false} PrefixNumber(cs: seq<byte>, k: nat)
    requires k < |cs|
    ensures NumberIn(cs[..k + 1], 10) == NumberIn(cs[..k], 10) * 10 + DigitOf(cs[k])
  {
    NumberSnoc(cs[..k], cs[k], 10);
    assert cs[..k + 1] == cs[..k] + [cs[k]];
  }

  const NEGATIVE_ZERO: Directive := Directive([], Absent, true, Star, [], LOWER_D)
  const NEGATIVE_ZERO_READ: Field := PLAIN.(hasPrec := true)

  /** A negative precision costs a zero its digit: "%.*d" of -1 and 0 writes nothing. */
  lemma {:induction false} NegativePrecisionZero()
    ensures Deviates([PERCENT, DOT, STAR, LOWER_D], NEGATIVE_ZERO, [Word(MINUS_ONE), Word(0)],
                     [])
  {
    NegativePrecisionZeroReads();
    NegativePrecisionZeroValues();
    NegativePrecisionZeroLaid();
    NoneForZero(10, false);
    hide Deviates;
    hide Reads;
    hide FieldOf;
    hide IntegerOf;
    hide NtoaDigits;
    hide Meets;
    hide Laid;
    hide Repeat;
    DeviatesIf([PERCENT, DOT, STAR, LOWER_D], NEGATIVE_ZERO, [Word(MINUS_ONE), Word(0)], 0, MINUS_ONE, Word(0),
               0, NEGATIVE_ZERO_READ, [], []);
  }

  lemma {:induction false} NegativePrecisionZeroReads()
    ensures Reads([PERCENT, DOT, STAR, LOWER_D], NEGATIVE_ZERO, [Word(MINUS_ONE), Word(0)], 0, MINUS_ONE, Word(0))
  {
    var fmt: seq<byte> := [PERCENT, DOT, STAR, LOWER_D];
    ReadsPrecision(fmt, NEGATIVE_ZERO, MINUS_ONE, Word(0));
    hide Reads;
  }

  lemma {:induction false} NegativePrecisionZeroValues()
    ensures IntegerOf(NEGATIVE_ZERO.spec, NEGATIVE_ZERO.length, Word(0)) == 0
    ensures Magnitude(0) == 0 && BaseOf(NEGATIVE_ZERO.spec) == 10
    ensures IntegerField(NEGATIVE_ZERO.spec, FieldOf(NEGATIVE_ZERO, 0, MINUS_ONE)) == NEGATIVE_ZERO_READ
    ensures !Meets(NEGATIVE_ZERO, 0, MINUS_ONE, Word(0))
  {
    hide StandardDigits;
    hide Atoi;
    hide NumberIn;
  }

  lemma {:induction false} NegativePrecisionZeroLaid()
    ensures Laid([], false, NEGATIVE_ZERO_READ)
         == []
  {
    assert Repeat(SPACE, 0) == [] && Repeat(DIGIT_0, 0) == [];
  }

  const NEGATIVE_FILL: Directive := Directive([DIGIT_0], Digits([DIGIT_0 + 5]), true, Star, [], LOWER_D)
  const NEGATIVE_FILL_READ: Field := PLAIN.(hasPrec := true, width := 5)

  /** And a field its zero fill: "%05.*d" of -1 and 42 writes "   42". */
  lemma {:induction false} NegativePrecisionFill()
    ensures Deviates([PERCENT, DIGIT_0, DIGIT_0 + 5, DOT, STAR, LOWER_D], NEGATIVE_FILL, [Word(MINUS_ONE), Word(42)],
                     [SPACE, SPACE, SPACE, DIGIT_0 + 4, DIGIT_0 + 2])
  {
    NegativePrecisionFillReads();
    NegativePrecisionFillValues();
    NegativePrecisionFillLaid();
    FortyTwo(false, true);
    hide Deviates;
    hide Reads;
    hide FieldOf;
    hide IntegerOf;
    hide NtoaDigits;
    hide Meets;
    hide Laid;
    hide Repeat;
    DeviatesIf([PERCENT, DIGIT_0, DIGIT_0 + 5, DOT, STAR, LOWER_D], NEGATIVE_FILL, [Word(MINUS_ONE), Word(42)], 0, MINUS_ONE, Word(42),
               42, NEGATIVE_FILL_READ, [DIGIT_0 + 4, DIGIT_0 + 2], [SPACE, SPACE, SPACE, DIGIT_0 + 4, DIGIT_0 + 2]);
  }

  lemma {:induction false} NegativePrecisionFillReads()
    ensures Reads([PERCENT, DIGIT_0, DIGIT_0 + 5, DOT, STAR, LOWER_D], NEGATIVE_FILL, [Word(MINUS_ONE), Word(42)], 0, MINUS_ONE, Word(42))
  {
    var fmt: seq<byte> := [PERCENT, DIGIT_0, DIGIT_0 + 5, DOT, STAR, LOWER_D];
    ReadsPrecision(fmt, NEGATIVE_FILL, MINUS_ONE, Word(42));
    hide Reads;
  }

  lemma {:induction false} NegativePrecisionFillValues()
    ensures IntegerOf(NEGATIVE_FILL.spec, NEGATIVE_FILL.length, Word(42)) == 42
    ensures Magnitude(42) == 42 && BaseOf(NEGATIVE_FILL.spec) == 10
    ensures IntegerField(NEGATIVE_FILL.spec, FieldOf(NEGATIVE_FILL, 0, MINUS_ONE)) == NEGATIVE_FILL_READ
    ensures !Meets(NEGATIVE_FILL, 0, MINUS_ONE, Word(42))
  {
    OneDigit(DIGIT_0 + 5);
    FortyTwo(false, false);
    hide StandardDigits;
    hide Atoi;
    hide NumberIn;
  }

  lemma {:induction false} NegativePrecisionFillLaid()
    ensures Laid([DIGIT_0 + 4, DIGIT_0 + 2], false, NEGATIVE_FILL_READ)
         == [SPACE, SPACE, SPACE, DIGIT_0 + 4, DIGIT_0 + 2]
  {
    var digits: seq<byte> := [DIGIT_0 + 4, DIGIT_0 + 2];
    assert Repeat(SPACE, 3) == [SPACE, SPACE, SPACE];
    assert [] + digits == digits && Repeat(DIGIT_0, 0) + digits == digits;
  }

  const WRAPPING: Directive := Directive([], Digits(WIDE), false, Absent, [], LOWER_D)
  const WRAPPING_READ: Field := PLAIN.(width := 5)

  /** A width of 2^32 and more is cut to 32 bits: "%4294967301d" of 7 writes "    7". */
  lemma {:induction false} WidthWraps()
    ensures Deviates([PERCENT] + WIDE + [LOWER_D], WRAPPING, [Word(7)],
                     [SPACE, SPACE, SPACE, SPACE, DIGIT_0 + 7])
  {
    WidthWrapsReads();
    WidthWrapsValues();
    WidthWrapsLaid();
    Seven(false, false);
    hide Deviates;
    hide Reads;
    hide FieldOf;
    hide IntegerOf;
    hide NtoaDigits;
    hide Meets;
    hide Laid;
    hide Repeat;
    DeviatesIf([PERCENT] + WIDE + [LOWER_D], WRAPPING, [Word(7)], 0, 0, Word(7),
               7, WRAPPING_READ, [DIGIT_0 + 7], [SPACE, SPACE, SPACE, SPACE, DIGIT_0 + 7]);
  }

  lemma {:induction false} WidthWrapsReads()
    ensures Reads([PERCENT] + WIDE + [LOWER_D], WRAPPING, [Word(7)], 0, 0, Word(7))
  {
    var fmt: seq<byte> := [PERCENT] + WIDE + [LOWER_D];
    assert AllDigits(WIDE) && [] + WIDE == WIDE;
    ReadsValue(fmt, WRAPPING, Word(7));
    hide Reads;
  }

  lemma {:induction false} WidthWrapsValues()
    ensures IntegerOf(WRAPPING.spec, WRAPPING.length, Word(7)) == 7
    ensures Magnitude(7) == 7 && BaseOf(WRAPPING.spec) == 10
    ensures IntegerField(WRAPPING.spec, FieldOf(WRAPPING, 0, 0)) == WRAPPING_READ
    ensures !Meets(WRAPPING, 0, 0, Word(7))
  {
    WideNumber();
    hide StandardDigits;
    hide Atoi;
    hide NumberIn;
  }

  lemma {:induction false} WidthWrapsLaid()
    ensures Laid([DIGIT_0 + 7], false, WRAPPING_READ)
         == [SPACE, SPACE, SPACE, SPACE, DIGIT_0 + 7]
  {
    var digits: seq<byte> := [DIGIT_0 + 7];
    assert Repeat(SPACE, 4) == [SPACE, SPACE, SPACE, SPACE];
    assert [] + digits == digits && Repeat(DIGIT_0, 0) + digits == digits;
  }

  const HIDDEN: Directive := Directive([MINUS], Digits([DIGIT_0 + 5]), true, Digits([DIGIT_0 + 3]), [], LOWER_D)
  const HIDDEN_READ: Field := PLAIN.(left := true, hasPrec := true, prec := 3, width := 5)

  /** Left alignment hides a precision: "%-5.3d" of 7 writes "7    ". */
  lemma {:induction false} PrecisionHidden()
    ensures Deviates([PERCENT, MINUS, DIGIT_0 + 5, DOT, DIGIT_0 + 3, LOWER_D], HIDDEN, [Word(7)],
                     [DIGIT_0 + 7, SPACE, SPACE, SPACE, SPACE])
  {
    PrecisionHiddenReads();
    PrecisionHiddenValues();
    PrecisionHiddenLaid();
    Seven(false, true);
    hide Deviates;
    hide Reads;
    hide FieldOf;
    hide IntegerOf;
    hide NtoaDigits;
    hide Meets;
    hide Laid;
    hide Repeat;
    DeviatesIf([PERCENT, MINUS, DIGIT_0 + 5, DOT, DIGIT_0 + 3, LOWER_D], HIDDEN, [Word(7)], 0, 0, Word(7),
               7, HIDDEN_READ, [DIGIT_0 + 7], [DIGIT_0 + 7, SPACE, SPACE, SPACE, SPACE]);
  }

  lemma {:induction false} PrecisionHiddenReads()
    ensures Reads([PERCENT, MINUS, DIGIT_0 + 5, DOT, DIGIT_0 + 3, LOWER_D], HIDDEN, [Word(7)], 0, 0, Word(7))
  {
    var fmt: seq<byte> := [PERCENT, MINUS, DIGIT_0 + 5, DOT, DIGIT_0 + 3, LOWER_D];
    ReadsValue(fmt, HIDDEN, Word(7));
    hide Reads;
  }

  lemma {:induction false} PrecisionHiddenValues()
    ensures IntegerOf(HIDDEN.spec, HIDDEN.length, Word(7)) == 7
    ensures Magnitude(7) == 7 && BaseOf(HIDDEN.spec) == 10
    ensures IntegerField(HIDDEN.spec, FieldOf(HIDDEN, 0, 0)) == HIDDEN_READ
    ensures !Meets(HIDDEN, 0, 0, Word(7))
  {
    OneDigit(DIGIT_0 + 5);
    OneDigit(DIGIT_0 + 3);
    Seven(false, true);
    hide StandardDigits;
    hide Atoi;
    hide NumberIn;
  }

  lemma {:induction false} PrecisionHiddenLaid()
    ensures Laid([DIGIT_0 + 7], false, HIDDEN_READ)
         == [DIGIT_0 + 7, SPACE, SPACE, SPACE, SPACE]
  {
    var digits: seq<byte> := [DIGIT_0 + 7];
    assert Repeat(SPACE, 4) == [SPACE, SPACE, SPACE, SPACE] && [] + digits == digits;
  }

  const BYTE: Directive := Directive([], Absent, false, Absent, [LOWER_H, LOWER_H], LOWER_D)
  const BYTE_READ: Field := PLAIN

  /** A signed byte above 127: "%hhd" of 200 writes "200". */
  lemma {:induction false} ByteUnsigned()
    ensures Deviates([PERCENT, LOWER_H, LOWER_H, LOWER_D], BYTE, [Word(200)],
                     [DIGIT_0 + 2, DIGIT_0, DIGIT_0])
  {
    ByteUnsignedReads();
    ByteUnsignedValues();
    ByteUnsignedLaid();
    TwoHundred(false);
    hide Deviates;
    hide Reads;
    hide FieldOf;
    hide IntegerOf;
    hide NtoaDigits;
    hide Meets;
    hide Laid;
    hide Repeat;
    DeviatesIf([PERCENT, LOWER_H, LOWER_H, LOWER_D], BYTE, [Word(200)], 0, 0, Word(200),
               200, BYTE_READ, [DIGIT_0 + 2, DIGIT_0, DIGIT_0], [DIGIT_0 + 2, DIGIT_0, DIGIT_0]);
  }

  lemma {:induction false} ByteUnsignedReads()
    ensures Reads([PERCENT, LOWER_H, LOWER_H, LOWER_D], BYTE, [Word(200)], 0, 0, Word(200))
  {
    var fmt: seq<byte> := [PERCENT, LOWER_H, LOWER_H, LOWER_D];
    ReadsValue(fmt, BYTE, Word(200));
    hide Reads;
  }

  lemma {:induction false} ByteUnsignedValues()
    ensures IntegerOf(BYTE.spec, BYTE.length, Word(200)) == 200
    ensures Magnitude(200) == 200 && BaseOf(BYTE.spec) == 10
    ensures IntegerField(BYTE.spec, FieldOf(BYTE, 0, 0)) == BYTE_READ
    ensures !Meets(BYTE, 0, 0, Word(200))
  {
    hide StandardDigits;
    hide Atoi;
    hide NumberIn;
  }

  lemma {:induction false} ByteUnsignedLaid()
    ensures Laid([DIGIT_0 + 2, DIGIT_0, DIGIT_0], false, BYTE_READ)
         == [DIGIT_0 + 2, DIGIT_0, DIGIT_0]
  {
    var digits: seq<byte> := [DIGIT_0 + 2, DIGIT_0, DIGIT_0];
    assert Repeat(SPACE, 0) + digits == digits && [] + digits == digits && Repeat(DIGIT_0, 0) + digits == digits;
  }

  const LONG_BINARY: Directive := Directive([], Absent, false, Absent, [LOWER_L, LOWER_L], LOWER_B)
  const LONG_BINARY_READ: Field := PLAIN

  /** More digits than the conversion buffer has room for: "%llb" of 2^32 writes 32 zeros. */
  lemma {:induction false} DigitsCutOff()
    ensures Deviates([PERCENT, LOWER_L, LOWER_L, LOWER_B], LONG_BINARY, [DWord(TWO_32)],
                     Repeat(DIGIT_0, 32))
  {
    DigitsCutOffReads();
    DigitsCutOffValues();
    DigitsCutOffLaid();
    LastThirtyTwo(false);
    hide Deviates;
    hide Reads;
    hide FieldOf;
    hide IntegerOf;
    hide NtoaDigits;
    hide Meets;
    hide Laid;
    hide Repeat;
    DeviatesIf([PERCENT, LOWER_L, LOWER_L, LOWER_B], LONG_BINARY, [DWord(TWO_32)], 0, 0, DWord(TWO_32),
               TWO_32, LONG_BINARY_READ, Repeat(DIGIT_0, 32), Repeat(DIGIT_0, 32));
  }

  lemma {:induction false} DigitsCutOffReads()
    ensures Reads([PERCENT, LOWER_L, LOWER_L, LOWER_B], LONG_BINARY, [DWord(TWO_32)], 0, 0, DWord(TWO_32))
  {
    var fmt: seq<byte> := [PERCENT, LOWER_L, LOWER_L, LOWER_B];
    ReadsValue(fmt, LONG_BINARY, DWord(TWO_32));
    hide Reads;
  }

  lemma {:induction false} DigitsCutOffValues()
    ensures IntegerOf(LONG_BINARY.spec, LONG_BINARY.length, DWord(TWO_32)) == TWO_32
    ensures Magnitude(TWO_32) == TWO_32 && BaseOf(LONG_BINARY.spec) == 2
    ensures IntegerField(LONG_BINARY.spec, FieldOf(LONG_BINARY, 0, 0)) == LONG_BINARY_READ
    ensures !Meets(LONG_BINARY, 0, 0, DWord(TWO_32))
  {
    StandardDigitsAre(TWO_32, 2, false, false);
    hide StandardDigits;
    hide Atoi;
    hide NumberIn;
  }

  lemma {:induction false} DigitsCutOffLaid()
    ensures Laid(Repeat(DIGIT_0, 32), false, LONG_BINARY_READ)
         == Repeat(DIGIT_0, 32)
  {
    var digits := Repeat(DIGIT_0, 32);
    assert Repeat(SPACE, 0) + digits == digits && [] + digits == digits && Repeat(DIGIT_0, 0) + digits == digits;
  }

  const FULL: Directive := Directive([], Absent, true, Digits([DIGIT_0 + 3, DIGIT_0 + 2]), [], LOWER_D)
  const FULL_READ: Field := PLAIN.(hasPrec := true, prec := 32)

  /** No room for the sign: "%.32d" of -1 writes 31 zeros and "1". */
  lemma {:induction false} SignLost()
    ensures Deviates([PERCENT, DOT, DIGIT_0 + 3, DIGIT_0 + 2, LOWER_D], FULL, [Word(MINUS_ONE)],
                     Repeat(DIGIT_0, 31) + [DIGIT_0 + 1])
  {
    SignLostReads();
    SignLostValues();
    SignLostLaid();
    One(false, true);
    hide Deviates;
    hide Reads;
    hide FieldOf;
    hide IntegerOf;
    hide NtoaDigits;
    hide Meets;
    hide Laid;
    hide Repeat;
    DeviatesIf([PERCENT, DOT, DIGIT_0 + 3, DIGIT_0 + 2, LOWER_D], FULL, [Word(MINUS_ONE)], 0, 0, Word(MINUS_ONE),
               -1, FULL_READ, [DIGIT_0 + 1], Repeat(DIGIT_0, 31) + [DIGIT_0 + 1]);
  }

  lemma {:induction false} SignLostReads()
    ensures Reads([PERCENT, DOT, DIGIT_0 + 3, DIGIT_0 + 2, LOWER_D], FULL, [Word(MINUS_ONE)], 0, 0, Word(MINUS_ONE))
  {
    var fmt: seq<byte> := [PERCENT, DOT, DIGIT_0 + 3, DIGIT_0 + 2, LOWER_D];
    ReadsValue(fmt, FULL, Word(MINUS_ONE));
    hide Reads;
  }

  lemma {:induction false} SignLostValues()
    ensures IntegerOf(FULL.spec, FULL.length, Word(MINUS_ONE)) == -1
    ensures Magnitude(-1) == 1 && BaseOf(FULL.spec) == 10
    ensures IntegerField(FULL.spec, FieldOf(FULL, 0, 0)) == FULL_READ
    ensures !Meets(FULL, 0, 0, Word(MINUS_ONE))
  {
    TwoDigits(DIGIT_0 + 3, DIGIT_0 + 2);
    One(false, true);
    hide StandardDigits;
    hide Atoi;
    hide NumberIn;
  }

  lemma {:induction false} SignLostLaid()
    ensures Laid([DIGIT_0 + 1], true, FULL_READ)
         == Repeat(DIGIT_0, 31) + [DIGIT_0 + 1]
  {
    var body := Repeat(DIGIT_0, 31) + [DIGIT_0 + 1];
    assert Repeat(SPACE, 0) + body == body && Repeat(DIGIT_0, 0) + body == body;
  }

  const OCTAL_ZERO: Directive := Directive([HASH], Absent, true, Digits([DIGIT_0]), [], LOWER_O)
  const OCTAL_ZERO_READ: Field := PLAIN.(hash := true, hasPrec := true)

  /** '#' and an octal zero without digits: "%#.0o" of 0 writes nothing. */
  lemma {:induction false} OctalZeroMissing()
    ensures Deviates([PERCENT, HASH, DOT, DIGIT_0, LOWER_O], OCTAL_ZERO, [Word(0)],
                     [])
  {
    OctalZeroMissingReads();
    OctalZeroMissingValues();
    OctalZeroMissingLaid();
    NoneForZero(8, false);
    hide Deviates;
    hide Reads;
    hide FieldOf;
    hide IntegerOf;
    hide NtoaDigits;
    hide Meets;
    hide Laid;
    hide Repeat;
    DeviatesIf([PERCENT, HASH, DOT, DIGIT_0, LOWER_O], OCTAL_ZERO, [Word(0)], 0, 0, Word(0),
               0, OCTAL_ZERO_READ, [], []);
  }

  lemma {:induction false} OctalZeroMissingReads()
    ensures Reads([PERCENT, HASH, DOT, DIGIT_0, LOWER_O], OCTAL_ZERO, [Word(0)], 0, 0, Word(0))
  {
    var fmt: seq<byte> := [PERCENT, HASH, DOT, DIGIT_0, LOWER_O];
    ReadsValue(fmt, OCTAL_ZERO, Word(0));
    hide Reads;
  }

  lemma {:induction false} OctalZeroMissingValues()
    ensures IntegerOf(OCTAL_ZERO.spec, OCTAL_ZERO.length, Word(0)) == 0
    ensures Magnitude(0) == 0 && BaseOf(OCTAL_ZERO.spec) == 8
    ensures IntegerField(OCTAL_ZERO.spec, FieldOf(OCTAL_ZERO, 0, 0)) == OCTAL_ZERO_READ
    ensures !Meets(OCTAL_ZERO, 0, 0, Word(0))
  {
    OneDigit(DIGIT_0);
    assert StandardDigits(0, 8, false, true) == [];
    hide StandardDigits;
    hide Atoi;
    hide NumberIn;
  }

  lemma {:induction false} OctalZeroMissingLaid()
    ensures Laid([], false, OCTAL_ZERO_READ)
         == []
  {
    assert Repeat(SPACE, 0) == [] && Repeat(DIGIT_0, 0) == [];
  }

  // ----- with a prefix

  /** '#' drops hexadecimal digits that fill the width: "%#2x" of 0x12 writes "0x". */
  lemma {:induction false} HexDigitsLost()
    ensures Deviates([PERCENT, HASH, DIGIT_0 + 2, LOWER_X], HASH_TWO_X, [Word(0x12)], [DIGIT_0, LOWER_X])
  {
    HexReads();
    HexMisses();
    Hex12Decoded();
    Hex12Output();
    var fmt: seq<byte> := [PERCENT, HASH, DIGIT_0 + 2, LOWER_X];
    hide *;
    OneDirective(fmt, HASH_TWO_X, [Word(0x12)]);
    DirectiveExact(HASH_TWO_X, [Word(0x12)]);
    DeviatesIs(fmt, HASH_TWO_X, [Word(0x12)], [DIGIT_0, LOWER_X]);
  }

  lemma {:induction false} HexReads()
    ensures var d, args := HASH_TWO_X, [Word(0x12)];
            && [PERCENT, HASH, DIGIT_0 + 2, LOWER_X] == [PERCENT] + ShowDirective(d)
            && Plain(d) && IntegerSpecifier(d.spec) && !IsUnsupported(d.spec) && d.spec != LOWER_B && FitAll(args, Kinds(d))
            && WidthStar(d, args) == 0 && PrecisionStar(d, args) == 0 && ValueArg(d, args) == Word(0x12)
  {
    assert Kinds(HASH_TWO_X) == [KWord];
    assert [Word(0x12)][0..] == [Word(0x12)];
  }

  lemma {:induction false} HexMisses()
    ensures !NoPrefixDue(HASH_TWO_X, Word(0x12)) && !MeetsPrefixed(HASH_TWO_X, 0, 0, Word(0x12))
  {
    OneDigit(DIGIT_0 + 2);
    Hex12Digits();
    StandardDigitsAre(0x12, 16, false, false);
    TwoToTheThirtyTwo();
    assert 0x12 < TWO_32;
    hide StandardDigits;
    hide NtoaDigits;
    hide Atoi;
    hide NumberIn;
  }

  const OCTAL_EXTRA: Directive := Directive([HASH], Absent, true, Digits([DIGIT_0 + 3]), [], LOWER_O)
  const OCTAL_EXTRA_READ: Field := PLAIN.(hash := true, hasPrec := true, prec := 3)

  /** '#' adds a zero to octal digits that have one by their precision: "%#.3o" of 8 writes "0010". */
  lemma {:induction false} OctalZeroAdded()
    ensures Deviates([PERCENT, HASH, DOT, DIGIT_0 + 3, LOWER_O], OCTAL_EXTRA, [Word(8)], [DIGIT_0, DIGIT_0, DIGIT_0 + 1, DIGIT_0])
  {
    OctalReads();
    OctalMisses();
    OctalWrites();
    var fmt: seq<byte> := [PERCENT, HASH, DOT, DIGIT_0 + 3, LOWER_O];
    hide *;
    OneDirective(fmt, OCTAL_EXTRA, [Word(8)]);
    DirectiveExact(OCTAL_EXTRA, [Word(8)]);
    ConversionIs(OCTAL_EXTRA, [Word(8)]);
    DeviatesIs(fmt, OCTAL_EXTRA, [Word(8)], [DIGIT_0, DIGIT_0, DIGIT_0 + 1, DIGIT_0]);
  }

  lemma {:induction false} OctalReads()
    ensures var d, args := OCTAL_EXTRA, [Word(8)];
            && [PERCENT, HASH, DOT, DIGIT_0 + 3, LOWER_O] == [PERCENT] + ShowDirective(d)
            && Plain(d) && IntegerSpecifier(d.spec) && !IsUnsupported(d.spec) && d.spec != LOWER_B && FitAll(args, Kinds(d))
            && WidthStar(d, args) == 0 && PrecisionStar(d, args) == 0 && ValueArg(d, args) == Word(8)
  {
    assert Kinds(OCTAL_EXTRA) == [KWord];
    assert [Word(8)][0..] == [Word(8)];
  }

  lemma {:induction false} Eight(upper: bool, hasPrec: bool)
    ensures NtoaDigits(8, 8, upper, hasPrec) == StandardDigits(8, 8, upper, hasPrec) == [DIGIT_0 + 1, DIGIT_0]
  {
    assert Numeral(1, 8) == [1];
    assert Numeral(8, 8) == [1] + [0];
    hide Numeral;
  }

  lemma {:induction false} OctalMisses()
    ensures !NoPrefixDue(OCTAL_EXTRA, Word(8)) && !MeetsPrefixed(OCTAL_EXTRA, 0, 0, Word(8))
  {
    OneDigit(DIGIT_0 + 3);
    Eight(false, true);
    hide StandardDigits;
    hide NtoaDigits;
    hide Atoi;
    hide NumberIn;
  }

  lemma {:induction false} OctalRead()
    ensures IntegerField(LOWER_O, FieldOf(OCTAL_EXTRA, 0, 0)) == OCTAL_EXTRA_READ
    ensures IntegerOf(LOWER_O, [], Word(8)) == 8 && BaseOf(LOWER_O) == 8 && LOWER_O != UPPER_X
  {
    OneDigit(DIGIT_0 + 3);
    hide Atoi;
    hide NumberIn;
  }

  lemma {:induction false} OctalWrites()
    ensures IntegerText(OCTAL_EXTRA.spec, OCTAL_EXTRA.length, FieldOf(OCTAL_EXTRA, 0, 0), Word(8))
         == [DIGIT_0, DIGIT_0, DIGIT_0 + 1, DIGIT_0]
  {
    OctalRead();
    TextIsNtoa(LOWER_O, [], FieldOf(OCTAL_EXTRA, 0, 0), Word(8));
    CodeIs(8, 8, false, OCTAL_EXTRA_READ);
    Eight(false, true);
    var digits: seq<byte> := [DIGIT_0 + 1, DIGIT_0];
    hide IntegerText;
    hide IntegerOf;
    hide IntegerField;
    hide FieldOf;
    hide Ntoa;
    hide NtoaDigits;
    assert Repeat(DIGIT_0, 1) + digits == [DIGIT_0, DIGIT_0 + 1, DIGIT_0];
    var body := ZeroPadded(digits, false, OCTAL_EXTRA_READ);
    assert body == [DIGIT_0, DIGIT_0 + 1, DIGIT_0];
    hide ZeroPadded;
    assert body[0..] == body && [DIGIT_0] + body == [DIGIT_0, DIGIT_0, DIGIT_0 + 1, DIGIT_0];
    assert Repeat(SPACE, 0) + [DIGIT_0, DIGIT_0, DIGIT_0 + 1, DIGIT_0] == [DIGIT_0, DIGIT_0, DIGIT_0 + 1, DIGIT_0];
  }

  // ----- strings

  const STARRED_STRING: Directive := Directive([], Absent, true, Star, [], LOWER_S)
  const TWO_LETTERS: seq<byte> := [97, 98]

  /** A negative precision drops a string: "%.*s" of -1 and "ab" writes nothing. */
  lemma {:induction false} StringDropped()
    ensures var fmt: seq<byte>, args := ['%' as int, '.' as int, '*' as int, 's' as int], [Word(MINUS_ONE), Str(TWO_LETTERS)];
            var items := Decode(fmt, 0);
            && Accepts(items, args) && Output(items, args) == []
            && FitAll(args, Kinds(STARRED_STRING)) && Other.StandardString(STARRED_STRING, args) == TWO_LETTERS
  {
    var fmt: seq<byte>, args := ['%' as int, '.' as int, '*' as int, 's' as int], [Word(MINUS_ONE), Str(TWO_LETTERS)];
    assert Plain(STARRED_STRING) && ShowDirective(STARRED_STRING) == [DOT, STAR, LOWER_S] && !IsUnsupported(LOWER_S);
    assert fmt == [PERCENT] + ShowDirective(STARRED_STRING);
    StringKinds();
    DroppedText();
    AskedText();
    hide *;
    OneDirective(fmt, STARRED_STRING, args);
  }

  lemma {:induction false} StringKinds()
    ensures STARRED_STRING.spec == LOWER_S && FitAll([Word(MINUS_ONE), Str(TWO_LETTERS)], Kinds(STARRED_STRING))
  {
    assert Kinds(STARRED_STRING) == [KWord, KStr];
  }

  lemma {:induction false} DroppedText()
    requires FitAll([Word(MINUS_ONE), Str(TWO_LETTERS)], Kinds(STARRED_STRING))
    ensures ConversionText(STARRED_STRING, [Word(MINUS_ONE), Str(TWO_LETTERS)]) == []
  {
    var args := [Word(MINUS_ONE), Str(TWO_LETTERS)];
    Other.ConversionOf(STARRED_STRING, args);
    var f := FieldOf(STARRED_STRING, 0, MINUS_ONE);
    assert f.hasPrec && f.prec == 0 && f.width == 0;
    assert StringText(f, args[1]) == [] by {
      assert TWO_LETTERS[..0] == [] && Repeat(SPACE, 0) == [];
    }
    hide FieldOf;
    hide StringText;
    hide FitAll;
    hide Kinds;
  }

  lemma {:induction false} AskedText()
    requires FitAll([Word(MINUS_ONE), Str(TWO_LETTERS)], Kinds(STARRED_STRING))
    ensures Other.StandardString(STARRED_STRING, [Word(MINUS_ONE), Str(TWO_LETTERS)]) == TWO_LETTERS
  {
    var args := [Word(MINUS_ONE), Str(TWO_LETTERS)];
    var g := StandardField(STARRED_STRING, 0, MINUS_ONE);
    assert !g.hasPrec && g.width == 0;
    assert Other.StandardFieldOf(STARRED_STRING, args) == g;
    hide StandardField;
    hide Other.StandardFieldOf;
    assert TWO_LETTERS[..2] == TWO_LETTERS;
  }
}
