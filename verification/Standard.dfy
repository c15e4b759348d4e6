/** What the C standard asks of an integer directive (section 7.21.6.1 of ISO/IEC 9899:2011), defined from the
    directive as written and its arguments, and exactly when the code writes that. */
module Standard {
  import opened Bytes
  import opened Numerals
  import opened Format
  import opened Rendering
  import opened Denotation
  import opened HashFlag
  import Laws = RenderingLaws

  // ----- the standard's text

  /** The specifiers of integers, and of signed ones. */
  predicate IntegerSpecifier(spec: byte) {
    spec in {'d' as int, 'i' as int, 'u' as int, 'x' as int, 'X' as int, 'o' as int, 'b' as int}
  }

  predicate SignedSpecifier(spec: byte) {
    spec in {'d' as int, 'i' as int}
  }

  function StandardBase(spec: byte): (b: nat)
    ensures b >= 2
  {
    if spec in {'x' as int, 'X' as int} then 16 else if spec == 'o' as int then 8 else if spec == 'b' as int then 2 else 10
  }

  /** How many values the type has that the length modifier asks for: long long and intmax_t, char, short, and those of
      32 bits. */
  function StandardSize(length: seq<byte>): int {
    if length in {['l' as int, 'l' as int], ['j' as int]} then 0x1_0000_0000_0000_0000
    else if length == ['h' as int, 'h' as int] then 256
    else if length == ['h' as int] then 0x1_0000
    else 0x1_0000_0000
  }

  /** The argument as it was passed, cut to that type. */
  function LowBits(x: nat, length: seq<byte>): nat {
    if length in {['l' as int, 'l' as int], ['j' as int]} then x % 0x1_0000_0000_0000_0000
    else if length == ['h' as int, 'h' as int] then x % 256
    else if length == ['h' as int] then x % 0x1_0000
    else x % 0x1_0000_0000
  }

  /** The argument converted to the signed or unsigned type that specifier and length modifier ask for. */
  function ConvertedArg(spec: byte, length: seq<byte>, a: Arg): int
    requires Fits(a, if IsLongLong(length) then KDWord else KWord)
  {
    var u := LowBits(Laws.Passed(length, a), length);
    if SignedSpecifier(spec) && 2 * u >= StandardSize(length) then u - StandardSize(length) else u
  }

  /** A negative starred precision counts as omitted. */
  predicate NegativePrecision(d: Directive, precStar: word) {
    d.dot && d.precision.Star? && I32(precStar) < 0
  }

  /** The flags, width and precision as the standard reads them: a negative starred width is a '-' flag and a width,
      the sign flags are for signed conversions, and the '0' flag is ignored when there is a precision. */
  function StandardField(d: Directive, widthStar: word, precStar: word): Field {
    var hasPrec := d.dot && !NegativePrecision(d, precStar);
    var width := match d.width
                 case Absent => 0
                 case Digits(ds) => NumberIn(ds, 10)
                 case Star => if I32(widthStar) < 0 then -I32(widthStar) else I32(widthStar);
    var prec := if !hasPrec then 0
                else match d.precision
                     case Absent => 0
                     case Digits(ds) => NumberIn(ds, 10)
                     case Star => I32(precStar);
    Field('0' as int in d.flags && !hasPrec, '-' as int in d.flags || (d.width.Star? && I32(widthStar) < 0),
          '+' as int in d.flags && SignedSpecifier(d.spec), ' ' as int in d.flags && SignedSpecifier(d.spec),
          '#' as int in d.flags, hasPrec, prec, width)
  }

  /** All the digits of a number; a zero under a precision has none but the zeros the precision asks for. */
  function StandardDigits(n: nat, base: nat, upper: bool, hasPrec: bool): seq<byte>
    requires base >= 2
  {
    if hasPrec && n == 0 then [] else FullDigits(n, base, upper)
  }

  /** What stands before zeros and digits: a sign, or the prefix that '#' gives a hexadecimal number but 0. */
  function StandardSign(spec: byte, v: int, g: Field): seq<byte> {
    if g.hash && StandardBase(spec) == 16 && v != 0 then ['0' as int, spec] else SignBefore(v < 0, g)
  }

  /** A minus sign before a negative number, and before others a plus sign or a space if a flag asks for it. */
  function SignBefore(negative: bool, g: Field): seq<byte> {
    if negative then ['-' as int] else if g.plus then ['+' as int] else if g.space then [' ' as int] else []
  }

  /** '#' raises the precision of an octal number until its first digit is a zero. */
  function Raised(spec: byte, digits: seq<byte>, g: Field): Field {
    if g.hash && spec == 'o' as int && (digits == [] || digits[0] != '0' as int) then g.(prec := Laws.Max(g.prec, |digits| + 1)) else g
  }

  function Magnitude(v: int): nat {
    if v < 0 then -v else v
  }

  /** The text of an integer directive for the words of its stars and its argument. */
  function StandardIntegerText(d: Directive, widthStar: word, precStar: word, a: Arg): seq<byte>
    requires Fits(a, if IsLongLong(d.length) then KDWord else KWord)
  {
    var v, g := ConvertedArg(d.spec, d.length, a), StandardField(d, widthStar, precStar);
    var digits := StandardDigits(Magnitude(v), StandardBase(d.spec), d.spec == 'X' as int, g.hasPrec);
    Laws.Ideal(digits, StandardSign(d.spec, v, g), Raised(d.spec, digits, g))
  }

  // ----- the value

  /** A byte above 127 under "%hhd" or "%hhi". */
  predicate SignedByte(spec: byte, length: seq<byte>, a: Arg)
    requires Fits(a, if IsLongLong(length) then KDWord else KWord)
  {
    SignedSpecifier(spec) && length == ['h' as int, 'h' as int] && Laws.Passed(length, a) % 256 >= 128
  }

  lemma {:induction false} ConvertedArgIs(spec: byte, length: seq<byte>, a: Arg)
    requires Fits(a, if IsLongLong(length) then KDWord else KWord)
    ensures Laws.Converted(ConvertedArg(spec, length, a), Laws.Passed(length, a), length, IsSigned(spec))
  {
    LowBitsAre(Laws.Passed(length, a), length);
    SizesAgree(length);
    SpecifiersAgree(spec);
    hide LowBits;
    hide Laws.SameModulo;
    hide Laws.TypeSize;
    hide StandardSize;
  }

  lemma {:induction false} SizesAgree(length: seq<byte>)
    ensures StandardSize(length) == Laws.TypeSize(length)
  {
  }

  lemma {:induction false} LowBitsAre(x: nat, length: seq<byte>)
    ensures var u, m := LowBits(x, length), Laws.TypeSize(length);
            0 <= u < m && Laws.SameModulo(x, u, length) && Laws.SameModulo(x, u - m, length)
  {
    Laws.LowPart(x, if IsLongLong(length) then TWO_64
               else if length == [LOWER_H, LOWER_H] then 256
               else if length == [LOWER_H] then 0x1_0000
               else TWO_32);
  }

  /** The code renders that value, or a byte above 127 without its sign. */
  lemma {:induction false} ValueExact(spec: byte, length: seq<byte>, a: Arg)
    requires Fits(a, if IsLongLong(length) then KDWord else KWord)
    ensures var v, w := IntegerOf(spec, length, a), ConvertedArg(spec, length, a);
            && (v == w <==> !SignedByte(spec, length, a))
            && (SignedByte(spec, length, a) ==> v >= 128 && -128 <= w < 0 && BaseOf(spec) == 10)
            && -TWO_64 < w < TWO_64 && (w < 0 ==> BaseOf(spec) == 10)
  {
    hide *;
    Laws.IntegerOfExact(spec, length, a);
    ConvertedArgIs(spec, length, a);
    SignedByteIs(spec, length, a);
    if !SignedByte(spec, length, a) {
      Laws.ConvertedUnique(IntegerOf(spec, length, a), ConvertedArg(spec, length, a), Laws.Passed(length, a), length, IsSigned(spec));
    }
    IntegerRange(spec, length, a);
  }

  lemma {:induction false} SignedByteIs(spec: byte, length: seq<byte>, a: Arg)
    requires Fits(a, if IsLongLong(length) then KDWord else KWord)
    ensures SignedByte(spec, length, a)
            <==> IsSigned(spec) && length == [LOWER_H, LOWER_H] && Laws.Passed(length, a) % 256 >= 128
    ensures SignedByte(spec, length, a) ==>
              IntegerOf(spec, length, a) >= 128 && -128 <= ConvertedArg(spec, length, a) < 0 && BaseOf(spec) == 10
  {
  }

  // ----- the field

  /** A width or precision written in digits is below 2^32. */
  predicate InRange(a: Amount) {
    a.Digits? ==> NumberIn(a.ds, 10) < TWO_32
  }

  lemma {:induction false} AmountRead(a: Amount)
    requires a.Digits? ==> AllDigits(a.ds)
    ensures a.Digits? ==> Atoi(a.ds) == U32(NumberIn(a.ds, 10)) && (InRange(a) ==> Atoi(a.ds) == NumberIn(a.ds, 10))
  {
    if a.Digits? { AtoiIsNumber(a.ds); }
    hide NumberIn;
    hide Atoi;
  }

  /** How the code's reading of a field differs: it takes a negative precision for 0, and numbers modulo 2^32. */
  lemma {:induction false} FieldExact(d: Directive, widthStar: word, precStar: word)
    requires Plain(d)
    ensures var g, h := StandardField(d, widthStar, precStar), IntegerField(d.spec, FieldOf(d, widthStar, precStar));
            var omitted := NegativePrecision(d, precStar);
            && h.left == g.left && h.plus == g.plus && h.space == g.space
            && h.hash == (g.hash && BaseOf(d.spec) != 10) && g.hash == (HASH in d.flags)
            && h.hasPrec == d.dot && g.hasPrec == (d.dot && !omitted)
            && (g.prec > 0 ==> g.hasPrec) && (omitted ==> d.dot && h.prec == 0)
            && h.zeroPad == (DIGIT_0 in d.flags && !d.dot) && g.zeroPad == (DIGIT_0 in d.flags && !g.hasPrec)
            && h.width < TWO_32 && h.prec < TWO_32
            && (InRange(d.width) <==> g.width < TWO_32) && (InRange(d.precision) <==> g.prec < TWO_32)
            && (InRange(d.width) ==> h.width == g.width) && (InRange(d.precision) ==> h.prec == g.prec)
            && (g.plus || g.space ==> IsSigned(d.spec))
  {
    AmountRead(d.width);
    AmountRead(d.precision);
    hide NumberIn;
    hide Atoi;
    hide AllDigits;
    hide IsLength;
    hide OnlySpecifier;
  }

  // ----- what a text shows without its padding

  /** Without its spaces the standard's text is what stands before the digits, zeros, and digits. */
  lemma {:induction false} UnspacedIdeal(digits: seq<byte>, sign: seq<byte>, g: Field)
    requires Laws.DigitLike(digits)
    ensures var n := Laws.BodyLength(digits, sign, g);
            && n >= |digits|
            && Unspaced(Laws.Ideal(digits, sign, g)) == Unspaced(sign) + (Repeat(DIGIT_0, n - |digits|) + digits)
  {
    var n := Laws.BodyLength(digits, sign, g);
    var zeros := Repeat(DIGIT_0, n - |digits|);
    assert sign + zeros + digits == sign + (zeros + digits);
    Laws.IdealIs(digits, sign, g);
    assert Laws.Ideal(digits, sign, g) == Padded(sign + zeros + digits, g.width, g.left, g.zeroPad);
    assert Laws.DigitLike(zeros + digits);
    hide *;
    UnspacedPadded(sign + zeros + digits, g.width, g.left, g.zeroPad);
    UnspacedConcat(sign, zeros + digits);
    UnspacedDigits(zeros + digits);
  }

  /** The standard's text is as long as its width and its precision ask for. */
  lemma {:induction false} IdealIsLong(digits: seq<byte>, sign: seq<byte>, g: Field)
    ensures |Laws.Ideal(digits, sign, g)| >= g.width && |Laws.Ideal(digits, sign, g)| >= g.prec
  {
  }

  /** The code's text is never longer than its buffer and its width. */
  lemma {:induction false} NtoaLength(value: nat, negative: bool, base: nat, upper: bool, g: Field)
    requires base >= 2
    ensures |Ntoa(value, negative, base, upper, g)| <= Laws.Max(NTOA_BUFFER, g.width)
  {
    hide *;
    var digits, h := NtoaDigits(value, base, upper, g.hasPrec), g.(hash := g.hash && value != 0);
    var body, width := ZeroPadded(digits, negative, h), DigitWidth(negative, h);
    ZeroPaddedLength(digits, negative, h);
    HashedLength(body, base, upper, h, width);
    var text := if h.hash then Hashed(body, base, upper, h, width) else body;
    NtoaIsPadded(value, negative, base, upper, g);
    SignLength(negative, h);
    PaddedLength(text, SignText(negative, h), width, h.left, h.zeroPad);
    DigitWidthIs(negative, h);
    MaxIs(NTOA_BUFFER, g.width);
    MaxIs(NTOA_BUFFER, width);
  }

  lemma {:induction false} NtoaIsPadded(value: nat, negative: bool, base: nat, upper: bool, g: Field)
    requires base >= 2
    ensures var digits, h := NtoaDigits(value, base, upper, g.hasPrec), g.(hash := g.hash && value != 0);
            var body, width := ZeroPadded(digits, negative, h), DigitWidth(negative, h);
            var text := if h.hash then Hashed(body, base, upper, h, width) else body;
            Ntoa(value, negative, base, upper, g) == Padded(Prefixed(text, SignText(negative, h)), width, h.left, h.zeroPad)
  {
    hide NtoaDigits;
    hide ZeroPadded;
    hide Hashed;
    hide Prefixed;
    hide Padded;
  }

  lemma {:induction false} ZeroPaddedLength(digits: seq<byte>, negative: bool, g: Field)
    requires |digits| <= NTOA_BUFFER
    ensures |ZeroPadded(digits, negative, g)| <= NTOA_BUFFER
  {
  }

  lemma {:induction false} SignLength(negative: bool, g: Field)
    ensures |SignText(negative, g)| <= 1
  {
  }

  lemma {:induction false} DigitWidthIs(negative: bool, g: Field)
    ensures DigitWidth(negative, g) <= g.width
  {
  }

  lemma {:induction false} PaddedLength(text: seq<byte>, sign: seq<byte>, width: nat, left: bool, zeroPad: bool)
    requires |text| <= NTOA_BUFFER && |sign| <= 1
    ensures |Padded(Prefixed(text, sign), width, left, zeroPad)| <= Laws.Max(NTOA_BUFFER, width)
  {
  }

  lemma {:induction false} StandardDigitsAre(n: nat, base: nat, upper: bool, hasPrec: bool)
    requires base in {2, 8, 10, 16} && n < TWO_64
    ensures var digits := StandardDigits(n, base, upper, hasPrec);
            && Laws.DigitLike(digits)
            && (|digits| <= NTOA_BUFFER <==> base != 2 || n < TWO_32)
            && (|digits| <= NTOA_BUFFER ==> digits == NtoaDigits(n, base, upper, hasPrec))
            && (base == 10 ==> |digits| < NTOA_BUFFER)
            && (digits == [] <==> hasPrec && n == 0)
            && (n == 0 && !hasPrec ==> digits == [DIGIT_0])
  {
    NumeralIsCanonical(n, base);
    DigitsFit(n, base);
    NumeralLength(n, base, NTOA_BUFFER);
    if n == 0 { assert Numeral(0, base) == [0]; }
    hide Numeral;
    hide Pow;
    Laws.CharsAreDigitLike(Numeral(n, base), if upper then UPPER_A else LOWER_A);
  }

  /** What can be seen of the code's text. */
  lemma {:induction false} CodeShows(value: nat, negative: bool, base: nat, upper: bool, g: Field)
    requires 2 <= base <= 16 && (g.hash ==> value == 0)
    ensures var digits := NtoaDigits(value, base, upper, g.hasPrec);
            var text, body := Unspaced(Ntoa(value, negative, base, upper, g)), ZeroPadded(digits, negative, g);
            && Laws.DigitLike(body) && |body| <= NTOA_BUFFER
            && (text == body || text == Unspaced(SignText(negative, g)) + body)
            && (!negative && text != [] ==> text[0] != MINUS)
            && (g.prec == 0 && !g.zeroPad ==> |body| == |digits|)
  {
    hide *;
    var digits := NtoaDigits(value, base, upper, g.hasPrec);
    var body := ZeroPadded(digits, negative, g);
    Laws.DigitsAreDigitLike(value, base, upper, g.hasPrec);
    NoZerosAsked(digits, negative, g);
    BodyIs(digits, negative, g);
    UnspacedNtoa(value, negative, base, upper, g);
    SignIs(negative, g);
    BodyNoMinus(body);
    NotMinus();
    assert [] + body == body;
  }

  lemma {:induction false} NotMinus()
    ensures MINUS != PLUS && MINUS != SPACE
  {
  }

  lemma {:induction false} BodyNoMinus(body: seq<byte>)
    ensures Laws.DigitLike(body) && body != [] ==> body[0] != MINUS
  {
  }

  lemma {:induction false} NoZerosAsked(digits: seq<byte>, negative: bool, g: Field)
    requires |digits| <= NTOA_BUFFER
    ensures g.prec == 0 && !g.zeroPad ==> |ZeroPadded(digits, negative, g)| == |digits|
  {
  }

  // ----- without a prefix

  /** Zero fill adds zeros to sign and digits. */
  predicate ZeroFilled(digits: seq<byte>, sign: seq<byte>, g: Field) {
    g.zeroPad && !g.left && g.width > |sign| + |digits|
  }

  /** No prefix is due: '#' is absent, or heeded neither by the base nor for a zero. */
  predicate NoPrefixDue(d: Directive, a: Arg)
    requires Fits(a, if IsLongLong(d.length) then KDWord else KWord)
  {
    '#' as int in d.flags ==> StandardBase(d.spec) == 10 || ConvertedArg(d.spec, d.length, a) == 0
  }

  /** When the code writes the standard's text for a directive without a prefix: width and precision are below
      2^32; it is not a signed byte above 127; a negative starred precision changes nothing, because there are digits
      and no zero fill; '#' has no zero to add to an octal zero without digits; sign, zeros and digits fit in the
      conversion buffer; and left alignment hides no precision. */
  predicate Meets(d: Directive, widthStar: word, precStar: word, a: Arg)
    requires Fits(a, if IsLongLong(d.length) then KDWord else KWord)
  {
    var v, g := ConvertedArg(d.spec, d.length, a), StandardField(d, widthStar, precStar);
    var digits := StandardDigits(Magnitude(v), StandardBase(d.spec), d.spec == 'X' as int, g.hasPrec);
    var sign := SignBefore(v < 0, g);
    && InRange(d.width) && InRange(d.precision)
    && !SignedByte(d.spec, d.length, a)
    && (NegativePrecision(d, precStar) ==> v != 0 && !ZeroFilled(digits, sign, g))
    && !(g.hash && d.spec == 'o' as int && digits == [] && g.prec == 0)
    && Laws.FitsBuffer(digits, sign, g) && Laws.PrecisionShows(digits, g)
  }

  /** Numbers that do not fit in 32 bits ask for more than the code can write. */
  lemma {:induction false} OutOfRangeShows(n: nat, negative: bool, base: nat, upper: bool, h: Field, digits: seq<byte>,
                                           sign: seq<byte>, g: Field)
    requires base >= 2 && h.width < TWO_32 && (g.width >= TWO_32 || g.prec >= TWO_32)
    ensures Ntoa(n, negative, base, upper, h) != Laws.Ideal(digits, sign, g)
  {
    hide *;
    NtoaLength(n, negative, base, upper, h);
    IdealIsLong(digits, sign, g);
    MaxIs(NTOA_BUFFER, h.width);
  }

  lemma {:induction false} MaxIs(a: nat, b: nat)
    ensures Laws.Max(a, b) == (if a > b then a else b) && NTOA_BUFFER == 32 < TWO_32
  {
  }

  /** A minus sign that is missing shows. */
  lemma {:induction false} MinusShows(n: nat, base: nat, upper: bool, h: Field, digits: seq<byte>, g: Field)
    requires 2 <= base <= 16 && (h.hash ==> n == 0) && Laws.DigitLike(digits)
    ensures Ntoa(n, false, base, upper, h) != Laws.Ideal(digits, [MINUS], g)
  {
    hide *;
    CodeShows(n, false, base, upper, h);
    UnspacedIdeal(digits, [MINUS], g);
    UnspacedOne(MINUS);
    NotMinus();
  }

  /** Fewer digits and zeros than asked for show. */
  lemma {:induction false} FewerShow(n: nat, negative: bool, base: nat, upper: bool, h: Field, digits: seq<byte>, g: Field)
    requires 2 <= base <= 16 && (h.hash ==> n == 0) && Laws.DigitLike(digits)
    requires |ZeroPadded(NtoaDigits(n, base, upper, h.hasPrec), negative, h)| < Laws.BodyLength(digits, SignText(negative, h), g)
    ensures Ntoa(n, negative, base, upper, h) != Laws.Ideal(digits, SignText(negative, h), g)
  {
    hide *;
    CodeShows(n, negative, base, upper, h);
    UnspacedIdeal(digits, SignText(negative, h), g);
  }

  /** Zero fill that adds nothing can be left out. */
  lemma {:induction false} NothingFilled(digits: seq<byte>, sign: seq<byte>, g: Field, h: Field)
    requires h.width == g.width && h.left == g.left && h.prec == g.prec && (h.zeroPad == g.zeroPad || !h.zeroPad)
    requires h.zeroPad != g.zeroPad ==> g.prec == 0 && !ZeroFilled(digits, sign, g)
    requires sign == [SPACE] ==> |digits| < NTOA_BUFFER
    ensures Laws.Ideal(digits, sign, h) == Laws.Ideal(digits, sign, g)
    ensures Laws.FitsBuffer(digits, sign, h) == Laws.FitsBuffer(digits, sign, g)
    ensures Laws.PrecisionShows(digits, h) == Laws.PrecisionShows(digits, g)
  {
  }

  /** Where neither value nor field is read differently, and no digit is cut off, the layout decides. */
  lemma {:induction false} LayoutDecides(n: nat, negative: bool, base: nat, upper: bool, h: Field, digits: seq<byte>, g: Field)
    requires base in {2, 8, 10, 16} && (h.hash ==> n == 0)
    requires |digits| <= NTOA_BUFFER && digits == NtoaDigits(n, base, upper, h.hasPrec)
    requires h.plus == g.plus && h.space == g.space && h.width == g.width && h.left == g.left && h.prec == g.prec
    requires h.zeroPad == g.zeroPad || (!h.zeroPad && g.prec == 0 && !ZeroFilled(digits, SignText(negative, g), g))
    requires SignText(negative, g) == [SPACE] ==> |digits| < NTOA_BUFFER
    ensures var sign := SignText(negative, g);
            Ntoa(n, negative, base, upper, h) == Laws.Ideal(digits, sign, g)
            <==> Laws.FitsBuffer(digits, sign, g) && Laws.PrecisionShows(digits, g)
  {
    hide *;
    SameSign(negative, g, h);
    NothingFilled(digits, SignText(negative, g), g, h);
    Laws.NtoaExact(n, negative, base, upper, h);
  }

  lemma {:induction false} SameSign(negative: bool, g: Field, h: Field)
    requires h.plus == g.plus && h.space == g.space
    ensures SignText(negative, h) == SignText(negative, g)
  {
  }

  /** Digits that were cut off show. */
  lemma {:induction false} CutShows(n: nat, upper: bool, h: Field, digits: seq<byte>, g: Field)
    requires (h.hash ==> n == 0) && !h.plus && !h.space && !g.plus && !g.space
    requires Laws.DigitLike(digits) && |digits| > NTOA_BUFFER
    ensures Ntoa(n, false, 2, upper, h) != Laws.Ideal(digits, SignText(false, g), g)
    ensures !Laws.FitsBuffer(digits, SignText(false, g), g)
  {
    SameSign(false, g, h);
    assert SignText(false, g) == [] && Laws.BodyLength(digits, [], g) >= |digits|;
    CodeShows(n, false, 2, upper, h);
    FewerShow(n, false, 2, upper, h, digits, g);
  }

  /** What the parts of an integer directive are. */
  lemma {:induction false} Parts(d: Directive, widthStar: word, precStar: word, a: Arg)
    requires IntegerSpecifier(d.spec) && Plain(d) && Fits(a, if IsLongLong(d.length) then KDWord else KWord) && NoPrefixDue(d, a)
    ensures var w, g := ConvertedArg(d.spec, d.length, a), StandardField(d, widthStar, precStar);
            var v, h := IntegerOf(d.spec, d.length, a), IntegerField(d.spec, FieldOf(d, widthStar, precStar));
            var base, upper := BaseOf(d.spec), d.spec == UPPER_X;
            var digits := StandardDigits(Magnitude(w), base, upper, g.hasPrec);
            && base in {2, 8, 10, 16} && Magnitude(w) < TWO_64
            && IntegerText(d.spec, d.length, FieldOf(d, widthStar, precStar), a) == Ntoa(Magnitude(v), v < 0, base, upper, h)
            && (h.hash ==> v == 0)
            && StandardSign(d.spec, w, g) == SignText(w < 0, g)
            && (base != 10 ==> !h.plus && !h.space && !g.plus && !g.space && w >= 0)
            && (Raised(d.spec, digits, g)
                == if g.hash && d.spec == LOWER_O && digits == [] && g.prec == 0 then g.(prec := 1) else g)
  {
    hide *;
    ValueExact(d.spec, d.length, a);
    FieldExact(d, widthStar, precStar);
    TextIsNtoa(d.spec, d.length, FieldOf(d, widthStar, precStar), a);
    var w, g := ConvertedArg(d.spec, d.length, a), StandardField(d, widthStar, precStar);
    IntegerRange(d.spec, d.length, a);
    MagnitudeIs(w);
    MagnitudeIs(IntegerOf(d.spec, d.length, a));
    PrefixDue(d, a);
    StandardDigitsAre(Magnitude(w), BaseOf(d.spec), d.spec == UPPER_X, g.hasPrec);
    NoPrefix(d.spec, w, g);
    SignedIsDecimal(d.spec);
    RaisedIs(d.spec, StandardDigits(Magnitude(w), BaseOf(d.spec), d.spec == UPPER_X, g.hasPrec), g);
  }

  lemma {:induction false} PrefixDue(d: Directive, a: Arg)
    requires Fits(a, if IsLongLong(d.length) then KDWord else KWord) && NoPrefixDue(d, a)
    ensures HASH in d.flags ==> BaseOf(d.spec) == 10 || ConvertedArg(d.spec, d.length, a) == 0
  {
  }

  lemma {:induction false} SignedIsDecimal(spec: byte)
    ensures IsSigned(spec) ==> BaseOf(spec) == 10
    ensures spec == LOWER_O ==> BaseOf(spec) == 8
  {
  }

  lemma {:induction false} NoPrefix(spec: byte, v: int, g: Field)
    requires g.hash ==> BaseOf(spec) == 10 || v == 0
    ensures StandardSign(spec, v, g) == SignText(v < 0, g)
  {
  }

  lemma {:induction false} RaisedIs(spec: byte, digits: seq<byte>, g: Field)
    requires digits == [] || digits == [DIGIT_0] || !g.hash || spec != LOWER_O
    ensures Raised(spec, digits, g)
         == if g.hash && spec == LOWER_O && digits == [] && g.prec == 0 then g.(prec := 1) else g
  {
  }

  lemma {:induction false} SpaceIsFlag(negative: bool, g: Field)
    ensures SignText(negative, g) == [SPACE] ==> g.space
  {
  }

  /** Every plain integer directive without a prefix, and every argument: the code writes the standard's text if
      and only if the directive meets the conditions. */
  lemma {:induction false} IntegerStandard(d: Directive, widthStar: word, precStar: word, a: Arg)
    requires IntegerSpecifier(d.spec) && Plain(d) && Fits(a, if IsLongLong(d.length) then KDWord else KWord) && NoPrefixDue(d, a)
    ensures IntegerText(d.spec, d.length, FieldOf(d, widthStar, precStar), a) == StandardIntegerText(d, widthStar, precStar, a)
            <==> Meets(d, widthStar, precStar, a)
  {
    hide *;
    var w, g := ConvertedArg(d.spec, d.length, a), StandardField(d, widthStar, precStar);
    var v, h := IntegerOf(d.spec, d.length, a), IntegerField(d.spec, FieldOf(d, widthStar, precStar));
    var base, upper := BaseOf(d.spec), d.spec == UPPER_X;
    var digits := StandardDigits(Magnitude(w), base, upper, g.hasPrec);
    var sign := SignText(w < 0, g);
    ValueExact(d.spec, d.length, a);
    FieldExact(d, widthStar, precStar);
    Parts(d, widthStar, precStar, a);
    StandardDigitsAre(Magnitude(w), base, upper, g.hasPrec);
    MagnitudeIs(v);
    MagnitudeIs(w);
    MeetsIs(d, widthStar, precStar, a);
    SameSign(w < 0, g, h);
    if !InRange(d.width) || !InRange(d.precision) {
      OutOfRangeShows(Magnitude(v), v < 0, base, upper, h, digits, sign, Raised(d.spec, digits, g));
    } else if SignedByte(d.spec, d.length, a) {
      SignOfNegative(g);
      MinusShows(Magnitude(v), base, upper, h, digits, Raised(d.spec, digits, g));
    } else if g.hash && d.spec == LOWER_O && digits == [] && g.prec == 0 {
      NoDigitsCode(base, upper, h);
      OneZeroAsked(sign, g);
      FewerShow(0, false, base, upper, h, digits, Raised(d.spec, digits, g));
    } else if NegativePrecision(d, precStar) && (v == 0 || ZeroFilled(digits, sign, g)) {
      NegativeAsks(Magnitude(v), base, upper, w < 0, h, digits, g);
      FewerShow(Magnitude(v), v < 0, base, upper, h, digits, g);
    } else if |digits| > NTOA_BUFFER {
      CutShows(Magnitude(v), upper, h, digits, g);
    } else {
      DigitsUnderPrecision(Magnitude(v), base, upper, h.hasPrec, g.hasPrec);
      SpaceIsFlag(w < 0, g);
      LayoutDecides(Magnitude(v), v < 0, base, upper, h, digits, g);
    }
  }

  lemma {:induction false} MagnitudeIs(v: int)
    ensures Magnitude(v) == if v < 0 then -v else v
  {
  }

  lemma {:induction false} MeetsIs(d: Directive, widthStar: word, precStar: word, a: Arg)
    requires Fits(a, if IsLongLong(d.length) then KDWord else KWord)
    ensures var v, g := ConvertedArg(d.spec, d.length, a), StandardField(d, widthStar, precStar);
            var digits := StandardDigits(Magnitude(v), BaseOf(d.spec), d.spec == UPPER_X, g.hasPrec);
            var sign := SignText(v < 0, g);
            && StandardIntegerText(d, widthStar, precStar, a)
               == Laws.Ideal(digits, StandardSign(d.spec, v, g), Raised(d.spec, digits, g))
            && (Meets(d, widthStar, precStar, a) <==>
                  && InRange(d.width) && InRange(d.precision)
                  && !SignedByte(d.spec, d.length, a)
                  && (NegativePrecision(d, precStar) ==> v != 0 && !ZeroFilled(digits, sign, g))
                  && !(g.hash && d.spec == LOWER_O && digits == [] && g.prec == 0)
                  && Laws.FitsBuffer(digits, sign, g) && Laws.PrecisionShows(digits, g))
  {
    hide Laws.Ideal;
    hide ConvertedArg;
    hide StandardField;
    hide StandardDigits;
    hide Laws.FitsBuffer;
    SignsAgree(ConvertedArg(d.spec, d.length, a) < 0, StandardField(d, widthStar, precStar));
    SpecifiersAgree(d.spec);
    hide SignText;
    hide SignBefore;
    hide BaseOf;
    hide StandardBase;
  }

  lemma {:induction false} SignsAgree(negative: bool, g: Field)
    ensures SignBefore(negative, g) == SignText(negative, g)
  {
  }

  lemma {:induction false} SpecifiersAgree(spec: byte)
    ensures IntegerSpecifier(spec) == IsInteger(spec) && SignedSpecifier(spec) == IsSigned(spec)
    ensures StandardBase(spec) == BaseOf(spec)
    ensures UPPER_X == 'X' as int && LOWER_O == 'o' as int && HASH == '#' as int
  {
  }

  lemma {:induction false} SignOfNegative(g: Field)
    ensures SignText(true, g) == [MINUS]
  {
  }

  lemma {:induction false} NoDigitsCode(base: nat, upper: bool, h: Field)
    requires base >= 2 && h.hasPrec && h.prec == 0 && !h.zeroPad
    ensures |ZeroPadded(NtoaDigits(0, base, upper, h.hasPrec), false, h)| == 0
  {
  }

  lemma {:induction false} OneZeroAsked(sign: seq<byte>, g: Field)
    ensures Laws.BodyLength([], sign, g.(prec := 1)) >= 1
  {
  }

  /** A negative precision taken for 0 costs a zero its digit, or a field its zero fill. */
  lemma {:induction false} NegativeAsks(n: nat, base: nat, upper: bool, negative: bool, h: Field, digits: seq<byte>, g: Field)
    requires base in {2, 8, 10, 16} && n < TWO_64 && h.hasPrec && h.prec == 0 && !h.zeroPad && h.plus == g.plus && h.space == g.space
    requires digits == StandardDigits(n, base, upper, false)
    requires n == 0 || ZeroFilled(digits, SignText(negative, g), g)
    ensures |ZeroPadded(NtoaDigits(n, base, upper, h.hasPrec), negative, h)| < Laws.BodyLength(digits, SignText(negative, h), g)
  {
    StandardDigitsAre(n, base, upper, false);
    SameSign(negative, g, h);
    NoZerosAsked(NtoaDigits(n, base, upper, true), negative, h);
    DigitsAtMost(n, base, upper, true);
    NoneForZero(base, upper);
    assert |digits| == |Numeral(n, base)|;
    hide NtoaDigits;
    hide StandardDigits;
    hide ZeroPadded;
    hide SignText;
    hide Numeral;
  }

  lemma {:induction false} NoneForZero(base: nat, upper: bool)
    requires base >= 2
    ensures NtoaDigits(0, base, upper, true) == []
  {
  }

  lemma {:induction false} DigitsUnderPrecision(n: nat, base: nat, upper: bool, hasPrec: bool, other: bool)
    requires base >= 2 && (hasPrec == other || n != 0)
    ensures NtoaDigits(n, base, upper, hasPrec) == NtoaDigits(n, base, upper, other)
  {
  }

  /** The integer rendering law: for every integer directive, length modifier, field without an effective '#' and
      argument, the text without its spaces is an optional sign and digits that denote the converted argument in the
      directive's base, if and only if
      - it is not a signed byte above 127,
      - a minus sign still has room: neither the precision nor the zero-filled width takes all 32 places, and
      - a number in base 2 is below 2^32. */
  lemma {:induction false} TextDenotes(spec: byte, length: seq<byte>, f: Field, a: Arg)
    requires Fits(a, if IsLongLong(length) then KDWord else KWord)
    requires f.hash ==> StandardBase(spec) == 10 || ConvertedArg(spec, length, a) == 0
    ensures var v, g := ConvertedArg(spec, length, a), IntegerField(spec, f);
            SignedNumber(Unspaced(IntegerText(spec, length, f, a)), StandardBase(spec)) == v
            <==> !SignedByte(spec, length, a)
                 && (v < 0 ==> g.left || (g.prec < NTOA_BUFFER && (g.zeroPad ==> g.width <= NTOA_BUFFER)))
                 && (spec == 'b' as int ==> v < TWO_32)
  {
    SpecifiersAgree(spec);
    assert LOWER_B == 'b' as int;
    hide *;
    ValueExact(spec, length, a);
    IntegerRange(spec, length, a);
    ValueDenoted(spec, length, f, a);
  }

  // ----- a directive with its arguments

  /** The arguments of a directive: a starred width, a starred precision and the value stand in this order. */
  function WidthStar(d: Directive, args: seq<Arg>): word
    requires FitAll(args, Kinds(d))
  {
    if d.width.Star? then args[0].w else 0
  }

  function PrecisionStar(d: Directive, args: seq<Arg>): word
    requires FitAll(args, Kinds(d))
  {
    if d.precision.Star? then args[if d.width.Star? then 1 else 0].w else 0
  }

  function ValueArg(d: Directive, args: seq<Arg>): (a: Arg)
    requires IntegerSpecifier(d.spec) && FitAll(args, Kinds(d))
    ensures Fits(a, if IsLongLong(d.length) then KDWord else KWord)
  {
    args[|args| - 1]
  }

  /** The text that the standard asks of an integer directive for its arguments. */
  function StandardText(d: Directive, args: seq<Arg>): seq<byte>
    requires IntegerSpecifier(d.spec) && FitAll(args, Kinds(d))
  {
    StandardIntegerText(d, WidthStar(d, args), PrecisionStar(d, args), ValueArg(d, args))
  }

  /** The text that the code writes for them. */
  lemma {:induction false} ConversionIs(d: Directive, args: seq<Arg>)
    requires IntegerSpecifier(d.spec) && FitAll(args, Kinds(d))
    ensures ConversionText(d, args)
         == IntegerText(d.spec, d.length, FieldOf(d, WidthStar(d, args), PrecisionStar(d, args)), ValueArg(d, args))
  {
    assert args[..|Kinds(d)|] == args;
    ArgumentsSplit(d, args);
    hide FieldOf;
    hide IntegerText;
  }

  /** "%d" and "%i" write the same text, whatever flags, width, precision, length and arguments. */
  lemma {:induction false} SameDecimal(d: Directive, e: Directive, args: seq<Arg>)
    requires d.spec == 'd' as int && e == d.(spec := 'i' as int) && FitAll(args, Kinds(d))
    ensures FitAll(args, Kinds(e)) && ConversionText(d, args) == ConversionText(e, args)
  {
    SameKinds(d, e);
    SameInteger(d.length, FieldOf(d, WidthStar(d, args), PrecisionStar(d, args)), ValueArg(d, args));
    ConversionIs(d, args);
    ConversionIs(e, args);
    hide IntegerText;
    hide FitAll;
    hide Kinds;
    hide ConversionText;
    hide IsLongLong;
    hide WidthOf;
    hide PrecisionOf;
  }

  lemma {:induction false} SameKinds(d: Directive, e: Directive)
    requires d.spec == 'd' as int && e == d.(spec := 'i' as int)
    ensures Kinds(d) == Kinds(e)
  {
  }

  lemma {:induction false} SameInteger(length: seq<byte>, f: Field, a: Arg)
    requires Fits(a, if IsLongLong(length) then KDWord else KWord)
    ensures IntegerText('d' as int, length, f, a) == IntegerText('i' as int, length, f, a)
  {
    hide *;
    Signs('d' as int, 'i' as int, length, f, a);
    TextIsNtoa('d' as int, length, f, a);
    TextIsNtoa('i' as int, length, f, a);
  }

  lemma {:induction false} Signs(spec: byte, other: byte, length: seq<byte>, f: Field, a: Arg)
    requires Fits(a, if IsLongLong(length) then KDWord else KWord)
    requires spec == 'd' as int && other == 'i' as int
    ensures IntegerOf(spec, length, a) == IntegerOf(other, length, a)
    ensures BaseOf(spec) == BaseOf(other) && spec != UPPER_X && other != UPPER_X
    ensures IntegerField(spec, f) == IntegerField(other, f)
  {
  }
}
