/** What the text of an integer directive says to a reader: the argument. */
module Denotation {
  import opened Bytes
  import opened Numerals
  import opened Format
  import opened Rendering
  import Laws = RenderingLaws
  import Itoa
  import Printing
  import Patterns
  import Text = IntegerText

  // ----- leaving out the padding

  /** The text without its spaces. */
  function Unspaced(text: seq<byte>): seq<byte> {
    if text == [] then []
    else Unspaced(text[..|text| - 1]) + if text[|text| - 1] == SPACE then [] else [text[|text| - 1]]
  }

  lemma {:induction false} UnspacedSnoc(a: seq<byte>, c: byte)
    ensures Unspaced(a + [c]) == Unspaced(a) + if c == SPACE then [] else [c]
  {
    assert (a + [c])[..|a|] == a;
  }

  lemma {:induction false} UnspacedConcat(a: seq<byte>, b: seq<byte>)
    ensures Unspaced(a + b) == Unspaced(a) + Unspaced(b)
    decreases |b|
  {
    if b == [] {
      assert a + b == a && Unspaced(a) + [] == Unspaced(a);
    } else {
      var init, c := b[..|b| - 1], b[|b| - 1];
      UnspacedConcat(a, init);
      assert a + b == a + init + [c];
      UnspacedSnoc(a + init, c);
    }
  }

  lemma {:induction false} UnspacedSpaces(n: nat)
    ensures Unspaced(Repeat(SPACE, n)) == []
    decreases n
  {
    if n > 0 {
      UnspacedSpaces(n - 1);
      assert Repeat(SPACE, n) == Repeat(SPACE, n - 1) + [SPACE];
      UnspacedSnoc(Repeat(SPACE, n - 1), SPACE);
    }
  }

  lemma {:induction false} UnspacedDigits(cs: seq<byte>)
    requires Laws.DigitLike(cs)
    ensures Unspaced(cs) == cs
    decreases |cs|
  {
    if cs != [] { UnspacedDigits(cs[..|cs| - 1]); }
  }

  /** Padding adds nothing but spaces. */
  lemma {:induction false} UnspacedPadded(text: seq<byte>, width: nat, left: bool, zeroPad: bool)
    ensures Unspaced(Padded(text, width, left, zeroPad)) == Unspaced(text)
  {
    hide Unspaced;
    var pad := Repeat(SPACE, Monus(width, |text|));
    UnspacedSpaces(|pad|);
    UnspacedConcat(text, pad);
    UnspacedConcat(pad, text);
    assert Unspaced(text) + [] == Unspaced(text) && [] + Unspaced(text) == Unspaced(text);
  }

  // ----- reading digits

  /** The digit that a character stands for, in either case. */
  function DigitOf(c: byte): nat {
    if '0' as int <= c <= '9' as int then c - '0' as int
    else if 'a' as int <= c <= 'z' as int then c - 'a' as int + 10
    else if 'A' as int <= c <= 'Z' as int then c - 'A' as int + 10
    else 0
  }

  /** The number that characters denote in a base. */
  function NumberIn(cs: seq<byte>, base: nat): nat {
    if cs == [] then 0 else NumberIn(cs[..|cs| - 1], base) * base + DigitOf(cs[|cs| - 1])
  }

  /** With an optional sign before them. */
  function SignedNumber(cs: seq<byte>, base: nat): int {
    if cs != [] && cs[0] == '-' as int then -(NumberIn(cs[1..], base) as int)
    else if cs != [] && cs[0] == '+' as int then NumberIn(cs[1..], base)
    else NumberIn(cs, base)
  }

  lemma {:induction false} NumberSnoc(cs: seq<byte>, c: byte, base: nat)
    ensures NumberIn(cs + [c], base) == NumberIn(cs, base) * base + DigitOf(c)
  {
    assert (cs + [c])[..|cs|] == cs;
  }

  lemma {:induction false} NumberOfZeros(n: nat, base: nat)
    ensures NumberIn(Repeat(DIGIT_0, n), base) == 0
    decreases n
  {
    if n > 0 {
      NumberOfZeros(n - 1, base);
      assert Repeat(DIGIT_0, n) == Repeat(DIGIT_0, n - 1) + [DIGIT_0];
      NumberSnoc(Repeat(DIGIT_0, n - 1), DIGIT_0, base);
      assert 0 * base == 0;
    }
  }

  predicate SmallDigits(ds: seq<nat>) {
    forall i :: 0 <= i < |ds| ==> ds[i] < 36
  }

  lemma {:induction false} LastChar(ds: seq<nat>, letterA: byte)
    requires ds != [] && SmallDigits(ds) && letterA in {UPPER_A, LOWER_A}
    ensures var init, d := ds[..|ds| - 1], ds[|ds| - 1];
            && SmallDigits(init) && Chars(ds, letterA) == Chars(init, letterA) + [DigitChar(d, letterA)]
            && DigitOf(DigitChar(d, letterA)) == d
  {
    var init, d := ds[..|ds| - 1], ds[|ds| - 1];
    DigitCharPlain(d, letterA);
    hide DigitChar;
    hide Chars;
    assert ds == init + [d];
    CharsSplit(init, d, letterA);
  }

  /** The characters of digits denote what the digits denote, in either case and zero-filled or not. */
  lemma {:induction false} NumberOfChars(zeros: nat, ds: seq<nat>, base: nat, letterA: byte)
    requires SmallDigits(ds) && letterA in {UPPER_A, LOWER_A}
    ensures NumberIn(Repeat(DIGIT_0, zeros) + Chars(ds, letterA), base) == Value(ds, base)
    decreases |ds|
  {
    hide *;
    if ds == [] {
      NumberOfZeros(zeros, base);
      NoChars(zeros, base, letterA);
    } else {
      LastChar(ds, letterA);
      var init, d := ds[..|ds| - 1], ds[|ds| - 1];
      NumberOfChars(zeros, init, base, letterA);
      Patterns.Assoc(Repeat(DIGIT_0, zeros), Chars(init, letterA), [DigitChar(d, letterA)]);
      NumberSnoc(Repeat(DIGIT_0, zeros) + Chars(init, letterA), DigitChar(d, letterA), base);
      ValueSnoc(init, d, base);
      assert ds == init + [d];
    }
  }

  lemma {:induction false} NoChars(zeros: nat, base: nat, letterA: byte)
    ensures Repeat(DIGIT_0, zeros) + Chars([], letterA) == Repeat(DIGIT_0, zeros) && Value([], base) == 0
  {
  }

  // ----- what the printers write

  /** Digits and letters of one case, without a leading zero: there is one such text for every number and base. */
  predicate Canonical(text: seq<byte>, upper: bool) {
    && text != [] && (|text| > 1 ==> text[0] != '0' as int)
    && forall i :: 0 <= i < |text| ==>
         '0' as int <= text[i] <= '9' as int
         || (if upper then 'A' as int <= text[i] <= 'Z' as int else 'a' as int <= text[i] <= 'z' as int)
  }

  lemma {:induction false} CharOfDigit(d: nat, upper: bool)
    requires d < 36
    ensures DigitChar(d, if upper then UPPER_A else LOWER_A)
         == if d < 10 then '0' as int + d else if upper then 'A' as int + d - 10 else 'a' as int + d - 10
  {
  }

  lemma {:induction false} CharsAreCanonical(ds: seq<nat>, upper: bool)
    requires ds != [] && SmallDigits(ds) && (|ds| > 1 ==> ds[0] != 0)
    ensures Canonical(Chars(ds, if upper then UPPER_A else LOWER_A), upper)
  {
    forall i | 0 <= i < |ds| ensures Chars(ds, if upper then UPPER_A else LOWER_A)[i]
         == if ds[i] < 10 then '0' as int + ds[i] else if upper then 'A' as int + ds[i] - 10 else 'a' as int + ds[i] - 10
    {
      CharsAt(ds, if upper then UPPER_A else LOWER_A, i);
      CharOfDigit(ds[i], upper);
    }
    hide Chars;
  }

  /** In every base up to 36 the numeral's text denotes its number. */
  lemma {:induction false} NumeralDenotes(n: nat, base: nat, upper: bool)
    requires 2 <= base <= 36
    ensures var text := Chars(Numeral(n, base), if upper then UPPER_A else LOWER_A);
            Canonical(text, upper) && NumberIn(text, base) == n
  {
    NumeralIsCanonical(n, base);
    ValueOfNumeral(n, base);
    var ds, letterA := Numeral(n, base), if upper then UPPER_A else LOWER_A;
    assert Repeat(DIGIT_0, 0) + Chars(ds, letterA) == Chars(ds, letterA);
    assert ds != [] && SmallDigits(ds) && (|ds| > 1 ==> ds[0] != 0);
    hide *;
    CharsAreCanonical(ds, upper);
    NumberOfChars(0, ds, base, letterA);
  }

  /** `ltoa` writes every long: in base 10 with a minus sign before a negative one, in every other base the number that
      its bits are without a sign. */
  lemma {:induction false} LtoaDenotes(value: int, radix: int)
    requires -0x8000_0000 <= value < 0x8000_0000 && 2 <= radix <= 36
    ensures var text := Itoa.Rendering(value, radix);
            if radix == 10 && value < 0 then
              text[..1] == ['-' as int] && Canonical(text[1..], false) && NumberIn(text[1..], 10) == -value
            else
              Canonical(text, false) && NumberIn(text, radix) == if value < 0 then value + 0x1_0000_0000 else value
  {
    RenderingIs(value, radix);
    hide *;
    NumeralDenotes(if value < 0 then -value else value, 10, false);
    NumeralDenotes(if value < 0 then value + 0x1_0000_0000 else value, radix, false);
  }

  lemma {:induction false} RenderingIs(value: int, radix: int)
    requires -0x8000_0000 <= value < 0x8000_0000 && 2 <= radix <= 36
    ensures var text := Itoa.Rendering(value, radix);
            if radix == 10 && value < 0 then
              text != [] && text[..1] == ['-' as int] && text[1..] == Chars(Numeral(-value, 10), LOWER_A)
            else
              text == Chars(Numeral(if value < 0 then value + 0x1_0000_0000 else value, radix), LOWER_A)
  {
    hide Chars;
    hide Numeral;
  }

  /** `printNumber` writes every number in every base up to 36, and in base 10 for a base below 2. */
  lemma {:induction false} NumberTextDenotes(n: nat, base: nat)
    requires base <= 36
    ensures var text := Printing.NumberText(n, base);
            Canonical(text, true) && NumberIn(text, if base < 2 then 10 else base) == n
  {
    NumeralDenotes(n, if base < 2 then 10 else base, true);
    Printing.NumberTextIsNumeral(n, base);
    hide Chars;
    hide Numeral;
    hide Canonical;
    hide NumberIn;
    hide Printing.NumberText;
  }

  /** _atoi gives what decimal digits denote, modulo 2^32. */
  lemma {:induction false} AtoiIsNumber(cs: seq<byte>)
    requires forall i :: 0 <= i < |cs| ==> IsDigit(cs[i])
    ensures Atoi(cs) == U32(NumberIn(cs, 10))
    decreases |cs|
  {
    if cs != [] {
      var init, c := cs[..|cs| - 1], cs[|cs| - 1];
      AtoiIsNumber(init);
      WrapStep(NumberIn(init, 10), c - DIGIT_0);
    }
  }

  lemma {:induction false} WrapStep(v: nat, d: nat)
    ensures U32(U32(v) * 10 + d) == U32(v * 10 + d)
  {
    var k := v / TWO_32;
    assert v == U32(v) + k * TWO_32;
    hide U32;
    U32Shift(U32(v) * 10 + d, 10 * k);
  }

  lemma {:induction false} U32Shift(x: nat, k: nat)
    ensures U32(x + k * TWO_32) == U32(x)
  {
  }

  /** _atoi reads the number back from its decimal digits, zero-filled or not. */
  lemma {:induction false} AtoiReadsDigits(zeros: nat, ds: seq<nat>, letterA: byte)
    requires Text.DecimalDigits(ds) && letterA in {UPPER_A, LOWER_A}
    ensures Atoi(Repeat(DIGIT_0, zeros) + Chars(ds, letterA)) == U32(Value(ds, 10))
  {
    var cs := Repeat(DIGIT_0, zeros) + Chars(ds, letterA);
    assert forall i :: 0 <= i < |cs| ==> IsDigit(cs[i]);
    assert SmallDigits(ds);
    hide *;
    AtoiIsNumber(cs);
    NumberOfChars(zeros, ds, 10, letterA);
  }

  /** Digits of a 32-bit number survive zero fill and _atoi. */
  lemma {:induction false} AtoiRoundTrip(n: nat, zeros: nat, letterA: byte)
    requires n < TWO_32 && letterA in {UPPER_A, LOWER_A}
    ensures Atoi(Repeat(DIGIT_0, zeros) + Chars(Numeral(n, 10), letterA)) == n
  {
    NumeralIsCanonical(n, 10);
    ValueOfNumeral(n, 10);
    AtoiReadsDigits(zeros, Numeral(n, 10), letterA);
  }

  // ----- the text of an integer directive

  /** The digits with their zeros: how many there are, and that they are digits. */
  lemma {:induction false} BodyIs(digits: seq<byte>, negative: bool, g: Field)
    requires |digits| <= NTOA_BUFFER && Laws.DigitLike(digits)
    ensures var body := ZeroPadded(digits, negative, g);
            && |digits| <= |body| <= NTOA_BUFFER && body == Repeat(DIGIT_0, |body| - |digits|) + digits
            && Laws.DigitLike(body)
            && (|body| < NTOA_BUFFER <==>
                  |digits| < NTOA_BUFFER
                  && (g.left || (g.prec < NTOA_BUFFER && (g.zeroPad ==> DigitWidth(negative, g) < NTOA_BUFFER))))
  {
    var width := if g.zeroPad then DigitWidth(negative, g) else 0;
    if g.left {
      assert Repeat(DIGIT_0, 0) + digits == digits;
    } else {
      Laws.FillTwice(digits, g.prec, width);
    }
    hide Fill;
    hide DigitWidth;
  }

  lemma {:induction false} UnspacedOne(c: byte)
    ensures Unspaced([]) == [] && Unspaced([c]) == if c == SPACE then [] else [c]
  {
    UnspacedSnoc([], c);
    assert Unspaced([]) == [];
    hide Unspaced;
    assert [] + [c] == [c];
  }

  lemma {:induction false} SignIs(negative: bool, g: Field)
    ensures SignText(negative, g) in {[], [MINUS], [PLUS], [SPACE]}
    ensures Unspaced(SignText(negative, g)) in {[], [MINUS], [PLUS]}
    ensures negative <==> Unspaced(SignText(negative, g)) == [MINUS]
  {
    UnspacedOne(MINUS);
    UnspacedOne(PLUS);
    UnspacedOne(SPACE);
    hide Unspaced;
  }

  /** Without the spaces there remain the sign, as long as the buffer has room for it, zeros and digits. */
  lemma {:induction false} UnspacedNtoa(value: nat, negative: bool, base: nat, upper: bool, g: Field)
    requires 2 <= base <= 16 && (g.hash ==> value == 0)
    ensures var digits := NtoaDigits(value, base, upper, g.hasPrec);
            var body := ZeroPadded(digits, negative, g);
            Unspaced(Ntoa(value, negative, base, upper, g))
            == (if |body| < NTOA_BUFFER then Unspaced(SignText(negative, g)) else []) + body
  {
    hide *;
    var digits := NtoaDigits(value, base, upper, g.hasPrec);
    var body, sign := ZeroPadded(digits, negative, g), SignText(negative, g);
    Laws.DigitsAreDigitLike(value, base, upper, g.hasPrec);
    NtoaIs(value, negative, base, upper, g);
    BodyIs(digits, negative, g);
    UnspacedDigits(body);
    UnspacedConcat(sign, body);
    UnspacedPadded(Prefixed(body, sign), DigitWidth(negative, g), g.left, g.zeroPad);
    PrefixedIs(body, sign);
    assert [] + body == body;
  }

  lemma {:induction false} NtoaIs(value: nat, negative: bool, base: nat, upper: bool, g: Field)
    requires base >= 2 && (g.hash ==> value == 0)
    ensures Ntoa(value, negative, base, upper, g)
         == Padded(Prefixed(ZeroPadded(NtoaDigits(value, base, upper, g.hasPrec), negative, g), SignText(negative, g)),
                   DigitWidth(negative, g), g.left, g.zeroPad)
  {
    var h := g.(hash := g.hash && value != 0);
    assert !h.hash;
    hide NtoaDigits;
    hide Fill;
    hide Prefixed;
    hide Padded;
  }

  lemma {:induction false} PrefixedIs(text: seq<byte>, sign: seq<byte>)
    ensures Prefixed(text, sign) == if |text| < NTOA_BUFFER then sign + text else text
  {
  }

  /** Zeros and digits denote the value, modulo what 32 digits can express. */
  lemma {:induction false} NumberOfBody(zeros: nat, value: nat, base: nat, upper: bool, hasPrec: bool)
    requires 2 <= base <= 16
    ensures Pow(base, NTOA_BUFFER) > 0
    ensures NumberIn(Repeat(DIGIT_0, zeros) + NtoaDigits(value, base, upper, hasPrec), base) == value % Pow(base, NTOA_BUFFER)
  {
    ValueOfTail(value, base, NTOA_BUFFER);
    var ds, letterA: byte := Tail(Numeral(value, base), NTOA_BUFFER), if upper then UPPER_A else LOWER_A;
    NumeralIsCanonical(value, base);
    Laws.TailBelow(Numeral(value, base), base, NTOA_BUFFER);
    assert SmallDigits(ds);
    hide Numeral;
    hide Tail;
    hide Pow;
    hide Value;
    hide Chars;
    hide NumberIn;
    if hasPrec && value == 0 {
      NumberOfZeros(zeros, base);
      assert Repeat(DIGIT_0, zeros) + [] == Repeat(DIGIT_0, zeros);
      SmallMod(0, Pow(base, NTOA_BUFFER));
    } else {
      NumberOfChars(zeros, ds, base, letterA);
    }
  }

  lemma {:induction false} SignedIs(sign: seq<byte>, body: seq<byte>, base: nat)
    requires sign in {[], [MINUS], [PLUS]} && Laws.DigitLike(body)
    ensures SignedNumber(sign + body, base) == if sign == [MINUS] then -(NumberIn(body, base) as int) else NumberIn(body, base)
  {
    if sign == [] { assert [] + body == body; } else { assert (sign + body)[1..] == body; }
  }

  /** The text denotes the value if and only if a minus sign that is due has room and no digit was dropped. */
  lemma {:induction false} NtoaDenotes(value: nat, negative: bool, base: nat, upper: bool, g: Field)
    requires 2 <= base <= 16 && (g.hash ==> value == 0) && (negative ==> value > 0)
    ensures var digits := NtoaDigits(value, base, upper, g.hasPrec);
            SignedNumber(Unspaced(Ntoa(value, negative, base, upper, g)), base) == (if negative then -(value as int) else value)
            <==> value < Pow(base, NTOA_BUFFER) && (negative ==> |ZeroPadded(digits, negative, g)| < NTOA_BUFFER)
  {
    hide *;
    var digits := NtoaDigits(value, base, upper, g.hasPrec);
    var body := ZeroPadded(digits, negative, g);
    Laws.DigitsAreDigitLike(value, base, upper, g.hasPrec);
    UnspacedNtoa(value, negative, base, upper, g);
    BodyIs(digits, negative, g);
    SignIs(negative, g);
    NumberOfBody(|body| - |digits|, value, base, upper, g.hasPrec);
    SignedIs(if |body| < NTOA_BUFFER then Unspaced(SignText(negative, g)) else [], body, base);
    ModIs(value, Pow(base, NTOA_BUFFER));
  }

  lemma {:induction false} ModIs(n: nat, m: nat)
    requires m > 0
    ensures 0 <= n % m < m && (n < m ==> n % m == n)
  {
    if n < m { SmallMod(n, m); }
  }

  /** A 64-bit number has fewer than 32 decimal digits, and is below what 32 digits express in the other bases
      but 2. */
  lemma {:induction false} DigitsFit(value: nat, base: nat)
    requires base in {2, 8, 10, 16} && value < TWO_64
    ensures value < Pow(base, NTOA_BUFFER) <==> base != 2 || value < TWO_32
    ensures base == 10 ==> |Numeral(value, 10)| < NTOA_BUFFER
  {
    FourBytes();
    EightBytes();
    TwoToTheThirtyTwo();
    hide Numeral;
    hide Pow;
    if base != 2 { PowQuarters(base, 8); }
    if base == 10 { DecimalDigitsOfBytes(value, 8); }
  }

  lemma {:induction false} TwoToTheThirtyTwo()
    ensures Pow(2, 32) == TWO_32
  {
    assert Pow(2, 8) == 256;
    assert Pow(2, 16) == 0x1_0000;
    assert Pow(2, 24) == 0x100_0000;
  }

  /** The text without its spaces is an optional sign and digits that denote the value the code renders, if and only
      if a minus sign still has room and a number in base 2 is below 2^32. */
  lemma {:induction false} ValueDenoted(spec: byte, length: seq<byte>, f: Field, a: Arg)
    requires Fits(a, if IsLongLong(length) then KDWord else KWord)
    requires f.hash ==> BaseOf(spec) == 10 || IntegerOf(spec, length, a) == 0
    ensures var v, g := IntegerOf(spec, length, a), IntegerField(spec, f);
            SignedNumber(Unspaced(IntegerText(spec, length, f, a)), BaseOf(spec)) == v
            <==> (v < 0 ==> g.left || (g.prec < NTOA_BUFFER && (g.zeroPad ==> g.width <= NTOA_BUFFER))) && (spec == LOWER_B ==> v < TWO_32)
  {
    hide *;
    var v, g, base := IntegerOf(spec, length, a), IntegerField(spec, f), BaseOf(spec);
    var n: nat := if v < 0 then -v else v;
    IntegerRange(spec, length, a);
    TextIsNtoa(spec, length, f, a);
    var digits := NtoaDigits(n, base, spec == UPPER_X, g.hasPrec);
    DigitsAtMost(n, base, spec == UPPER_X, g.hasPrec);
    Laws.DigitsAreDigitLike(n, base, spec == UPPER_X, g.hasPrec);
    WidthForSign(v < 0, g);
    NtoaDenotes(n, v < 0, base, spec == UPPER_X, g);
    DigitsFit(n, base);
    BodyIs(digits, v < 0, g);
  }

  lemma {:induction false} IntegerRange(spec: byte, length: seq<byte>, a: Arg)
    requires Fits(a, if IsLongLong(length) then KDWord else KWord)
    ensures var v := IntegerOf(spec, length, a);
            -TWO_64 < v < TWO_64 && (v < 0 ==> BaseOf(spec) == 10) && BaseOf(spec) in {2, 8, 10, 16}
            && (BaseOf(spec) == 2 <==> spec == LOWER_B)
  {
  }

  lemma {:induction false} TextIsNtoa(spec: byte, length: seq<byte>, f: Field, a: Arg)
    requires Fits(a, if IsLongLong(length) then KDWord else KWord)
    ensures var (v, g) := (IntegerOf(spec, length, a), IntegerField(spec, f));
            && IntegerText(spec, length, f, a) == Ntoa(if v < 0 then -v else v, v < 0, BaseOf(spec), spec == UPPER_X, g)
            && (g.hash <==> f.hash && BaseOf(spec) != 10)
  {
    hide Ntoa;
    hide IntegerOf;
  }

  lemma {:induction false} DigitsAtMost(value: nat, base: nat, upper: bool, hasPrec: bool)
    requires base >= 2
    ensures |NtoaDigits(value, base, upper, hasPrec)| <= |Numeral(value, base)|
  {
    hide Numeral;
  }

  lemma {:induction false} WidthForSign(negative: bool, g: Field)
    ensures negative && !g.left && g.zeroPad ==> (DigitWidth(negative, g) < NTOA_BUFFER <==> g.width <= NTOA_BUFFER)
  {
  }

  /** "%u" in every field and length: _atoi reads the argument back from its text, modulo 2^32. */
  lemma {:induction false} UnsignedReadsBack(length: seq<byte>, f: Field, a: Arg)
    requires Fits(a, if IsLongLong(length) then KDWord else KWord)
    ensures Atoi(Unspaced(IntegerText(LOWER_U, length, f, a))) == U32(IntegerOf(LOWER_U, length, a))
  {
    hide *;
    var v, g := IntegerOf(LOWER_U, length, a), IntegerField(LOWER_U, f);
    UnsignedIs(length, f, a);
    var digits := NtoaDigits(v, 10, false, g.hasPrec);
    Laws.DigitsAreDigitLike(v, 10, false, g.hasPrec);
    UnsignedDigits(v, g.hasPrec);
    BodyIs(digits, false, g);
    UnspacedNtoa(v, false, 10, false, g);
    var body := ZeroPadded(digits, false, g);
    assert [] + body == body;
    DecimalBody(|body| - |digits|, digits);
    AtoiIsNumber(body);
    NumberOfBody(|body| - |digits|, v, 10, false, g.hasPrec);
    DigitsFit(v, 10);
    ModIs(v, Pow(10, NTOA_BUFFER));
  }

  lemma {:induction false} UnsignedIs(length: seq<byte>, f: Field, a: Arg)
    requires Fits(a, if IsLongLong(length) then KDWord else KWord)
    ensures var (v, g) := (IntegerOf(LOWER_U, length, a), IntegerField(LOWER_U, f));
            && 0 <= v < TWO_64 && !g.hash && Unspaced(SignText(false, g)) == []
            && IntegerText(LOWER_U, length, f, a) == Ntoa(v, false, 10, false, g)
  {
    TextIsNtoa(LOWER_U, length, f, a);
    hide Ntoa;
    hide IntegerText;
    assert BaseOf(LOWER_U) == 10 && LOWER_U != UPPER_X;
  }

  lemma {:induction false} UnsignedDigits(v: nat, hasPrec: bool)
    ensures forall i :: 0 <= i < |NtoaDigits(v, 10, false, hasPrec)| ==> IsDigit(NtoaDigits(v, 10, false, hasPrec)[i])
  {
    NumeralIsCanonical(v, 10);
    Laws.TailBelow(Numeral(v, 10), 10, NTOA_BUFFER);
    hide Numeral;
    hide Tail;
  }

  lemma {:induction false} DecimalBody(zeros: nat, digits: seq<byte>)
    requires forall i :: 0 <= i < |digits| ==> IsDigit(digits[i])
    ensures forall i :: 0 <= i < zeros + |digits| ==> IsDigit((Repeat(DIGIT_0, zeros) + digits)[i])
  {
  }
}
