/** The '#' flag: what the prefix costs the digits. */
module HashFlag {
  import opened Bytes
  import opened Numerals
  import opened Format
  import opened Rendering
  import opened Denotation
  import Laws = RenderingLaws

  /** The prefix of a base. */
  function HashPrefix(base: nat, upper: bool): seq<byte> {
    if base == 16 then [DIGIT_0, if upper then UPPER_X else LOWER_X] else if base == 2 then [DIGIT_0, LOWER_B] else [DIGIT_0]
  }

  /** The code makes room for the prefix: digits and zeros fill a precision or the width exactly. */
  predicate CutTaken(text: seq<byte>, f: Field, width: nat) {
    !f.hasPrec && |text| > 0 && (|text| == f.prec || |text| == width)
  }

  /** How many characters that costs. */
  function Dropped(text: seq<byte>, base: nat, f: Field, width: nat): (n: nat)
    ensures n <= |text|
  {
    if !CutTaken(text, f, width) then 0 else if |text| > 1 && base == 16 then 2 else 1
  }

  /** The last `n` characters. */
  function Ending(text: seq<byte>, n: nat): (s: seq<byte>) {
    if |text| <= n then text else text[|text| - n..]
  }

  /** `text` ends with `digits`. */
  predicate EndsIn(text: seq<byte>, digits: seq<byte>) {
    |digits| <= |text| && text[|text| - |digits|..] == digits
  }

  /** None of the characters is the letter of the base's prefix. */
  predicate NoLetter(text: seq<byte>, base: nat, upper: bool) {
    base in {2, 16} ==> HashPrefix(base, upper)[1] !in text
  }

  /** In one line: prefix and what is left of the text, cut off on the left where the buffer ends. */
  lemma {:induction false} HashedIs(text: seq<byte>, base: nat, upper: bool, f: Field, width: nat)
    requires |text| <= NTOA_BUFFER
    ensures Hashed(text, base, upper, f, width)
         == Ending(HashPrefix(base, upper) + text[Dropped(text, base, f, width)..], NTOA_BUFFER)
  {
    var a := text[Dropped(text, base, f, width)..];
    assert HashCut(text, base, f, width) == a;
    hide HashCut;
    hide Dropped;
    if base == 16 {
      var x: byte := if upper then UPPER_X else LOWER_X;
      assert [DIGIT_0] + ([x] + a) == [DIGIT_0, x] + a;
      if |a| == NTOA_BUFFER - 1 { assert ([DIGIT_0, x] + a)[1..] == [x] + a; }
    } else if base == 2 {
      assert [DIGIT_0] + ([LOWER_B] + a) == [DIGIT_0, LOWER_B] + a;
      if |a| == NTOA_BUFFER - 1 { assert ([DIGIT_0, LOWER_B] + a)[1..] == [LOWER_B] + a; }
    }
    if |a| == NTOA_BUFFER { assert (HashPrefix(base, upper) + a)[|HashPrefix(base, upper)|..] == a; }
  }

  /** For all texts, bases, fields and widths: prefix and text are written whole if and only if no cut is taken
      and both fit in the buffer. */
  lemma {:induction false} HashedWhole(text: seq<byte>, base: nat, upper: bool, f: Field, width: nat)
    requires |text| <= NTOA_BUFFER
    ensures Hashed(text, base, upper, f, width) == HashPrefix(base, upper) + text
            <==> !CutTaken(text, f, width) && |HashPrefix(base, upper)| + |text| <= NTOA_BUFFER
  {
    HashedIs(text, base, upper, f, width);
    hide Hashed;
    hide HashPrefix;
    if !CutTaken(text, f, width) { assert text[0..] == text; }
  }

  /** The last characters of zeros and digits behind a prefix. */
  lemma {:induction false} EndingKeeps(text: seq<byte>, digits: seq<byte>, n: nat)
    requires |digits| <= n
    ensures EndsIn(Ending(text, n), digits) <==> EndsIn(text, digits)
  {
    if |text| > n && |digits| <= |text| { assert text[|text| - n..][n - |digits|..] == text[|text| - |digits|..]; }
  }

  /** Dropping `d` characters of `z` zeros and digits and writing a prefix keeps the digits if and only if only
      zeros were dropped, or the prefix puts the dropped character back. */
  lemma {:induction false} PrefixKeeps(z: nat, digits: seq<byte>, d: nat, base: nat, upper: bool)
    requires digits != [] && d <= z + |digits| && d <= 2 && (d == 2 ==> base == 16)
    requires NoLetter(digits, base, upper)
    ensures EndsIn(HashPrefix(base, upper) + (Repeat(DIGIT_0, z) + digits)[d..], digits)
            <==> d <= z || (base !in {2, 16} && digits[0] == DIGIT_0)
  {
    var rest := (Repeat(DIGIT_0, z) + digits)[d..];
    RestOf(z, digits, d);
    hide Repeat;
    if d <= z {
      assert (HashPrefix(base, upper) + rest)[|HashPrefix(base, upper)| + z - d..] == digits;
    } else {
      PrefixLoses(digits, d - z, base, upper);
    }
  }

  lemma {:induction false} RestOf(z: nat, digits: seq<byte>, d: nat)
    requires d <= z + |digits|
    ensures var rest := (Repeat(DIGIT_0, z) + digits)[d..];
            if d <= z then |rest| == z - d + |digits| && rest[z - d..] == digits else rest == digits[d - z..]
  {
  }

  /** A prefix in the place of the first digits. */
  lemma {:induction false} PrefixLoses(digits: seq<byte>, d: nat, base: nat, upper: bool)
    requires 0 < d <= |digits| && d <= 2 && (d == 2 ==> base == 16) && NoLetter(digits, base, upper)
    ensures EndsIn(HashPrefix(base, upper) + digits[d..], digits) <==> base !in {2, 16} && digits[0] == DIGIT_0
  {
    var prefix := HashPrefix(base, upper);
    var out := prefix + digits[d..];
    hide NoLetter;
    if base in {2, 16} {
      LetterIn(digits, base, upper);
      var i := d - 1;
      assert out[|out| - |digits|..][i] == prefix[1];
    } else {
      assert out == [DIGIT_0] + digits[1..];
      assert out[0..] == out;
      if digits[0] == DIGIT_0 { assert out == digits; }
    }
  }

  lemma {:induction false} LetterIn(digits: seq<byte>, base: nat, upper: bool)
    requires base in {2, 16} && NoLetter(digits, base, upper)
    ensures forall i :: 0 <= i < |digits| ==> digits[i] != HashPrefix(base, upper)[1]
  {
  }

  /** For all texts of digits, bases, fields and widths: the text survives whole if and only if no cut is taken,
      or the base is neither 2 nor 16 and the prefix puts a leading zero back. */
  lemma {:induction false} HashedKeepsText(text: seq<byte>, base: nat, upper: bool, f: Field, width: nat)
    requires 0 < |text| <= NTOA_BUFFER && NoLetter(text, base, upper)
    ensures EndsIn(Hashed(text, base, upper, f, width), text)
            <==> !CutTaken(text, f, width) || (base !in {2, 16} && text[0] == DIGIT_0)
  {
    HashedKeepsDigits(0, text, base, upper, f, width);
    assert Repeat(DIGIT_0, 0) + text == text;
    hide Hashed;
    hide NoLetter;
  }

  /** With `z` filled-in zeros before the digits: the digits survive if and only if only such zeros are dropped, or
      the prefix puts a leading zero back. */
  lemma {:induction false} HashedKeepsDigits(z: nat, digits: seq<byte>, base: nat, upper: bool, f: Field, width: nat)
    requires digits != [] && z + |digits| <= NTOA_BUFFER && NoLetter(digits, base, upper)
    ensures var text := Repeat(DIGIT_0, z) + digits;
            EndsIn(Hashed(text, base, upper, f, width), digits)
            <==> Dropped(text, base, f, width) <= z || (base !in {2, 16} && digits[0] == DIGIT_0)
  {
    var text := Repeat(DIGIT_0, z) + digits;
    var d := Dropped(text, base, f, width);
    HashedIs(text, base, upper, f, width);
    hide Hashed;
    EndingKeeps(HashPrefix(base, upper) + text[d..], digits, NTOA_BUFFER);
    hide Ending;
    PrefixKeeps(z, digits, d, base, upper);
    hide NoLetter;
    hide HashPrefix;
    hide Repeat;
  }

  // ----- '#' in a directive

  /** All the digits of a number, as many as there are. */
  function FullDigits(n: nat, base: nat, upper: bool): seq<byte>
    requires base >= 2
  {
    Chars(Numeral(n, base), if upper then UPPER_A else LOWER_A)
  }

  /** The conversion buffer has all of them, or only the last 32. */
  lemma {:induction false} FullDigitsFit(n: nat, base: nat, upper: bool, hasPrec: bool)
    requires base in {2, 8, 16} && 0 < n < TWO_64
    ensures var digits := FullDigits(n, base, upper);
            && (|digits| <= NTOA_BUFFER <==> base != 2 || n < TWO_32)
            && (|digits| <= NTOA_BUFFER ==> NtoaDigits(n, base, upper, hasPrec) == digits)
  {
    DigitsFit(n, base);
    NumeralLength(n, base, NTOA_BUFFER);
    hide Numeral;
    hide Pow;
  }

  lemma {:induction false} TooLong(text: seq<byte>, digits: seq<byte>)
    requires |digits| > |text|
    ensures !EndsIn(text, digits)
  {
  }

  /** The digits of a number contain no prefix letter, and in base 8 they start with none but a significant digit. */
  lemma {:induction false} DigitsOfNumber(value: nat, base: nat, upper: bool, hasPrec: bool)
    requires base in {2, 8, 16} && 0 < value < TWO_64
    ensures var digits := NtoaDigits(value, base, upper, hasPrec);
            && 0 < |digits| <= NTOA_BUFFER && Laws.DigitLike(digits) && NoLetter(digits, base, upper)
            && (base == 8 ==> digits[0] != DIGIT_0)
  {
    Laws.DigitsAreDigitLike(value, base, upper, hasPrec);
    NumeralIsCanonical(value, base);
    Laws.TailBelow(Numeral(value, base), base, NTOA_BUFFER);
    var ds, letterA: byte := Tail(Numeral(value, base), NTOA_BUFFER), if upper then UPPER_A else LOWER_A;
    assert ds != [] && NtoaDigits(value, base, upper, hasPrec) == Chars(ds, letterA);
    if base == 8 {
      EightBytes();
      hide Numeral;
      PowQuarters(8, 8);
      NumeralLength(value, 8, 32);
      assert ds == Numeral(value, 8);
    }
    hide Numeral;
    hide Tail;
    hide NtoaDigits;
    LettersOf(ds, base, upper, letterA);
  }

  lemma {:induction false} LettersOf(ds: seq<nat>, base: nat, upper: bool, letterA: byte)
    requires base in {2, 8, 16} && letterA == (if upper then UPPER_A else LOWER_A)
    requires forall i :: 0 <= i < |ds| ==> ds[i] < base
    ensures NoLetter(Chars(ds, letterA), base, upper)
    ensures ds != [] && ds[0] != 0 ==> Chars(ds, letterA)[0] != DIGIT_0
  {
  }

  /** Without a sign, the zeros that a field puts before its digits. */
  lemma {:induction false} ZerosBefore(digits: seq<byte>, g: Field)
    requires |digits| <= NTOA_BUFFER && !g.plus && !g.space
    ensures DigitWidth(false, g) == g.width && SignText(false, g) == []
    ensures var body, n := ZeroPadded(digits, false, g), Laws.Max(g.prec, if g.zeroPad then g.width else 0);
            var m := Laws.Max(|digits|, if n < NTOA_BUFFER then n else NTOA_BUFFER);
            |body| == if g.left then |digits| else m
  {
    if !g.left { Laws.FillTwice(digits, g.prec, if g.zeroPad then g.width else 0); }
    hide Fill;
  }

  /** The text of a directive with an effective '#'. */
  lemma {:induction false} HashedNtoa(value: nat, base: nat, upper: bool, g: Field)
    requires base in {2, 8, 16} && 0 < value < TWO_64 && g.hash && !g.plus && !g.space
    ensures var body := ZeroPadded(NtoaDigits(value, base, upper, g.hasPrec), false, g);
            Unspaced(Ntoa(value, false, base, upper, g)) == Unspaced(Hashed(body, base, upper, g, g.width))
  {
    var digits := NtoaDigits(value, base, upper, g.hasPrec);
    var body := ZeroPadded(digits, false, g);
    ZerosBefore(digits, g);
    var hashed := Hashed(body, base, upper, g, g.width);
    assert g.(hash := g.hash && value != 0) == g;
    hide NtoaDigits;
    hide ZeroPadded;
    hide Hashed;
    hide Padded;
    hide Unspaced;
    assert Prefixed(hashed, []) == hashed by { assert [] + hashed == hashed; }
    UnspacedPadded(hashed, g.width, g.left, g.zeroPad);
  }

  /** Prefix and digits contain no space. */
  lemma {:induction false} HashedIsDigits(text: seq<byte>, base: nat, upper: bool, f: Field, width: nat)
    requires |text| <= NTOA_BUFFER && Laws.DigitLike(text)
    ensures Unspaced(Hashed(text, base, upper, f, width)) == Hashed(text, base, upper, f, width)
  {
    HashedIs(text, base, upper, f, width);
    hide Hashed;
    hide Dropped;
    assert Laws.DigitLike(HashPrefix(base, upper) + text[Dropped(text, base, f, width)..]);
    UnspacedDigits(Hashed(text, base, upper, f, width));
  }

  /** '#' in every directive that heeds it, for every length, field and argument that it is not switched off for:
      - prefix, zeros and what the buffer has of the digits are written whole if and only if no cut is taken and they
        fit;
      - all the digits of the number survive if and only if in base 2 it is below 2^32, and there is a precision, or
        the width is neither their number nor, for hexadecimal digits to be zero-filled, one more. */
  lemma {:induction false} HashExact(spec: byte, length: seq<byte>, f: Field, a: Arg)
    requires Fits(a, if IsLongLong(length) then KDWord else KWord)
    requires f.hash && spec in {LOWER_X, UPPER_X, LOWER_O, LOWER_B} && IntegerOf(spec, length, a) != 0
    requires f.prec > 0 ==> f.hasPrec
    ensures 0 < IntegerOf(spec, length, a)
    ensures var text, base, upper := Unspaced(IntegerText(spec, length, f, a)), BaseOf(spec), spec == UPPER_X;
            var v := IntegerOf(spec, length, a);
            var digits, body := FullDigits(v, base, upper), ZeroPadded(NtoaDigits(v, base, upper, f.hasPrec), false, IntegerField(spec, f));
            && (text == HashPrefix(base, upper) + body
                <==> !CutTaken(body, f, f.width) && |HashPrefix(base, upper)| + |body| <= NTOA_BUFFER)
            && (EndsIn(text, digits)
                <==> (spec == LOWER_B ==> v < TWO_32)
                     && (f.hasPrec || (f.width != |digits|
                                       && !(base == 16 && f.zeroPad && !f.left && f.width == |digits| + 1 <= NTOA_BUFFER))))
  {
    hide *;
    var v, g, base, upper := IntegerOf(spec, length, a), IntegerField(spec, f), BaseOf(spec), spec == UPPER_X;
    Prefixable(spec, length, f, a);
    IntegerRange(spec, length, a);
    TextIsNtoa(spec, length, f, a);
    var digits := NtoaDigits(v, base, upper, g.hasPrec);
    var body := ZeroPadded(digits, false, g);
    DigitsOfNumber(v, base, upper, g.hasPrec);
    FullDigitsFit(v, base, upper, g.hasPrec);
    BodyIs(digits, false, g);
    ZerosBefore(digits, g);
    HashedNtoa(v, base, upper, g);
    HashedIsDigits(body, base, upper, g, g.width);
    HashedLength(body, base, upper, g, g.width);
    HashedWhole(body, base, upper, g, g.width);
    HashedKeepsDigits(|body| - |digits|, digits, base, upper, g, g.width);
    CutIs(digits, body, base, f, g);
    var full := FullDigits(v, base, upper);
    if |full| > NTOA_BUFFER { TooLong(Hashed(body, base, upper, g, g.width), full); }
  }

  lemma {:induction false} HashedLength(text: seq<byte>, base: nat, upper: bool, f: Field, width: nat)
    requires |text| <= NTOA_BUFFER
    ensures |Hashed(text, base, upper, f, width)| <= NTOA_BUFFER
  {
    HashedIs(text, base, upper, f, width);
    hide Hashed;
    hide HashPrefix;
    hide Dropped;
  }

  lemma {:induction false} Prefixable(spec: byte, length: seq<byte>, f: Field, a: Arg)
    requires Fits(a, if IsLongLong(length) then KDWord else KWord)
    requires f.hash && spec in {LOWER_X, UPPER_X, LOWER_O, LOWER_B} && IntegerOf(spec, length, a) != 0
    ensures 0 < IntegerOf(spec, length, a) < TWO_64 && BaseOf(spec) in {2, 8, 16}
    ensures IntegerField(spec, f) == f.(hash := true, plus := false, space := false, zeroPad := f.zeroPad && !f.hasPrec)
  {
  }

  /** When the cut costs digits, in terms of the field. */
  lemma {:induction false} CutIs(digits: seq<byte>, body: seq<byte>, base: nat, f: Field, g: Field)
    requires base in {2, 8, 16} && 0 < |digits| <= NTOA_BUFFER && (f.prec > 0 ==> f.hasPrec)
    requires g == f.(hash := true, plus := false, space := false, zeroPad := f.zeroPad && !f.hasPrec)
    requires var n := Laws.Max(g.prec, if g.zeroPad then g.width else 0);
             |body| == if g.left then |digits| else Laws.Max(|digits|, if n < NTOA_BUFFER then n else NTOA_BUFFER)
    ensures CutTaken(body, f, f.width) == CutTaken(body, g, g.width)
    ensures Dropped(body, base, g, g.width) <= |body| - |digits|
            <==> f.hasPrec || (f.width != |digits|
                               && !(base == 16 && f.zeroPad && !f.left && f.width == |digits| + 1 <= NTOA_BUFFER))
  {
  }

  /** A field with nothing but the '#' flag and a width of 2. */
  const HASH_TWO: Field := Field(false, false, false, false, true, false, 0, 2)

  lemma {:induction false} Hex12Text()
    ensures NtoaFormat([DIGIT_0 + 1, DIGIT_0 + 2], false, 16, false, HASH_TWO) == [DIGIT_0, LOWER_X]
  {
    var text: seq<byte> := [DIGIT_0 + 1, DIGIT_0 + 2];
    assert ZeroPadded(text, false, HASH_TWO) == text by {
      assert Repeat(DIGIT_0, 0) + text == text;
    }
    HashedIs(text, 16, false, HASH_TWO, 2);
    assert text[2..] == [] && HashPrefix(16, false) + [] == [DIGIT_0, LOWER_X];
    assert Repeat(SPACE, 0) + [DIGIT_0, LOWER_X] == [DIGIT_0, LOWER_X];
    assert [] + [DIGIT_0, LOWER_X] == [DIGIT_0, LOWER_X];
    hide Hashed;
    hide HashPrefix;
  }

  lemma {:induction false} Hex12Digits()
    ensures NtoaDigits(0x12, 16, false, false) == [DIGIT_0 + 1, DIGIT_0 + 2]
  {
    assert Numeral(1, 16) == [1];
    assert 0x12 / 16 == 1 && 0x12 % 16 == 2;
    assert Numeral(0x12, 16) == [1] + [2] == [1, 2];
    hide Numeral;
  }

  /** The directive "%#2x". */
  const HASH_TWO_X: Directive := Directive([HASH], Digits([DIGIT_0 + 2]), false, Absent, [], LOWER_X)

  lemma {:induction false} Hex12Decoded()
    ensures Decode([PERCENT, HASH, DIGIT_0 + 2, LOWER_X], 0) == [Conversion(HASH_TWO_X)]
  {
    var items := [Conversion(HASH_TWO_X)];
    var fmt: seq<byte> := [PERCENT, HASH, DIGIT_0 + 2, LOWER_X];
    assert Show(items) == fmt by {
      assert items[1..] == [];
      assert ShowDirective(HASH_TWO_X) == [HASH, DIGIT_0 + 2, LOWER_X];
    }
    assert fmt[0..] == fmt;
    assert Plain(HASH_TWO_X);
    hide *;
    DecodeShown(fmt, 0, items);
  }

  lemma {:induction false} Hex12Field()
    ensures FieldOf(HASH_TWO_X, 0, 0) == HASH_TWO
  {
    var ds: seq<byte> := [DIGIT_0 + 2];
    assert ds[..0] == [] && Atoi([]) == 0;
    assert Atoi(ds) == 2;
    hide Atoi;
  }

  lemma {:induction false} Hex12Integer()
    ensures IntegerText(LOWER_X, [], HASH_TWO, Word(0x12)) == [DIGIT_0, LOWER_X]
  {
    Hex12Digits();
    Hex12Text();
    hide NtoaDigits;
    hide NtoaFormat;
  }

  lemma {:induction false} Hex12Conversion()
    ensures Kinds(HASH_TWO_X) == [KWord] && FitAll([Word(0x12)], [KWord])
    ensures ConversionText(HASH_TWO_X, [Word(0x12)]) == [DIGIT_0, LOWER_X]
  {
    Hex12Field();
    Hex12Integer();
    hide IntegerText;
    hide FieldOf;
    assert Kinds(HASH_TWO_X) == [KWord];
  }

  lemma {:induction false} Hex12Output()
    ensures var items, args := [Conversion(HASH_TWO_X)], [Word(0x12)];
            Accepts(items, args) && Output(items, args) == [DIGIT_0, LOWER_X]
  {
    var items, args := [Conversion(HASH_TWO_X)], [Word(0x12)];
    Hex12Conversion();
    hide ConversionText;
    hide FitAll;
    hide Kinds;
    assert args[..1] == args && args[1..] == [] && items[1..] == [];
    assert Accepts([], []) && Output([], []) == [];
  }

  /** The loss on an input: "%#2x" with the argument 0x12 writes "0x". */
  lemma {:induction false} HashLosesDigits()
    ensures var items := Decode([PERCENT, HASH, DIGIT_0 + 2, LOWER_X], 0);
            Accepts(items, [Word(0x12)]) && Output(items, [Word(0x12)]) == [DIGIT_0, LOWER_X]
  {
    Hex12Decoded();
    Hex12Output();
    hide Output;
    hide Accepts;
    hide Decode;
  }
}
