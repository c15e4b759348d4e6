/** The standard's text of a directive whose '#' flag adds something, and exactly when the code writes it. */
module StandardHash {
  import opened Bytes
  import opened Numerals
  import opened Format
  import opened Rendering
  import opened Denotation
  import opened HashFlag
  import opened Standard
  import Laws = RenderingLaws
  import Patterns

  /** Padding tells apart what it surrounds. */
  lemma {:induction false} PaddedApart(x: seq<byte>, y: seq<byte>, width: nat, left: bool, zx: bool, zy: bool)
    requires Laws.DigitLike(x) && Laws.DigitLike(y)
    requires zx == zy || left || |y| >= width
    ensures Padded(x, width, left, zx) == Padded(y, width, left, zy) <==> x == y
  {
    if x == y { PaddedFull(x, width, left, zx, zy); }
    hide *;
    UnspacedPadded(x, width, left, zx);
    UnspacedPadded(y, width, left, zy);
    UnspacedDigits(x);
    UnspacedDigits(y);
  }

  lemma {:induction false} PaddedFull(x: seq<byte>, width: nat, left: bool, zx: bool, zy: bool)
    requires zx == zy || left || |x| >= width
    ensures Padded(x, width, left, zx) == Padded(x, width, left, zy)
  {
  }

  /** Zeros and digits without their first `d` characters. */
  lemma {:induction false} Shorter(z: nat, digits: seq<byte>, d: nat)
    requires d <= z
    ensures (Repeat(DIGIT_0, z) + digits)[d..] == Repeat(DIGIT_0, z - d) + digits
  {
  }

  /** The code's zeros and digits behind a hexadecimal prefix, cut off by the buffer, against any other number of
      zeros. */
  lemma {:induction false} HexBodies(z: nat, digits: seq<byte>, d: nat, upper: bool, n: nat)
    requires digits != [] && z + |digits| <= NTOA_BUFFER && d <= 2 && d <= z + |digits| && n >= |digits|
    requires NoLetter(digits, 16, upper)
    ensures var prefix := HashPrefix(16, upper);
            Ending(prefix + (Repeat(DIGIT_0, z) + digits)[d..], NTOA_BUFFER) == prefix + Repeat(DIGIT_0, n - |digits|) + digits
            <==> d <= z && z + |digits| - d == n && n + 2 <= NTOA_BUFFER
  {
    hide *;
    if d <= z {
      HexKept(z, digits, d, upper, n);
    } else {
      CodeEnds(z, digits, d, 16, upper);
      ZerosEndIn(HashPrefix(16, upper), n - |digits|, digits);
    }
  }

  /** The code's text still ends with the digits only if just zeros were dropped. */
  lemma {:induction false} CodeEnds(z: nat, digits: seq<byte>, d: nat, base: nat, upper: bool)
    requires digits != [] && |digits| <= NTOA_BUFFER && d <= z + |digits| && d <= 2 && (d == 2 ==> base == 16)
    requires NoLetter(digits, base, upper) && (base in {2, 16} || digits[0] != DIGIT_0)
    ensures EndsIn(Ending(HashPrefix(base, upper) + (Repeat(DIGIT_0, z) + digits)[d..], NTOA_BUFFER), digits) <==> d <= z
  {
    hide *;
    EndingKeeps(HashPrefix(base, upper) + (Repeat(DIGIT_0, z) + digits)[d..], digits, NTOA_BUFFER);
    PrefixKeeps(z, digits, d, base, upper);
  }

  lemma {:induction false} ZerosEndIn(prefix: seq<byte>, z: nat, digits: seq<byte>)
    ensures EndsIn(prefix + Repeat(DIGIT_0, z) + digits, digits)
  {
    assert (prefix + Repeat(DIGIT_0, z) + digits)[|prefix| + z..] == digits;
  }

  lemma {:induction false} HexKept(z: nat, digits: seq<byte>, d: nat, upper: bool, n: nat)
    requires z + |digits| <= NTOA_BUFFER && d <= 2 && d <= z && n >= |digits| && NoLetter(digits, 16, upper)
    ensures var prefix := HashPrefix(16, upper);
            Ending(prefix + (Repeat(DIGIT_0, z) + digits)[d..], NTOA_BUFFER) == prefix + Repeat(DIGIT_0, n - |digits|) + digits
            <==> z + |digits| - d == n && n + 2 <= NTOA_BUFFER
  {
    Shorter(z, digits, d);
    hide NoLetter;
    var prefix, rest := HashPrefix(16, upper), Repeat(DIGIT_0, z - d) + digits;
    assert |prefix| == 2 && |rest| == z - d + |digits|;
    hide HashPrefix;
    hide Repeat;
    if |rest| + 2 <= NTOA_BUFFER {
      assert Ending(prefix + rest, NTOA_BUFFER) == prefix + rest;
      Patterns.Assoc(prefix, Repeat(DIGIT_0, z - d), digits);
      assert |prefix + Repeat(DIGIT_0, n - |digits|) + digits| == 2 + n;
    } else {
      HexOverflow(z - d, digits, upper, n);
    }
  }

  /** Where the buffer ends before the prefix does, the prefix is not at the front. */
  lemma {:induction false} HexOverflow(z: nat, digits: seq<byte>, upper: bool, n: nat)
    requires n >= |digits| && NTOA_BUFFER < z + |digits| + 2 <= NTOA_BUFFER + 2 && NoLetter(digits, 16, upper)
    ensures var prefix := HashPrefix(16, upper);
            Ending(prefix + (Repeat(DIGIT_0, z) + digits), NTOA_BUFFER) != prefix + Repeat(DIGIT_0, n - |digits|) + digits
  {
    var prefix, rest := HashPrefix(16, upper), Repeat(DIGIT_0, z) + digits;
    var code := Ending(prefix + rest, NTOA_BUFFER);
    var standard := prefix + Repeat(DIGIT_0, n - |digits|) + digits;
    assert standard[0] == prefix[0] && standard[1] == prefix[1];
    if |rest| == NTOA_BUFFER {
      assert code[1] == rest[1];
      if z < 2 { LetterIn(digits, 16, upper); }
    } else {
      assert code[0] == prefix[1];
    }
  }

  /** The same for the octal prefix, which is a zero among zeros. */
  lemma {:induction false} OctalBodies(z: nat, digits: seq<byte>, d: nat, upper: bool, n: nat)
    requires digits != [] && z + |digits| <= NTOA_BUFFER && d <= 1 && d <= z + |digits| && n >= |digits|
    requires digits[0] != DIGIT_0
    ensures var all := 1 + z + |digits| - d;
            Ending(HashPrefix(8, upper) + (Repeat(DIGIT_0, z) + digits)[d..], NTOA_BUFFER) == Repeat(DIGIT_0, n - |digits|) + digits
            <==> d <= z && n == if all <= NTOA_BUFFER then all else NTOA_BUFFER
  {
    hide *;
    OctalPrefix(digits, upper);
    if d <= z {
      Shorter(z, digits, d);
      OneMoreZero(z - d, digits);
      OctalEnding(1 + z - d, digits, n);
    } else {
      CodeEnds(z, digits, d, 8, upper);
      ZerosEndIn([], n - |digits|, digits);
      assert [] + Repeat(DIGIT_0, n - |digits|) == Repeat(DIGIT_0, n - |digits|);
    }
  }

  lemma {:induction false} OctalPrefix(digits: seq<byte>, upper: bool)
    ensures HashPrefix(8, upper) == [DIGIT_0] && NoLetter(digits, 8, upper)
  {
  }

  lemma {:induction false} OneMoreZero(z: nat, digits: seq<byte>)
    ensures [DIGIT_0] + (Repeat(DIGIT_0, z) + digits) == Repeat(DIGIT_0, 1 + z) + digits
  {
  }

  lemma {:induction false} OctalEnding(m: nat, digits: seq<byte>, n: nat)
    requires 0 < |digits| <= NTOA_BUFFER && 1 <= m && m + |digits| <= NTOA_BUFFER + 1 && n >= |digits|
    ensures Ending(Repeat(DIGIT_0, m) + digits, NTOA_BUFFER) == Repeat(DIGIT_0, n - |digits|) + digits
            <==> n == if m + |digits| <= NTOA_BUFFER then m + |digits| else NTOA_BUFFER
  {
    if m + |digits| > NTOA_BUFFER {
      assert Ending(Repeat(DIGIT_0, m) + digits, NTOA_BUFFER) == Repeat(DIGIT_0, m - 1) + digits;
    }
  }

  // ----- when the code writes it

  /** When the code writes the standard's text for a directive whose '#' adds a prefix or a zero: width and precision
      are below 2^32, and
      - for a hexadecimal number: prefix, zeros and digits fit in the conversion buffer and left alignment hides no
        precision; without a dot the width is neither the number of digits nor, with zero fill, one more; and a
        negative starred precision finds no zero fill to switch off;
      - for an octal number: with a dot, the precision asks for no zeros beyond the one that '#' adds (or, unless
        left-aligned, for just as many digits as the buffer has room for), and a negative one finds no zero fill to
        switch off; without a dot the width is not the number of digits, and zero fill stays within the buffer. */
  predicate MeetsPrefixed(d: Directive, widthStar: word, precStar: word, a: Arg)
    requires Fits(a, if IsLongLong(d.length) then KDWord else KWord)
  {
    var v, g := ConvertedArg(d.spec, d.length, a), StandardField(d, widthStar, precStar);
    var upper := d.spec == 'X' as int;
    var digits := StandardDigits(Magnitude(v), StandardBase(d.spec), upper, g.hasPrec);
    && InRange(d.width) && InRange(d.precision)
    && if StandardBase(d.spec) == 16 then HexMeets(digits, ['0' as int, d.spec], g, d.dot) else OctalMeets(|digits|, g, d.dot)
  }

  predicate HexMeets(digits: seq<byte>, prefix: seq<byte>, g: Field, dot: bool) {
    && Laws.FitsBuffer(digits, prefix, g) && Laws.PrecisionShows(digits, g)
    && (!dot ==> g.width != |digits| && !(g.zeroPad && !g.left && g.width == |digits| + 1))
    && (dot && !g.hasPrec ==> !ZeroFilled(digits, prefix, g))
  }

  predicate OctalMeets(n: nat, g: Field, dot: bool) {
    if dot then
      && (if g.left then g.prec <= n + 1 else g.prec <= n || g.prec == NTOA_BUFFER)
      && (!g.hasPrec ==> !(g.zeroPad && !g.left && g.width > n + 1))
    else
      && g.width != n
      && (g.zeroPad && !g.left && g.width > n ==> g.width <= NTOA_BUFFER)
  }

  /** The numbers of zeros on both sides agree exactly under that condition. */
  lemma {:induction false} HexCounts(digits: seq<byte>, body: seq<byte>, upper: bool, dot: bool, g: Field, h: Field)
    requires 0 < |digits| <= NTOA_BUFFER
    requires SameField(g, h, dot) && |body| == BodyCount(|digits|, h)
    ensures var prefix := HashPrefix(16, upper);
            var n, dropped := Laws.BodyLength(digits, prefix, g), Dropped(body, 16, h, h.width);
            n >= |digits| && |digits| <= |body| <= NTOA_BUFFER && dropped <= 2
            && (HexMeets(digits, prefix, g, dot)
                <==> dropped <= |body| - |digits| && |body| - dropped == n && n + 2 <= NTOA_BUFFER)
  {
  }

  lemma {:induction false} OctalCounts(digits: seq<byte>, body: seq<byte>, dot: bool, g: Field, h: Field)
    requires 0 < |digits| < NTOA_BUFFER
    requires SameField(g, h, dot) && |body| == BodyCount(|digits|, h)
    ensures var r := g.(prec := Laws.Max(g.prec, |digits| + 1));
            var n, dropped := Laws.BodyLength(digits, [], r), Dropped(body, 8, h, h.width);
            var all := 1 + |body| - dropped;
            n >= |digits| && |digits| <= |body| <= NTOA_BUFFER && dropped <= 1
            && (OctalMeets(|digits|, g, dot)
                <==> dropped <= |body| - |digits| && n == if all <= NTOA_BUFFER then all else NTOA_BUFFER)
  {
  }

  /** How the code's reading `h` of an unsigned field differs from the standard's `g`. */
  predicate SameField(g: Field, h: Field, dot: bool) {
    && h.left == g.left && h.width == g.width && h.prec == g.prec && h.hasPrec == dot && (g.hasPrec ==> dot)
    && (g.prec > 0 ==> g.hasPrec) && (h.zeroPad ==> g.zeroPad && !dot) && (!dot ==> h.zeroPad == g.zeroPad)
    && (g.hasPrec ==> !g.zeroPad)
  }

  /** How many zeros and digits the code has for `n` digits without a sign. */
  function BodyCount(n: nat, h: Field): nat {
    var asked := Laws.Max(h.prec, if h.zeroPad then h.width else 0);
    if h.left then n else Laws.Max(n, if asked < NTOA_BUFFER then asked else NTOA_BUFFER)
  }

  lemma {:induction false} OctalDigits(n: nat, upper: bool, hasPrec: bool)
    requires n < TWO_64
    ensures |StandardDigits(n, 8, upper, hasPrec)| < NTOA_BUFFER
  {
    EightBytes();
    PowBytesOctal(8);
    hide Numeral;
    hide Pow;
    NumeralLength(n, 8, 24);
  }

  /** What the parts of a directive are whose '#' adds something. */
  lemma {:induction false} PrefixedParts(d: Directive, widthStar: word, precStar: word, a: Arg)
    requires d.spec in {LOWER_X, UPPER_X, LOWER_O} && Plain(d) && Fits(a, if IsLongLong(d.length) then KDWord else KWord)
    requires HASH in d.flags && ConvertedArg(d.spec, d.length, a) != 0
    ensures var v, g := ConvertedArg(d.spec, d.length, a), StandardField(d, widthStar, precStar);
            var h, base, upper := IntegerField(d.spec, FieldOf(d, widthStar, precStar)), BaseOf(d.spec), d.spec == UPPER_X;
            && 0 < v < TWO_64 && Magnitude(v) == v && base in {8, 16} && (base == 16 <==> d.spec != LOWER_O)
            && IntegerText(d.spec, d.length, FieldOf(d, widthStar, precStar), a) == Ntoa(v, false, base, upper, h)
            && h.hash && !h.plus && !h.space && g.hash && !g.plus && !g.space
  {
    hide *;
    ValueExact(d.spec, d.length, a);
    FieldExact(d, widthStar, precStar);
    Unsigned(d.spec);
    SignedByteIs(d.spec, d.length, a);
    IntegerRange(d.spec, d.length, a);
    MagnitudeIs(ConvertedArg(d.spec, d.length, a));
    TextIsNtoa(d.spec, d.length, FieldOf(d, widthStar, precStar), a);
  }

  lemma {:induction false} Unsigned(spec: byte)
    requires spec in {LOWER_X, UPPER_X, LOWER_O}
    ensures !IsSigned(spec) && BaseOf(spec) == (if spec == LOWER_O then 8 else 16)
  {
  }

  /** The code's text is what `Hashed` makes of its zeros and digits, padded. */
  lemma {:induction false} CodeIs(v: nat, base: nat, upper: bool, h: Field)
    requires base in {8, 16} && 0 < v < TWO_64 && h.hash && !h.plus && !h.space
    ensures var digits := NtoaDigits(v, base, upper, h.hasPrec);
            var body := ZeroPadded(digits, false, h);
            var dropped := Dropped(body, base, h, h.width);
            var hashed := Ending(HashPrefix(base, upper) + body[dropped..], NTOA_BUFFER);
            && 0 < |digits| <= |body| <= NTOA_BUFFER && |body| == BodyCount(|digits|, h)
            && body == Repeat(DIGIT_0, |body| - |digits|) + digits
            && NoLetter(digits, base, upper) && Laws.DigitLike(digits) && Laws.DigitLike(hashed)
            && (base == 8 ==> digits[0] != DIGIT_0)
            && Ntoa(v, false, base, upper, h) == Padded(hashed, h.width, h.left, h.zeroPad)
  {
    hide *;
    var digits := NtoaDigits(v, base, upper, h.hasPrec);
    var body := ZeroPadded(digits, false, h);
    var hashed := Hashed(body, base, upper, h, h.width);
    DigitsOfNumber(v, base, upper, h.hasPrec);
    BodyIs(digits, false, h);
    ZerosBefore(digits, h);
    BodyCountIs(|digits|, h);
    HashedIs(body, base, upper, h, h.width);
    HashedDigitLike(body, base, upper, h, h.width);
    NtoaIsPadded(v, false, base, upper, h);
    assert h.(hash := h.hash && v != 0) == h;
    PrefixedIs(hashed, []);
    assert [] + hashed == hashed;
  }

  lemma {:induction false} BodyCountIs(n: nat, h: Field)
    ensures var asked := Laws.Max(h.prec, if h.zeroPad then h.width else 0);
            BodyCount(n, h) == if h.left then n else Laws.Max(n, if asked < NTOA_BUFFER then asked else NTOA_BUFFER)
  {
  }

  lemma {:induction false} HashedDigitLike(text: seq<byte>, base: nat, upper: bool, f: Field, width: nat)
    requires |text| <= NTOA_BUFFER && Laws.DigitLike(text)
    ensures Laws.DigitLike(Hashed(text, base, upper, f, width))
  {
    HashedIs(text, base, upper, f, width);
    hide Hashed;
    hide Dropped;
  }

  /** The standard's text is prefix, zeros and digits, padded. */
  lemma {:induction false} StandardIs(digits: seq<byte>, sign: seq<byte>, g: Field)
    requires Laws.DigitLike(digits) && Laws.DigitLike(sign)
    ensures var n := Laws.BodyLength(digits, sign, g);
            var text := sign + Repeat(DIGIT_0, n - |digits|) + digits;
            && n >= |digits| && Laws.DigitLike(text) && (g.zeroPad && !g.left ==> |text| >= g.width)
            && Laws.Ideal(digits, sign, g) == Padded(text, g.width, g.left, g.zeroPad)
  {
    Laws.IdealIs(digits, sign, g);
    hide Laws.Ideal;
  }

  lemma {:induction false} PrefixIsDigitLike(base: nat, upper: bool)
    ensures Laws.DigitLike(HashPrefix(base, upper)) && HashPrefix(8, upper) == [DIGIT_0]
  {
  }

  lemma {:induction false} FieldsOfSame(g: Field, h: Field, dot: bool)
    requires h.left == g.left && h.width == g.width && h.prec == g.prec && h.hasPrec == dot && (g.hasPrec ==> dot)
    requires (g.prec > 0 ==> g.hasPrec) && (h.zeroPad ==> g.zeroPad && !dot) && (!dot ==> h.zeroPad == g.zeroPad)
    requires g.hasPrec ==> !g.zeroPad
    ensures SameField(g, h, dot)
  {
  }

  /** A hexadecimal number. */
  lemma {:induction false} HexStandard(v: nat, upper: bool, g: Field, h: Field, dot: bool)
    requires 0 < v < TWO_64 && h.hash && !h.plus && !h.space && SameField(g, h, dot)
    ensures var digits, prefix := StandardDigits(v, 16, upper, g.hasPrec), HashPrefix(16, upper);
            Ntoa(v, false, 16, upper, h) == Laws.Ideal(digits, prefix, g) <==> HexMeets(digits, prefix, g, dot)
  {
    hide *;
    var digits, prefix := StandardDigits(v, 16, upper, g.hasPrec), HashPrefix(16, upper);
    StandardDigitsAre(v, 16, upper, g.hasPrec);
    DigitsUnderPrecision(v, 16, upper, h.hasPrec, g.hasPrec);
    CodeIs(v, 16, upper, h);
    var body := ZeroPadded(digits, false, h);
    var dropped := Dropped(body, 16, h, h.width);
    PrefixIsDigitLike(16, upper);
    StandardIs(digits, prefix, g);
    SameFieldIs(g, h, dot);
    HexCounts(digits, body, upper, dot, g, h);
    HexBodies(|body| - |digits|, digits, dropped, upper, Laws.BodyLength(digits, prefix, g));
    PaddedApart(Ending(prefix + body[dropped..], NTOA_BUFFER),
                prefix + Repeat(DIGIT_0, Laws.BodyLength(digits, prefix, g) - |digits|) + digits,
                g.width, g.left, h.zeroPad, g.zeroPad);
  }

  lemma {:induction false} SameFieldIs(g: Field, h: Field, dot: bool)
    requires SameField(g, h, dot)
    ensures h.left == g.left && h.width == g.width && (h.zeroPad == g.zeroPad || (!h.zeroPad && g.zeroPad))
  {
  }

  /** An octal number. */
  lemma {:induction false} OctalStandard(v: nat, upper: bool, g: Field, h: Field, dot: bool)
    requires 0 < v < TWO_64 && h.hash && !h.plus && !h.space && SameField(g, h, dot)
    ensures var digits := StandardDigits(v, 8, upper, g.hasPrec);
            var r := g.(prec := Laws.Max(g.prec, |digits| + 1));
            && digits != [] && digits[0] != DIGIT_0
            && (Ntoa(v, false, 8, upper, h) == Laws.Ideal(digits, [], r) <==> OctalMeets(|digits|, g, dot))
  {
    hide *;
    var digits := StandardDigits(v, 8, upper, g.hasPrec);
    var r := g.(prec := Laws.Max(g.prec, |digits| + 1));
    StandardDigitsAre(v, 8, upper, g.hasPrec);
    OctalDigits(v, upper, g.hasPrec);
    DigitsUnderPrecision(v, 8, upper, h.hasPrec, g.hasPrec);
    CodeIs(v, 8, upper, h);
    var body := ZeroPadded(digits, false, h);
    var dropped := Dropped(body, 8, h, h.width);
    PrefixIsDigitLike(8, upper);
    NothingIsDigitLike();
    StandardIs(digits, [], r);
    SameFieldIs(g, h, dot);
    OctalCounts(digits, body, dot, g, h);
    var n := Laws.BodyLength(digits, [], r);
    OctalBodies(|body| - |digits|, digits, dropped, upper, n);
    assert [] + Repeat(DIGIT_0, n - |digits|) + digits == Repeat(DIGIT_0, n - |digits|) + digits;
    PaddedApart(Ending(HashPrefix(8, upper) + body[dropped..], NTOA_BUFFER), Repeat(DIGIT_0, n - |digits|) + digits,
                g.width, g.left, h.zeroPad, g.zeroPad);
  }

  lemma {:induction false} NothingIsDigitLike()
    ensures Laws.DigitLike([])
  {
  }

  /** Every plain hexadecimal and octal directive with '#', and every argument but 0: the code writes the standard's
      text if and only if the directive meets the conditions. */
  lemma {:induction false} PrefixedStandard(d: Directive, widthStar: word, precStar: word, a: Arg)
    requires d.spec in {LOWER_X, UPPER_X, LOWER_O} && Plain(d) && Fits(a, if IsLongLong(d.length) then KDWord else KWord)
    requires HASH in d.flags && ConvertedArg(d.spec, d.length, a) != 0
    ensures IntegerText(d.spec, d.length, FieldOf(d, widthStar, precStar), a) == StandardIntegerText(d, widthStar, precStar, a)
            <==> MeetsPrefixed(d, widthStar, precStar, a)
  {
    hide *;
    var v, g := ConvertedArg(d.spec, d.length, a), StandardField(d, widthStar, precStar);
    var h, base, upper := IntegerField(d.spec, FieldOf(d, widthStar, precStar)), BaseOf(d.spec), d.spec == UPPER_X;
    PrefixedParts(d, widthStar, precStar, a);
    FieldExact(d, widthStar, precStar);
    MeetsPrefixedIs(d, widthStar, precStar, a);
    MeetsIs(d, widthStar, precStar, a);
    var digits := StandardDigits(v, base, upper, g.hasPrec);
    SignIsPrefix(d.spec, v, g);
    RaisedKeepsWidth(d.spec, digits, g);
    if !InRange(d.width) || !InRange(d.precision) {
      OutOfRangeShows(v, false, base, upper, h, digits, StandardSign(d.spec, v, g), Raised(d.spec, digits, g));
    } else {
      FieldsOfSame(g, h, d.dot);
      if base == 16 {
        HexStandard(v, upper, g, h, d.dot);
      } else {
        OctalStandard(v, upper, g, h, d.dot);
        RaisedIsMore(d.spec, digits, g);
      }
    }
  }

  lemma {:induction false} MeetsPrefixedIs(d: Directive, widthStar: word, precStar: word, a: Arg)
    requires Fits(a, if IsLongLong(d.length) then KDWord else KWord)
    ensures var v, g := ConvertedArg(d.spec, d.length, a), StandardField(d, widthStar, precStar);
            var upper := d.spec == UPPER_X;
            var digits := StandardDigits(Magnitude(v), BaseOf(d.spec), upper, g.hasPrec);
            MeetsPrefixed(d, widthStar, precStar, a) <==>
              && InRange(d.width) && InRange(d.precision)
              && if BaseOf(d.spec) == 16 then HexMeets(digits, HashPrefix(16, upper), g, d.dot)
                 else OctalMeets(|digits|, g, d.dot)
  {
    SpecifiersAgree(d.spec);
    PrefixIs(d.spec);
    hide HexMeets;
    hide OctalMeets;
    hide HashPrefix;
    hide BaseOf;
    hide StandardBase;
    hide ConvertedArg;
    hide StandardField;
    hide StandardDigits;
  }

  lemma {:induction false} PrefixIs(spec: byte)
    ensures BaseOf(spec) == 16 ==> HashPrefix(16, spec == UPPER_X) == ['0' as int, spec]
  {
  }

  lemma {:induction false} SignIsPrefix(spec: byte, v: int, g: Field)
    requires g.hash && !g.plus && !g.space && v > 0 && spec in {LOWER_X, UPPER_X, LOWER_O}
    ensures StandardSign(spec, v, g) == if spec == LOWER_O then [] else HashPrefix(16, spec == UPPER_X)
  {
    Unsigned(spec);
    PrefixIs(spec);
    hide HashPrefix;
  }

  lemma {:induction false} RaisedKeepsWidth(spec: byte, digits: seq<byte>, g: Field)
    ensures var r := Raised(spec, digits, g); r.width == g.width && r.prec >= g.prec && (spec != LOWER_O ==> r == g)
  {
  }

  lemma {:induction false} RaisedIsMore(spec: byte, digits: seq<byte>, g: Field)
    requires g.hash && spec == LOWER_O && digits != [] && digits[0] != DIGIT_0
    ensures Raised(spec, digits, g) == g.(prec := Laws.Max(g.prec, |digits| + 1))
  {
  }

  // ----- every integer directive

  /** Every integer directive that a format can contain, with any arguments that fit it: the code writes the text of
      the standard if and only if the directive meets the conditions; which ones depends only on whether '#' adds
      something.  (The standard does not say what '#' means in base 2.) */
  lemma {:induction false} DirectiveExact(d: Directive, args: seq<Arg>)
    requires IntegerSpecifier(d.spec) && Plain(d) && FitAll(args, Kinds(d))
    requires d.spec == LOWER_B ==> NoPrefixDue(d, ValueArg(d, args))
    ensures var w, p, a := WidthStar(d, args), PrecisionStar(d, args), ValueArg(d, args);
            ConversionText(d, args) == StandardText(d, args)
            <==> if NoPrefixDue(d, a) then Meets(d, w, p, a) else MeetsPrefixed(d, w, p, a)
  {
    ConversionIs(d, args);
    var w, p, a := WidthStar(d, args), PrecisionStar(d, args), ValueArg(d, args);
    assert StandardText(d, args) == StandardIntegerText(d, w, p, a);
    if NoPrefixDue(d, a) {
      IntegerStandard(d, w, p, a);
    } else {
      assert d.spec in {LOWER_X, UPPER_X, LOWER_O};
      PrefixedStandard(d, w, p, a);
    }
    hide *;
  }

  /** The same for the directive at any place of any format. */
  lemma {:induction false} FormatDirectiveExact(fmt: seq<byte>, i: nat, args: seq<Arg>)
    requires i <= |fmt|
    requires var d := DecodeDirective(fmt, i).0;
             IntegerSpecifier(d.spec) && FitAll(args, Kinds(d)) && (d.spec == LOWER_B ==> NoPrefixDue(d, ValueArg(d, args)))
    ensures var d := DecodeDirective(fmt, i).0;
            var w, p, a := WidthStar(d, args), PrecisionStar(d, args), ValueArg(d, args);
            ConversionText(d, args) == StandardText(d, args)
            <==> if NoPrefixDue(d, a) then Meets(d, w, p, a) else MeetsPrefixed(d, w, p, a)
  {
    IntegersAreSpecifiers(DecodeDirective(fmt, i).0.spec);
    hide *;
    DecodedIsPlain(fmt, i);
    DirectiveExact(DecodeDirective(fmt, i).0, args);
  }

  lemma {:induction false} IntegersAreSpecifiers(spec: byte)
    requires IntegerSpecifier(spec)
    ensures OnlySpecifier(spec)
  {
  }
}
