/** What each directive of a format writes for its arguments. */
module Rendering {
  import opened Bytes
  import opened CString
  import opened Numerals
  import opened Format

  const LOWER_B: byte := 98
  const LOWER_C: byte := 99
  const LOWER_D: byte := 100
  const LOWER_I: byte := 105
  const LOWER_O: byte := 111
  const LOWER_P: byte := 112
  const LOWER_S: byte := 115
  const LOWER_U: byte := 117
  const LOWER_X: byte := 120
  const UPPER_X: byte := 88

  /** PRINTF_NTOA_BUFFER_SIZE */
  const NTOA_BUFFER: nat := 32

  type word = x: int | 0 <= x < TWO_32
  type dword = x: int | 0 <= x < TWO_64

  /** A variadic argument: 32 bits, 64 bits, or a pointer to a C string. */
  datatype Arg = Word(w: word) | DWord(d: dword) | Str(s: seq<byte>)

  datatype Kind = KWord | KDWord | KStr

  predicate Fits(a: Arg, k: Kind) {
    match k
    case KWord => a.Word?
    case KDWord => a.DWord?
    case KStr => a.Str? && NulFree(a.s) && |a.s| < TWO_32 - 1
  }

  predicate FitAll(args: seq<Arg>, kinds: seq<Kind>) {
    |args| == |kinds| && forall i :: 0 <= i < |args| ==> Fits(args[i], kinds[i])
  }

  // ----- arguments of a directive

  predicate IsInteger(spec: byte) {
    spec in {LOWER_D, LOWER_I, LOWER_U, LOWER_X, UPPER_X, LOWER_O, LOWER_B}
  }

  predicate IsSigned(spec: byte) {
    spec == LOWER_D || spec == LOWER_I
  }

  /** Specifiers this model leaves out: floating point and pointers. */
  predicate IsUnsupported(spec: byte) {
    spec in {NUL, 102, 70, 101, 69, 103, 71, LOWER_P}
  }

  predicate IsLongLong(length: seq<byte>) {
    length == [LOWER_L, LOWER_L] || length == [LOWER_J]
  }

  function StarKinds(a: Amount): seq<Kind> {
    if a.Star? then [KWord] else []
  }

  function ValueKinds(spec: byte, length: seq<byte>): seq<Kind> {
    if IsInteger(spec) then [if IsLongLong(length) then KDWord else KWord]
    else if spec == LOWER_C then [KWord]
    else if spec == LOWER_S then [KStr]
    else []
  }

  /** The arguments a directive takes, in order. */
  function Kinds(d: Directive): seq<Kind> {
    StarKinds(d.width) + StarKinds(d.precision) + ValueKinds(d.spec, d.length)
  }

  // ----- fields

  /** The flags, width and precision a directive ends up with. */
  datatype Field = Field(zeroPad: bool, left: bool, plus: bool, space: bool, hash: bool, hasPrec: bool, prec: nat, width: nat)

  /** _atoi: decimal digits in wrapping unsigned arithmetic. */
  function Atoi(ds: seq<byte>): (n: nat)
    ensures n < TWO_32
  {
    if ds == [] then 0 else U32(Atoi(ds[..|ds| - 1]) * 10 + ds[|ds| - 1] - DIGIT_0)
  }

  /** A width, and whether a negative star asks for left alignment. */
  function WidthOf(a: Amount, star: word): (nat, bool) {
    match a
    case Absent => (0, false)
    case Digits(ds) => (Atoi(ds), false)
    case Star => if I32(star) < 0 then (U32(-I32(star)), true) else (I32(star), false)
  }

  function PrecisionOf(a: Amount, star: word): nat {
    match a
    case Absent => 0
    case Digits(ds) => Atoi(ds)
    case Star => if I32(star) > 0 then I32(star) else 0
  }

  function FieldOf(d: Directive, widthStar: word, precStar: word): Field {
    var (width, reversed) := WidthOf(d.width, widthStar);
    Field(DIGIT_0 in d.flags, MINUS in d.flags || reversed, PLUS in d.flags, SPACE in d.flags, HASH in d.flags,
          d.dot, PrecisionOf(d.precision, precStar), width)
  }

  // ----- padding

  function Repeat(c: byte, n: nat): (s: seq<byte>)
    ensures |s| == n
  {
    seq(n, i => c)
  }

  function Monus(a: int, b: int): nat {
    if a > b then a - b else 0
  }

  /** _out_rev: the text with spaces before or behind it; zero fill leaves no spaces to add. */
  function Padded(text: seq<byte>, width: nat, left: bool, zeroPad: bool): seq<byte> {
    var pad := Repeat(SPACE, Monus(width, |text|));
    if left then text + pad else if zeroPad then text else pad + text
  }

  // ----- integers

  function SignText(negative: bool, f: Field): seq<byte> {
    if negative then [MINUS] else if f.plus then [PLUS] else if f.space then [SPACE] else []
  }

  /** Zeros up to a length, as far as the buffer goes. */
  function Fill(text: seq<byte>, n: nat): seq<byte> {
    Repeat(DIGIT_0, Monus(if n < NTOA_BUFFER then n else NTOA_BUFFER, |text|)) + text
  }

  /** The width that zero fill leaves for the digits when a sign is to come. */
  function DigitWidth(negative: bool, f: Field): nat {
    if !f.left && f.width > 0 && f.zeroPad && SignText(negative, f) != [] then f.width - 1 else f.width
  }

  /** The '#' flag drops leading digits that fill the field exactly, to make room for its prefix. */
  function HashCut(text: seq<byte>, base: nat, f: Field, width: nat): seq<byte> {
    if !f.hasPrec && |text| > 0 && (|text| == f.prec || |text| == width) then
      (if |text| > 1 && base == 16 then text[2..] else text[1..])
    else text
  }

  /** The digits with the '#' prefix of their base. */
  function Hashed(text: seq<byte>, base: nat, upper: bool, f: Field, width: nat): seq<byte> {
    var a := HashCut(text, base, f, width);
    var b := if |a| < NTOA_BUFFER && base == 16 then [if upper then UPPER_X else LOWER_X] + a
             else if |a| < NTOA_BUFFER && base == 2 then [LOWER_B] + a
             else a;
    if |b| < NTOA_BUFFER then [DIGIT_0] + b else b
  }

  function Prefixed(text: seq<byte>, sign: seq<byte>): seq<byte> {
    if |text| < NTOA_BUFFER then sign + text else text
  }

  /** The digits with the zeros that precision and zero fill ask for, as far as the buffer goes. */
  function ZeroPadded(digits: seq<byte>, negative: bool, f: Field): seq<byte> {
    if f.left then digits else Fill(Fill(digits, f.prec), if f.zeroPad then DigitWidth(negative, f) else 0)
  }

  /** _ntoa_format on digits in reading order. */
  function NtoaFormat(digits: seq<byte>, negative: bool, base: nat, upper: bool, f: Field): seq<byte> {
    var w := DigitWidth(negative, f);
    var body := ZeroPadded(digits, negative, f);
    var hashed := if f.hash then Hashed(body, base, upper, f, w) else body;
    Padded(Prefixed(hashed, SignText(negative, f)), w, f.left, f.zeroPad)
  }

  /** The digits that fit in the buffer; none for a zero with a precision. */
  function NtoaDigits(value: nat, base: nat, upper: bool, hasPrec: bool): (cs: seq<byte>)
    requires base >= 2
    ensures |cs| <= NTOA_BUFFER
  {
    if hasPrec && value == 0 then [] else Chars(Tail(Numeral(value, base), NTOA_BUFFER), if upper then UPPER_A else LOWER_A)
  }

  /** _ntoa_long and _ntoa_long_long */
  function Ntoa(value: nat, negative: bool, base: nat, upper: bool, f: Field): seq<byte>
    requires base >= 2
  {
    NtoaFormat(NtoaDigits(value, base, upper, f.hasPrec), negative, base, upper, f.(hash := f.hash && value != 0))
  }

  function BaseOf(spec: byte): (b: nat)
    ensures b >= 2
  {
    if spec == LOWER_X || spec == UPPER_X then 16 else if spec == LOWER_O then 8 else if spec == LOWER_B then 2 else 10
  }

  /** The integer that an argument stands for under a length modifier. */
  function IntegerOf(spec: byte, length: seq<byte>, a: Arg): int
    requires Fits(a, if IsLongLong(length) then KDWord else KWord)
  {
    if IsSigned(spec) then
      if IsLongLong(length) then (if a.d < TWO_64 / 2 then a.d else a.d - TWO_64)
      else if length == [LOWER_H, LOWER_H] then a.w % 256
      else if length == [LOWER_H] then (if a.w % 0x1_0000 < 0x8000 then a.w % 0x1_0000 else a.w % 0x1_0000 - 0x1_0000)
      else I32(a.w)
    else
      if IsLongLong(length) then a.d
      else if length == [LOWER_H, LOWER_H] then a.w % 256
      else if length == [LOWER_H] then a.w % 0x1_0000
      else a.w
  }

  /** The flags that an integer specifier heeds. */
  function IntegerField(spec: byte, f: Field): Field {
    f.(hash := f.hash && BaseOf(spec) != 10,
       plus := f.plus && IsSigned(spec),
       space := f.space && IsSigned(spec),
       zeroPad := f.zeroPad && !f.hasPrec)
  }

  function IntegerText(spec: byte, length: seq<byte>, f: Field, a: Arg): seq<byte>
    requires Fits(a, if IsLongLong(length) then KDWord else KWord)
  {
    var v := IntegerOf(spec, length, a);
    Ntoa(if v < 0 then -v else v, v < 0, BaseOf(spec), spec == UPPER_X, IntegerField(spec, f))
  }

  // ----- characters and strings

  function CharText(f: Field, a: Arg): seq<byte>
    requires Fits(a, KWord)
  {
    var c: byte := a.w % 256;
    Padded([c], f.width, f.left, false)
  }

  function StringText(f: Field, a: Arg): seq<byte>
    requires Fits(a, KStr)
  {
    Padded(if f.hasPrec && f.prec < |a.s| then a.s[..f.prec] else a.s, f.width, f.left, false)
  }

  // ----- directives and formats

  /** What the specifier writes once flags, width, precision and length are known. */
  function ValueText(spec: byte, length: seq<byte>, f: Field, args: seq<Arg>): seq<byte>
    requires FitAll(args, ValueKinds(spec, length))
  {
    if IsInteger(spec) then IntegerText(spec, length, f, args[0])
    else if spec == LOWER_C then CharText(f, args[0])
    else if spec == LOWER_S then StringText(f, args[0])
    else [spec]
  }

  function StarArg(a: Amount, args: seq<Arg>): word
    requires a.Star? ==> args != [] && args[0].Word?
  {
    if a.Star? then args[0].w else 0
  }

  /** The starred width and the starred precision are at the head of the arguments. */
  predicate StarsFit(d: Directive, args: seq<Arg>) {
    && (d.width.Star? ==> args != [] && args[0].Word?)
    && var rest := args[|StarKinds(d.width)|..];
    (d.precision.Star? ==> rest != [] && rest[0].Word?)
  }

  function AfterStars(d: Directive, args: seq<Arg>): seq<Arg>
    requires StarsFit(d, args)
  {
    args[|StarKinds(d.width)|..][|StarKinds(d.precision)|..]
  }

  function StarredField(d: Directive, args: seq<Arg>): Field
    requires StarsFit(d, args)
  {
    FieldOf(d, StarArg(d.width, args), StarArg(d.precision, args[|StarKinds(d.width)|..]))
  }

  /** Arguments that fit a directive hold its stars first, and its value behind them. */
  lemma {:induction false} ArgumentsSplit(d: Directive, args: seq<Arg>)
    requires |Kinds(d)| <= |args| && FitAll(args[..|Kinds(d)|], Kinds(d))
    ensures StarsFit(d, args)
    ensures var (rest, v) := (AfterStars(d, args), ValueKinds(d.spec, d.length));
            && |v| <= |rest| && FitAll(rest[..|v|], v) && rest[|v|..] == args[|Kinds(d)|..]
  {
    var k, w, p := Kinds(d), |StarKinds(d.width)|, |StarKinds(d.precision)|;
    assert forall i :: 0 <= i < |k| ==> Fits(args[i], k[i]) by {
      assert forall i :: 0 <= i < |k| ==> args[..|k|][i] == args[i];
    }
    hide ValueKinds;
    hide Fits;
    if d.width.Star? { WordFits(args[0], k[0]); }
    if d.precision.Star? { WordFits(args[w], k[w]); }
  }

  lemma {:induction false} WordFits(a: Arg, k: Kind)
    requires k == KWord && Fits(a, k)
    ensures a.Word?
  {
  }

  /** A directive with its arguments: a starred width first, then a starred precision, then the value. */
  function ConversionText(d: Directive, args: seq<Arg>): seq<byte>
    requires FitAll(args, Kinds(d))
  {
    assert args[..|Kinds(d)|] == args;
    ArgumentsSplit(d, args);
    var rest := AfterStars(d, args);
    assert rest[..|ValueKinds(d.spec, d.length)|] == rest;
    ValueText(d.spec, d.length, StarredField(d, args), rest)
  }

  function ItemKinds(item: Item): seq<Kind> {
    match item
    case Literal(_) => []
    case Conversion(d) => Kinds(d)
  }

  function ItemText(item: Item, args: seq<Arg>): seq<byte>
    requires FitAll(args, ItemKinds(item))
  {
    match item
    case Literal(c) => [c]
    case Conversion(d) => ConversionText(d, args)
  }

  /** The arguments are there and of the right kinds, and every directive is complete and supported. */
  predicate Accepts(items: seq<Item>, args: seq<Arg>) {
    if items == [] then true
    else
      var n := |ItemKinds(items[0])|;
      && (items[0].Conversion? ==> !IsUnsupported(items[0].d.spec))
      && n <= |args| && FitAll(args[..n], ItemKinds(items[0])) && Accepts(items[1..], args[n..])
  }

  /** The output of a format: the texts of its items, each with the next arguments in order. */
  function Output(items: seq<Item>, args: seq<Arg>): seq<byte>
    requires Accepts(items, args)
  {
    if items == [] then []
    else
      var n := |ItemKinds(items[0])|;
      ItemText(items[0], args[..n]) + Output(items[1..], args[n..])
  }
}
