/** The text format that `Stream::parseInt` reads and `Print::println` writes. */
module IntegerText {
  import opened Bytes
  import opened Numerals
  import opened Printing
  import Patterns

  datatype LookaheadMode = SkipAll | SkipNone | SkipWhitespace

  /** A character at which `peekNextDigit` stops with success. */
  predicate Starts(c: int, detectDecimal: bool) {
    c == MINUS || IsDigit(c) || (detectDecimal && c == DOT)
  }

  /** A character it may discard. */
  predicate Discards(mode: LookaheadMode, c: int) {
    match mode
    case SkipAll => true
    case SkipNone => false
    case SkipWhitespace => c in {SPACE, TAB, CR, LF}
  }

  /** Where `peekNextDigit` stops. */
  function LeadEnd(s: seq<byte>, i: nat, mode: LookaheadMode, detectDecimal: bool): (p: nat)
    requires i <= |s|
    ensures i <= p <= |s|
    decreases |s| - i
  {
    if i < |s| && !Starts(s[i], detectDecimal) && Discards(mode, s[i]) then LeadEnd(s, i + 1, mode, detectDecimal)
    else i
  }

  /** Where the run of digits and ignored characters stops. */
  function RunEnd(s: seq<byte>, i: nat, ignore: byte): (e: nat)
    requires i <= |s|
    ensures i <= e <= |s|
    decreases |s| - i
  {
    if i < |s| && (IsDigit(s[i]) || s[i] == ignore) then RunEnd(s, i + 1, ignore) else i
  }

  /** The long that the characters add up to, in wrapping arithmetic; other characters count nothing. */
  function Accumulated(cs: seq<byte>, ignore: byte): (v: int)
    ensures -TWO_31 <= v < TWO_31
  {
    if cs == [] then 0
    else
      var v, c := Accumulated(cs[..|cs| - 1], ignore), cs[|cs| - 1];
      if c != ignore && IsDigit(c) then I32(v * 10 + c - DIGIT_0) else v
  }

  /** The characters read as a signed number. */
  function Signed(cs: seq<byte>, ignore: byte): int
    requires cs != []
  {
    var v := Accumulated(cs, ignore);
    if cs[0] == MINUS && ignore != MINUS then I32(-v) else v
  }

  /** `parseInt` on `s` from `i` on: where it stops, and what it returns. */
  function ParsedInt(s: seq<byte>, i: nat, mode: LookaheadMode, ignore: byte): (r: (nat, int))
    requires i <= |s|
    ensures i <= r.0 <= |s|
  {
    var p := LeadEnd(s, i, mode, false);
    if p == |s| || !Starts(s[p], false) then (p, 0)
    else
      var e := RunEnd(s, p + 1, ignore);
      (e, Signed(s[p..e], ignore))
  }

  // ----- what printing writes is what parsing reads

  lemma {:induction false} WrapShift(x: int, k: int)
    ensures I32(x + k * TWO_32) == I32(x)
  {
    assert (x + k * TWO_32) % TWO_32 == x % TWO_32;
  }

  /** Wrapping early or late makes no difference. */
  lemma {:induction false} WrapStep(v: int, d: int)
    ensures I32(I32(v) * 10 + d) == I32(v * 10 + d)
  {
    var k := (I32(v) - v) / TWO_32;
    assert I32(v) == v + k * TWO_32;
    WrapShift(v * 10 + d, 10 * k);
  }

  lemma {:induction false} WrapNegate(v: int)
    ensures I32(-I32(v)) == I32(-v)
  {
    var k := (I32(v) - v) / TWO_32;
    assert I32(v) == v + k * TWO_32;
    WrapShift(-v, -k);
  }

  predicate DecimalDigits(ds: seq<nat>) {
    forall i :: 0 <= i < |ds| ==> ds[i] < 10
  }

  lemma {:induction false} AccumulateSnoc(cs: seq<byte>, c: byte, ignore: byte)
    ensures Accumulated(cs + [c], ignore)
            == if c != ignore && IsDigit(c) then I32(Accumulated(cs, ignore) * 10 + c - DIGIT_0) else Accumulated(cs, ignore)
  {
    hide I32;
    assert (cs + [c])[..|cs|] == cs;
  }

  lemma {:induction false} LastDigit(ds: seq<nat>)
    requires ds != [] && DecimalDigits(ds)
    ensures var init, d := ds[..|ds| - 1], ds[|ds| - 1];
            && DecimalDigits(init) && d < 10
            && Chars(ds, UPPER_A) == Chars(init, UPPER_A) + [DIGIT_0 + d]
            && Value(ds, 10) == Value(init, 10) * 10 + d
  {
    var init, d := ds[..|ds| - 1], ds[|ds| - 1];
    assert DigitChar(d, UPPER_A) == DIGIT_0 + d;
    hide DigitChar;
    hide Chars;
    assert ds == init + [d];
    CharsSplit(init, d, UPPER_A);
  }

  lemma {:induction false} NoDigits(lead: seq<byte>)
    ensures lead + Chars([], UPPER_A) == lead && I32(Value([], 10)) == 0
  {
  }

  /** The characters of decimal digits accumulate to their value. */
  lemma {:induction false} DigitsAccumulate(lead: seq<byte>, ds: seq<nat>, ignore: byte)
    requires DecimalDigits(ds) && !IsDigit(ignore) && Accumulated(lead, ignore) == 0
    ensures Accumulated(lead + Chars(ds, UPPER_A), ignore) == I32(Value(ds, 10))
    decreases |ds|
  {
    hide *;
    if ds == [] {
      NoDigits(lead);
    } else {
      LastDigit(ds);
      var init, d := ds[..|ds| - 1], ds[|ds| - 1];
      DigitsAccumulate(lead, init, ignore);
      NotIgnored(d, ignore);
      Patterns.Assoc(lead, Chars(init, UPPER_A), [DIGIT_0 + d]);
      AccumulateSnoc(lead + Chars(init, UPPER_A), DIGIT_0 + d, ignore);
      WrapStep(Value(init, 10), d);
    }
  }

  lemma {:induction false} NotIgnored(d: nat, ignore: byte)
    requires d < 10 && !IsDigit(ignore)
    ensures IsDigit(DIGIT_0 + d) && DIGIT_0 + d != ignore
  {
  }

  lemma {:induction false} DecimalAccumulates(x: int, ignore: byte)
    requires !IsDigit(ignore)
    ensures Accumulated(Decimal(x), ignore) == I32(if x < 0 then -x else x)
  {
    var n := if x < 0 then -x else x;
    var lead: seq<byte> := if x < 0 then [MINUS] else [];
    assert [] + Chars(Numeral(n, 10), UPPER_A) == Chars(Numeral(n, 10), UPPER_A);
    assert Decimal(x) == lead + Chars(Numeral(n, 10), UPPER_A);
    NumeralIsCanonical(n, 10);
    LeadIsNothing(lead, ignore);
    hide Numeral;
    hide Chars;
    hide Accumulated;
    hide I32;
    ValueOfNumeral(n, 10);
    DigitsAccumulate(lead, Numeral(n, 10), ignore);
  }

  /** A sign for a negative number, and digits. */
  lemma {:induction false} DecimalShape(x: int)
    ensures var t := Decimal(x);
            && t != [] && (t[0] == MINUS <==> x < 0) && Starts(t[0], false)
            && forall i :: 0 < i < |t| ==> IsDigit(t[i])
  {
    var n := if x < 0 then -x else x;
    NumeralIsCanonical(n, 10);
    DecimalChars(Numeral(n, 10));
    hide Numeral;
    hide Chars;
    var t, cs := Decimal(x), Chars(Numeral(n, 10), UPPER_A);
    assert forall i :: 0 <= i < |cs| ==> t[|t| - |cs| + i] == cs[i];
    assert IsDigit(cs[0]);
    if x < 0 { assert t[0] == MINUS; } else { assert t == cs; }
  }

  /** Reading back the decimal text of a long gives the long. */
  lemma {:induction false} DecimalReadsBack(x: int, ignore: byte)
    requires -TWO_31 <= x < TWO_31 && !IsDigit(ignore) && ignore != MINUS
    ensures Decimal(x) != [] && Signed(Decimal(x), ignore) == x
  {
    DecimalShape(x);
    DecimalAccumulates(x, ignore);
    hide Decimal;
    hide Accumulated;
    WrapNegate(if x < 0 then -x else x);
  }

  lemma {:induction false} DecimalChars(ds: seq<nat>)
    requires DecimalDigits(ds)
    ensures forall i :: 0 <= i < |ds| ==> IsDigit(Chars(ds, UPPER_A)[i])
  {
  }

  lemma {:induction false} LeadIsNothing(lead: seq<byte>, ignore: byte)
    requires lead == [] || lead == [MINUS]
    ensures Accumulated(lead, ignore) == 0
  {
    if lead != [] { assert lead[..0] == []; }
  }

  // ----- lists of numbers

  /** What a list of numbers looks like after `println` of each. */
  function Lines(xs: seq<int>): seq<byte> {
    if xs == [] then [] else Decimal(xs[0]) + [CR, LF] + Lines(xs[1..])
  }

  /** `n` calls of `parseInt` one after the other: the values, and where each call stopped. */
  function ParsedMany(s: seq<byte>, i: nat, mode: LookaheadMode, ignore: byte, n: nat): (r: seq<(nat, int)>)
    requires i <= |s|
    ensures |r| == n
    decreases n
  {
    if n == 0 then []
    else
      var r := ParsedInt(s, i, mode, ignore);
      [r] + ParsedMany(s, r.0, mode, ignore, n - 1)
  }

  lemma {:induction false} RunStops(s: seq<byte>, i: nat, e: nat, ignore: byte)
    requires i <= e <= |s| && (e < |s| ==> !IsDigit(s[e]) && s[e] != ignore)
    requires forall k :: i <= k < e ==> IsDigit(s[k]) || s[k] == ignore
    ensures RunEnd(s, i, ignore) == e
    decreases e - i
  {
    hide IsDigit;
    if i < e { RunStops(s, i + 1, e, ignore); }
  }

  ghost predicate OnlyLineEnds(s: seq<byte>, i: nat, p: nat) {
    i <= p <= |s| && forall k :: i <= k < p ==> s[k] == CR || s[k] == LF
  }

  /** One number: line ends before it are skipped, and the call stops right after its last digit. */
  lemma {:induction false} ParsesOne(s: seq<byte>, i: nat, p: nat, x: int, mode: LookaheadMode, ignore: byte)
    requires -TWO_31 <= x < TWO_31 && !IsDigit(ignore) && ignore !in {MINUS, CR} && !mode.SkipNone?
    requires i <= p && p + |Decimal(x)| < |s| && s[p..p + |Decimal(x)|] == Decimal(x)
    requires OnlyLineEnds(s, i, p) && s[p + |Decimal(x)|] == CR
    ensures ParsedInt(s, i, mode, ignore) == (p + |Decimal(x)|, x)
  {
    LineEndsSkippable(s, i, p, mode);
    hide *;
    ParsesFrom(s, i, p, x, mode, ignore);
  }

  lemma {:induction false} LineEndsSkippable(s: seq<byte>, i: nat, p: nat, mode: LookaheadMode)
    requires i <= p <= |s| && OnlyLineEnds(s, i, p) && !mode.SkipNone?
    ensures forall k :: i <= k < p ==> !StartsNumber(s[k], false) && Skippable(mode, s[k])
    ensures CR != MINUS && !IsDigit(CR)
  {
  }

  /** Number `k` of the list comes back, and its call stops right after its last digit. */
  ghost predicate ReadBack(s: seq<byte>, xs: seq<int>, rs: seq<(nat, int)>, k: nat)
    requires k < |xs| == |rs|
  {
    rs[k].1 == xs[k] && rs[k].0 <= |s| && s[rs[k].0..] == [CR, LF] + Lines(xs[k + 1..])
  }

  predicate Longs(xs: seq<int>) {
    forall k :: 0 <= k < |xs| ==> -TWO_31 <= xs[k] < TWO_31
  }

  lemma {:induction false} RoundTripAt(s: seq<byte>, i: nat, p: nat, xs: seq<int>, mode: LookaheadMode, ignore: byte,
                                       k: nat)
    requires Longs(xs) && !IsDigit(ignore) && ignore !in {MINUS, CR} && !mode.SkipNone?
    requires i <= p <= |s| && s[p..] == Lines(xs) && OnlyLineEnds(s, i, p)
    requires k < |xs|
    ensures ReadBack(s, xs, ParsedMany(s, i, mode, ignore, |xs|), k)
    decreases k
  {
    hide *;
    var t, rest := Decimal(xs[0]), xs[1..];
    var e := p + |t|;
    FirstLine(xs);
    LineSplits(s, p, t, Lines(rest));
    ParsesOne(s, i, p, xs[0], mode, ignore);
    FirstCall(s, i, mode, ignore, |rest|);
    if k > 0 { RoundTripAt(s, e, e + 2, rest, mode, ignore, k - 1); }
    ReadBackStep(s, xs, ParsedInt(s, i, mode, ignore), ParsedMany(s, e, mode, ignore, |rest|), k);
  }

  lemma {:induction false} FirstLine(xs: seq<int>)
    requires xs != [] && Longs(xs)
    ensures Lines(xs) == Decimal(xs[0]) + [CR, LF] + Lines(xs[1..])
    ensures -TWO_31 <= xs[0] < TWO_31 && Longs(xs[1..])
  {
  }

  lemma {:induction false} FirstCall(s: seq<byte>, i: nat, mode: LookaheadMode, ignore: byte, n: nat)
    requires i <= |s|
    ensures var r := ParsedInt(s, i, mode, ignore);
            ParsedMany(s, i, mode, ignore, n + 1) == [r] + ParsedMany(s, r.0, mode, ignore, n)
  {
    hide ParsedInt;
  }

  lemma {:induction false} ReadBackStep(s: seq<byte>, xs: seq<int>, r: (nat, int), rs: seq<(nat, int)>, k: nat)
    requires k < |xs| == |rs| + 1
    requires r.1 == xs[0] && r.0 <= |s| && s[r.0..] == [CR, LF] + Lines(xs[1..])
    requires k > 0 ==> ReadBack(s, xs[1..], rs, k - 1)
    ensures ReadBack(s, xs, [r] + rs, k)
  {
    hide Lines;
    if k > 0 { assert xs[k + 1..] == xs[1..][k..]; }
  }

  /** The list round trip: `println` of every element, then as many calls of `parseInt`, give the list
      back, for every list of longs. */
  lemma {:induction false} ListRoundTrip(before: seq<byte>, xs: seq<int>, mode: LookaheadMode, ignore: byte)
    requires Longs(xs) && !IsDigit(ignore) && ignore !in {MINUS, CR} && !mode.SkipNone?
    ensures forall k :: 0 <= k < |xs| ==>
              ReadBack(before + Lines(xs), xs, ParsedMany(before + Lines(xs), |before|, mode, ignore, |xs|), k)
  {
    var s := before + Lines(xs);
    forall k | 0 <= k < |xs|
      ensures ReadBack(s, xs, ParsedMany(s, |before|, mode, ignore, |xs|), k)
    {
      RoundTripAt(s, |before|, |before|, xs, mode, ignore, k);
    }
  }

  lemma {:induction false} LineSplits(s: seq<byte>, p: nat, t: seq<byte>, rest: seq<byte>)
    requires p <= |s| && s[p..] == t + [CR, LF] + rest
    ensures var e := p + |t|;
            && e + 2 <= |s| && s[p..e] == t && s[e] == CR && s[e + 1] == LF
            && s[e..] == [CR, LF] + rest && s[e + 2..] == rest && OnlyLineEnds(s, e, e + 2)
  {
    var e := p + |t|;
    assert s[p..e] == s[p..][..|t|];
    assert s[e..] == s[p..][|t|..];
    assert s[e + 2..] == s[p..][|t| + 2..];
    assert s[e] == s[e..][0] && s[e + 1] == s[e..][1];
  }

  // ----- where reading a printed long overflows

  /** Every intermediate value of the reading loop, and of the final negation, is a long: the product, its sum with
      the character's code, and what is left when the code of '0' is taken off. */
  ghost predicate StaysLong(cs: seq<byte>, ignore: byte) {
    StepsStayLong(cs, ignore) && IsLong(-Accumulated(cs, ignore))
  }

  ghost predicate StepsStayLong(cs: seq<byte>, ignore: byte) {
    forall k :: 0 <= k < |cs| && cs[k] != ignore && IsDigit(cs[k]) ==> StepStaysLong(Accumulated(cs[..k], ignore), cs[k])
  }

  predicate StepStaysLong(v: int, c: byte) {
    IsLong(v * 10) && IsLong(v * 10 + c) && IsLong(v * 10 + c - DIGIT_0)
  }

  /** The value of the first digits never exceeds the value of all. */
  lemma {:induction false} PrefixValue(ds: seq<nat>, k: nat)
    requires k < |ds| && DecimalDigits(ds)
    ensures Value(ds[..k], 10) * 10 + ds[k] == Value(ds[..k + 1], 10) <= Value(ds, 10)
    decreases |ds|
  {
    assert ds[..k + 1] == ds[..k] + [ds[k]];
    ValueSnoc(ds[..k], ds[k], 10);
    if k + 1 < |ds| {
      var init := ds[..|ds| - 1];
      PrefixValue(init, k);
      assert init[..k + 1] == ds[..k + 1];
      assert ds == init + [ds[|ds| - 1]];
      ValueSnoc(init, ds[|ds| - 1], 10);
    } else {
      assert ds[..k + 1] == ds;
    }
  }

  /** What has been read before digit `k`. */
  lemma {:induction false} ReadBefore(lead: seq<byte>, ds: seq<nat>, ignore: byte, k: nat)
    requires lead in {[], [MINUS]} && DecimalDigits(ds) && Value(ds, 10) <= TWO_31 && !IsDigit(ignore) && k < |ds|
    ensures var (cs, i) := (lead + Chars(ds, UPPER_A), |lead| + k);
            && cs[i] == DIGIT_0 + ds[k] && IsDigit(cs[i]) && cs[i] != ignore
            && Accumulated(cs[..i], ignore) == Value(ds[..k], 10)
  {
    CharsAt(ds, UPPER_A, k);
    assert DigitChar(ds[k], UPPER_A) == DIGIT_0 + ds[k];
    assert DecimalDigits(ds[..k]);
    CharsPrefix(ds, k);
    hide Chars;
    hide DecimalDigits;
    hide Accumulated;
    PrefixValue(ds, k);
    LeadIsNothing(lead, ignore);
    DigitsAccumulate(lead, ds[..k], ignore);
    hide Value;
    assert (lead + Chars(ds, UPPER_A))[..|lead| + k] == lead + Chars(ds[..k], UPPER_A);
  }

  lemma {:induction false} CharsPrefix(ds: seq<nat>, k: nat)
    requires k <= |ds|
    ensures Chars(ds, UPPER_A)[..k] == Chars(ds[..k], UPPER_A)
  {
  }

  lemma {:induction false} StepRoom(v: int, d: nat, n: int)
    requires 0 <= v && d < 10 && v * 10 + d <= n
    ensures n < TWO_31 - DIGIT_0 ==> StepStaysLong(v, DIGIT_0 + d)
    ensures n == v * 10 + d && n >= TWO_31 - DIGIT_0 ==> !StepStaysLong(v, DIGIT_0 + d)
  {
  }

  /** Digit number `i` has room if the whole number has, and the last one only then. */
  lemma {:induction false} DigitHasRoom(lead: seq<byte>, ds: seq<nat>, ignore: byte, i: nat)
    requires lead in {[], [MINUS]} && DecimalDigits(ds) && Value(ds, 10) <= TWO_31 && !IsDigit(ignore) && i < |ds|
    ensures var cs, k := lead + Chars(ds, UPPER_A), |lead| + i;
            && cs[k] != ignore && IsDigit(cs[k])
            && (Value(ds, 10) < TWO_31 - DIGIT_0 ==> StepStaysLong(Accumulated(cs[..k], ignore), cs[k]))
            && (Value(ds, 10) >= TWO_31 - DIGIT_0 && i == |ds| - 1 ==> !StepStaysLong(Accumulated(cs[..k], ignore), cs[k]))
  {
    assert ds[i] < 10;
    hide *;
    ReadBefore(lead, ds, ignore, i);
    PrefixValue(ds, i);
    if i == |ds| - 1 { assert ds[..i + 1] == ds; }
    StepRoom(Value(ds[..i], 10), ds[i], Value(ds, 10));
  }

  /** The last digit needs the most room. */
  lemma {:induction false} DigitsStayLong(lead: seq<byte>, ds: seq<nat>, ignore: byte)
    requires lead in {[], [MINUS]} && ds != [] && DecimalDigits(ds) && Value(ds, 10) <= TWO_31 && !IsDigit(ignore)
    ensures StepsStayLong(lead + Chars(ds, UPPER_A), ignore) <==> Value(ds, 10) < TWO_31 - DIGIT_0
  {
    var cs := lead + Chars(ds, UPPER_A);
    SignIsNoDigit();
    hide *;
    DigitHasRoom(lead, ds, ignore, |ds| - 1);
    StepsMean(cs, ignore);
    if Value(ds, 10) < TWO_31 - DIGIT_0 {
      forall k | 0 <= k < |cs| && cs[k] != ignore && IsDigit(cs[k])
        ensures StepStaysLong(Accumulated(cs[..k], ignore), cs[k])
      {
        if k >= |lead| { DigitHasRoom(lead, ds, ignore, k - |lead|); }
      }
    }
  }

  lemma {:induction false} SignIsNoDigit()
    ensures !IsDigit(MINUS)
  {
  }

  lemma {:induction false} StepsMean(cs: seq<byte>, ignore: byte)
    ensures StepsStayLong(cs, ignore) <==>
            forall k :: 0 <= k < |cs| && cs[k] != ignore && IsDigit(cs[k]) ==> StepStaysLong(Accumulated(cs[..k], ignore), cs[k])
  {
  }

  /** Reading a printed long back stays within a long if and only if its magnitude leaves room for the code of '0':
      the sum is formed before that code is taken off. */
  lemma {:induction false} ReadingStaysLong(x: int, ignore: byte)
    requires IsLong(x) && !IsDigit(ignore)
    ensures StaysLong(Decimal(x), ignore) <==> -(TWO_31 - DIGIT_0) < x < TWO_31 - DIGIT_0
  {
    var n := if x < 0 then -x else x;
    var lead: seq<byte> := if x < 0 then [MINUS] else [];
    assert Decimal(x) == lead + Chars(Numeral(n, 10), UPPER_A) by {
      assert [] + Chars(Numeral(n, 10), UPPER_A) == Chars(Numeral(n, 10), UPPER_A);
    }
    NumeralIsCanonical(n, 10);
    assert DecimalDigits(Numeral(n, 10));
    hide Numeral;
    hide Chars;
    hide Decimal;
    hide Accumulated;
    hide StepsStayLong;
    ValueOfNumeral(n, 10);
    DigitsStayLong(lead, Numeral(n, 10), ignore);
    DecimalAccumulates(x, ignore);
  }

  /** The least magnitude at which reading overflows, though in wrapping arithmetic the value still comes back. */
  lemma {:induction false} ReadingOverflows(ignore: byte)
    requires !IsDigit(ignore) && ignore != MINUS
    ensures !StaysLong(Decimal(2147483600), ignore) && !StaysLong(Decimal(-2147483600), ignore)
    ensures StaysLong(Decimal(2147483599), ignore)
    ensures Decimal(2147483600) != [] && Signed(Decimal(2147483600), ignore) == 2147483600
  {
    ReadingStaysLong(2147483600, ignore);
    ReadingStaysLong(-2147483600, ignore);
    ReadingStaysLong(2147483599, ignore);
    DecimalReadsBack(2147483600, ignore);
    hide Decimal;
    hide StaysLong;
  }

  /** The three operations of one step, each wrapping, are one wrapping step. */
  lemma {:induction false} StepWraps(v: int, c: byte)
    ensures I32(I32(I32(v * 10) + c) - DIGIT_0) == I32(v * 10 + c - DIGIT_0)
  {
    WrapPlus(v * 10, c);
    WrapPlus(v * 10 + c, -(DIGIT_0 as int));
    hide I32;
  }

  lemma {:induction false} WrapPlus(x: int, d: int)
    ensures I32(I32(x) + d) == I32(x + d)
  {
    var k := (I32(x) - x) / TWO_32;
    assert I32(x) == x + k * TWO_32;
    WrapShift(x + d, k);
  }

  // ----- what the loops of the parser keep

  lemma {:induction false} LeadRun(s: seq<byte>, i: nat, p: nat, mode: LookaheadMode, detectDecimal: bool)
    requires i <= p <= |s|
    requires forall k :: i <= k < p ==> !Starts(s[k], detectDecimal) && Discards(mode, s[k])
    ensures LeadEnd(s, i, mode, detectDecimal) == LeadEnd(s, p, mode, detectDecimal)
    decreases p - i
  {
    hide Starts;
    hide Discards;
    if i < p { LeadRun(s, i + 1, p, mode, detectDecimal); }
  }

  lemma {:induction false} LeadStops(s: seq<byte>, i: nat, mode: LookaheadMode, detectDecimal: bool)
    requires i <= |s| && (i < |s| ==> Starts(s[i], detectDecimal) || !Discards(mode, s[i]))
    ensures LeadEnd(s, i, mode, detectDecimal) == i
  {
  }

  lemma {:induction false} LeadPrefix(s: seq<byte>, hi: nat, i: nat, mode: LookaheadMode, detectDecimal: bool)
    requires i <= hi <= |s| && LeadEnd(s, i, mode, detectDecimal) < hi
    ensures LeadEnd(s[..hi], i, mode, detectDecimal) == LeadEnd(s, i, mode, detectDecimal)
    decreases hi - i
  {
    hide Starts;
    hide Discards;
    if i < LeadEnd(s, i, mode, detectDecimal) { LeadPrefix(s, hi, i + 1, mode, detectDecimal); }
  }

  lemma {:induction false} NothingParsed(s: seq<byte>, i: nat, mode: LookaheadMode, ignore: byte)
    requires i <= |s| && (var p := LeadEnd(s, i, mode, false); p < |s| ==> !Starts(s[p], false))
    ensures ParsedInt(s, i, mode, ignore) == (LeadEnd(s, i, mode, false), 0)
  {
    hide LeadEnd;
  }

  /** The state of the reading loop: `s[p..pos]` has been read. */
  ghost predicate Reading(s: seq<byte>, p: nat, pos: nat, ignore: byte, value: int, isNegative: bool) {
    && p <= pos <= |s|
    && (p < |s| ==> Starts(s[p], false))
    && (forall k :: p < k < pos ==> IsDigit(s[k]) || s[k] == ignore)
    && value == Accumulated(s[p..pos], ignore)
    && (isNegative <==> p < pos && s[p] == MINUS && ignore != MINUS)
  }

  lemma {:induction false} ReadOne(s: seq<byte>, p: nat, pos: nat, ignore: byte, value: int, isNegative: bool)
    requires pos < |s| && Reading(s, p, pos, ignore, value, isNegative)
    requires p < pos ==> IsDigit(s[pos]) || s[pos] == ignore
    ensures var c := s[pos];
            var value' := if c == ignore || !IsDigit(c) then value else I32(value * 10 + c - DIGIT_0);
            Reading(s, p, pos + 1, ignore, value', isNegative || (c != ignore && c == MINUS))
  {
    hide Accumulated;
    hide I32;
    assert s[p..pos + 1] == s[p..pos] + [s[pos]];
    AccumulateSnoc(s[p..pos], s[pos], ignore);
  }

  lemma {:induction false} ReadAll(s: seq<byte>, i: nat, hi: nat, p: nat, pos: nat, mode: LookaheadMode, ignore: byte,
                                   value: int, isNegative: bool)
    requires i <= p < pos <= hi <= |s| && p == LeadEnd(s, i, mode, false) && Reading(s, p, pos, ignore, value, isNegative)
    requires pos < hi ==> !IsDigit(s[pos]) && s[pos] != ignore
    ensures ParsedInt(s[..hi], i, mode, ignore) == (pos, if isNegative then I32(-value) else value)
  {
    hide LeadEnd;
    hide RunEnd;
    hide Accumulated;
    hide I32;
    LeadPrefix(s, hi, i, mode, false);
    RunStops(s[..hi], p + 1, pos, ignore);
    assert s[..hi][p..pos] == s[p..pos];
    assert s[p..pos][0] == s[p];
  }

  // ----- what the parser does, without the functions it is specified by

  /** A character that a number can start with. */
  predicate StartsNumber(c: int, point: bool) {
    c == '-' as int || '0' as int <= c <= '9' as int || (point && c == '.' as int)
  }

  /** A character that may stand before a number and be skipped. */
  predicate Skippable(mode: LookaheadMode, c: int) {
    mode.SkipAll? || (mode.SkipWhitespace? && c in {' ' as int, '\t' as int, '\r' as int, '\n' as int})
  }

  /** From `i` on, `p` is the first place where a number starts or something else stands that may not be skipped. */
  ghost predicate LeadStopsAt(s: seq<byte>, i: nat, p: nat, mode: LookaheadMode, point: bool) {
    && i <= p <= |s|
    && (forall k :: i <= k < p ==> !StartsNumber(s[k], point) && Skippable(mode, s[k]))
    && (p < |s| ==> StartsNumber(s[p], point) || !Skippable(mode, s[p]))
  }

  lemma {:induction false} LeadExact(s: seq<byte>, i: nat, p: nat, mode: LookaheadMode, point: bool)
    requires i <= |s| && p <= |s|
    ensures LeadEnd(s, i, mode, point) == p <==> LeadStopsAt(s, i, p, mode, point)
  {
    hide *;
    LeadIs(s, i, mode, point);
    if LeadStopsAt(s, i, p, mode, point) { LeadOnce(s, i, p, LeadEnd(s, i, mode, point), mode, point); }
  }

  lemma {:induction false} LeadOnce(s: seq<byte>, i: nat, p: nat, q: nat, mode: LookaheadMode, point: bool)
    requires LeadStopsAt(s, i, p, mode, point) && LeadStopsAt(s, i, q, mode, point)
    ensures p == q
  {
    hide Skippable;
    hide StartsNumber;
  }

  lemma {:induction false} LeadIs(s: seq<byte>, i: nat, mode: LookaheadMode, point: bool)
    requires i <= |s|
    ensures LeadStopsAt(s, i, LeadEnd(s, i, mode, point), mode, point)
    decreases |s| - i
  {
    if i < |s| && !Starts(s[i], point) && Discards(mode, s[i]) { LeadIs(s, i + 1, mode, point); }
  }

  /** From `i` on, `e` is the first place with neither a digit nor the ignored character. */
  ghost predicate RunStopsAt(s: seq<byte>, i: nat, e: nat, ignore: byte) {
    && i <= e <= |s|
    && (forall k :: i <= k < e ==> '0' as int <= s[k] <= '9' as int || s[k] == ignore)
    && (e < |s| ==> !('0' as int <= s[e] <= '9' as int) && s[e] != ignore)
  }

  lemma {:induction false} RunIs(s: seq<byte>, i: nat, e: nat, ignore: byte)
    requires RunStopsAt(s, i, e, ignore)
    ensures RunEnd(s, i, ignore) == e
  {
    RunStops(s, i, e, ignore);
  }

  /** The digits among the characters that are not ignored, as numbers. */
  function KeptDigits(cs: seq<byte>, ignore: byte): seq<nat> {
    if cs == [] then []
    else
      var c := cs[|cs| - 1];
      KeptDigits(cs[..|cs| - 1], ignore) + if '0' as int <= c <= '9' as int && c != ignore then [c - '0' as int] else []
  }

  /** The accumulated value is what those digits denote, in wrapping arithmetic. */
  lemma {:induction false} AccumulatedIs(cs: seq<byte>, ignore: byte)
    ensures Accumulated(cs, ignore) == I32(Value(KeptDigits(cs, ignore), 10))
    decreases |cs|
  {
    hide *;
    if cs == [] {
      NothingAccumulated(ignore);
    } else {
      var init, c := cs[..|cs| - 1], cs[|cs| - 1];
      AccumulatedIs(init, ignore);
      AccumulateSnoc(init, c, ignore);
      KeptSnoc(init, c, ignore);
      assert init + [c] == cs;
      DigitIs(c);
      var ds := KeptDigits(init, ignore);
      if IsDigit(c) && c != ignore {
        ValueSnoc(ds, c - DIGIT_0, 10);
        WrapStep(Value(ds, 10), c - DIGIT_0);
      }
    }
  }

  lemma {:induction false} NothingAccumulated(ignore: byte)
    ensures Accumulated([], ignore) == I32(Value(KeptDigits([], ignore), 10)) == 0
  {
  }

  lemma {:induction false} DigitIs(c: byte)
    ensures IsDigit(c) <==> '0' as int <= c <= '9' as int
    ensures DIGIT_0 == '0' as int
  {
  }

  lemma {:induction false} KeptSnoc(cs: seq<byte>, c: byte, ignore: byte)
    ensures KeptDigits(cs + [c], ignore)
         == if '0' as int <= c <= '9' as int && c != ignore then KeptDigits(cs, ignore) + [c - '0' as int] else KeptDigits(cs, ignore)
  {
    assert (cs + [c])[..|cs|] == cs;
    assert KeptDigits(cs, ignore) + [] == KeptDigits(cs, ignore);
  }

  /** parseInt on every input, in every mode and with every ignored character: from `p`, the first place where a number
      starts or something may not be skipped, it reads up to the end `e` of the digits and ignored characters, and
      returns the number of the digits that are not ignored, negative after a minus sign that is not ignored; it returns
      0 and reads nothing more if no number starts at `p`. */
  lemma {:induction false} ParsedIntExact(s: seq<byte>, i: nat, mode: LookaheadMode, ignore: byte, p: nat, e: nat)
    requires i <= |s| && LeadStopsAt(s, i, p, mode, false)
    requires p < |s| && StartsNumber(s[p], false) ==> RunStopsAt(s, p + 1, e, ignore)
    ensures ParsedInt(s, i, mode, ignore)
         == if p == |s| || !StartsNumber(s[p], false) then (p, 0)
            else
              var n := Value(KeptDigits(s[p..e], ignore), 10) as int;
              (e, I32(if s[p] == '-' as int && ignore != '-' as int then -n else n))
  {
    hide *;
    LeadWithin(s, i, p, mode, false);
    LeadExact(s, i, p, mode, false);
    ParsedIntIs(s, i, mode, ignore);
    if p < |s| && StartsNumber(s[p], false) {
      RunWithin(s, p + 1, e, ignore);
      RunIs(s, p + 1, e, ignore);
      SignedIs(s[p..e], ignore);
      assert s[p..e][0] == s[p];
    }
  }

  lemma {:induction false} LeadWithin(s: seq<byte>, i: nat, p: nat, mode: LookaheadMode, point: bool)
    requires LeadStopsAt(s, i, p, mode, point)
    ensures i <= p <= |s|
  {
  }

  lemma {:induction false} RunWithin(s: seq<byte>, i: nat, e: nat, ignore: byte)
    requires RunStopsAt(s, i, e, ignore)
    ensures i <= e <= |s|
  {
  }

  lemma {:induction false} ParsedIntIs(s: seq<byte>, i: nat, mode: LookaheadMode, ignore: byte)
    requires i <= |s|
    ensures var p := LeadEnd(s, i, mode, false);
            ParsedInt(s, i, mode, ignore)
            == if p == |s| || !StartsNumber(s[p], false) then (p, 0)
               else (RunEnd(s, p + 1, ignore), Signed(s[p..RunEnd(s, p + 1, ignore)], ignore))
  {
    hide LeadEnd;
    hide RunEnd;
    hide Signed;
  }

  lemma {:induction false} SignedIs(cs: seq<byte>, ignore: byte)
    requires cs != []
    ensures var n := Value(KeptDigits(cs, ignore), 10) as int;
            Signed(cs, ignore) == I32(if cs[0] == '-' as int && ignore != '-' as int then -n else n)
  {
    AccumulatedIs(cs, ignore);
    WrapNegate(Value(KeptDigits(cs, ignore), 10));
    hide Accumulated;
    hide KeptDigits;
    hide I32;
    hide Value;
  }

  /** A printed number that starts where skipping stops. */
  lemma {:induction false} ParsesFrom(s: seq<byte>, i: nat, p: nat, x: int, mode: LookaheadMode, ignore: byte)
    requires IsLong(x) && !IsDigit(ignore) && ignore != MINUS
    requires i <= p && p + |Decimal(x)| <= |s| && s[p..p + |Decimal(x)|] == Decimal(x)
    requires var e := p + |Decimal(x)|; e < |s| ==> !('0' as int <= s[e] <= '9' as int) && s[e] != ignore
    requires forall k :: i <= k < p ==> !StartsNumber(s[k], false) && Skippable(mode, s[k])
    ensures ParsedInt(s, i, mode, ignore) == (p + |Decimal(x)|, x)
  {
    assert -TWO_31 <= x < TWO_31;
    hide *;
    var e := p + |Decimal(x)|;
    DecimalInText(s, p, x, ignore);
    LeadGiven(s, i, p, mode);
    DecimalReadsBack(x, ignore);
    NumberAt(s, i, p, e, mode, ignore);
  }

  lemma {:induction false} NumberAt(s: seq<byte>, i: nat, p: nat, e: nat, mode: LookaheadMode, ignore: byte)
    requires i <= |s| && p < e <= |s| && LeadStopsAt(s, i, p, mode, false) && StartsNumber(s[p], false)
    requires RunStopsAt(s, p + 1, e, ignore)
    ensures ParsedInt(s, i, mode, ignore) == (e, Signed(s[p..e], ignore))
  {
    hide *;
    LeadExact(s, i, p, mode, false);
    RunIs(s, p + 1, e, ignore);
    ParsedIntIs(s, i, mode, ignore);
  }

  lemma {:induction false} DecimalInText(s: seq<byte>, p: nat, x: int, ignore: byte)
    requires p + |Decimal(x)| <= |s| && s[p..p + |Decimal(x)|] == Decimal(x)
    requires var e := p + |Decimal(x)|; e < |s| ==> !('0' as int <= s[e] <= '9' as int) && s[e] != ignore
    ensures p < |s| && StartsNumber(s[p], false) && RunStopsAt(s, p + 1, p + |Decimal(x)|, ignore)
  {
    DecimalShape(x);
    var t := Decimal(x);
    hide Decimal;
    assert forall k :: 0 <= k < |t| ==> s[p + k] == s[p..p + |t|][k] == t[k];
    assert forall k :: p <= k < p + |t| ==> s[k] == t[k - p];
  }

  lemma {:induction false} LeadGiven(s: seq<byte>, i: nat, p: nat, mode: LookaheadMode)
    requires i <= p < |s| && StartsNumber(s[p], false)
    requires forall k :: i <= k < p ==> !StartsNumber(s[k], false) && Skippable(mode, s[k])
    ensures LeadStopsAt(s, i, p, mode, false)
  {
  }

  /** A printed number behind any lead: with everything skipped, or white space alone, or nothing, what may be skipped
      before it is skipped and the number comes back; otherwise the call returns 0 and stops at the first character
      that may not be skipped. */
  lemma {:induction false} ParsesBehind(s: seq<byte>, i: nat, p: nat, x: int, mode: LookaheadMode, ignore: byte)
    requires IsLong(x) && !IsDigit(ignore) && ignore != MINUS
    requires i <= p && p + |Decimal(x)| <= |s| && s[p..p + |Decimal(x)|] == Decimal(x)
    requires var e := p + |Decimal(x)|; e < |s| ==> !('0' as int <= s[e] <= '9' as int) && s[e] != ignore
    requires forall k :: i <= k < p ==> s[k] != '-' as int && !('0' as int <= s[k] <= '9' as int)
    ensures mode.SkipAll? || (mode.SkipWhitespace? && OnlyWhite(s, i, p)) || i == p
            ==> ParsedInt(s, i, mode, ignore) == (p + |Decimal(x)|, x)
    ensures mode.SkipNone? && i < p ==> ParsedInt(s, i, mode, ignore) == (i, 0)
    ensures forall q :: mode.SkipWhitespace? && i <= q < p && s[q] !in {32, 9, 13, 10} && OnlyWhite(s, i, q)
                        ==> ParsedInt(s, i, mode, ignore) == (q, 0)
  {
    hide ParsedInt;
    hide Decimal;
    hide Signed;
    if mode.SkipAll? || (mode.SkipWhitespace? && OnlyWhite(s, i, p)) || i == p { ParsesFrom(s, i, p, x, mode, ignore); }
    if mode.SkipNone? && i < p { NothingAt(s, i, i, mode, ignore); }
    forall q | mode.SkipWhitespace? && i <= q < p && s[q] !in {32, 9, 13, 10} && OnlyWhite(s, i, q)
      ensures ParsedInt(s, i, mode, ignore) == (q, 0)
    {
      NothingAt(s, i, q, mode, ignore);
    }
  }

  /** Spaces, tabs, carriage returns and line feeds. */
  ghost predicate OnlyWhite(s: seq<byte>, i: nat, p: nat) {
    i <= p <= |s| && forall k :: i <= k < p ==> s[k] in {32, 9, 13, 10}
  }

  lemma {:induction false} NothingAt(s: seq<byte>, i: nat, q: nat, mode: LookaheadMode, ignore: byte)
    requires q < |s| && LeadStopsAt(s, i, q, mode, false) && !StartsNumber(s[q], false)
    ensures ParsedInt(s, i, mode, ignore) == (q, 0)
  {
    LeadExact(s, i, q, mode, false);
    hide LeadEnd;
    hide RunEnd;
    hide Signed;
  }

  /** Ignored characters between the digits change nothing but the stopping place. */
  lemma {:induction false} ParsesGrouped(s: seq<byte>, i: nat, e: nat, n: nat, mode: LookaheadMode, ignore: byte)
    requires i < e <= |s| && StartsNumber(s[i], false) && s[i] != MINUS && RunStopsAt(s, i + 1, e, ignore) && IsLong(n)
    requires KeptDigits(s[i..e], ignore) == Numeral(n, 10)
    ensures ParsedInt(s, i, mode, ignore) == (e, n)
  {
    ParsedIntExact(s, i, mode, ignore, i, e);
    ValueOfNumeral(n, 10);
    hide ParsedInt;
    hide KeptDigits;
    hide Numeral;
    hide Value;
  }
}
