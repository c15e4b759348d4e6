/** The format language of tinyprintf: what a format string says, independently of its arguments. */
module Format {
  import opened Bytes

  const PERCENT: byte := 37
  const HASH: byte := 35
  const PLUS: byte := 43
  const STAR: byte := 42
  const LOWER_H: byte := 104
  const LOWER_J: byte := 106
  const LOWER_L: byte := 108
  const LOWER_T: byte := 116
  const LOWER_Z: byte := 122

  /** A width or a precision as written. */
  datatype Amount = Absent | Digits(ds: seq<byte>) | Star

  /** One directive as written: everything between the percent sign and the specifier, in order. */
  datatype Directive = Directive(flags: seq<byte>, width: Amount, dot: bool, precision: Amount, length: seq<byte>, spec: byte)

  datatype Item = Literal(c: byte) | Conversion(d: Directive)

  // ----- decoding

  /** The character at `i`; the terminator behind the end. */
  function At(fmt: seq<byte>, i: nat): byte {
    if i < |fmt| then fmt[i] else NUL
  }

  predicate IsFlag(c: byte) {
    c in {DIGIT_0, MINUS, PLUS, SPACE, HASH}
  }

  function FlagsEnd(fmt: seq<byte>, i: nat): (e: nat)
    requires i <= |fmt|
    ensures i <= e <= |fmt|
    decreases |fmt| - i
  {
    if i < |fmt| && IsFlag(fmt[i]) then FlagsEnd(fmt, i + 1) else i
  }

  function DigitsEnd(fmt: seq<byte>, i: nat): (e: nat)
    requires i <= |fmt|
    ensures i <= e <= |fmt|
    decreases |fmt| - i
  {
    if i < |fmt| && IsDigit(fmt[i]) then DigitsEnd(fmt, i + 1) else i
  }

  function DecodeAmount(fmt: seq<byte>, i: nat): (r: (Amount, nat))
    requires i <= |fmt|
    ensures i <= r.1 <= |fmt|
  {
    if IsDigit(At(fmt, i)) then (Digits(fmt[i..DigitsEnd(fmt, i)]), DigitsEnd(fmt, i))
    else if At(fmt, i) == STAR then (Star, i + 1)
    else (Absent, i)
  }

  /** The length modifier: "l", "ll", "h", "hh", "t", "j", "z" or nothing. */
  function LengthEnd(fmt: seq<byte>, i: nat): (e: nat)
    requires i <= |fmt|
    ensures i <= e <= |fmt|
  {
    var c := At(fmt, i);
    if c == LOWER_L || c == LOWER_H then (if At(fmt, i + 1) == c then i + 2 else i + 1)
    else if c in {LOWER_T, LOWER_J, LOWER_Z} then i + 1
    else i
  }

  /** The directive whose percent sign ends before `i`, and where the format goes on. */
  function DecodeDirective(fmt: seq<byte>, i: nat): (r: (Directive, nat))
    requires i <= |fmt|
    ensures i <= r.1 <= |fmt|
    ensures r.0.spec != NUL ==> i < r.1
  {
    var f := FlagsEnd(fmt, i);
    var (width, w) := DecodeAmount(fmt, f);
    var dot := At(fmt, w) == DOT;
    var (precision, p) := if dot then DecodeAmount(fmt, w + 1) else (Absent, w);
    var l := LengthEnd(fmt, p);
    (Directive(fmt[i..f], width, dot, precision, fmt[p..l], At(fmt, l)), if l < |fmt| then l + 1 else l)
  }

  function DecodeItem(fmt: seq<byte>, i: nat): (r: (Item, nat))
    requires i < |fmt|
    ensures i < r.1 <= |fmt|
  {
    if fmt[i] != PERCENT then (Literal(fmt[i]), i + 1)
    else
      var (d, next) := DecodeDirective(fmt, i + 1);
      (Conversion(d), next)
  }

  function Decode(fmt: seq<byte>, i: nat): seq<Item>
    requires i <= |fmt|
    decreases |fmt| - i
  {
    if i == |fmt| then []
    else
      var (item, next) := DecodeItem(fmt, i);
      [item] + Decode(fmt, next)
  }

  // ----- printing

  function ShowAmount(a: Amount): seq<byte> {
    match a
    case Absent => []
    case Digits(ds) => ds
    case Star => [STAR]
  }

  function ShowDirective(d: Directive): seq<byte> {
    d.flags + ShowAmount(d.width) + (if d.dot then [DOT] else []) + ShowAmount(d.precision) + d.length + [d.spec]
  }

  function ShowItem(item: Item): seq<byte> {
    match item
    case Literal(c) => [c]
    case Conversion(d) => [PERCENT] + ShowDirective(d)
  }

  function Show(items: seq<Item>): seq<byte> {
    if items == [] then [] else ShowItem(items[0]) + Show(items[1..])
  }

  /** No directive is cut off by the end of the format. */
  predicate Complete(items: seq<Item>) {
    forall i :: 0 <= i < |items| ==> items[i].Conversion? ==> items[i].d.spec != NUL
  }

  // ----- printing undoes decoding

  lemma {:induction false} Glue(s: seq<byte>, a: nat, b: nat, c: nat)
    requires a <= b <= c <= |s|
    ensures s[a..b] + s[b..c] == s[a..c]
  {
  }

  lemma {:induction false} ShowDecodedAmount(fmt: seq<byte>, i: nat)
    requires i <= |fmt|
    ensures var (a, next) := DecodeAmount(fmt, i); ShowAmount(a) == fmt[i..next]
  {
    hide DigitsEnd;
  }

  /** The places between the parts of the directive at `i`. */
  lemma {:induction false} DirectiveParts(fmt: seq<byte>, i: nat) returns (f: nat, w: nat, q: nat, p: nat, l: nat)
    requires i <= |fmt|
    ensures i <= f <= w <= q <= p <= l <= |fmt|
    ensures var (d, next) := DecodeDirective(fmt, i);
            && d.flags == fmt[i..f] && ShowAmount(d.width) == fmt[f..w]
            && (if d.dot then [DOT] else []) == fmt[w..q]
            && ShowAmount(d.precision) == fmt[q..p] && d.length == fmt[p..l]
            && (d.spec != NUL ==> next == l + 1 <= |fmt| && [d.spec] == fmt[l..next])
  {
    hide DigitsEnd;
    hide FlagsEnd;
    hide LengthEnd;
    hide DecodeAmount;
    hide ShowAmount;
    f := FlagsEnd(fmt, i);
    w := DecodeAmount(fmt, f).1;
    var dot := At(fmt, w) == DOT;
    q := if dot then w + 1 else w;
    p := if dot then DecodeAmount(fmt, q).1 else w;
    l := LengthEnd(fmt, p);
    ShowDecodedAmount(fmt, f);
    if dot { ShowDecodedAmount(fmt, q); } else { NothingShown(); }
  }

  lemma {:induction false} NothingShown()
    ensures ShowAmount(Absent) == []
  {
  }

  lemma {:induction false} ShowDecodedDirective(fmt: seq<byte>, i: nat)
    requires i <= |fmt|
    ensures var (d, next) := DecodeDirective(fmt, i); d.spec != NUL ==> ShowDirective(d) == fmt[i..next]
  {
    hide DecodeDirective;
    hide ShowAmount;
    var f, w, q, p, l := DirectiveParts(fmt, i);
    var (d, next) := DecodeDirective(fmt, i);
    if d.spec != NUL {
      Glue(fmt, i, f, w);
      Glue(fmt, i, w, q);
      Glue(fmt, i, q, p);
      Glue(fmt, i, p, l);
      Glue(fmt, i, l, next);
    }
  }

  lemma {:induction false} ShowDecodedItem(fmt: seq<byte>, i: nat)
    requires i < |fmt|
    ensures var (item, next) := DecodeItem(fmt, i);
            (item.Conversion? ==> item.d.spec != NUL) ==> ShowItem(item) == fmt[i..next]
  {
    hide DecodeDirective;
    hide ShowDirective;
    ShowDecodedDirective(fmt, i + 1);
    Glue(fmt, i, i + 1, DecodeItem(fmt, i).1);
    assert fmt[i..i + 1] == [fmt[i]];
  }

  /** Decoding a format and printing the items gives the format back. */
  lemma {:induction false} ShowDecoded(fmt: seq<byte>, i: nat)
    requires i <= |fmt| && Complete(Decode(fmt, i))
    ensures Show(Decode(fmt, i)) == fmt[i..]
    decreases |fmt| - i
  {
    hide DecodeItem;
    hide ShowItem;
    if i < |fmt| {
      var (item, next) := DecodeItem(fmt, i);
      var items, rest := Decode(fmt, i), Decode(fmt, next);
      assert items[0] == item && items[1..] == rest;
      assert forall k :: 0 <= k < |rest| ==> rest[k] == items[k + 1];
      ShowDecodedItem(fmt, i);
      ShowDecoded(fmt, next);
      Glue(fmt, i, next, |fmt|);
    }
  }

  // ----- decoding undoes printing

  predicate AllDigits(ds: seq<byte>) {
    ds != [] && forall i :: 0 <= i < |ds| ==> '0' as int <= ds[i] <= '9' as int
  }

  /** The flag characters. */
  const FLAGS: set<int> := {'0' as int, '-' as int, '+' as int, ' ' as int, '#' as int}

  /** A character that can only be a specifier: not a flag, a digit, a star, a dot or a length letter. */
  predicate OnlySpecifier(c: byte) {
    && c != 0 && c !in FLAGS && !('0' as int <= c <= '9' as int)
    && c !in {'*' as int, '.' as int, 'l' as int, 'h' as int, 't' as int, 'j' as int, 'z' as int}
  }

  predicate IsLength(s: seq<byte>) {
    || s in {[], ['t' as int], ['j' as int], ['z' as int]}
    || s in {['l' as int], ['l' as int, 'l' as int], ['h' as int], ['h' as int, 'h' as int]}
  }

  /** A directive whose parts cannot be mistaken for one another. */
  predicate Plain(d: Directive) {
    && (forall i :: 0 <= i < |d.flags| ==> d.flags[i] in FLAGS)
    && (d.width.Digits? ==> AllDigits(d.width.ds) && d.width.ds[0] != '0' as int)
    && (d.precision.Digits? ==> AllDigits(d.precision.ds))
    && (!d.dot ==> d.precision.Absent?)
    && IsLength(d.length)
    && OnlySpecifier(d.spec)
  }

  predicate PlainItem(item: Item) {
    match item
    case Literal(c) => c != '%' as int
    case Conversion(d) => Plain(d)
  }

  lemma {:induction false} FlagsEndIs(fmt: seq<byte>, i: nat, e: nat)
    requires i <= e <= |fmt| && (e < |fmt| ==> !IsFlag(fmt[e]))
    requires forall k :: i <= k < e ==> IsFlag(fmt[k])
    ensures FlagsEnd(fmt, i) == e
    decreases e - i
  {
    hide IsFlag;
    if i < e { FlagsEndIs(fmt, i + 1, e); }
  }

  lemma {:induction false} DigitsEndIs(fmt: seq<byte>, i: nat, e: nat)
    requires i <= e <= |fmt| && (e < |fmt| ==> !IsDigit(fmt[e]))
    requires forall k :: i <= k < e ==> IsDigit(fmt[k])
    ensures DigitsEnd(fmt, i) == e
    decreases e - i
  {
    hide IsDigit;
    if i < e { DigitsEndIs(fmt, i + 1, e); }
  }

  /** Where the parts of a printed directive stand. */
  lemma {:induction false} PrintedParts(fmt: seq<byte>, i: nat, d: Directive, rest: seq<byte>)
    returns (f: nat, w: nat, q: nat, p: nat, l: nat)
    requires i <= |fmt| && fmt[i..] == ShowDirective(d) + rest
    ensures i <= f <= w <= q <= p <= l < |fmt|
    ensures fmt[i..f] == d.flags && fmt[f..w] == ShowAmount(d.width) && fmt[w..q] == (if d.dot then [DOT] else [])
    ensures fmt[q..p] == ShowAmount(d.precision) && fmt[p..l] == d.length && fmt[l] == d.spec && fmt[l + 1..] == rest
  {
    var wt, dt, pt := ShowAmount(d.width), if d.dot then [DOT] else [], ShowAmount(d.precision);
    var r5 := [d.spec] + rest;
    var r4 := d.length + r5;
    var r3 := pt + r4;
    var r2 := dt + r3;
    var r1 := wt + r2;
    ShowAsChain(d, rest);
    hide ShowDirective;
    hide ShowAmount;
    f := PartOf(fmt, i, d.flags, r1);
    w := PartOf(fmt, f, wt, r2);
    q := PartOf(fmt, w, dt, r3);
    p := PartOf(fmt, q, pt, r4);
    l := PartOf(fmt, p, d.length, r5);
    var n := PartOf(fmt, l, [d.spec], rest);
    assert fmt[l] == fmt[l..n][0];
  }

  lemma {:induction false} ShowAsChain(d: Directive, rest: seq<byte>)
    ensures ShowDirective(d) + rest
         == d.flags + (ShowAmount(d.width) + ((if d.dot then [DOT] else [])
                       + (ShowAmount(d.precision) + (d.length + ([d.spec] + rest)))))
  {
    hide ShowAmount;
  }

  lemma {:induction false} PartOf(fmt: seq<byte>, i: nat, a: seq<byte>, b: seq<byte>) returns (j: nat)
    requires i <= |fmt| && fmt[i..] == a + b
    ensures j == i + |a| <= |fmt| && fmt[i..j] == a && fmt[j..] == b
  {
    j := i + |a|;
    assert fmt[i..j] == fmt[i..][..|a|];
    assert fmt[j..] == fmt[i..][|a|..];
  }

  /** An amount is read up to where it was printed, if nothing that could belong to it follows. */
  lemma {:induction false} AmountReadBack(fmt: seq<byte>, i: nat, j: nat, a: Amount)
    requires i <= j < |fmt| && fmt[i..j] == ShowAmount(a) && (a.Digits? ==> AllDigits(a.ds))
    requires !IsDigit(fmt[j]) && (a.Absent? ==> fmt[j] != STAR)
    ensures DecodeAmount(fmt, i) == (a, j)
  {
    match a
    case Absent =>
    case Star => assert fmt[i] == fmt[i..j][0];
    case Digits(ds) =>
      assert forall k :: i <= k < j ==> fmt[k] == fmt[i..j][k - i];
      DigitsEndIs(fmt, i, j);
  }

  lemma {:induction false} LengthReadBack(fmt: seq<byte>, p: nat, l: nat)
    requires p <= l < |fmt| && IsLength(fmt[p..l]) && OnlySpecifier(fmt[l])
    ensures LengthEnd(fmt, p) == l
    ensures !IsDigit(fmt[p]) && !IsFlag(fmt[p]) && fmt[p] != STAR && fmt[p] != DOT
  {
    assert forall k :: p <= k < l ==> fmt[k] == fmt[p..l][k - p];
  }

  /** The parts of a plain directive stand at these places. */
  ghost predicate Placed(fmt: seq<byte>, i: nat, d: Directive, f: nat, w: nat, q: nat, p: nat, l: nat) {
    && i <= f <= w <= q <= p <= l < |fmt| && Plain(d)
    && fmt[i..f] == d.flags && fmt[f..w] == ShowAmount(d.width) && fmt[w..q] == (if d.dot then [DOT] else [])
    && fmt[q..p] == ShowAmount(d.precision) && fmt[p..l] == d.length && fmt[l] == d.spec
  }

  lemma {:induction false} PrecisionReadBack(fmt: seq<byte>, i: nat, d: Directive, f: nat, w: nat, q: nat, p: nat, l: nat)
    requires Placed(fmt, i, d, f, w, q, p, l)
    ensures LengthEnd(fmt, p) == l
    ensures d.dot ==> q == w + 1 && DecodeAmount(fmt, q) == (d.precision, p)
    ensures !d.dot ==> p == w
    ensures !IsDigit(fmt[w]) && !IsFlag(fmt[w]) && fmt[w] != STAR && (fmt[w] == DOT <==> d.dot)
  {
    LengthReadBack(fmt, p, l);
    hide IsLength;
    hide OnlySpecifier;
    if d.dot {
      assert fmt[w] == fmt[w..q][0];
      AmountReadBack(fmt, q, p, d.precision);
    }
  }

  lemma {:induction false} WidthReadBack(fmt: seq<byte>, i: nat, d: Directive, f: nat, w: nat, q: nat, p: nat, l: nat)
    requires Placed(fmt, i, d, f, w, q, p, l) && !IsDigit(fmt[w]) && !IsFlag(fmt[w]) && fmt[w] != STAR
    ensures DecodeAmount(fmt, f) == (d.width, w) && FlagsEnd(fmt, i) == f
  {
    hide IsLength;
    hide OnlySpecifier;
    AmountReadBack(fmt, f, w, d.width);
    if f < w { assert fmt[f] == fmt[f..w][0]; }
    assert forall k :: i <= k < f ==> fmt[k] == fmt[i..f][k - i];
    FlagsEndIs(fmt, i, f);
  }

  lemma {:induction false} DirectiveReadBack(fmt: seq<byte>, i: nat, d: Directive, rest: seq<byte>)
    requires i <= |fmt| && fmt[i..] == ShowDirective(d) + rest && Plain(d)
    ensures var (e, next) := DecodeDirective(fmt, i); e == d && fmt[next..] == rest
  {
    hide ShowDirective;
    hide DecodeAmount;
    hide LengthEnd;
    hide FlagsEnd;
    var f, w, q, p, l := PrintedParts(fmt, i, d, rest);
    PrecisionReadBack(fmt, i, d, f, w, q, p, l);
    WidthReadBack(fmt, i, d, f, w, q, p, l);
    hide Plain;
    NoPrecision(d);
  }

  lemma {:induction false} NoPrecision(d: Directive)
    requires Plain(d)
    ensures d.dot || d.precision == Absent
  {
  }

  lemma {:induction false} ItemReadBack(fmt: seq<byte>, i: nat, item: Item, rest: seq<byte>)
    requires i <= |fmt| && fmt[i..] == ShowItem(item) + rest && PlainItem(item)
    ensures i < |fmt| && DecodeItem(fmt, i).0 == item && fmt[DecodeItem(fmt, i).1..] == rest
  {
    hide DecodeDirective;
    hide ShowDirective;
    match item
    case Literal(c) =>
      var j := PartOf(fmt, i, [c], rest);
      assert fmt[i] == fmt[i..j][0];
    case Conversion(d) =>
      assert fmt[i..] == [PERCENT] + (ShowDirective(d) + rest);
      var j := PartOf(fmt, i, [PERCENT], ShowDirective(d) + rest);
      assert fmt[i] == fmt[i..j][0];
      DirectiveReadBack(fmt, j, d, rest);
  }

  /** Printing any list of literals and plain directives gives a format that decodes to that list. */
  lemma {:induction false} DecodeShown(fmt: seq<byte>, i: nat, items: seq<Item>)
    requires i <= |fmt| && fmt[i..] == Show(items)
    requires forall k :: 0 <= k < |items| ==> PlainItem(items[k])
    ensures Decode(fmt, i) == items
    decreases |items|
  {
    hide DecodeItem;
    hide ShowItem;
    hide PlainItem;
    if items != [] {
      ItemReadBack(fmt, i, items[0], Show(items[1..]));
      DecodeShown(fmt, DecodeItem(fmt, i).1, items[1..]);
    }
  }

  // ----- every directive of a format is plain

  lemma {:induction false} FlagsAre(fmt: seq<byte>, i: nat)
    requires i <= |fmt|
    ensures var e := FlagsEnd(fmt, i);
            (forall k :: i <= k < e ==> IsFlag(fmt[k])) && (e < |fmt| ==> !IsFlag(fmt[e]))
    decreases |fmt| - i
  {
    hide IsFlag;
    if i < |fmt| && IsFlag(fmt[i]) { FlagsAre(fmt, i + 1); }
  }

  lemma {:induction false} DigitsAre(fmt: seq<byte>, i: nat)
    requires i <= |fmt|
    ensures forall k :: i <= k < DigitsEnd(fmt, i) ==> IsDigit(fmt[k])
    decreases |fmt| - i
  {
    hide IsDigit;
    if i < |fmt| && IsDigit(fmt[i]) { DigitsAre(fmt, i + 1); }
  }

  lemma {:induction false} AmountIsPlain(fmt: seq<byte>, i: nat)
    requires i <= |fmt|
    ensures var a := DecodeAmount(fmt, i).0; a.Digits? ==> i < |fmt| && AllDigits(a.ds) && a.ds[0] == fmt[i]
  {
    DigitsAre(fmt, i);
  }

  lemma {:induction false} LengthIsPlain(fmt: seq<byte>, i: nat)
    requires i <= |fmt|
    ensures IsLength(fmt[i..LengthEnd(fmt, i)])
  {
    var e := LengthEnd(fmt, i);
    if e == i + 1 { assert fmt[i..e] == [fmt[i]]; }
    if e == i + 2 { assert fmt[i..e] == [fmt[i], fmt[i + 1]]; }
    if e == i { assert fmt[i..e] == []; }
  }

  /** Whatever format it is found in, a directive with a proper specifier is plain. */
  lemma {:induction false} DecodedIsPlain(fmt: seq<byte>, i: nat)
    requires i <= |fmt| && OnlySpecifier(DecodeDirective(fmt, i).0.spec)
    ensures Plain(DecodeDirective(fmt, i).0)
  {
    var f := FlagsEnd(fmt, i);
    FlagsAre(fmt, i);
    AmountIsPlain(fmt, f);
    var w := DecodeAmount(fmt, f).1;
    var dot := At(fmt, w) == DOT;
    if dot { AmountIsPlain(fmt, w + 1); }
    var p := if dot then DecodeAmount(fmt, w + 1).1 else w;
    LengthIsPlain(fmt, p);
    assert IsFlag(DIGIT_0);
    hide FlagsEnd;
    hide DecodeAmount;
    hide LengthEnd;
    hide IsLength;
    hide AllDigits;
    hide IsFlag;
    hide OnlySpecifier;
  }
}
