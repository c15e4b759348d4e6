/** How the output of a format is put together from the outputs of its parts. */
module Composition {
  import opened Bytes
  import opened Format
  import opened Rendering

  // ----- what is decoded depends only on the rest of the format

  /** `fmt` is what `whole` holds from `k` on. */
  ghost predicate Rest(whole: seq<byte>, k: nat, fmt: seq<byte>) {
    k + |fmt| == |whole| && whole[k..] == fmt
  }

  lemma {:induction false} RestIs(whole: seq<byte>, k: nat, fmt: seq<byte>, i: nat, j: nat)
    requires Rest(whole, k, fmt) && i <= j <= |fmt|
    ensures |whole| == k + |fmt| && whole[k + i..k + j] == fmt[i..j]
    ensures At(whole, k + i) == At(fmt, i) && At(whole, k + j) == At(fmt, j)
  {
    assert forall n :: i <= n < j ==> whole[k..][n] == whole[k + n];
    if i < |fmt| { assert whole[k + i] == whole[k..][i]; }
    if j < |fmt| { assert whole[k + j] == whole[k..][j]; }
  }

  lemma {:induction false} FlagsShift(whole: seq<byte>, k: nat, fmt: seq<byte>, i: nat)
    requires Rest(whole, k, fmt) && i <= |fmt|
    ensures |whole| == k + |fmt| && FlagsEnd(whole, k + i) == k + FlagsEnd(fmt, i)
    decreases |fmt| - i
  {
    hide IsFlag;
    if i < |fmt| {
      assert whole[k..][i] == fmt[i];
      if IsFlag(fmt[i]) { FlagsShift(whole, k, fmt, i + 1); }
    }
  }

  lemma {:induction false} DigitsShift(whole: seq<byte>, k: nat, fmt: seq<byte>, i: nat)
    requires Rest(whole, k, fmt) && i <= |fmt|
    ensures |whole| == k + |fmt| && DigitsEnd(whole, k + i) == k + DigitsEnd(fmt, i)
    decreases |fmt| - i
  {
    hide IsDigit;
    if i < |fmt| {
      assert whole[k..][i] == fmt[i];
      if IsDigit(fmt[i]) { DigitsShift(whole, k, fmt, i + 1); }
    }
  }

  lemma {:induction false} AmountShift(whole: seq<byte>, k: nat, fmt: seq<byte>, i: nat)
    requires Rest(whole, k, fmt) && i <= |fmt|
    ensures |whole| == k + |fmt|
    ensures var (a, e) := DecodeAmount(fmt, i); DecodeAmount(whole, k + i) == (a, k + e)
  {
    RestIs(whole, k, fmt, i, DigitsEnd(fmt, i));
    DigitsShift(whole, k, fmt, i);
    hide Rest;
    hide At;
    hide DigitsEnd;
    hide IsDigit;
  }

  lemma {:induction false} LengthShift(whole: seq<byte>, k: nat, fmt: seq<byte>, i: nat)
    requires Rest(whole, k, fmt) && i <= |fmt|
    ensures |whole| == k + |fmt| && LengthEnd(whole, k + i) == k + LengthEnd(fmt, i)
  {
    RestIs(whole, k, fmt, i, i);
    if i < |fmt| { RestIs(whole, k, fmt, i, i + 1); }
  }

  /** The directive at `i` from the ends of its parts. */
  lemma {:induction false} DirectiveIs(fmt: seq<byte>, i: nat, f: nat, w: nat, p: nat, l: nat)
    requires i <= |fmt| && f == FlagsEnd(fmt, i) && w == DecodeAmount(fmt, f).1
    requires p == (if At(fmt, w) == DOT then DecodeAmount(fmt, w + 1).1 else w) && l == LengthEnd(fmt, p)
    ensures DecodeDirective(fmt, i)
         == (Directive(fmt[i..f], DecodeAmount(fmt, f).0, At(fmt, w) == DOT,
                       if At(fmt, w) == DOT then DecodeAmount(fmt, w + 1).0 else Absent, fmt[p..l], At(fmt, l)),
             if l < |fmt| then l + 1 else l)
  {
    hide FlagsEnd;
    hide DecodeAmount;
    hide LengthEnd;
  }

  lemma {:induction false} DotInside(fmt: seq<byte>, i: nat)
    ensures At(fmt, i) == DOT ==> i < |fmt|
  {
  }

  lemma {:induction false} DirectiveShift(whole: seq<byte>, k: nat, fmt: seq<byte>, i: nat)
    requires Rest(whole, k, fmt) && i <= |fmt|
    ensures |whole| == k + |fmt|
    ensures var (d, e) := DecodeDirective(fmt, i); DecodeDirective(whole, k + i) == (d, k + e)
  {
    hide *;
    var f := FlagsEnd(fmt, i);
    FlagsShift(whole, k, fmt, i);
    RestIs(whole, k, fmt, i, f);
    AmountShift(whole, k, fmt, f);
    var w := DecodeAmount(fmt, f).1;
    RestIs(whole, k, fmt, w, w);
    DotInside(fmt, w);
    if At(fmt, w) == DOT { AmountShift(whole, k, fmt, w + 1); }
    var p := if At(fmt, w) == DOT then DecodeAmount(fmt, w + 1).1 else w;
    LengthShift(whole, k, fmt, p);
    var l := LengthEnd(fmt, p);
    RestIs(whole, k, fmt, p, l);
    DirectiveIs(fmt, i, f, w, p, l);
    DirectiveIs(whole, k + i, k + f, k + w, k + p, k + l);
  }

  lemma {:induction false} ItemShift(whole: seq<byte>, k: nat, fmt: seq<byte>, i: nat)
    requires Rest(whole, k, fmt) && i < |fmt|
    ensures |whole| == k + |fmt|
    ensures var (item, e) := DecodeItem(fmt, i); DecodeItem(whole, k + i) == (item, k + e)
  {
    hide *;
    RestIs(whole, k, fmt, i, i);
    DirectiveShift(whole, k, fmt, i + 1);
    ItemIs(fmt, i);
    ItemIs(whole, k + i);
  }

  lemma {:induction false} ItemIs(fmt: seq<byte>, i: nat)
    requires i < |fmt|
    ensures At(fmt, i) == fmt[i]
    ensures DecodeItem(fmt, i)
         == if fmt[i] != PERCENT then (Literal(fmt[i]), i + 1)
            else (Conversion(DecodeDirective(fmt, i + 1).0), DecodeDirective(fmt, i + 1).1)
  {
    hide DecodeDirective;
  }

  /** What stands before a place of a format does not change what is decoded from there. */
  lemma {:induction false} DecodeShift(whole: seq<byte>, k: nat, fmt: seq<byte>, i: nat)
    requires Rest(whole, k, fmt) && i <= |fmt|
    ensures |whole| == k + |fmt| && Decode(whole, k + i) == Decode(fmt, i)
    decreases |fmt| - i
  {
    hide Rest;
    hide DecodeItem;
    RestIs(whole, k, fmt, i, i);
    if i < |fmt| {
      ItemShift(whole, k, fmt, i);
      DecodeShift(whole, k, fmt, DecodeItem(fmt, i).1);
    }
  }

  // ----- items in front of a format

  /** A printed item in front of a format is decoded to that item and the items of the format. */
  lemma {:induction false} DecodePrepended(item: Item, fmt: seq<byte>)
    requires PlainItem(item)
    ensures Decode(ShowItem(item) + fmt, 0) == [item] + Decode(fmt, 0)
  {
    hide *;
    var whole := ShowItem(item) + fmt;
    assert whole[0..] == whole;
    ItemReadBack(whole, 0, item, fmt);
    var (got, next) := DecodeItem(whole, 0);
    RestFrom(whole, next, fmt);
    DecodeShift(whole, next, fmt, 0);
    FirstItem(whole);
  }

  lemma {:induction false} RestFrom(whole: seq<byte>, k: nat, fmt: seq<byte>)
    requires k <= |whole| && whole[k..] == fmt
    ensures Rest(whole, k, fmt)
  {
  }

  lemma {:induction false} FirstItem(fmt: seq<byte>)
    requires fmt != []
    ensures var (item, next) := DecodeItem(fmt, 0); Decode(fmt, 0) == [item] + Decode(fmt, next)
  {
    hide DecodeItem;
  }

  lemma {:induction false} OutputPrepended(item: Item, items: seq<Item>, args: seq<Arg>)
    ensures var n := |ItemKinds(item)|;
            && (Accepts([item] + items, args)
                <==> (item.Conversion? ==> !IsUnsupported(item.d.spec))
                     && n <= |args| && FitAll(args[..n], ItemKinds(item)) && Accepts(items, args[n..]))
            && (Accepts([item] + items, args) ==>
                  Output([item] + items, args) == ItemText(item, args[..n]) + Output(items, args[n..]))
  {
    assert ([item] + items)[0] == item && ([item] + items)[1..] == items;
    hide ItemKinds;
    hide ItemText;
    hide FitAll;
    hide IsUnsupported;
  }

  // ----- literal text

  /** Text without a percent sign in front of a format takes no arguments and is copied to the output. */
  lemma {:induction false} LiteralText(text: seq<byte>, fmt: seq<byte>, args: seq<Arg>)
    requires '%' as int !in text
    ensures Accepts(Decode(text + fmt, 0), args) <==> Accepts(Decode(fmt, 0), args)
    ensures Accepts(Decode(fmt, 0), args) ==>
              Output(Decode(text + fmt, 0), args) == text + Output(Decode(fmt, 0), args)
  {
    hide *;
    assert [] + fmt == fmt;
    if text != [] {
      var c, rest := text[0], text[1..];
      LiteralText(rest, fmt, args);
      OneLiteral(c, rest + fmt, args);
      assert text == [c] + rest;
      assert text + fmt == [c] + (rest + fmt);
    }
  }

  lemma {:induction false} OneLiteral(c: byte, fmt: seq<byte>, args: seq<Arg>)
    requires c != '%' as int
    ensures Accepts(Decode([c] + fmt, 0), args) <==> Accepts(Decode(fmt, 0), args)
    ensures Accepts(Decode(fmt, 0), args) ==>
              Output(Decode([c] + fmt, 0), args) == [c] + Output(Decode(fmt, 0), args)
  {
    var item := Literal(c);
    assert PlainItem(item) && ShowItem(item) == [c] && ItemKinds(item) == [] && FitAll([], []) && ItemText(item, []) == [c];
    assert args[..0] == [] && args[0..] == args;
    hide *;
    DecodePrepended(item, fmt);
    OutputPrepended(item, Decode(fmt, 0), args);
  }

  /** A format without a percent sign is its own output. */
  lemma {:induction false} NoDirectives(fmt: seq<byte>, args: seq<Arg>)
    requires '%' as int !in fmt
    ensures Accepts(Decode(fmt, 0), args) && Output(Decode(fmt, 0), args) == fmt
  {
    assert Decode([], 0) == [] && Accepts([], args) && Output([], args) == [];
    hide *;
    LiteralText(fmt, [], args);
    assert fmt + [] == fmt;
  }

  // ----- directives

  /** How many arguments a directive takes: one for each star, and one for the value of an integer, a character or a
      string. */
  function Taken(d: Directive): nat {
    (if d.width.Star? then 1 else 0) + (if d.precision.Star? then 1 else 0)
    + (if d.spec in {'d' as int, 'i' as int, 'u' as int, 'x' as int, 'X' as int, 'o' as int, 'b' as int,
                     'c' as int, 's' as int} then 1 else 0)
  }

  lemma {:induction false} TakenIs(d: Directive)
    ensures |Kinds(d)| == Taken(d)
  {
  }

  /** A plain directive in front of a format writes its text for the first arguments, and the format writes its output
      for those behind. */
  lemma {:induction false} DirectiveText(d: Directive, fmt: seq<byte>, args: seq<Arg>)
    requires Plain(d)
    ensures var whole, n := Decode(['%' as int] + ShowDirective(d) + fmt, 0), Taken(d);
            && (Accepts(whole, args)
                <==> !IsUnsupported(d.spec)
                     && n <= |args| && FitAll(args[..n], Kinds(d)) && Accepts(Decode(fmt, 0), args[n..]))
            && (Accepts(whole, args) ==>
                  Output(whole, args) == ConversionText(d, args[..n]) + Output(Decode(fmt, 0), args[n..]))
  {
    var item := Conversion(d);
    assert PlainItem(item) && ShowItem(item) == ['%' as int] + ShowDirective(d) && ItemKinds(item) == Kinds(d);
    TakenIs(d);
    ItemIsDirective(d, args);
    hide *;
    DecodePrepended(item, fmt);
    OutputPrepended(item, Decode(fmt, 0), args);
  }

  lemma {:induction false} ItemIsDirective(d: Directive, args: seq<Arg>)
    ensures var n := Taken(d);
            n <= |args| && FitAll(args[..n], Kinds(d)) ==>
              ItemKinds(Conversion(d)) == Kinds(d) && ItemText(Conversion(d), args[..n]) == ConversionText(d, args[..n])
  {
    hide ConversionText;
    hide FitAll;
    hide Kinds;
  }

  /** Two percent signs in front of a format take no arguments and write one. */
  lemma {:induction false} PercentText(fmt: seq<byte>, args: seq<Arg>)
    ensures Accepts(Decode(['%' as int, '%' as int] + fmt, 0), args) <==> Accepts(Decode(fmt, 0), args)
    ensures Accepts(Decode(fmt, 0), args) ==>
              Output(Decode(['%' as int, '%' as int] + fmt, 0), args) == ['%' as int] + Output(Decode(fmt, 0), args)
  {
    var d := Directive([], Absent, false, Absent, [], '%' as int);
    PercentIs(d);
    assert ['%' as int] + ['%' as int] == ['%' as int, '%' as int];
    assert args[..0] == [] && args[0..] == args;
    hide *;
    DirectiveText(d, fmt, args);
  }

  lemma {:induction false} PercentIs(d: Directive)
    requires d == Directive([], Absent, false, Absent, [], '%' as int)
    ensures Plain(d) && ShowDirective(d) == ['%' as int] && !IsUnsupported(d.spec) && Taken(d) == 0
    ensures FitAll([], Kinds(d)) && ConversionText(d, []) == ['%' as int]
  {
  }
}
