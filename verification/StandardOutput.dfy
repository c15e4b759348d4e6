/** What the C standard asks of the other directives (section 7.21.6.1 of ISO/IEC 9899:2011), and of whole formats. */
module StandardOutput {
  import opened Bytes
  import opened Numerals
  import opened Format
  import opened Rendering
  import opened Denotation
  import opened Standard
  import opened StandardHash
  import Laws = RenderingLaws
  import Composition

  // ----- characters and strings

  /** The field of a directive as the standard reads it, and its value. */
  function StandardFieldOf(d: Directive, args: seq<Arg>): Field
    requires FitAll(args, Kinds(d))
  {
    StandardField(d, WidthStar(d, args), PrecisionStar(d, args))
  }

  /** "%c" writes its argument converted to unsigned char. */
  function StandardChar(d: Directive, args: seq<Arg>): seq<byte>
    requires d.spec == 'c' as int && FitAll(args, Kinds(d))
  {
    var g := StandardFieldOf(d, args);
    Laws.Spread([args[|args| - 1].w % 256], g.width, g.left)
  }

  /** "%s" writes its string, and not more characters than the precision. */
  function StandardString(d: Directive, args: seq<Arg>): seq<byte>
    requires d.spec == 's' as int && FitAll(args, Kinds(d))
  {
    var g, s := StandardFieldOf(d, args), args[|args| - 1].s;
    Laws.Spread(s[..Asked(g, |s|)], g.width, g.left)
  }

  /** How many of `n` characters the standard asks for. */
  function Asked(g: Field, n: nat): (m: nat)
    ensures m <= n
  {
    if g.hasPrec && g.prec < n then g.prec else n
  }

  /** How many the code writes: it takes a precision modulo 2^32, and a negative one for 0. */
  function Kept(d: Directive, precStar: word, n: nat): (m: nat)
    ensures m <= n
  {
    var prec := match d.precision
                case Absent => 0
                case Digits(ds) => NumberIn(ds, 10) % 0x1_0000_0000
                case Star => if I32(precStar) < 0 then 0 else I32(precStar);
    if d.dot && prec < n then prec else n
  }

  lemma {:induction false} KeptIs(d: Directive, widthStar: word, precStar: word, n: nat)
    requires Plain(d)
    ensures var f, g := FieldOf(d, widthStar, precStar), StandardField(d, widthStar, precStar);
            && Kept(d, precStar, n) == (if f.hasPrec && f.prec < n then f.prec else n)
            && Kept(d, precStar, n) <= Asked(g, n)
  {
    AmountRead(d.precision);
    LessModulo(if d.precision.Digits? then NumberIn(d.precision.ds, 10) else 0);
    hide NumberIn;
    hide Atoi;
    hide WidthOf;
    hide AllDigits;
    hide IsLength;
    hide OnlySpecifier;
  }

  lemma {:induction false} LessModulo(x: nat)
    ensures x % 0x1_0000_0000 <= x && U32(x) == x % 0x1_0000_0000
  {
  }

  /** The text that the code writes for a directive with a value. */
  lemma {:induction false} ConversionOf(d: Directive, args: seq<Arg>)
    requires d.spec in {'c' as int, 's' as int} && FitAll(args, Kinds(d))
    ensures var f, a := FieldOf(d, WidthStar(d, args), PrecisionStar(d, args)), args[|args| - 1];
            if d.spec == 'c' as int then ConversionText(d, args) == CharText(f, a) else ConversionText(d, args) == StringText(f, a)
  {
    assert args[..|Kinds(d)|] == args;
    ArgumentsSplit(d, args);
    hide FieldOf;
    hide CharText;
    hide StringText;
  }

  /** Width and alignment as code and standard read them. */
  lemma {:induction false} WidthExact(d: Directive, widthStar: word, precStar: word)
    requires Plain(d)
    ensures var f, g := FieldOf(d, widthStar, precStar), StandardField(d, widthStar, precStar);
            && f.left == g.left && f.width < TWO_32 && (InRange(d.width) <==> g.width < TWO_32)
            && (InRange(d.width) ==> f.width == g.width)
  {
    FieldExact(d, widthStar, precStar);
    hide FieldOf;
    hide StandardField;
    hide InRange;
    hide BaseOf;
  }

  /** Every "%c": the standard's text if and only if the width is below 2^32. */
  lemma {:induction false} CharExact(d: Directive, args: seq<Arg>)
    requires d.spec == 'c' as int && Plain(d) && FitAll(args, Kinds(d))
    ensures ConversionText(d, args) == StandardChar(d, args) <==> InRange(d.width)
  {
    var f, g := FieldOf(d, WidthStar(d, args), PrecisionStar(d, args)), StandardFieldOf(d, args);
    var c: byte := args[|args| - 1].w % 256;
    ConversionOf(d, args);
    assert CharText(f, args[|args| - 1]) == Padded([c], f.width, f.left, false);
    assert StandardChar(d, args) == Laws.Spread([c], g.width, g.left);
    WidthExact(d, WidthStar(d, args), PrecisionStar(d, args));
    assert g == StandardField(d, WidthStar(d, args), PrecisionStar(d, args));
    hide *;
    SpreadsDiffer([c], [c], f.width, g.width, g.left);
  }

  lemma {:induction false} SpreadsDiffer(s: seq<byte>, t: seq<byte>, v: nat, w: nat, left: bool)
    ensures Laws.Spread(t, w, left) == Padded(t, w, left, false)
    ensures |s| < w && v < w ==> Padded(s, v, left, false) != Laws.Spread(t, w, left)
  {
    Laws.SpreadIs(t, w, left);
    Laws.PaddedAt(s, v, left, false, 0);
    Laws.PaddedAt(t, w, left, false, 0);
    hide Padded;
    hide Laws.Spread;
  }

  /** When the code writes the standard's text for "%s": the width is below 2^32, and a precision that is not taken as
      written (it is 2^32 or more, or negative) drops nothing, or only spaces that the padding puts back. */
  predicate StringMeets(d: Directive, args: seq<Arg>)
    requires d.spec == 's' as int && FitAll(args, Kinds(d))
  {
    var g, s := StandardFieldOf(d, args), args[|args| - 1].s;
    var kept, asked := Kept(d, PrecisionStar(d, args), |s|), Asked(g, |s|);
    InRange(d.width) && (kept < asked ==> asked <= g.width && AllSpaces(s, if g.left then kept else 0, asked))
  }

  predicate AllSpaces(s: seq<byte>, from: nat, to: nat)
    requires to <= |s|
  {
    forall i :: from <= i < to ==> s[i] == ' ' as int
  }

  /** Two beginnings of a string, padded to the same width, are the same only if spaces make the difference. */
  lemma {:induction false} PaddedBeginnings(s: seq<byte>, k: nat, m: nat, width: nat, left: bool)
    requires k < m <= |s|
    ensures Padded(s[..k], width, left, false) == Padded(s[..m], width, left, false)
            <==> m <= width && AllSpaces(s, if left then k else 0, m)
  {
    var a, b := Padded(s[..k], width, left, false), Padded(s[..m], width, left, false);
    Laws.PaddedAt(s[..k], width, left, false, 0);
    Laws.PaddedAt(s[..m], width, left, false, 0);
    if width < m {
      assert |a| < |b|;
    } else if AllSpaces(s, if left then k else 0, m) {
      SpacesPad(s, k, m, width, left);
    } else if a == b {
      hide Padded;
      forall i | (if left then k else 0) <= i < m ensures s[i] == ' ' as int {
        SpaceAt(s, k, m, width, left, i);
      }
      assert false;
    }
  }

  lemma {:induction false} SpacesPad(s: seq<byte>, k: nat, m: nat, width: nat, left: bool)
    requires k < m <= |s| && m <= width && AllSpaces(s, if left then k else 0, m)
    ensures Padded(s[..k], width, left, false) == Padded(s[..m], width, left, false)
  {
  }

  lemma {:induction false} SpaceAt(s: seq<byte>, k: nat, m: nat, width: nat, left: bool, i: nat)
    requires k < m <= |s| && m <= width && (if left then k else 0) <= i < m
    requires Padded(s[..k], width, left, false) == Padded(s[..m], width, left, false)
    ensures s[i] == ' ' as int
    decreases i
  {
    if left {
      PlaceLeft(s, m, width, i);
      PlaceLeft(s, k, width, i);
    } else {
      PlaceRight(s, m, width, width - m + i);
      PlaceRight(s, k, width, width - m + i);
      if i >= m - k {
        hide Padded;
        SpaceAt(s, k, m, width, left, i - (m - k));
      }
    }
  }

  lemma {:induction false} PlaceLeft(s: seq<byte>, k: nat, width: nat, j: nat)
    requires k <= |s| && k <= width && j < width
    ensures |Padded(s[..k], width, true, false)| == width
    ensures Padded(s[..k], width, true, false)[j] == if j < k then s[j] else ' ' as int
  {
  }

  lemma {:induction false} PlaceRight(s: seq<byte>, k: nat, width: nat, j: nat)
    requires k <= |s| && k <= width && j < width
    ensures |Padded(s[..k], width, false, false)| == width
    ensures Padded(s[..k], width, false, false)[j] == if j < width - k then ' ' as int else s[j - (width - k)]
  {
  }

  /** Every "%s". */
  lemma {:induction false} StringExact(d: Directive, args: seq<Arg>)
    requires d.spec == 's' as int && Plain(d) && FitAll(args, Kinds(d))
    ensures ConversionText(d, args) == StandardString(d, args) <==> StringMeets(d, args)
  {
    var w, p, s := WidthStar(d, args), PrecisionStar(d, args), args[|args| - 1].s;
    var f, g := FieldOf(d, w, p), StandardField(d, w, p);
    var kept, asked := Kept(d, p, |s|), Asked(g, |s|);
    ConversionOf(d, args);
    KeptIs(d, w, p, |s|);
    WidthExact(d, w, p);
    StringIs(d, args);
    hide *;
    StringTextIs(f, args[|args| - 1], kept);
    BeginningsExact(s, kept, asked, f.width, g.width, g.left, InRange(d.width));
  }

  lemma {:induction false} BeginningsExact(s: seq<byte>, kept: nat, asked: nat, v: nat, w: nat, left: bool, inRange: bool)
    requires kept <= asked <= |s| < TWO_32 && v < TWO_32 && (inRange <==> w < TWO_32) && (inRange ==> v == w)
    ensures Padded(s[..kept], v, left, false) == Laws.Spread(s[..asked], w, left)
            <==> inRange && (kept < asked ==> asked <= w && AllSpaces(s, if left then kept else 0, asked))
  {
    hide *;
    SpreadsDiffer(s[..kept], s[..asked], v, w, left);
    if inRange && kept < asked { PaddedBeginnings(s, kept, asked, w, left); }
  }

  lemma {:induction false} StringTextIs(f: Field, a: Arg, kept: nat)
    requires Fits(a, KStr) && kept == (if f.hasPrec && f.prec < |a.s| then f.prec else |a.s|)
    ensures |a.s| < TWO_32 && kept <= |a.s| && StringText(f, a) == Padded(a.s[..kept], f.width, f.left, false)
  {
    assert a.s[..|a.s|] == a.s;
    hide Padded;
  }

  lemma {:induction false} StringIs(d: Directive, args: seq<Arg>)
    requires d.spec == 's' as int && FitAll(args, Kinds(d))
    ensures var w, p, a := WidthStar(d, args), PrecisionStar(d, args), args[|args| - 1];
            Fits(a, KStr)
            && var g := StandardField(d, w, p);
               var kept, asked := Kept(d, p, |a.s|), Asked(g, |a.s|);
               && StandardString(d, args) == Laws.Spread(a.s[..asked], g.width, g.left)
               && (StringMeets(d, args) <==>
                     InRange(d.width)
                     && (kept < asked ==> asked <= g.width && AllSpaces(a.s, if g.left then kept else 0, asked)))
  {
    hide Laws.Spread;
    hide StandardField;
    hide AllSpaces;
    hide InRange;
    hide Asked;
    hide Kept;
  }

  // ----- items

  /** A conversion that the standard defines and this model covers; '#' means nothing in base 2. */
  predicate Defined(item: Item, args: seq<Arg>)
    requires FitAll(args, ItemKinds(item))
  {
    match item
    case Literal(_) => true
    case Conversion(d) =>
      if IntegerSpecifier(d.spec) then d.spec == 'b' as int ==> NoPrefixDue(d, ValueArg(d, args))
      else d.spec in {'c' as int, 's' as int, '%' as int}
  }

  /** What the standard asks of an item: a literal character is copied, and "%%" writes a percent sign. */
  function StandardItem(item: Item, args: seq<Arg>): seq<byte>
    requires FitAll(args, ItemKinds(item)) && Defined(item, args)
  {
    match item
    case Literal(c) => [c]
    case Conversion(d) =>
      if IntegerSpecifier(d.spec) then StandardText(d, args)
      else if d.spec == 'c' as int then StandardChar(d, args)
      else if d.spec == 's' as int then StandardString(d, args)
      else ['%' as int]
  }

  /** The conditions under which the code writes that. */
  predicate ItemMeets(item: Item, args: seq<Arg>)
    requires FitAll(args, ItemKinds(item)) && Defined(item, args)
  {
    match item
    case Literal(_) => true
    case Conversion(d) =>
      if IntegerSpecifier(d.spec) then
        var w, p, a := WidthStar(d, args), PrecisionStar(d, args), ValueArg(d, args);
        if NoPrefixDue(d, a) then Meets(d, w, p, a) else MeetsPrefixed(d, w, p, a)
      else if d.spec == 'c' as int then InRange(d.width)
      else if d.spec == 's' as int then StringMeets(d, args)
      else true
  }

  /** Every item that a format can contain, with any arguments that fit it: the code writes the standard's text if and
      only if the item meets the conditions. */
  lemma {:induction false} ItemExact(item: Item, args: seq<Arg>)
    requires PlainItem(item) && FitAll(args, ItemKinds(item)) && Defined(item, args)
    ensures ItemText(item, args) == StandardItem(item, args) <==> ItemMeets(item, args)
  {
    hide *;
    match item
    case Literal(c) => LiteralItem(item, args);
    case Conversion(d) => DirectiveItem(d, args);
  }

  lemma {:induction false} LiteralItem(item: Item, args: seq<Arg>)
    requires item.Literal? && FitAll(args, ItemKinds(item)) && Defined(item, args)
    ensures ItemText(item, args) == StandardItem(item, args) && ItemMeets(item, args)
  {
  }

  lemma {:induction false} DirectiveItem(d: Directive, args: seq<Arg>)
    requires PlainItem(Conversion(d)) && FitAll(args, ItemKinds(Conversion(d))) && Defined(Conversion(d), args)
    ensures ItemText(Conversion(d), args) == StandardItem(Conversion(d), args) <==> ItemMeets(Conversion(d), args)
  {
    DirectiveItemIs(d, args);
    hide StandardItem;
    hide ItemMeets;
    hide ItemText;
    hide Meets;
    hide MeetsPrefixed;
    hide NoPrefixDue;
    hide StringMeets;
    hide InRange;
    hide ConversionText;
    hide Plain;
    hide FitAll;
    hide Kinds;
    hide StandardText;
    hide StandardChar;
    hide StandardString;
    if IntegerSpecifier(d.spec) {
      DirectiveExact(d, args);
    } else if d.spec == 'c' as int {
      CharExact(d, args);
    } else if d.spec == 's' as int {
      StringExact(d, args);
    } else {
      PercentItem(d, args);
    }
  }

  lemma {:induction false} PercentItem(d: Directive, args: seq<Arg>)
    requires d.spec == '%' as int && FitAll(args, Kinds(d))
    ensures ConversionText(d, args) == ['%' as int]
  {
    hide FieldOf;
  }

  lemma {:induction false} DirectiveItemIs(d: Directive, args: seq<Arg>)
    requires PlainItem(Conversion(d)) && FitAll(args, ItemKinds(Conversion(d))) && Defined(Conversion(d), args)
    ensures Plain(d) && FitAll(args, Kinds(d)) && ItemText(Conversion(d), args) == ConversionText(d, args)
    ensures StandardItem(Conversion(d), args)
         == if IntegerSpecifier(d.spec) then StandardText(d, args)
            else if d.spec == 'c' as int then StandardChar(d, args)
            else if d.spec == 's' as int then StandardString(d, args)
            else ['%' as int]
    ensures ItemMeets(Conversion(d), args)
         == if IntegerSpecifier(d.spec) then
              var w, p, a := WidthStar(d, args), PrecisionStar(d, args), ValueArg(d, args);
              if NoPrefixDue(d, a) then Meets(d, w, p, a) else MeetsPrefixed(d, w, p, a)
            else if d.spec == 'c' as int then InRange(d.width)
            else if d.spec == 's' as int then StringMeets(d, args)
            else true
  {
    hide Meets;
    hide MeetsPrefixed;
    hide NoPrefixDue;
    hide StringMeets;
    hide InRange;
    hide ConversionText;
    hide Plain;
    hide FitAll;
    hide Kinds;
    hide StandardText;
    hide StandardChar;
    hide StandardString;
    hide ValueArg;
    hide WidthStar;
    hide PrecisionStar;
  }

  // ----- formats

  /** How many arguments an item takes. */
  function ItemTakes(item: Item): nat {
    if item.Conversion? then Composition.Taken(item.d) else 0
  }

  /** All items of a format are defined and meet their conditions. */
  predicate AllMeet(items: seq<Item>, args: seq<Arg>) {
    if items == [] then true
    else
      var n := ItemTakes(items[0]);
      && n <= |args| && FitAll(args[..n], ItemKinds(items[0]))
      && Defined(items[0], args[..n]) && ItemMeets(items[0], args[..n]) && AllMeet(items[1..], args[n..])
  }

  /** The output that the standard asks for: the texts of the items in order, each with the next arguments. */
  function StandardOutput(items: seq<Item>, args: seq<Arg>): seq<byte>
    requires AllMeet(items, args)
  {
    if items == [] then []
    else
      var n := ItemTakes(items[0]);
      StandardItem(items[0], args[..n]) + StandardOutput(items[1..], args[n..])
  }

  /** A format whose directives all meet the conditions writes what the standard asks for, from any place on. */
  lemma {:induction false} FormatStandard(fmt: seq<byte>, i: nat, args: seq<Arg>)
    requires i <= |fmt| && AllMeet(Decode(fmt, i), args)
    ensures Accepts(Decode(fmt, i), args)
    ensures Output(Decode(fmt, i), args) == StandardOutput(Decode(fmt, i), args)
    decreases |fmt| - i
  {
    hide *;
    if i == |fmt| {
      NothingLeft(fmt, args);
    } else {
      var (item, next) := DecodeItem(fmt, i);
      var n := ItemTakes(item);
      AllMeetStep(fmt, i, args);
      FormatStandard(fmt, next, args[n..]);
      DefinedIsPlain(fmt, i, args[..n]);
      ItemExact(item, args[..n]);
      Composition.OutputPrepended(item, Decode(fmt, next), args);
    }
  }

  lemma {:induction false} NothingLeft(fmt: seq<byte>, args: seq<Arg>)
    requires AllMeet(Decode(fmt, |fmt|), args)
    ensures Accepts(Decode(fmt, |fmt|), args)
    ensures Output(Decode(fmt, |fmt|), args) == StandardOutput(Decode(fmt, |fmt|), args)
  {
  }

  lemma {:induction false} AllMeetStep(fmt: seq<byte>, i: nat, args: seq<Arg>)
    requires i < |fmt| && AllMeet(Decode(fmt, i), args)
    ensures var (item, next) := DecodeItem(fmt, i);
            var n := ItemTakes(item);
            && |ItemKinds(item)| == n
            && Decode(fmt, i) == [item] + Decode(fmt, next)
            && n <= |args| && FitAll(args[..n], ItemKinds(item))
            && Defined(item, args[..n]) && ItemMeets(item, args[..n]) && AllMeet(Decode(fmt, next), args[n..])
            && StandardOutput(Decode(fmt, i), args)
               == StandardItem(item, args[..n]) + StandardOutput(Decode(fmt, next), args[n..])
  {
    var (item, next) := DecodeItem(fmt, i);
    if item.Conversion? { Composition.TakenIs(item.d); }
    assert Decode(fmt, i)[0] == item && Decode(fmt, i)[1..] == Decode(fmt, next);
    hide DecodeItem;
    hide FitAll;
    hide Defined;
    hide ItemMeets;
    hide StandardItem;
    hide Kinds;
    hide Composition.Taken;
  }

  /** A defined item of a format is a plain one, and one that the model covers. */
  lemma {:induction false} DefinedIsPlain(fmt: seq<byte>, i: nat, args: seq<Arg>)
    requires i < |fmt| && FitAll(args, ItemKinds(DecodeItem(fmt, i).0)) && Defined(DecodeItem(fmt, i).0, args)
    ensures var item := DecodeItem(fmt, i).0;
            PlainItem(item) && (item.Conversion? ==> !IsUnsupported(item.d.spec))
  {
    if fmt[i] == PERCENT {
      var d := DecodeDirective(fmt, i + 1).0;
      assert IntegerSpecifier(d.spec) || d.spec in {'c' as int, 's' as int, '%' as int} by {
        hide NoPrefixDue;
        hide ValueArg;
      }
      hide DecodeDirective;
      SpecifierIsProper(d.spec);
      hide OnlySpecifier;
      hide IsUnsupported;
      DecodedIsPlain(fmt, i + 1);
    }
    hide *;
  }

  lemma {:induction false} SpecifierIsProper(spec: byte)
    requires IntegerSpecifier(spec) || spec in {'c' as int, 's' as int, '%' as int}
    ensures OnlySpecifier(spec) && !IsUnsupported(spec)
  {
  }
}
