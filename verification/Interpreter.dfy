/** `_vsnprintf`: the interpreter of format strings. */
module Interpreter {
  import opened Bytes
  import opened Format
  import opened Rendering
  import opened Printf
  import Laws = RenderingLaws
  import Composition
  import Patterns

  // ----- reading a directive

  /** The flag loop. */
  method ReadFlags(fmt: seq<byte>, i: nat) returns (f: Field, e: nat)
    requires i <= |fmt|
    ensures e == FlagsEnd(fmt, i)
    ensures var s := fmt[i..e];
            f == Field(DIGIT_0 in s, MINUS in s, PLUS in s, SPACE in s, HASH in s, false, 0, 0)
  {
    f := Field(false, false, false, false, false, false, 0, 0);
    e := i;
    while true
      invariant i <= e <= |fmt| && FlagsEnd(fmt, i) == FlagsEnd(fmt, e)
      invariant var s := fmt[i..e];
                f == Field(DIGIT_0 in s, MINUS in s, PLUS in s, SPACE in s, HASH in s, false, 0, 0)
      decreases |fmt| - e
    {
      var c := At(fmt, e);
      if !IsFlag(c) {
        break;
      }
      assert fmt[i..e + 1] == fmt[i..e] + [c];
      if c == DIGIT_0 {
        f := f.(zeroPad := true);
      } else if c == MINUS {
        f := f.(left := true);
      } else if c == PLUS {
        f := f.(plus := true);
      } else if c == SPACE {
        f := f.(space := true);
      } else {
        f := f.(hash := true);
      }
      e := e + 1;
    }
  }

  /** _atoi, which also moves the format on. */
  method ReadNumber(fmt: seq<byte>, i: nat) returns (n: nat, e: nat)
    requires i <= |fmt|
    ensures e == DigitsEnd(fmt, i) && n == Atoi(fmt[i..e])
  {
    n, e := 0, i;
    while IsDigit(At(fmt, e))
      invariant i <= e <= |fmt| && DigitsEnd(fmt, i) == DigitsEnd(fmt, e) && n == Atoi(fmt[i..e])
      decreases |fmt| - e
    {
      assert fmt[i..e + 1][..e - i] == fmt[i..e];
      n := U32(n * 10 + At(fmt, e) - DIGIT_0);
      e := e + 1;
    }
  }

  method ReadWidth(fmt: seq<byte>, i: nat, va: seq<Arg>, f: Field) returns (g: Field, e: nat, rest: seq<Arg>)
    requires i <= |fmt| && (DecodeAmount(fmt, i).0.Star? ==> va != [] && va[0].Word?)
    ensures var a := DecodeAmount(fmt, i).0;
            && e == DecodeAmount(fmt, i).1 && rest == va[|StarKinds(a)|..]
            && g == f.(width := WidthOf(a, StarArg(a, va)).0, left := f.left || WidthOf(a, StarArg(a, va)).1)
  {
    hide DigitsEnd;
    hide Atoi;
    assert va[0..] == va;
    g, e, rest := f.(width := 0), i, va;
    if IsDigit(At(fmt, i)) {
      var n;
      n, e := ReadNumber(fmt, i);
      g := g.(width := n);
    } else if At(fmt, i) == STAR {
      var w := I32(va[0].w);
      rest := va[1..];
      if w < 0 {
        g := g.(left := true, width := U32(-w));
      } else {
        g := g.(width := w);
      }
      e := i + 1;
    }
  }

  method ReadPrecision(fmt: seq<byte>, i: nat, va: seq<Arg>, f: Field) returns (g: Field, e: nat, rest: seq<Arg>)
    requires i <= |fmt| && !f.hasPrec
    requires At(fmt, i) == DOT && DecodeAmount(fmt, i + 1).0.Star? ==> va != [] && va[0].Word?
    ensures var (a, next) := if At(fmt, i) == DOT then DecodeAmount(fmt, i + 1) else (Absent, i);
            && e == next && rest == va[|StarKinds(a)|..]
            && g == f.(hasPrec := At(fmt, i) == DOT, prec := PrecisionOf(a, StarArg(a, va)))
  {
    hide DigitsEnd;
    hide Atoi;
    assert va[0..] == va;
    g, e, rest := f.(prec := 0), i, va;
    if At(fmt, i) == DOT {
      g := g.(hasPrec := true);
      e := i + 1;
      if IsDigit(At(fmt, e)) {
        var n;
        n, e := ReadNumber(fmt, e);
        g := g.(prec := n);
      } else if At(fmt, e) == STAR {
        var prec := I32(va[0].w);
        rest := va[1..];
        g := g.(prec := if prec > 0 then prec else 0);
        e := e + 1;
      }
    }
  }

  method ReadLength(fmt: seq<byte>, i: nat) returns (e: nat)
    requires i <= |fmt|
    ensures e == LengthEnd(fmt, i)
  {
    var c := At(fmt, i);
    e := i;
    if c == LOWER_L {
      e := e + 1;
      if At(fmt, e) == LOWER_L {
        e := e + 1;
      }
    } else if c == LOWER_H {
      e := e + 1;
      if At(fmt, e) == LOWER_H {
        e := e + 1;
      }
    } else if c == LOWER_T || c == LOWER_J || c == LOWER_Z {
      e := e + 1;
    }
  }

  /** The field of a directive and the arguments behind its stars. */
  ghost predicate StarsRead(d: Directive, va: seq<Arg>, f: Field, rest: seq<Arg>) {
    StarsFit(d, va) && rest == AfterStars(d, va) && f == StarredField(d, va) && (f.prec > 0 ==> f.hasPrec)
  }

  /** Everything up to the specifier: its field, and the arguments that are left for the value. */
  method ReadDirective(fmt: seq<byte>, i: nat, va: seq<Arg>) returns (f: Field, p: nat, l: nat, rest: seq<Arg>)
    requires i <= |fmt| && StarsFit(DecodeDirective(fmt, i).0, va)
    ensures p <= l <= |fmt|
    ensures var (d, next) := DecodeDirective(fmt, i);
            && d.length == fmt[p..l] && d.spec == At(fmt, l) && next == (if l < |fmt| then l + 1 else l)
            && StarsRead(d, va, f, rest)
  {
    ghost var d := DecodeDirective(fmt, i).0;
    StarsIn(d, va);
    ghost var f0, w0, p0, l0 := PartsIn(fmt, i);
    hide *;
    var e: nat;
    f, e := ReadFlags(fmt, i);
    f, e, rest := ReadWidth(fmt, e, va, f);
    f, p, rest := ReadPrecision(fmt, e, rest, f);
    l := ReadLength(fmt, p);
    StarsAreRead(d, va, f, rest);
  }

  /** The ends of the parts of a directive. */
  lemma {:induction false} PartsIn(fmt: seq<byte>, i: nat) returns (f: nat, w: nat, p: nat, l: nat)
    requires i <= |fmt|
    ensures f == FlagsEnd(fmt, i) && i <= f <= w <= p <= l <= |fmt|
    ensures var (d, next) := DecodeDirective(fmt, i);
            && d.flags == fmt[i..f] && DecodeAmount(fmt, f) == (d.width, w) && (d.dot <==> At(fmt, w) == DOT)
            && (if d.dot then w < |fmt| && DecodeAmount(fmt, w + 1) == (d.precision, p) else d.precision == Absent && p == w)
            && l == LengthEnd(fmt, p) && d.length == fmt[p..l] && d.spec == At(fmt, l)
            && next == (if l < |fmt| then l + 1 else l)
  {
    f := FlagsEnd(fmt, i);
    w := DecodeAmount(fmt, f).1;
    p := if At(fmt, w) == DOT then DecodeAmount(fmt, w + 1).1 else w;
    l := LengthEnd(fmt, p);
    hide FlagsEnd;
    hide DecodeAmount;
    hide LengthEnd;
  }

  /** Where the stars of a directive find their arguments. */
  lemma {:induction false} StarsIn(d: Directive, va: seq<Arg>)
    requires StarsFit(d, va)
    ensures |StarKinds(d.width)| <= |va|
    ensures var rest := va[|StarKinds(d.width)|..];
            && (d.width.Star? ==> va != [] && va[0].Word?)
            && (d.precision.Star? ==> rest != [] && rest[0].Word?)
            && |StarKinds(d.precision)| <= |rest|
  {
  }

  /** What the stars and the parts of a directive make of its field. */
  lemma {:induction false} StarsAreRead(d: Directive, va: seq<Arg>, f: Field, rest: seq<Arg>)
    requires StarsFit(d, va) && (d.dot || d.precision == Absent)
    requires var behind := va[|StarKinds(d.width)|..];
             var (width, reversed) := WidthOf(d.width, StarArg(d.width, va));
             && rest == behind[|StarKinds(d.precision)|..]
             && f == Field(DIGIT_0 in d.flags, MINUS in d.flags || reversed, PLUS in d.flags, SPACE in d.flags,
                           HASH in d.flags, d.dot, PrecisionOf(d.precision, StarArg(d.precision, behind)), width)
    ensures StarsRead(d, va, f, rest)
  {
    hide WidthOf;
    hide Atoi;
  }

  // ----- writing a directive

  /** The specifier switch. */
  method Convert(buffer: array?<byte>, idx0: nat, maxlen: nat, spec: byte, length: seq<byte>, f: Field, va: seq<Arg>)
    returns (idx: nat, rest: seq<Arg>)
    requires var v := ValueKinds(spec, length); |v| <= |va| && FitAll(va[..|v|], v)
    requires (f.prec > 0 ==> f.hasPrec) && !IsUnsupported(spec)
    requires Holds(buffer, maxlen, idx0 + |ValueText(spec, length, f, va[..|ValueKinds(spec, length)|])|)
    modifies buffer
    ensures var n := |ValueKinds(spec, length)|;
            var text := ValueText(spec, length, f, va[..n]);
            && idx == idx0 + |text| && rest == va[n..]
            && Cells(buffer) == Emit(old(Cells(buffer)), idx0, text, maxlen)
  {
    hide Emit;
    hide CharText;
    hide StringText;
    hide Ntoa;
    assert va[0..] == va;
    rest := va;
    if IsInteger(spec) {
      idx := ConvertInteger(buffer, idx0, maxlen, spec, length, f, va[0]);
      rest := va[1..];
    } else if spec == LOWER_C {
      idx := OutChar(buffer, idx0, maxlen, f, va[0]);
      rest := va[1..];
    } else if spec == LOWER_S {
      idx := OutString(buffer, idx0, maxlen, f, va[0]);
      rest := va[1..];
    } else {
      Out(spec, buffer, idx0, maxlen);
      idx := idx0 + 1;
    }
  }

  /** The integer specifiers: base, flags that apply, and the value in the width the length asks for. */
  method ConvertInteger(buffer: array?<byte>, idx0: nat, maxlen: nat, spec: byte, length: seq<byte>, f: Field, a: Arg)
    returns (idx: nat)
    requires IsInteger(spec) && Fits(a, if IsLongLong(length) then KDWord else KWord)
    requires Holds(buffer, maxlen, idx0 + |IntegerText(spec, length, f, a)|)
    modifies buffer
    ensures var text := IntegerText(spec, length, f, a);
            idx == idx0 + |text| && Cells(buffer) == Emit(old(Cells(buffer)), idx0, text, maxlen)
  {
    hide Emit;
    hide Ntoa;
    var base := if spec == LOWER_X || spec == UPPER_X then 16
                else if spec == LOWER_O then 8
                else if spec == LOWER_B then 2
                else 10;
    var g := f;
    if base == 10 {
      g := g.(hash := false);
    }
    var upper := spec == UPPER_X;
    if spec != LOWER_I && spec != LOWER_D {
      g := g.(plus := false, space := false);
    }
    if g.hasPrec {
      g := g.(zeroPad := false);
    }
    assert g == IntegerField(spec, f);
    var value := Fetch(spec, length, a);
    hide *;
    idx := NtoaLong(buffer, idx0, maxlen, if value > 0 then value else 0 - value, value < 0, base, upper, g);
  }

  /** va_arg and the conversions to the type the length asks for; "%hhd" takes the `char` as it is. */
  method Fetch(spec: byte, length: seq<byte>, a: Arg) returns (value: int)
    requires IsInteger(spec) && Fits(a, if IsLongLong(length) then KDWord else KWord)
    ensures value == IntegerOf(spec, length, a)
    ensures Laws.Converted(value, Laws.Passed(length, a), length, IsSigned(spec) && length != [LOWER_H, LOWER_H])
  {
    Laws.IntegerOfExact(spec, length, a);
    hide Laws.Converted;
    if spec == LOWER_I || spec == LOWER_D {
      if IsLongLong(length) {
        value := if a.d < TWO_64 / 2 then a.d else a.d - TWO_64;
      } else if length == [LOWER_H, LOWER_H] {
        value := a.w % 256;
      } else if length == [LOWER_H] {
        var s := a.w % 0x1_0000;
        value := if s < 0x8000 then s else s - 0x1_0000;
      } else {
        value := I32(a.w);
      }
    } else {
      if IsLongLong(length) {
        value := a.d;
      } else if length == [LOWER_H, LOWER_H] {
        value := a.w % 256;
      } else if length == [LOWER_H] {
        value := a.w % 0x1_0000;
      } else {
        value := a.w;
      }
    }
  }

  /** One item of the format: a literal, or a percent sign and its directive. */
  method Interpret(fmt: seq<byte>, i: nat, va: seq<Arg>, buffer: array?<byte>, idx0: nat, maxlen: nat)
    returns (next: nat, rest: seq<Arg>, idx: nat)
    requires i < |fmt|
    requires var item := DecodeItem(fmt, i).0;
             && (item.Conversion? ==> !IsUnsupported(item.d.spec))
             && |ItemKinds(item)| <= |va| && FitAll(va[..|ItemKinds(item)|], ItemKinds(item))
             && Holds(buffer, maxlen, idx0 + |ItemText(item, va[..|ItemKinds(item)|])|)
    modifies buffer
    ensures var item := DecodeItem(fmt, i).0;
            var n := |ItemKinds(item)|;
            var text := ItemText(item, va[..n]);
            && next == DecodeItem(fmt, i).1 && rest == va[n..] && idx == idx0 + |text|
            && Cells(buffer) == Emit(old(Cells(buffer)), idx0, text, maxlen)
  {
    hide DecodeDirective;
    hide Emit;
    hide ConversionText;
    if fmt[i] != PERCENT {
      assert va[0..] == va;
      Out(fmt[i], buffer, idx0, maxlen);
      return i + 1, va, idx0 + 1;
    }
    TextOfDirective(DecodeDirective(fmt, i + 1).0, va);
    var f, p, l, values := ReadDirective(fmt, i + 1, va);
    idx, rest := Convert(buffer, idx0, maxlen, At(fmt, l), fmt[p..l], f, values);
    next := l + 1;
  }

  /** The text of a directive, with the arguments where the interpreter finds them. */
  lemma {:induction false} TextOfDirective(d: Directive, va: seq<Arg>)
    requires |Kinds(d)| <= |va| && FitAll(va[..|Kinds(d)|], Kinds(d))
    ensures StarsFit(d, va)
    ensures var (values, n) := (AfterStars(d, va), |ValueKinds(d.spec, d.length)|);
            && n <= |values| && FitAll(values[..n], ValueKinds(d.spec, d.length)) && values[n..] == va[|Kinds(d)|..]
            && ConversionText(d, va[..|Kinds(d)|]) == ValueText(d.spec, d.length, StarredField(d, va), values[..n])
  {
    ArgumentsSplit(d, va);
    var args := va[..|Kinds(d)|];
    assert args[..|Kinds(d)|] == args;
    ArgumentsSplit(d, args);
    var n := |ValueKinds(d.spec, d.length)|;
    assert AfterStars(d, args) == AfterStars(d, va)[..n];
    assert AfterStars(d, args)[..n] == AfterStars(d, args);
    hide ValueText;
    hide FieldOf;
  }

  // ----- the whole format

  /** The cells after `snprintf`: as much of the output as fits before the last cell, then a NUL; nothing
      at all when there is no room for the NUL. */
  function Truncated(cells: seq<byte>, output: seq<byte>, maxlen: nat): (r: seq<byte>)
    ensures |r| == |cells|
  {
    var n := if |output| < maxlen then |output| else maxlen - 1;
    if maxlen == 0 then cells else Emit(Emit(cells, 0, output, n), n, [NUL], maxlen)
  }

  /** `done` has been written for the format up to `i`, and the arguments `va` are left. */
  ghost predicate Progress(fmt: seq<byte>, i: nat, va: seq<Arg>, done: seq<byte>, output: seq<byte>) {
    i <= |fmt| && Accepts(Decode(fmt, i), va) && done + Output(Decode(fmt, i), va) == output
  }

  /** The main loop: the items of the format in order. */
  method Run(buffer: array?<byte>, maxlen: nat, fmt: seq<byte>, va: seq<Arg>) returns (idx: nat)
    requires Accepts(Decode(fmt, 0), va) && Holds(buffer, maxlen, |Output(Decode(fmt, 0), va)|)
    modifies buffer
    ensures idx == |Output(Decode(fmt, 0), va)|
    ensures Cells(buffer) == Emit(old(Cells(buffer)), 0, Output(Decode(fmt, 0), va), maxlen)
  {
    ghost var output, done: seq<byte>, cells := Output(Decode(fmt, 0), va), [], Cells(buffer);
    EmitNothing(cells, 0, maxlen);
    assert Progress(fmt, 0, va, done, output);
    hide *;
    var i: nat, rest := 0, va;
    idx := 0;
    while i < |fmt|
      invariant i <= |fmt| && idx == |done| && Progress(fmt, i, rest, done, output)
      invariant Cells(buffer) == Emit(cells, 0, done, maxlen)
      decreases |fmt| - i
    {
      NextItem(fmt, i, rest, done, output);
      ghost var item := DecodeItem(fmt, i).0;
      ghost var text := ItemText(item, rest[..|ItemKinds(item)|]);
      EmitTwice(cells, 0, done, text, maxlen);
      HoldsPart(buffer, maxlen, |output|, idx + |text|);
      i, rest, idx := Interpret(fmt, i, rest, buffer, idx, maxlen);
      done := done + text;
    }
    NoItems(fmt, rest, done, output);
  }

  /** _vsnprintf writing to a buffer, or nowhere when there is none. */
  method Vsnprintf(buffer: array?<byte>, maxlen: nat, fmt: seq<byte>, va: seq<Arg>) returns (n: nat)
    requires maxlen < TWO_32 && Accepts(Decode(fmt, 0), va)
    requires Holds(buffer, maxlen, |Output(Decode(fmt, 0), va)| + 1)
    modifies buffer
    ensures n == |Output(Decode(fmt, 0), va)|
    ensures Cells(buffer) == Truncated(old(Cells(buffer)), Output(Decode(fmt, 0), va), maxlen)
    ensures '%' as int !in fmt ==> n == |fmt| && Cells(buffer) == Truncated(old(Cells(buffer)), fmt, maxlen)
  {
    hide *;
    if '%' as int !in fmt { Composition.NoDirectives(fmt, va); }
    HoldsPart(buffer, maxlen, |Output(Decode(fmt, 0), va)| + 1, |Output(Decode(fmt, 0), va)|);
    var idx := Run(buffer, maxlen, fmt, va);
    var last: nat := if idx < maxlen then idx else U32(maxlen - 1);
    Terminate(old(Cells(buffer)), Output(Decode(fmt, 0), va), maxlen, last);
    StillHolds(buffer, maxlen, idx, last);
    Out(NUL, buffer, last, maxlen);
    n := idx;
  }

  lemma {:induction false} NextItem(fmt: seq<byte>, i: nat, va: seq<Arg>, done: seq<byte>, output: seq<byte>)
    requires i < |fmt| && Progress(fmt, i, va, done, output)
    ensures var (item, next) := DecodeItem(fmt, i);
            var n := |ItemKinds(item)|;
            && (item.Conversion? ==> !IsUnsupported(item.d.spec))
            && n <= |va| && FitAll(va[..n], ItemKinds(item))
            && |done| + |ItemText(item, va[..n])| <= |output|
            && Progress(fmt, next, va[n..], done + ItemText(item, va[..n]), output)
  {
    hide DecodeItem;
    hide ItemKinds;
    hide ItemText;
    hide FitAll;
    var (item, next) := DecodeItem(fmt, i);
    var n := |ItemKinds(item)|;
    assert Decode(fmt, i) == [item] + Decode(fmt, next);
    assert Decode(fmt, i)[0] == item && Decode(fmt, i)[1..] == Decode(fmt, next);
    Patterns.Assoc(done, ItemText(item, va[..n]), Output(Decode(fmt, next), va[n..]));
  }

  lemma {:induction false} NoItems(fmt: seq<byte>, va: seq<Arg>, done: seq<byte>, output: seq<byte>)
    requires Progress(fmt, |fmt|, va, done, output)
    ensures done == output
  {
    assert done + [] == done;
  }

  lemma {:induction false} HoldsPart(buffer: array?<byte>, maxlen: nat, end: nat, part: nat)
    requires part <= end && Holds(buffer, maxlen, end)
    ensures Holds(buffer, maxlen, part)
  {
  }

  /** The terminator goes behind the output or into the last cell. */
  lemma {:induction false} Terminate(cells: seq<byte>, output: seq<byte>, maxlen: nat, last: nat)
    requires maxlen < TWO_32 && last == if |output| < maxlen then |output| else U32(maxlen - 1)
    ensures Emit(Emit(cells, 0, output, maxlen), last, [NUL], maxlen) == Truncated(cells, output, maxlen)
  {
    if maxlen == 0 {
      assert Emit(cells, 0, output, maxlen) == cells;
    } else {
      var n := if |output| < maxlen then |output| else maxlen - 1;
      assert last == n;
      hide U32;
    }
  }

  lemma {:induction false} StillHolds(buffer: array?<byte>, maxlen: nat, idx: nat, last: nat)
    requires maxlen < TWO_32 && last == if idx < maxlen then idx else U32(maxlen - 1)
    requires Holds(buffer, maxlen, idx + 1)
    ensures Holds(buffer, maxlen, last + 1)
  {
  }

  /** What a buffer of at least `maxlen` cells holds after truncation: as much of the output as leaves room
      for the NUL, the NUL, and everything behind it as before. */
  lemma {:induction false} TruncationMeans(cells: seq<byte>, output: seq<byte>, maxlen: nat)
    requires 0 < maxlen <= |cells|
    ensures var (r, n) := (Truncated(cells, output, maxlen), if |output| < maxlen then |output| else maxlen - 1);
            r == output[..n] + [NUL] + cells[n + 1..]
    ensures Truncated(cells, output, 0) == cells
  {
  }
}
