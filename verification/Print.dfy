/** The `Print` class: numbers written to a sink that accepts every byte. */
module Printing {
  import opened Bytes
  import opened CString
  import opened Numerals

  /** The decimal text of a number. */
  function Decimal(x: int): seq<byte> {
    if x < 0 then [MINUS] + Chars(Numeral(-x, 10), UPPER_A) else Chars(Numeral(x, 10), UPPER_A)
  }

  /** The base `printNumber` works in. */
  function EffectiveBase(base: nat): (b: nat)
    ensures b >= 2
  {
    if base < 2 then 10 else base
  }

  /** The C string that starts with these characters: what a terminated buffer of them shows. */
  function Shown(chars: seq<byte>): seq<byte> {
    assert (chars + [NUL])[|chars|] == NUL;
    CStr(chars + [NUL], 0)
  }

  /** What `printNumber` writes. */
  function NumberText(n: nat, base: nat): seq<byte> {
    Shown(Chars(Numeral(n, EffectiveBase(base)), UPPER_A))
  }

  /** What a C string shows depends only on the memory from its start on. */
  lemma {:induction false} ShownAt(cells: seq<byte>, from: nat, chars: seq<byte>)
    requires from <= |cells| && cells[from..] == chars + [NUL]
    ensures Terminated(cells, from) && CStr(cells, from) == Shown(chars)
  {
    var t := chars + [NUL];
    assert t[|chars|] == NUL;
    var e := EndOf(t, 0);
    assert cells[from..][e] == cells[from + e];
    assert cells[from..from + e] == cells[from..][..e] == t[0..e];
    EndIs(cells, from, from + e);
  }

  /** Text without a NUL is shown whole. */
  lemma {:induction false} ShownWhole(chars: seq<byte>)
    requires NulFree(chars)
    ensures Shown(chars) == chars
  {
    var t := chars + [NUL];
    assert t[0..|chars|] == chars;
    EndIs(t, 0, |chars|);
  }

  /** In every base up to 201 no digit's character is NUL, so the whole numeral is written. */
  lemma {:induction false} NumberTextIsNumeral(n: nat, base: nat)
    requires EffectiveBase(base) <= 201
    ensures NumberText(n, base) == Chars(Numeral(n, EffectiveBase(base)), UPPER_A)
  {
    var b := EffectiveBase(base);
    NumeralIsCanonical(n, b);
    ShownWhole(Chars(Numeral(n, b), UPPER_A));
  }

  /** The text of a long is that of its magnitude as an unsigned long, even where the negation overflows. */
  lemma {:induction false} DecimalIsNumberText(x: int)
    requires -TWO_31 <= x < TWO_31
    ensures Decimal(x) == if x < 0 then [MINUS] + NumberText(U32(I32(-x)), 10) else NumberText(U32(x), 10)
  {
    var n := if x < 0 then -x else x;
    assert x < 0 ==> U32(I32(-x)) == n;
    hide U32;
    hide I32;
    NumberTextIsNumeral(n, 10);
    hide Numeral;
    hide Chars;
  }

  /** One division, with the remainder taken by multiplying back. */
  method QuotientAndDigit(m: nat, b: nat) returns (n: nat, c: nat)
    requires b >= 2
    ensures n == m / b && c == m % b
  {
    DivMod(m, b);
    n := m / b;
    c := m - n * b;
  }

  class Print {
    var sink: seq<byte>

    constructor ()
      ensures sink == []
    {
      sink := [];
    }

    method Write(c: byte) returns (n: nat)
      modifies this
      ensures sink == old(sink) + [c] && n == 1
    {
      sink := sink + [c];
      n := 1;
    }

    /** write(const char *) */
    method WriteCString(cells: seq<byte>, from: nat) returns (n: nat)
      requires Terminated(cells, from)
      modifies this
      ensures sink == old(sink) + CStr(cells, from) && n == |CStr(cells, from)|
    {
      var s := CStr(cells, from);
      n := 0;
      while n < |s|
        invariant n <= |s| && sink == old(sink) + s[..n]
      {
        var one := Write(s[n]);
        n := n + one;
      }
      assert s[..n] == s;
    }

    method PrintNumber(value: nat, base: nat) returns (n: nat)
      requires value < TWO_32 && base < 256
      modifies this
      ensures sink == old(sink) + NumberText(value, base) && n == |NumberText(value, base)|
    {
      var buf := new byte[33];
      var b: nat := if base < 2 then 10 else base;
      var str := FillFromEnd(value, b, buf);
      ShownAt(buf[..], str, Chars(Numeral(value, b), UPPER_A));
      n := WriteCString(buf[..], str);
    }

    method PrintUnsigned(value: nat, base: int) returns (n: nat)
      requires value < TWO_32
      modifies this
      ensures base == 0 ==> sink == old(sink) + [value % 256]
      ensures base != 0 ==> sink == old(sink) + NumberText(value, base % 256)
      ensures n == |sink| - |old(sink)|
    {
      if base == 0 {
        n := Write(value % 256);
      } else {
        n := PrintNumber(value, base % 256);
      }
    }

    method PrintLong(value: int, base: int) returns (n: nat)
      requires -TWO_31 <= value < TWO_31
      modifies this
      ensures base == 0 ==> sink == old(sink) + [value % 256]
      ensures base == 10 ==> sink == old(sink) + Decimal(value)
      ensures base !in {0, 10} ==> sink == old(sink) + NumberText(U32(value), base % 256)
      ensures n == |sink| - |old(sink)|
    {
      DecimalIsNumberText(value);
      hide NumberText;
      hide Decimal;
      hide U32;
      hide I32;
      if base == 0 {
        n := Write(value % 256);
      } else if base == 10 {
        if value < 0 {
          var t := Write(MINUS);
          var negated := I32(-value);
          n := PrintNumber(U32(negated), 10);
          n := n + t;
        } else {
          n := PrintNumber(U32(value), 10);
        }
      } else {
        n := PrintNumber(U32(value), base % 256);
      }
    }

    method PrintlnLong(value: int, base: int) returns (n: nat)
      requires -TWO_31 <= value < TWO_31
      modifies this
      ensures base == 0 ==> sink == old(sink) + [value % 256] + [CR, LF]
      ensures base == 10 ==> sink == old(sink) + Decimal(value) + [CR, LF]
      ensures base !in {0, 10} ==> sink == old(sink) + NumberText(U32(value), base % 256) + [CR, LF]
      ensures n == |sink| - |old(sink)|
    {
      hide *;
      n := PrintLong(value, base);
      var m := Write(CR);
      m := Write(LF);
      n := n + 2;
    }

    /** 64-bit numbers: the digits themselves are buffered and written last to first. */
    method PrintLLNumber(value: nat, base: nat)
      requires value < TWO_64 && 2 <= base < 256
      modifies this
      ensures sink == old(sink) + Chars(Numeral(value, base), UPPER_A)
    {
      if value == 0 {
        var n := Write(DIGIT_0);
        assert Chars([0], UPPER_A) == [DIGIT_0];
        return;
      }
      hide *;
      var buf := new byte[64];
      var i := FillDigits(value, base, buf);
      ghost var ds := Numeral(value, base);
      ghost var text := Chars(ds, UPPER_A);
      while i > 0
        invariant 0 <= i <= |ds| <= 64 && Reverse<nat>(buf[..|ds|]) == ds
        invariant sink == old(sink) + text[..|ds| - i]
      {
        ReverseAt<nat>(buf[..|ds|], |ds| - i);
        CharsAt(ds, UPPER_A, |ds| - i);
        var n := Write(DigitChar(buf[i - 1], UPPER_A));
        assert text[..|ds| - i + 1] == text[..|ds| - i] + [text[|ds| - i]];
        i := i - 1;
      }
      assert text[..|ds|] == text;
    }

    /** print(int64_t, base): here a base below 2 means 2, where `printNumber` takes it for 10. */
    method PrintLongLong(value: int, base: nat)
      requires -TWO_64 <= 2 * value < TWO_64 && base < 256
      modifies this
      ensures var b := if base < 2 then 2 else base;
              sink == old(sink) + (if value < 0 then [MINUS] + Chars(Numeral(-value, b), UPPER_A)
                                   else Chars(Numeral(value, b), UPPER_A))
    {
      hide *;
      var n := value;
      if n < 0 {
        var t := Write(MINUS);
        n := -n;
      }
      PrintLLNumber(n, if base < 2 then 2 else base);
    }
  }

  lemma {:induction false} NumeralFits(value: nat, b: nat)
    requires value < TWO_32 && b >= 2
    ensures |Numeral(value, b)| <= 32
    ensures Chars([], UPPER_A) + [NUL] == [NUL]
  {
    FourBytes();
    DigitsOfBytes(value, b, 4);
  }

  /** The division loop of `PrintNumber`: characters from the end of the buffer towards its front. */
  method FillFromEnd(value: nat, b: nat, buf: array<byte>) returns (str: nat)
    requires value < TWO_32 && b >= 2 && buf.Length == 33
    modifies buf
    ensures str <= 32 && buf[str..] == Chars(Numeral(value, b), UPPER_A) + [NUL]
  {
    hide *;
    NumeralFits(value, b);
    StartDividing(value, b);
    str := 32;
    buf[str] := NUL;
    var v: nat := value;
    ghost var ds: seq<nat> := [];
    assert buf[str..] == [NUL];
    while true
      invariant str == 32 - |ds| && (v > 0 || ds == [])
      invariant Dividing(value, b, v, ds) && buf[str..] == Chars(ds, UPPER_A) + [NUL]
      decreases v
    {
      DivideOnce(value, b, v, ds);
      CharsCons(v % b, ds, UPPER_A);
      ghost var written := buf[str..];
      var c: nat;
      v, c := QuotientAndDigit(v, b);
      str := str - 1;
      buf[str] := DigitChar(c, UPPER_A);
      assert buf[str..] == [DigitChar(c, UPPER_A)] + written;
      ds := [c] + ds;
      if v == 0 {
        break;
      }
    }
    DividingEnds(value, b, ds);
  }

  /** The division loop of the 64-bit printer. */
  method FillDigits(value: nat, base: nat, buf: array<byte>) returns (i: nat)
    requires 0 < value < TWO_64 && 2 <= base < 256 && buf.Length == 64
    modifies buf
    ensures i == |Numeral(value, base)| <= 64 && Reverse<nat>(buf[..i]) == Numeral(value, base)
  {
    EightBytes();
    DigitsOfBytes(value, base, 8);
    StartDividing(value, base);
    ghost var ds: seq<nat> := [];
    assert Reverse<nat>(buf[..0]) == ds;
    hide *;
    var v: nat := value;
    i := 0;
    while v > 0
      invariant i == |ds| <= 64 && (v > 0 || ds != [])
      invariant Dividing(value, base, v, ds) && Reverse<nat>(buf[..i]) == ds
    {
      DivideOnce(value, base, v, ds);
      ghost var low: seq<nat> := buf[..i];
      ReverseSnoc<nat>(low, v % base);
      buf[i] := v % base;
      assert buf[..i + 1] == low + [v % base];
      ds := [v % base] + ds;
      i := i + 1;
      v := v / base;
    }
    DividingEnds(value, base, ds);
  }
}
