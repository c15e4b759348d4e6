/** Numbers written into a caller's array: `ultoa` and `ltoa`. */
module Itoa {
  import opened Bytes
  import opened CString
  import opened Numerals

  /** The characters `ltoa` writes: a sign in base 10 only, otherwise the two's complement bits. */
  function Rendering(value: int, radix: int): seq<byte>
    requires 2 <= radix <= 36
  {
    if radix == 10 && value < 0 then [MINUS] + Chars(Numeral(-value, 10), LOWER_A)
    else Chars(Numeral(U32(value), radix), LOWER_A)
  }

  /** The division loop: digits go into `tmp`, least significant first. */
  method Divide(value: nat, radix: nat, tmp: array<byte>) returns (tp: nat)
    requires value < TWO_32 && 2 <= radix <= 36 && tmp.Length == 33
    modifies tmp
    ensures tp == |Numeral(value, radix)| <= 32
    ensures Reverse(tmp[..tp]) == Chars(Numeral(value, radix), LOWER_A)
  {
    FourBytes();
    DigitsOfBytes(value, radix, 4);
    StartDividing(value, radix);
    ghost var ds: seq<nat> := [];
    var v: nat := value;
    tp := 0;
    assert Reverse(tmp[..0]) == Chars(ds, LOWER_A);
    hide *;
    while v != 0 || tp == 0
      invariant tp == |ds| <= 32
      invariant Dividing(value, radix, v, ds) && Reverse(tmp[..tp]) == Chars(ds, LOWER_A)
      decreases v, 1 - tp
    {
      DivideOnce(value, radix, v, ds);
      DigitWritten(tmp[..tp], v % radix, ds, LOWER_A);
      var i := v % radix;
      v := v / radix;
      ghost var low := tmp[..tp];
      DigitCharPlain(i, LOWER_A);
      tmp[tp] := if i < 10 then i + DIGIT_0 else i + LOWER_A - 10;
      tp := tp + 1;
      assert tmp[..tp] == low + [DigitChar(i, LOWER_A)];
      ds := [i] + ds;
    }
    DividingEnds(value, radix, ds);
  }

  /** The copying loop: the characters of `tmp` backwards to `str[sp..]`, then the terminator. */
  method CopyBack(tmp: array<byte>, tp: nat, str: array<byte>, sp: nat)
    requires tmp != str && tp <= tmp.Length && sp + tp < str.Length
    modifies str
    ensures str[..] == Put(old(str[..]), sp, Reverse(tmp[..tp]) + [NUL])
  {
    ghost var s := Reverse(tmp[..tp]) + [NUL];
    assert Put(str[..], sp, s[..0]) == str[..];
    hide Put;
    hide Reverse;
    var to, from := sp, tp;
    while from > 0
      invariant 0 <= from <= tp && to == sp + tp - from
      invariant str[..] == Put(old(str[..]), sp, s[..tp - from])
    {
      PutNext(old(str[..]), sp, s, tp - from);
      from := from - 1;
      ReverseAt(tmp[..tp], tp - from - 1);
      str[to] := tmp[from];
      to := to + 1;
    }
    PutNext(old(str[..]), sp, s, tp);
    str[to] := NUL;
    assert s[..tp + 1] == s;
  }

  lemma {:induction false} PutSigned(cells: seq<byte>, s: seq<byte>)
    requires |s| + 1 < |cells|
    ensures Put(cells[0 := MINUS], 1, s + [NUL]) == Put(cells, 0, [MINUS] + s + [NUL])
  {
  }

  /** The division and copying loops with an optional sign, as both routines run them. */
  method Convert(sign: bool, v: nat, str: array<byte>, radix: int)
    requires v < TWO_32 && 2 <= radix <= 36
    requires |Numeral(v, radix)| + (if sign then 1 else 0) < str.Length
    modifies str
    ensures var digits := Chars(Numeral(v, radix), LOWER_A);
            str[..] == Put(old(str[..]), 0, (if sign then [MINUS] + digits else digits) + [NUL])
  {
    var tmp := new byte[33];
    var tp := Divide(v, radix, tmp);
    hide *;
    var sp := 0;
    if sign {
      PutSigned(str[..], Chars(Numeral(v, radix), LOWER_A));
      str[sp] := MINUS;
      sp := sp + 1;
    }
    CopyBack(tmp, tp, str, sp);
  }

  method Ultoa(value: nat, str: array?<byte>, radix: int) returns (r: array?<byte>)
    requires value < TWO_32
    requires str != null && 2 <= radix <= 36 ==> |Numeral(value, radix)| < str.Length
    modifies str
    ensures r == if 2 <= radix <= 36 then str else null
    ensures str != null && 2 <= radix <= 36 ==>
              str[..] == Put(old(str[..]), 0, Chars(Numeral(value, radix), LOWER_A) + [NUL])
    ensures str != null && !(2 <= radix <= 36) ==> str[..] == old(str[..])
  {
    if str == null {
      return null;
    }
    if radix > 36 || radix <= 1 {
      return null;
    }
    Convert(false, value, str, radix);
    return str;
  }

  /** Negating a negative long gives its magnitude, even where the negation overflows. */
  lemma {:induction false} NegateIs(value: int)
    requires -TWO_31 <= value < 0
    ensures U32(I32(-value)) == -value
  {
  }

  method Ltoa(value: int, str: array?<byte>, radix: int) returns (r: array?<byte>)
    requires -TWO_31 <= value < TWO_31
    requires str != null && 2 <= radix <= 36 ==> |Rendering(value, radix)| < str.Length
    modifies str
    ensures r == if 2 <= radix <= 36 then str else null
    ensures str != null && 2 <= radix <= 36 ==> str[..] == Put(old(str[..]), 0, Rendering(value, radix) + [NUL])
    ensures str != null && !(2 <= radix <= 36) ==> str[..] == old(str[..])
  {
    if str == null {
      return null;
    }
    if radix > 36 || radix <= 1 {
      return null;
    }
    var sign := radix == 10 && value < 0;
    var v := if sign then U32(I32(-value)) else U32(value);
    if sign { NegateIs(value); }
    hide Numeral;
    hide Chars;
    hide Put;
    hide U32;
    hide I32;
    Convert(sign, v, str, radix);
    return str;
  }

  /** Every number buffer of the `String` constructors and of `concat` holds its numeral and the NUL. */
  lemma {:induction false} NumberBuffersSuffice(value: int, radix: int)
    requires -TWO_31 <= value < TWO_32 && 2 <= radix <= 36
    ensures value >= 0 ==> |Chars(Numeral(value, radix), LOWER_A)| < 1 + 8 * 4
    ensures value < TWO_31 ==> |Rendering(value, radix)| < 2 + 8 * 4
    ensures value < TWO_31 ==> |Rendering(value, 10)| < 2 + 3 * 4
    ensures value >= 0 ==> |Chars(Numeral(value, 10), LOWER_A)| < 1 + 3 * 4
    ensures 0 <= value < 256 ==> |Rendering(value, radix)| < 1 + 8 && |Rendering(value, 10)| < 1 + 3
  {
    FourBytes();
    var v := if value < 0 then -value else value;
    DigitsOfBytes(U32(value), radix, 4);
    DecimalDigitsOfBytes(v, 4);
    if v < 256 {
      DigitsOfBytes(v, radix, 1);
      DecimalDigitsOfBytes(v, 1);
    }
  }
}
