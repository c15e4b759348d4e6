/** tinyprintf itself: the format interpreter and its output routines, writing through a cursor. */
module Printf {
  import opened Bytes
  import opened CString
  import opened Numerals
  import opened Format
  import opened Rendering

  // ----- output

  /** The contents of the caller's buffer; a null buffer has none. */
  function Cells(buffer: array?<byte>): seq<byte>
    reads buffer
  {
    if buffer == null then [] else buffer[..]
  }

  /** The cells after `text` has been written from `idx` on, as far as `maxlen` allows. */
  function Emit(cells: seq<byte>, idx: nat, text: seq<byte>, maxlen: nat): (r: seq<byte>)
    ensures |r| == |cells|
  {
    seq(|cells|, i requires 0 <= i < |cells| => if idx <= i < idx + |text| && i < maxlen then text[i - idx] else cells[i])
  }

  /** Every cell that may be written up to `end` exists. */
  predicate Holds(buffer: array?<byte>, maxlen: nat, end: nat) {
    buffer == null || maxlen <= buffer.Length || end <= buffer.Length
  }

  lemma {:induction false} EmitTwice(cells: seq<byte>, idx: nat, a: seq<byte>, b: seq<byte>, maxlen: nat)
    ensures Emit(Emit(cells, idx, a, maxlen), idx + |a|, b, maxlen) == Emit(cells, idx, a + b, maxlen)
  {
  }

  lemma {:induction false} EmitNothing(cells: seq<byte>, idx: nat, maxlen: nat)
    ensures Emit(cells, idx, [], maxlen) == cells
  {
  }

  /** _out_buffer, or _out_null for a null buffer. */
  method Out(c: byte, buffer: array?<byte>, idx: nat, maxlen: nat)
    requires Holds(buffer, maxlen, idx + 1)
    modifies buffer
    ensures Cells(buffer) == Emit(old(Cells(buffer)), idx, [c], maxlen)
  {
    if buffer != null && idx < maxlen {
      buffer[idx] := c;
    }
  }

  /** The loops that write spaces. */
  method OutSpaces(n: nat, buffer: array?<byte>, idx0: nat, maxlen: nat) returns (idx: nat)
    requires Holds(buffer, maxlen, idx0 + n)
    modifies buffer
    ensures idx == idx0 + n
    ensures Cells(buffer) == Emit(old(Cells(buffer)), idx0, Repeat(SPACE, n), maxlen)
  {
    hide Emit;
    idx := idx0;
    EmitNothing(Cells(buffer), idx0, maxlen);
    assert Repeat(SPACE, 0) == [];
    while idx < idx0 + n
      invariant idx0 <= idx <= idx0 + n
      invariant Cells(buffer) == Emit(old(Cells(buffer)), idx0, Repeat(SPACE, idx - idx0), maxlen)
    {
      EmitTwice(old(Cells(buffer)), idx0, Repeat(SPACE, idx - idx0), [SPACE], maxlen);
      assert Repeat(SPACE, idx - idx0) + [SPACE] == Repeat(SPACE, idx - idx0 + 1);
      Out(SPACE, buffer, idx, maxlen);
      idx := idx + 1;
    }
  }

  /** A run of characters, one `out` each. */
  method OutText(text: seq<byte>, buffer: array?<byte>, idx0: nat, maxlen: nat) returns (idx: nat)
    requires Holds(buffer, maxlen, idx0 + |text|)
    modifies buffer
    ensures idx == idx0 + |text|
    ensures Cells(buffer) == Emit(old(Cells(buffer)), idx0, text, maxlen)
  {
    hide Emit;
    idx := idx0;
    EmitNothing(Cells(buffer), idx0, maxlen);
    while idx < idx0 + |text|
      invariant idx0 <= idx <= idx0 + |text|
      invariant Cells(buffer) == Emit(old(Cells(buffer)), idx0, text[..idx - idx0], maxlen)
    {
      EmitTwice(old(Cells(buffer)), idx0, text[..idx - idx0], [text[idx - idx0]], maxlen);
      assert text[..idx - idx0] + [text[idx - idx0]] == text[..idx - idx0 + 1];
      Out(text[idx - idx0], buffer, idx, maxlen);
      idx := idx + 1;
    }
    assert text[..|text|] == text;
  }

  // ----- the conversion buffer, filled from the last character to the first

  /** buf[len++] = c */
  method Push(buf: array<byte>, len: nat, c: byte) returns (n: nat)
    requires len < buf.Length
    modifies buf
    ensures n == len + 1 && Reverse<byte>(buf[..n]) == [c] + Reverse<byte>(old(buf[..len]))
  {
    ReverseSnoc<byte>(buf[..len], c);
    hide *;
    ghost var low := buf[..len];
    buf[len] := c;
    n := len + 1;
    assert buf[..n] == low + [c];
  }

  /** The loops that pad with zeros. */
  method ZeroFill(buf: array<byte>, len: nat, n: nat) returns (m: nat)
    requires len <= buf.Length == NTOA_BUFFER
    modifies buf
    ensures len <= m <= NTOA_BUFFER && Reverse<byte>(buf[..m]) == Fill(Reverse<byte>(old(buf[..len])), n)
  {
    ghost var low := buf[..len];
    m := len;
    while m < n && m < NTOA_BUFFER
      invariant len <= m <= NTOA_BUFFER && (m > len ==> m <= n)
      invariant buf[..len] == low && forall i :: len <= i < m ==> buf[i] == DIGIT_0
    {
      buf[m] := DIGIT_0;
      m := m + 1;
    }
    assert buf[..m] == low + Repeat(DIGIT_0, m - len);
    FillIs(low, n, m - len);
  }

  /** Zeros behind the reversed digits are zeros before the digits. */
  lemma {:induction false} FillIs(low: seq<byte>, n: nat, k: nat)
    requires |low| + k <= NTOA_BUFFER && (k > 0 ==> |low| + k <= n) && (|low| + k >= n || |low| + k == NTOA_BUFFER)
    ensures Reverse<byte>(low + Repeat(DIGIT_0, k)) == Fill(Reverse<byte>(low), n)
  {
    ReverseZeros(low, k);
  }

  lemma {:induction false} ReverseZeros(low: seq<byte>, k: nat)
    ensures Reverse<byte>(low + Repeat(DIGIT_0, k)) == Repeat(DIGIT_0, k) + Reverse<byte>(low)
    decreases k
  {
    hide Reverse;
    if k == 0 {
      assert low + Repeat(DIGIT_0, 0) == low && Repeat(DIGIT_0, 0) + Reverse<byte>(low) == Reverse<byte>(low);
    } else {
      ReverseZeros(low, k - 1);
      assert low + Repeat(DIGIT_0, k) == low + Repeat(DIGIT_0, k - 1) + [DIGIT_0];
      ReverseSnoc<byte>(low + Repeat(DIGIT_0, k - 1), DIGIT_0);
      assert Repeat(DIGIT_0, k) + Reverse<byte>(low) == [DIGIT_0] + (Repeat(DIGIT_0, k - 1) + Reverse<byte>(low));
    }
  }

  /** The digit loop of _ntoa_long and _ntoa_long_long: digits as long as there are any and they fit. */
  method ConvertDigits(value: nat, base: nat, upper: bool, buf: array<byte>) returns (len: nat)
    requires 2 <= base <= 36 && buf.Length == NTOA_BUFFER
    modifies buf
    ensures len <= NTOA_BUFFER && Reverse<byte>(buf[..len]) == NtoaDigits(value, base, upper, false)
  {
    var letterA := if upper then UPPER_A else LOWER_A;
    StartDividing(value, base);
    ghost var ds: seq<nat> := [];
    var v: nat := value;
    len := 0;
    assert Reverse<byte>(buf[..0]) == Chars(ds, letterA);
    hide *;
    while true
      invariant len == |ds| < NTOA_BUFFER && (v > 0 || ds == [])
      invariant Dividing(value, base, v, ds) && Reverse<byte>(buf[..len]) == Chars(ds, letterA)
      decreases NTOA_BUFFER - len
    {
      var digit;
      digit, v := DivideStep(value, base, v, ds);
      CharsCons(digit, ds, letterA);
      DigitCharPlain(digit, letterA);
      len := Push(buf, len, if digit < 10 then digit + DIGIT_0 else digit + letterA - 10);
      ds := [digit] + ds;
      if !(v > 0 && len < NTOA_BUFFER) {
        break;
      }
    }
    DigitsKept(value, base, upper, v, ds);
  }

  /** The last digit of what is left of the number, and what is left then. */
  method DivideStep(ghost n: nat, base: nat, v: nat, ghost ds: seq<nat>) returns (digit: nat, rest: nat)
    requires 2 <= base <= 36 && Dividing(n, base, v, ds) && (v > 0 || ds == [])
    ensures digit < 36 && Dividing(n, base, rest, [digit] + ds)
  {
    DivideOnce(n, base, v, ds);
    hide *;
    digit := v % base;
    rest := v / base;
  }

  lemma {:induction false} DigitsKept(value: nat, base: nat, upper: bool, rest: nat, ds: seq<nat>)
    requires base >= 2 && Dividing(value, base, rest, ds) && 0 < |ds| <= NTOA_BUFFER
    requires rest == 0 || |ds| == NTOA_BUFFER
    ensures NtoaDigits(value, base, upper, false) == Chars(ds, if upper then UPPER_A else LOWER_A)
  {
    hide Numeral;
    hide Chars;
    if rest > 0 {
      assert Tail(Numeral(rest, base) + ds, NTOA_BUFFER) == ds;
    }
  }

  /** Dropping digits that fill the field exactly. */
  method CutForHash(buf: array<byte>, len: nat, base: nat, f: Field, width: nat) returns (n: nat)
    requires len <= buf.Length
    ensures n <= len && Reverse<byte>(buf[..n]) == HashCut(Reverse<byte>(buf[..len]), base, f, width)
  {
    n := len;
    if !f.hasPrec && n > 0 && (n == f.prec || n == width) {
      Popped(buf[..], n);
      n := n - 1;
      if n > 0 && base == 16 {
        Popped(buf[..], n);
        n := n - 1;
      }
    }
  }

  /** The '#' branch of _ntoa_format. */
  method AddHash(buf: array<byte>, len: nat, base: nat, upper: bool, f: Field, width: nat) returns (n: nat)
    requires len <= buf.Length == NTOA_BUFFER
    modifies buf
    ensures n <= NTOA_BUFFER
    ensures Reverse<byte>(buf[..n]) == Hashed(Reverse<byte>(old(buf[..len])), base, upper, f, width)
  {
    hide Reverse;
    hide HashCut;
    n := CutForHash(buf, len, base, f, width);
    if base == 16 && !upper && n < NTOA_BUFFER {
      n := Push(buf, n, LOWER_X);
    } else if base == 16 && upper && n < NTOA_BUFFER {
      n := Push(buf, n, UPPER_X);
    } else if base == 2 && n < NTOA_BUFFER {
      n := Push(buf, n, LOWER_B);
    }
    if n < NTOA_BUFFER {
      n := Push(buf, n, DIGIT_0);
    }
  }

  lemma {:induction false} Popped(buf: seq<byte>, n: nat)
    requires 0 < n <= |buf|
    ensures Reverse<byte>(buf[..n - 1]) == Reverse<byte>(buf[..n])[1..]
  {
    ReverseSnoc<byte>(buf[..n - 1], buf[n - 1]);
    assert buf[..n] == buf[..n - 1] + [buf[n - 1]];
  }

  /** The sign, if the buffer has room. */
  method AddSign(buf: array<byte>, len: nat, negative: bool, f: Field) returns (n: nat)
    requires len <= buf.Length == NTOA_BUFFER
    modifies buf
    ensures n <= NTOA_BUFFER
    ensures Reverse<byte>(buf[..n]) == Prefixed(Reverse<byte>(old(buf[..len])), SignText(negative, f))
  {
    hide Reverse;
    n := len;
    NoSign(Reverse<byte>(buf[..len]));
    if n < NTOA_BUFFER {
      if negative {
        n := Push(buf, n, MINUS);
      } else if f.plus {
        n := Push(buf, n, PLUS);
      } else if f.space {
        n := Push(buf, n, SPACE);
      }
    }
  }

  lemma {:induction false} NoSign(text: seq<byte>)
    ensures Prefixed(text, []) == text
  {
    assert [] + text == text;
  }

  /** _out_rev: the buffer backwards, with spaces before or behind. */
  method OutRev(buffer: array?<byte>, idx0: nat, maxlen: nat, buf: array<byte>, len: nat, width: nat, left: bool, zeroPad: bool)
    returns (idx: nat)
    requires buf != buffer && len <= buf.Length
    requires Holds(buffer, maxlen, idx0 + |Padded(Reverse<byte>(buf[..len]), width, left, zeroPad)|)
    modifies buffer
    ensures var text := Padded(Reverse<byte>(buf[..len]), width, left, zeroPad);
            idx == idx0 + |text| && Cells(buffer) == Emit(old(Cells(buffer)), idx0, text, maxlen)
  {
    ghost var text := Reverse<byte>(buf[..len]);
    ghost var pad := Repeat(SPACE, Monus(width, len));
    assert |text| == len;
    hide Emit;
    hide Reverse;
    hide Repeat;
    idx := idx0;
    ghost var cells := Cells(buffer);
    EmitNothing(cells, idx0, maxlen);
    if !left && !zeroPad {
      EmitTwice(cells, idx0, pad, text, maxlen);
      idx := OutSpaces(if len < width then width - len else 0, buffer, idx, maxlen);
    }
    idx := OutReversed(buf, len, buffer, idx, maxlen);
    if left {
      EmitTwice(cells, idx0, text, pad, maxlen);
      var written := idx - idx0;
      idx := OutSpaces(if written < width then width - written else 0, buffer, idx, maxlen);
    }
  }

  method OutReversed(buf: array<byte>, len0: nat, buffer: array?<byte>, idx0: nat, maxlen: nat) returns (idx: nat)
    requires buf != buffer && len0 <= buf.Length && Holds(buffer, maxlen, idx0 + len0)
    modifies buffer
    ensures idx == idx0 + len0
    ensures Cells(buffer) == Emit(old(Cells(buffer)), idx0, Reverse<byte>(buf[..len0]), maxlen)
  {
    ghost var text := Reverse<byte>(buf[..len0]);
    hide Emit;
    hide Reverse;
    idx := idx0;
    var len := len0;
    EmitNothing(Cells(buffer), idx0, maxlen);
    while len > 0
      invariant 0 <= len <= len0 && idx == idx0 + len0 - len
      invariant Cells(buffer) == Emit(old(Cells(buffer)), idx0, text[..len0 - len], maxlen)
    {
      len := len - 1;
      ReverseAt<byte>(buf[..len0], len0 - 1 - len);
      EmitTwice(old(Cells(buffer)), idx0, text[..len0 - len - 1], [buf[len]], maxlen);
      assert text[..len0 - len - 1] + [buf[len]] == text[..len0 - len];
      Out(buf[len], buffer, idx, maxlen);
      idx := idx + 1;
    }
    assert text[..len0] == text;
  }

  /** The zero padding of _ntoa_format, and the width that remains. */
  method PadZeros(buf: array<byte>, len0: nat, negative: bool, f: Field) returns (len: nat, width: nat)
    requires len0 <= buf.Length == NTOA_BUFFER
    modifies buf
    ensures len <= NTOA_BUFFER && width == DigitWidth(negative, f)
    ensures Reverse<byte>(buf[..len]) == ZeroPadded(Reverse<byte>(old(buf[..len0])), negative, f)
  {
    SignDue(negative, f);
    FillNothing(Fill(Reverse<byte>(buf[..len0]), f.prec));
    hide Reverse;
    hide Fill;
    hide SignText;
    len, width := len0, f.width;
    if !f.left {
      if width > 0 && f.zeroPad && (negative || f.plus || f.space) {
        width := width - 1;
      }
      len := ZeroFill(buf, len, f.prec);
      if f.zeroPad {
        len := ZeroFill(buf, len, width);
      }
    }
  }

  /** _ntoa_format */
  method FormatNumber(buffer: array?<byte>, idx0: nat, maxlen: nat, buf: array<byte>, len0: nat, negative: bool,
                      base: nat, upper: bool, f: Field)
    returns (idx: nat)
    requires buf != buffer && len0 <= buf.Length == NTOA_BUFFER
    requires Holds(buffer, maxlen, idx0 + |NtoaFormat(Reverse<byte>(buf[..len0]), negative, base, upper, f)|)
    modifies buffer, buf
    ensures var text := NtoaFormat(Reverse<byte>(old(buf[..len0])), negative, base, upper, f);
            idx == idx0 + |text| && Cells(buffer) == Emit(old(Cells(buffer)), idx0, text, maxlen)
  {
    hide Reverse;
    hide Emit;
    hide ZeroPadded;
    hide DigitWidth;
    hide Hashed;
    hide Prefixed;
    hide Padded;
    hide SignText;
    var len, width := PadZeros(buf, len0, negative, f);
    if f.hash {
      len := AddHash(buf, len, base, upper, f, width);
    }
    len := AddSign(buf, len, negative, f);
    idx := OutRev(buffer, idx0, maxlen, buf, len, width, f.left, f.zeroPad);
  }

  lemma {:induction false} SignDue(negative: bool, f: Field)
    ensures SignText(negative, f) != [] <==> negative || f.plus || f.space
  {
  }

  lemma {:induction false} FillNothing(text: seq<byte>)
    ensures Fill(text, 0) == text
  {
    assert Repeat(DIGIT_0, 0) + text == text;
  }

  /** _ntoa_long and _ntoa_long_long, which differ only in the width of `value`. */
  method NtoaLong(buffer: array?<byte>, idx0: nat, maxlen: nat, value: nat, negative: bool, base: nat, upper: bool, f: Field)
    returns (idx: nat)
    requires 2 <= base <= 36 && Holds(buffer, maxlen, idx0 + |Ntoa(value, negative, base, upper, f)|)
    modifies buffer
    ensures var text := Ntoa(value, negative, base, upper, f);
            idx == idx0 + |text| && Cells(buffer) == Emit(old(Cells(buffer)), idx0, text, maxlen)
  {
    SameDigits(value, base, upper, f.hasPrec);
    hide NtoaDigits;
    hide NtoaFormat;
    hide Emit;
    var buf := new byte[32];
    assert Reverse<byte>(buf[..0]) == [];
    hide Reverse;
    var len := 0;
    var g := if value == 0 then f.(hash := false) else f;
    if !f.hasPrec || value != 0 {
      len := ConvertDigits(value, base, upper, buf);
    }
    idx := FormatNumber(buffer, idx0, maxlen, buf, len, negative, base, upper, g);
  }

  lemma {:induction false} SameDigits(value: nat, base: nat, upper: bool, hasPrec: bool)
    requires base >= 2
    ensures NtoaDigits(value, base, upper, hasPrec)
         == if !hasPrec || value != 0 then NtoaDigits(value, base, upper, false) else []
  {
  }

  // ----- characters and strings

  method OutChar(buffer: array?<byte>, idx0: nat, maxlen: nat, f: Field, a: Arg) returns (idx: nat)
    requires Fits(a, KWord) && Holds(buffer, maxlen, idx0 + |CharText(f, a)|)
    modifies buffer
    ensures var text := CharText(f, a);
            idx == idx0 + |text| && Cells(buffer) == Emit(old(Cells(buffer)), idx0, text, maxlen)
  {
    var c: byte := a.w % 256;
    idx := OutAligned([c], buffer, idx0, maxlen, f.width, f.left);
  }

  /** The text of %c and %s with its padding before or behind. */
  method OutAligned(text: seq<byte>, buffer: array?<byte>, idx0: nat, maxlen: nat, width: nat, left: bool) returns (idx: nat)
    requires Holds(buffer, maxlen, idx0 + |Padded(text, width, left, false)|)
    modifies buffer
    ensures var out := Padded(text, width, left, false);
            idx == idx0 + |out| && Cells(buffer) == Emit(old(Cells(buffer)), idx0, out, maxlen)
  {
    ghost var pad := Repeat(SPACE, Monus(width, |text|));
    hide Emit;
    hide Repeat;
    idx := idx0;
    ghost var cells := Cells(buffer);
    var missing := if |text| < width then width - |text| else 0;
    if !left {
      EmitTwice(cells, idx0, pad, text, maxlen);
      idx := OutSpaces(missing, buffer, idx, maxlen);
    }
    idx := OutText(text, buffer, idx, maxlen);
    if left {
      EmitTwice(cells, idx0, text, pad, maxlen);
      idx := OutSpaces(missing, buffer, idx, maxlen);
    }
  }

  /** _strnlen_s */
  method StrNLen(cells: seq<byte>, maxsize: nat) returns (n: nat)
    requires Terminated(cells, 0)
    ensures n == if maxsize < |CStr(cells, 0)| then maxsize else |CStr(cells, 0)|
  {
    ghost var end := EndOf(cells, 0);
    assert forall i :: 0 <= i < end ==> cells[0..end][i] == cells[i];
    n := 0;
    while cells[n] != NUL && n < maxsize
      invariant n <= end && n <= maxsize
      decreases end - n
    {
      n := n + 1;
    }
  }

  method OutString(buffer: array?<byte>, idx0: nat, maxlen: nat, f: Field, a: Arg) returns (idx: nat)
    requires Fits(a, KStr) && Holds(buffer, maxlen, idx0 + |StringText(f, a)|)
    requires f.prec > 0 ==> f.hasPrec
    modifies buffer
    ensures var text := StringText(f, a);
            idx == idx0 + |text| && Cells(buffer) == Emit(old(Cells(buffer)), idx0, text, maxlen)
  {
    var p := a.s + [NUL];
    assert p[0..|a.s|] == a.s;
    EndIs(p, 0, |a.s|);
    var l := StrNLen(p, if f.prec > 0 then f.prec else TWO_32 - 1);
    if f.hasPrec {
      l := if l < f.prec then l else f.prec;
    }
    assert a.s[..l] == if f.hasPrec && f.prec < |a.s| then a.s[..f.prec] else a.s;
    idx := OutAligned(a.s[..l], buffer, idx0, maxlen, f.width, f.left);
  }
}
