/** Positional notation: the one numeral that all the digit printers are to print. */
module Numerals {
  import opened Bytes

  /** The digits of `n` in base `b`, most significant first. */
  function Numeral(n: nat, b: nat): (ds: seq<nat>)
    requires b >= 2
    ensures ds != []
    decreases n
  {
    DivMod(n, b);
    if n < b then [n] else Numeral(n / b, b) + [n % b]
  }

  /** The number that digits denote. */
  function Value(ds: seq<nat>, b: nat): nat {
    if ds == [] then 0 else Value(ds[..|ds| - 1], b) * b + ds[|ds| - 1]
  }

  /** Digits of the base, without a leading zero unless there is only one. */
  predicate Canonical(ds: seq<nat>, b: nat) {
    ds != [] && (forall i :: 0 <= i < |ds| ==> ds[i] < b) && (|ds| > 1 ==> ds[0] != 0)
  }

  function Pow(b: nat, k: nat): nat {
    if k == 0 then 1 else b * Pow(b, k - 1)
  }

  lemma {:induction false} DivMod(n: nat, b: nat)
    requires b >= 2
    ensures 0 <= n % b < b && n == (n / b) * b + n % b
    ensures n >= b ==> 0 < n / b < n
    ensures n < b ==> n / b == 0 && n % b == n
  {
    assert n == b * (n / b) + n % b == (n / b) * b + n % b;
    var q := n / b;
    assert q >= 0;
    Multiple(q, b, q * b);
  }

  /** How a multiple compares with its factors; the product is named to keep it out of the arithmetic. */
  lemma {:induction false} Multiple(q: nat, b: nat, m: int)
    requires b >= 2 && m == q * b
    ensures m >= 2 * q
    ensures q == 0 ==> m == 0
    ensures q >= 1 ==> m >= b
  {
    if q >= 1 { MulMono(1, q, b); }
    assert q * b == q * (b - 2) + 2 * q;
  }

  lemma {:induction false} MulMono(x: nat, y: nat, b: nat)
    requires x <= y
    ensures x * b <= y * b && b * x <= b * y
  {
    assert y * b == x * b + (y - x) * b;
    assert (y - x) * b >= 0;
  }

  lemma {:induction false} MulGap(x: nat, y: nat, b: nat)
    ensures x < y ==> x * b + b <= y * b
  {
    if x < y {
      MulMono(x + 1, y, b);
      assert (x + 1) * b == x * b + b;
    }
  }

  /** Quotient and remainder are what they should be. */
  lemma {:induction false} DivModUnique(q: nat, d: nat, b: nat)
    requires b >= 2 && d < b
    ensures (q * b + d) / b == q && (q * b + d) % b == d
  {
    var n := q * b + d;
    DivMod(n, b);
    MulGap(n / b, q, b);
    MulGap(q, n / b, b);
  }

  lemma {:induction false} NumeralIsCanonical(n: nat, b: nat)
    requires b >= 2
    ensures Canonical(Numeral(n, b), b)
    ensures Numeral(n, b)[0] == 0 <==> n == 0
    decreases n
  {
    DivMod(n, b);
    if n >= b { NumeralIsCanonical(n / b, b); }
  }

  /** The numeral denotes the number. */
  lemma {:induction false} ValueOfNumeral(n: nat, b: nat)
    requires b >= 2
    ensures Value(Numeral(n, b), b) == n
    decreases n
  {
    DivMod(n, b);
    if n < b {
      ValueOne(n, b);
    } else {
      ValueOfNumeral(n / b, b);
      ValueSnoc(Numeral(n / b, b), n % b, b);
    }
  }

  lemma {:induction false} ValueSnoc(ds: seq<nat>, d: nat, b: nat)
    ensures Value(ds + [d], b) == Value(ds, b) * b + d
  {
    assert (ds + [d])[..|ds|] == ds;
  }

  lemma {:induction false} ValueOne(d: nat, b: nat)
    ensures Value([d], b) == d
  {
    ValueSnoc([], d, b);
    assert [] + [d] == [d];
    assert 0 * b == 0;
  }

  /** It is the only canonical numeral that does. */
  lemma {:induction false} NumeralOfValue(ds: seq<nat>, b: nat)
    requires b >= 2 && Canonical(ds, b)
    ensures Numeral(Value(ds, b), b) == ds
    decreases |ds|
  {
    var init, d := ds[..|ds| - 1], ds[|ds| - 1];
    if init == [] {
      ValueOne(d, b);
      assert ds == [d];
    } else {
      NumeralOfValue(init, b);
      DivModUnique(Value(init, b), d, b);
      ValuePositive(init, b);
      MulMono(1, Value(init, b), b);
      assert ds == init + [d];
    }
  }

  lemma {:induction false} ValuePositive(ds: seq<nat>, b: nat)
    requires b >= 2 && ds != [] && ds[0] != 0
    ensures Value(ds, b) > 0
    decreases |ds|
  {
    if |ds| > 1 {
      ValuePositive(ds[..|ds| - 1], b);
      MulMono(1, Value(ds[..|ds| - 1], b), b);
    } else {
      assert Value(ds[..0], b) * b == 0;
    }
  }

  /** A numeral has at most `k` digits exactly when the number is below `b` to the `k`. */
  lemma {:induction false} NumeralLength(n: nat, b: nat, k: nat)
    requires b >= 2 && k >= 1
    ensures |Numeral(n, b)| <= k <==> n < Pow(b, k)
    decreases k
  {
    DivMod(n, b);
    if n < b {
      PowGrows(b, k);
    } else if k == 1 {
      assert Pow(b, 1) == b * Pow(b, 0) == b;
      assert |Numeral(n, b)| == |Numeral(n / b, b)| + 1;
    } else {
      NumeralLength(n / b, b, k - 1);
      var q, p := n / b, Pow(b, k - 1);
      MulGap(q, p, b);
      if p <= q { MulMono(p, q, b); }
      assert p * b == b * p;
    }
  }

  lemma {:induction false} PowGrows(b: nat, k: nat)
    requires b >= 2 && k >= 1
    ensures Pow(b, k) >= b && Pow(b, k) >= 1
    decreases k
  {
    if k > 1 {
      PowGrows(b, k - 1);
      MulMono(1, Pow(b, k - 1), b);
    } else {
      assert b * Pow(b, 0) == b;
    }
  }

  // ----- how long numerals get

  /** A number of `k` bytes needs at most `8 * k` digits in any base. */
  lemma {:induction false} DigitsOfBytes(n: nat, b: nat, k: nat)
    requires b >= 2 && k >= 1 && n < Pow(256, k)
    ensures |Numeral(n, b)| <= 8 * k
  {
    PowBytes(b, k);
    NumeralLength(n, b, 8 * k);
  }

  /** And at most `3 * k` in base 10. */
  lemma {:induction false} DecimalDigitsOfBytes(n: nat, k: nat)
    requires k >= 1 && n < Pow(256, k)
    ensures |Numeral(n, 10)| <= 3 * k
  {
    PowBytesDecimal(k);
    NumeralLength(n, 10, 3 * k);
  }

  lemma {:induction false} PowBytes(b: nat, k: nat)
    requires b >= 2
    ensures Pow(256, k) <= Pow(b, 8 * k)
    decreases k
  {
    if k > 0 {
      PowBytes(b, k - 1);
      var p := Pow(b, 8 * k - 8);
      PowDoubles(b, 8 * k - 8, p);
      PowDoubles(b, 8 * k - 7, 2 * p);
      PowDoubles(b, 8 * k - 6, 4 * p);
      PowDoubles(b, 8 * k - 5, 8 * p);
      PowDoubles(b, 8 * k - 4, 16 * p);
      PowDoubles(b, 8 * k - 3, 32 * p);
      PowDoubles(b, 8 * k - 2, 64 * p);
      PowDoubles(b, 8 * k - 1, 128 * p);
    }
  }

  lemma {:induction false} PowDoubles(b: nat, k: nat, p: nat)
    requires b >= 2 && Pow(b, k) >= p
    ensures Pow(b, k + 1) >= 2 * p
  {
    MulMono(2, b, Pow(b, k));
  }

  /** From base 4 on, four digits hold a byte. */
  lemma {:induction false} PowQuarters(b: nat, k: nat)
    requires b >= 4
    ensures Pow(256, k) <= Pow(b, 4 * k)
    decreases k
  {
    if k > 0 {
      PowQuarters(b, k - 1);
      var p := Pow(b, 4 * k - 4);
      PowQuadruples(b, 4 * k - 4, p);
      PowQuadruples(b, 4 * k - 3, 4 * p);
      PowQuadruples(b, 4 * k - 2, 16 * p);
      PowQuadruples(b, 4 * k - 1, 64 * p);
    }
  }

  lemma {:induction false} PowQuadruples(b: nat, k: nat, p: nat)
    requires b >= 4 && Pow(b, k) >= p
    ensures Pow(b, k + 1) >= 4 * p
  {
    MulMono(4, b, Pow(b, k));
  }

  lemma {:induction false} PowBytesDecimal(k: nat)
    ensures Pow(256, k) <= Pow(10, 3 * k)
    decreases k
  {
    if k > 0 {
      PowBytesDecimal(k - 1);
      assert Pow(10, 3 * k - 2) == 10 * Pow(10, 3 * k - 3);
      assert Pow(10, 3 * k - 1) == 10 * Pow(10, 3 * k - 2);
      assert Pow(10, 3 * k) == 10 * Pow(10, 3 * k - 1);
    }
  }

  /** And three octal digits. */
  lemma {:induction false} PowBytesOctal(k: nat)
    ensures Pow(256, k) <= Pow(8, 3 * k)
    decreases k
  {
    if k > 0 {
      PowBytesOctal(k - 1);
      assert Pow(8, 3 * k - 2) == 8 * Pow(8, 3 * k - 3);
      assert Pow(8, 3 * k - 1) == 8 * Pow(8, 3 * k - 2);
      assert Pow(8, 3 * k) == 8 * Pow(8, 3 * k - 1);
    }
  }

  lemma {:induction false} FourBytes()
    ensures Pow(256, 1) == 256 && Pow(256, 2) == 0x1_0000 && Pow(256, 4) == TWO_32
  {
    assert Pow(256, 1) == 256 * Pow(256, 0);
    assert Pow(256, 2) == 256 * Pow(256, 1);
    assert Pow(256, 3) == 256 * Pow(256, 2);
  }

  lemma {:induction false} EightBytes()
    ensures Pow(256, 8) == TWO_64
  {
    FourBytes();
    assert Pow(256, 5) == 256 * Pow(256, 4);
    assert Pow(256, 6) == 256 * Pow(256, 5);
    assert Pow(256, 7) == 256 * Pow(256, 6);
  }

  // ----- numerals cut to a buffer

  /** The last `k` digits. */
  function Tail(ds: seq<nat>, k: nat): seq<nat> {
    if |ds| <= k then ds else ds[|ds| - k..]
  }

  /** The last `k` digits of a numeral denote the number modulo `b` to the `k`. */
  lemma {:induction false} ValueOfTail(n: nat, b: nat, k: nat)
    requires b >= 2
    ensures Pow(b, k) > 0 && Value(Tail(Numeral(n, b), k), b) == n % Pow(b, k)
    decreases k
  {
    hide Value;
    if k == 0 {
      TailOfNothing(n, b);
    } else if n < b {
      PowGrows(b, k);
      ValueOne(n, b);
      SmallMod(n, Pow(b, k));
    } else {
      DivMod(n, b);
      ValueOfTail(n / b, b, k - 1);
      TailStep(n, b, k);
      ModStep(n, n / b, n % b, b, Pow(b, k - 1));
    }
  }

  lemma {:induction false} TailOfNothing(n: nat, b: nat)
    requires b >= 2
    ensures Value(Tail(Numeral(n, b), 0), b) == 0 == n % Pow(b, 0)
  {
    assert Tail(Numeral(n, b), 0) == [];
  }

  lemma {:induction false} SmallMod(n: nat, m: nat)
    requires n < m
    ensures n % m == n
  {
  }

  lemma {:induction false} TailStep(n: nat, b: nat, k: nat)
    requires b >= 2 && k > 0 && n >= b
    ensures Value(Tail(Numeral(n, b), k), b) == Value(Tail(Numeral(n / b, b), k - 1), b) * b + n % b
  {
    hide Value;
    DivMod(n, b);
    assert Tail(Numeral(n, b), k) == Tail(Numeral(n / b, b), k - 1) + [n % b];
    ValueSnoc(Tail(Numeral(n / b, b), k - 1), n % b, b);
  }

  lemma {:induction false} ModStep(n: nat, q: nat, d: nat, b: nat, p: nat)
    requires b >= 2 && d < b && n == q * b + d && p > 0
    ensures b * p > 0 && n % (b * p) == (q % p) * b + d
  {
    var x, y := q / p, q % p;
    assert q == x * p + y;
    MulGap(y, p, b);
    MulMono(1, p, b);
    assert p * b == b * p && n == x * (b * p) + (y * b + d) by {
      assert (x * p + y) * b == x * (b * p) + y * b;
    }
    RemainderIs(x, y * b + d, b * p);
  }

  lemma {:induction false} RemainderIs(x: nat, r: nat, m: nat)
    requires 0 <= r < m
    ensures (x * m + r) % m == r
  {
    if m >= 2 { DivModUnique(x, r, m); }
  }

  // ----- digits as characters

  /** The character of a digit, where `letterA` stands for ten; a `char` holds it modulo 256. */
  function DigitChar(d: nat, letterA: int): byte {
    (if d < 10 then DIGIT_0 + d else letterA + d - 10) % 256
  }

  function Chars(ds: seq<nat>, letterA: int): (cs: seq<byte>)
    ensures |cs| == |ds|
  {
    seq(|ds|, i requires 0 <= i < |ds| => DigitChar(ds[i], letterA))
  }

  /** Up to base 36 the character of a digit needs no wrapping. */
  lemma {:induction false} DigitCharPlain(d: nat, letterA: byte)
    requires d < 36 && letterA in {UPPER_A, LOWER_A}
    ensures 0 <= (if d < 10 then d + DIGIT_0 else d + letterA - 10) < 256
    ensures DigitChar(d, letterA) == if d < 10 then d + DIGIT_0 else d + letterA - 10
  {
  }

  lemma {:induction false} CharsAt(ds: seq<nat>, letterA: int, i: nat)
    requires i < |ds|
    ensures Chars(ds, letterA)[i] == DigitChar(ds[i], letterA)
  {
  }

  function Reverse<T>(s: seq<T>): (r: seq<T>)
    ensures |r| == |s|
  {
    if s == [] then [] else Reverse(s[1..]) + [s[0]]
  }

  lemma {:induction false} CharsSplit(a: seq<nat>, d: nat, letterA: int)
    ensures Chars(a + [d], letterA) == Chars(a, letterA) + [DigitChar(d, letterA)]
  {
  }

  lemma {:induction false} ReverseSnoc<T>(s: seq<T>, x: T)
    ensures Reverse(s + [x]) == [x] + Reverse(s)
    decreases |s|
  {
    if s != [] {
      assert (s + [x])[1..] == s[1..] + [x];
      ReverseSnoc(s[1..], x);
    }
  }

  lemma {:induction false} ReverseAt<T>(s: seq<T>, i: nat)
    requires i < |s|
    ensures Reverse(s)[i] == s[|s| - 1 - i]
    decreases |s|
  {
    if i < |s| - 1 { ReverseAt(s[1..], i); }
  }

  lemma {:induction false} CharsCons(d: nat, a: seq<nat>, letterA: int)
    ensures Chars([d] + a, letterA) == [DigitChar(d, letterA)] + Chars(a, letterA)
  {
  }

  /** One more character in a buffer that is filled from the last digit on. */
  lemma {:induction false} DigitWritten(low: seq<byte>, d: nat, ds: seq<nat>, letterA: int)
    requires Reverse(low) == Chars(ds, letterA)
    ensures Reverse(low + [DigitChar(d, letterA)]) == Chars([d] + ds, letterA)
  {
    hide Reverse;
    hide Chars;
    ReverseSnoc(low, DigitChar(d, letterA));
    CharsCons(d, ds, letterA);
  }

  // ----- the loop of every printer

  /** `ds` are the low digits of `n` that repeated division has produced, and `rest` is what is left. */
  ghost predicate Dividing(n: nat, b: nat, rest: nat, ds: seq<nat>)
    requires b >= 2
  {
    Numeral(n, b) == if rest == 0 && ds != [] then ds else Numeral(rest, b) + ds
  }

  lemma {:induction false} StartDividing(n: nat, b: nat)
    requires b >= 2
    ensures Dividing(n, b, n, [])
  {
    assert Numeral(n, b) + [] == Numeral(n, b);
  }

  lemma {:induction false} DivideOnce(n: nat, b: nat, rest: nat, ds: seq<nat>)
    requires b >= 2 && Dividing(n, b, rest, ds) && (rest > 0 || ds == [])
    ensures Dividing(n, b, rest / b, [rest % b] + ds) && rest % b < b
    ensures |ds| < |Numeral(n, b)|
    ensures rest > 0 ==> rest / b < rest
  {
    DivMod(rest, b);
    if rest < b {
      assert Numeral(rest, b) + ds == [rest % b] + ds;
    } else {
      assert Numeral(rest / b, b) + [rest % b] + ds == Numeral(rest / b, b) + ([rest % b] + ds);
    }
  }

  lemma {:induction false} DividingEnds(n: nat, b: nat, ds: seq<nat>)
    requires b >= 2 && Dividing(n, b, 0, ds) && ds != []
    ensures Numeral(n, b) == ds
  {
  }
}
