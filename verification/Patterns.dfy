/** Occurrences of one sequence in another, and what replacing them means.

    Everything here is generic and pure: it is the vocabulary in which the
    in-place algorithms of `WString` are specified. */
module Patterns {

  /** `p` stands in `s` at index `i`. */
  predicate OccursAt<T(==)>(s: seq<T>, p: seq<T>, i: int) {
    0 <= i <= |s| - |p| && s[i..i + |p|] == p
  }

  /** The least occurrence of `p` in `s` at or after `from`, or -1. */
  function FirstFrom<T(==)>(s: seq<T>, p: seq<T>, from: nat): (at: int)
    ensures at == -1 || (from <= at <= |s| - |p| && OccursAt(s, p, at))
    decreases |s| - from
  {
    if from + |p| > |s| then -1
    else if OccursAt(s, p, from) then from
    else FirstFrom(s, p, from + 1)
  }

  /** The greatest occurrence of `p` in `s` at or before `upTo`, or -1. */
  function LastUpTo<T(==)>(s: seq<T>, p: seq<T>, upTo: int): (at: int)
    requires upTo >= -1
    ensures at == -1 || (0 <= at <= upTo && at <= |s| - |p| && OccursAt(s, p, at))
    decreases upTo + 1
  {
    if upTo < 0 then -1
    else if OccursAt(s, p, upTo) then upTo
    else LastUpTo(s, p, upTo - 1)
  }

  /** `FirstFrom` overlooks nothing. */
  lemma {:induction false} FirstIsLeast<T>(s: seq<T>, p: seq<T>, from: nat, j: nat)
    requires from <= j && OccursAt(s, p, j)
    ensures from <= FirstFrom(s, p, from) <= j
    decreases |s| - from
  {
    if !OccursAt(s, p, from) { FirstIsLeast(s, p, from + 1, j); }
  }

  lemma {:induction false} Assoc<T>(a: seq<T>, b: seq<T>, c: seq<T>)
    ensures a + (b + c) == a + b + c
  {
  }

  lemma {:induction false} TooShort<T>(s: seq<T>, p: seq<T>, from: nat)
    requires from + |p| > |s|
    ensures FirstFrom(s, p, from) == -1
  {
  }

  /** `LastUpTo` overlooks nothing. */
  lemma {:induction false} LastIsGreatest<T>(s: seq<T>, p: seq<T>, upTo: int, j: nat)
    requires j <= upTo && OccursAt(s, p, j)
    ensures j <= LastUpTo(s, p, upTo) <= upTo
    decreases upTo
  {
    if !OccursAt(s, p, upTo) { LastIsGreatest(s, p, upTo - 1, j); }
  }

  /** Occurrences of a slice are the occurrences that fit inside it. */
  lemma {:induction false} SliceOccurs<T>(s: seq<T>, p: seq<T>, lo: nat, hi: nat, k: int)
    requires lo <= hi <= |s|
    ensures OccursAt(s[lo..hi], p, k) <==> 0 <= k && lo + k + |p| <= hi && OccursAt(s, p, lo + k)
  {
    if 0 <= k && lo + k + |p| <= hi {
      var a, b := s[lo..hi][k..k + |p|], s[lo + k..lo + k + |p|];
      assert |a| == |b| && forall i :: 0 <= i < |p| ==> a[i] == s[lo + k + i] == b[i];
    }
  }

  lemma {:induction false} PrefixOccurs<T>(s: seq<T>, p: seq<T>, hi: nat, k: int)
    requires hi <= |s|
    ensures OccursAt(s[..hi], p, k) <==> k + |p| <= hi && OccursAt(s, p, k)
  {
    assert s[..hi] == s[0..hi];
    SliceOccurs(s, p, 0, hi, k);
  }

  lemma {:induction false} SliceOfPrefix<T>(s: seq<T>, hi: nat, lo: nat, k: nat)
    requires lo <= k <= hi <= |s|
    ensures s[..hi][lo..k] == s[lo..k]
    ensures s[..hi][lo..] == s[lo..hi]
    ensures s[..hi][..k] == s[..k]
    ensures s[..hi][k..] == s[k..hi]
  {
  }

  lemma {:induction false} SliceFromZero<T>(s: seq<T>, k: nat)
    requires k <= |s|
    ensures s[0..k] == s[..k]
  {
  }

  /** Cutting at an occurrence of `f` and putting `f` back. */
  lemma {:induction false} CutAndPaste<T>(s: seq<T>, f: seq<T>, from: nat, k: nat)
    requires from <= k && OccursAt(s, f, k)
    ensures s[from..] == s[from..k] + f + s[k + |f|..]
  {
    assert s[k..] == s[k..k + |f|] + s[k + |f|..];
    assert s[from..] == s[from..k] + s[k..];
  }

  /** The first occurrence of a prefix is the first occurrence, if it fits. */
  lemma {:induction false} FirstInPrefix<T>(s: seq<T>, p: seq<T>, hi: nat, from: nat)
    requires hi <= |s|
    ensures var k := FirstFrom(s, p, from);
            FirstFrom(s[..hi], p, from) == if k >= 0 && k + |p| <= hi then k else -1
  {
    var k, l := FirstFrom(s, p, from), FirstFrom(s[..hi], p, from);
    PrefixOccurs(s, p, hi, k);
    PrefixOccurs(s, p, hi, l);
    if k >= 0 && k + |p| <= hi { FirstIsLeast(s[..hi], p, from, k); }
    if l >= 0 { FirstIsLeast(s, p, from, l); }
  }

  /** Searching from `i` only looks at the text from there on. */
  lemma {:induction false} FirstInSuffix<T>(s: seq<T>, t: seq<T>, p: seq<T>, i: nat)
    requires i <= |s| == |t| && s[i..] == t[i..]
    ensures FirstFrom(s, p, i) == FirstFrom(t, p, i)
    decreases |s| - i
  {
    if i + |p| <= |s| {
      assert s[i..i + |p|] == s[i..][..|p|] == t[i..i + |p|];
      if i < |s| {
        assert s[i + 1..] == s[i..][1..] == t[i + 1..];
        FirstInSuffix(s, t, p, i + 1);
      }
    }
  }

  // ----- leftmost, non-overlapping replacement

  /** Leftmost, non-overlapping replacement of `f` by `r` in `s[from..]`. */
  function ReplaceFrom<T(==)>(s: seq<T>, f: seq<T>, r: seq<T>, from: nat): seq<T>
    requires f != [] && from <= |s|
    decreases |s| - from
  {
    var k := FirstFrom(s, f, from);
    if k < 0 then s[from..]
    else s[from..k] + r + ReplaceFrom(s, f, r, k + |f|)
  }

  /** One step of `ReplaceFrom`, for proofs that keep its definition hidden. */
  lemma {:induction false} ReplaceNext<T>(s: seq<T>, f: seq<T>, r: seq<T>, from: nat)
    requires f != [] && from <= |s| && FirstFrom(s, f, from) >= 0
    ensures var k := FirstFrom(s, f, from);
            ReplaceFrom(s, f, r, from) == s[from..k] + r + ReplaceFrom(s, f, r, k + |f|)
  {
    hide FirstFrom;
    hide OccursAt;
  }

  /** The last step of `ReplaceFrom`. */
  lemma {:induction false} ReplaceDone<T>(s: seq<T>, f: seq<T>, r: seq<T>, from: nat)
    requires f != [] && from <= |s| && FirstFrom(s, f, from) < 0
    ensures ReplaceFrom(s, f, r, from) == s[from..]
  {
    hide FirstFrom;
    hide OccursAt;
  }

  function ReplaceAll<T(==)>(s: seq<T>, f: seq<T>, r: seq<T>): seq<T>
    requires f != []
  {
    ReplaceFrom(s, f, r, 0)
  }

  /** How many occurrences `ReplaceFrom` replaces. */
  function CountFrom<T(==)>(s: seq<T>, f: seq<T>, from: nat): nat
    requires f != [] && from <= |s|
    decreases |s| - from
  {
    var k := FirstFrom(s, f, from);
    if k < 0 then 0 else 1 + CountFrom(s, f, k + |f|)
  }

  /** The pieces left when the leftmost non-overlapping occurrences of `f` are cut out. */
  function Split<T(==)>(s: seq<T>, f: seq<T>, from: nat): (pieces: seq<seq<T>>)
    requires f != [] && from <= |s|
    ensures pieces != []
    decreases |s| - from
  {
    var k := FirstFrom(s, f, from);
    if k < 0 then [s[from..]] else [s[from..k]] + Split(s, f, k + |f|)
  }

  /** The pieces glued together with `glue` between neighbours. */
  function Join<T>(pieces: seq<seq<T>>, glue: seq<T>): seq<T>
    requires pieces != []
  {
    if |pieces| == 1 then pieces[0] else pieces[0] + glue + Join(pieces[1..], glue)
  }

  /** Replacing is cutting out every `f` and gluing with `r`; gluing with `f` restores the text. */
  lemma {:induction false} ReplaceIsSplitJoin<T>(s: seq<T>, f: seq<T>, r: seq<T>, from: nat)
    requires f != [] && from <= |s|
    ensures ReplaceFrom(s, f, r, from) == Join(Split(s, f, from), r)
    ensures Join(Split(s, f, from), f) == s[from..]
    decreases |s| - from
  {
    hide FirstFrom;
    hide OccursAt;
    hide ReplaceFrom;
    var k := FirstFrom(s, f, from);
    if k < 0 {
      ReplaceDone(s, f, r, from);
    } else {
      ReplaceNext(s, f, r, from);
      ReplaceIsSplitJoin(s, f, r, k + |f|);
      assert Split(s, f, from)[1..] == Split(s, f, k + |f|);
      CutAndPaste(s, f, from, k);
    }
  }

  /** No piece contains `f`: every occurrence that could be replaced is. */
  lemma {:induction false} PiecesHaveNone<T>(s: seq<T>, f: seq<T>, from: nat, i: nat)
    requires f != [] && from <= |s| && i < |Split(s, f, from)|
    ensures FirstFrom(Split(s, f, from)[i], f, 0) == -1
    decreases |s| - from
  {
    hide FirstFrom;
    hide OccursAt;
    var k := FirstFrom(s, f, from);
    if i > 0 {
      PiecesHaveNone(s, f, k + |f|, i - 1);
    } else {
      var hi := if k < 0 then |s| else k;
      assert Split(s, f, from)[0] == s[from..hi];
      var l := FirstFrom(s[from..hi], f, 0);
      if l >= 0 {
        SliceOccurs(s, f, from, hi, l);
        FirstIsLeast(s, f, from, from + l);
      }
    }
  }

  /** `n` added `d` times; a product kept out of the solver's sight. */
  function Times(n: nat, d: int): int {
    if n == 0 then 0 else d + Times(n - 1, d)
  }

  lemma {:induction false} TimesIsProduct(n: nat, d: int)
    ensures Times(n, d) == n * d
  {
    if n > 0 {
      TimesIsProduct(n - 1, d);
      assert (n - 1) * d + d == n * d;
    }
  }

  lemma {:induction false} TimesAdd(m: nat, n: nat, d: int)
    ensures Times(m + n, d) == Times(m, d) + Times(n, d)
  {
    if m > 0 { TimesAdd(m - 1, n, d); }
  }

  lemma {:induction false} ReplaceStep<T>(s: seq<T>, f: seq<T>, r: seq<T>, from: nat)
    requires f != [] && from <= |s| && FirstFrom(s, f, from) >= 0
    ensures var next := FirstFrom(s, f, from) + |f|;
            && |ReplaceFrom(s, f, r, from)| == next - from + (|r| - |f|) + |ReplaceFrom(s, f, r, next)|
            && CountFrom(s, f, from) == 1 + CountFrom(s, f, next)
  {
    hide FirstFrom;
    hide OccursAt;
  }

  lemma {:induction false} ReplaceLengthTimes<T>(s: seq<T>, f: seq<T>, r: seq<T>, from: nat)
    requires f != [] && from <= |s|
    ensures |ReplaceFrom(s, f, r, from)| == |s| - from + Times(CountFrom(s, f, from), |r| - |f|)
    decreases |s| - from
  {
    hide FirstFrom;
    hide OccursAt;
    var k := FirstFrom(s, f, from);
    if k >= 0 {
      ReplaceStep(s, f, r, from);
      ReplaceLengthTimes(s, f, r, k + |f|);
    }
  }

  /** Each replacement changes the length by `|r| - |f|`. */
  lemma {:induction false} ReplaceLength<T>(s: seq<T>, f: seq<T>, r: seq<T>)
    requires f != []
    ensures |ReplaceAll(s, f, r)| == |s| + CountFrom(s, f, 0) * (|r| - |f|)
  {
    ReplaceLengthTimes(s, f, r, 0);
    TimesIsProduct(CountFrom(s, f, 0), |r| - |f|);
  }
}
