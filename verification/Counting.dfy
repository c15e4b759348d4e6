/** How many occurrences fit into a text without overlapping, and which of them leftmost replacement takes. */
module Counting {
  import opened Patterns

  /** `f` occurs at `q`, and not behind it. */
  ghost predicate LastAt<T>(s: seq<T>, f: seq<T>, q: nat) {
    OccursAt(s, f, q) && forall j :: q < j ==> !OccursAt(s, f, j)
  }

  lemma {:induction false} LastAtFits<T>(s: seq<T>, f: seq<T>, q: nat, from: nat)
    requires f != [] && LastAt(s, f, q)
    ensures q + |f| <= |s| && (from <= q ==> from <= FirstFrom(s, f, from) <= q)
    ensures q < from ==> FirstFrom(s, f, from) < 0
  {
    assert q + |f| <= |s|;
    hide FirstFrom;
    hide OccursAt;
    if from <= q { FirstIsLeast(s, f, from, q); }
  }

  // ----- counting

  lemma {:induction false} CountStep<T>(s: seq<T>, f: seq<T>, from: nat)
    requires f != [] && from <= |s|
    ensures var k := FirstFrom(s, f, from);
            if k < 0 then CountFrom(s, f, from) == 0
            else FirstFrom(s, f, k) == k && CountFrom(s, f, from) == CountFrom(s, f, k) == 1 + CountFrom(s, f, k + |f|)
  {
    hide OccursAt;
    var k := FirstFrom(s, f, from);
    if k >= 0 { FirstIsLeast(s, f, k, k); }
    hide FirstFrom;
  }

  /** A later start never finds more. */
  lemma {:induction false} CountLater<T>(s: seq<T>, f: seq<T>, a: nat, b: nat)
    requires f != [] && a <= b <= |s|
    ensures CountFrom(s, f, b) <= CountFrom(s, f, a)
    decreases |s| - a
  {
    hide FirstFrom;
    hide OccursAt;
    hide CountFrom;
    CountStep(s, f, a);
    CountStep(s, f, b);
    var l := FirstFrom(s, f, b);
    if l >= 0 {
      FirstIsLeast(s, f, a, l);
      CountLater(s, f, FirstFrom(s, f, a) + |f|, l + |f|);
    }
  }

  /** The last occurrence adds exactly one, whatever it overlaps. */
  lemma {:induction false} CountCut<T>(s: seq<T>, f: seq<T>, q: nat, from: nat)
    requires f != [] && from <= q && LastAt(s, f, q)
    ensures q <= |s| && CountFrom(s, f, from) == CountFrom(s[..q], f, from) + 1
    decreases q - from
  {
    hide *;
    LastAtFits(s, f, q, from);
    var k := FirstFrom(s, f, from);
    FirstInPrefix(s, f, q, from);
    CountStep(s, f, from);
    CountStep(s[..q], f, from);
    if k + |f| <= q {
      CountCut(s, f, q, k + |f|);
    } else {
      LastAtFits(s, f, q, k + |f|);
      CountStep(s, f, k + |f|);
    }
  }

  /** Between `q` and a place less than a pattern further on at most one more ends. */
  lemma {:induction false} CountPrefix<T>(t: seq<T>, f: seq<T>, p: nat, q: nat, from: nat)
    requires f != [] && from <= q <= p <= |t| && p < q + |f|
    ensures CountFrom(t[..q], f, from) <= CountFrom(t[..p], f, from) <= CountFrom(t[..q], f, from) + 1
    ensures CountFrom(t[..p], f, from) > CountFrom(t[..q], f, from) ==> exists k :: q < k + |f| <= p && OccursAt(t, f, k)
    decreases p - from
  {
    hide FirstFrom;
    hide OccursAt;
    hide CountFrom;
    var k := FirstFrom(t, f, from);
    FirstInPrefix(t, f, p, from);
    FirstInPrefix(t, f, q, from);
    CountStep(t[..p], f, from);
    CountStep(t[..q], f, from);
    if 0 <= k && k + |f| <= q {
      CountPrefix(t, f, p, q, k + |f|);
    } else if 0 <= k && k + |f| <= p {
      TooShort(t[..p], f, k + |f|);
      CountStep(t[..p], f, k + |f|);
    }
  }

  // ----- which occurrences are taken

  /** Where leftmost replacement has got to with the occurrences that end by `p`. */
  function Reach<T(==)>(t: seq<T>, f: seq<T>, from: nat, p: nat): (c: nat)
    requires f != [] && from <= p <= |t|
    ensures from <= c <= p
    decreases p - from
  {
    var k := FirstFrom(t, f, from);
    if k < 0 || k + |f| > p then from else Reach(t, f, k + |f|, p)
  }

  /** The occurrences by `q`, and those that follow by `p`. */
  lemma {:induction false} ReachSplit<T>(t: seq<T>, f: seq<T>, from: nat, q: nat, p: nat)
    requires f != [] && from <= q <= p <= |t|
    ensures var c := Reach(t, f, from, q);
            && CountFrom(t[..p], f, from) == CountFrom(t[..q], f, from) + CountFrom(t[..p], f, c)
            && Reach(t, f, from, p) == Reach(t, f, c, p)
            && (FirstFrom(t, f, c) < 0 || FirstFrom(t, f, c) + |f| > q)
    decreases q - from
  {
    hide FirstFrom;
    hide OccursAt;
    hide CountFrom;
    var k := FirstFrom(t, f, from);
    FirstInPrefix(t, f, p, from);
    FirstInPrefix(t, f, q, from);
    CountStep(t[..p], f, from);
    CountStep(t[..q], f, from);
    if 0 <= k && k + |f| <= q { ReachSplit(t, f, k + |f|, q, p); }
  }

  /** Nothing ends between the last occurrence taken by `p` and `p`. */
  lemma {:induction false} ReachNext<T>(t: seq<T>, f: seq<T>, c: nat, p: nat)
    requires f != [] && c <= p <= |t|
    ensures var k := FirstFrom(t, f, c);
            if k < 0 || k + |f| > p then CountFrom(t[..p], f, c) == 0 && Reach(t, f, c, p) == c
            else CountFrom(t[..p], f, c) == 1 + CountFrom(t[..p], f, k + |f|) && Reach(t, f, c, p) == Reach(t, f, k + |f|, p)
  {
    hide FirstFrom;
    hide OccursAt;
    hide CountFrom;
    FirstInPrefix(t, f, p, c);
    CountStep(t[..p], f, c);
  }

  /** What is taken by `q` depends only on the text up to there. */
  lemma {:induction false} ReachPrefix<T>(t: seq<T>, f: seq<T>, from: nat, q: nat, p: nat)
    requires f != [] && from <= q <= p <= |t|
    ensures Reach(t[..p], f, from, q) == Reach(t, f, from, q)
    decreases q - from
  {
    hide FirstFrom;
    hide OccursAt;
    var k := FirstFrom(t, f, from);
    FirstInPrefix(t, f, p, from);
    if 0 <= k && k + |f| <= q { ReachPrefix(t, f, k + |f|, q, p); }
  }

  // ----- whether an occurrence could be taken later

  /** The occurrence at `k` can be skipped without finding fewer. */
  predicate Delays<T(==)>(s: seq<T>, f: seq<T>, k: nat)
    requires f != [] && k < |s|
  {
    CountFrom(s, f, k + 1) == CountFrom(s, f, k)
  }

  lemma {:induction false} LastDelays<T>(s: seq<T>, f: seq<T>, q: nat)
    requires f != [] && LastAt(s, f, q)
    ensures q + |f| <= |s| && !Delays(s, f, q) && FirstFrom(s, f, q) == q && FirstFrom(s, f, q + |f|) < 0
  {
    LastAtFits(s, f, q, q);
    LastAtFits(s, f, q, q + 1);
    LastAtFits(s, f, q, q + |f|);
    hide FirstFrom;
    hide OccursAt;
    hide CountFrom;
    hide LastAt;
    CountStep(s, f, q);
    CountStep(s, f, q + 1);
  }

  /** Cutting before the last occurrence does not change which earlier ones can be skipped; one that overlaps
      the last one always can. */
  lemma {:induction false} DelaysCut<T>(s: seq<T>, f: seq<T>, q: nat, k: nat)
    requires f != [] && k < q && LastAt(s, f, q) && FirstFrom(s, f, k) == k
    ensures k < q <= |s| && (if k + |f| <= q then Delays(s, f, k) == Delays(s[..q], f, k) else Delays(s, f, k))
  {
    LastAtFits(s, f, q, k);
    CountCut(s, f, q, k);
    CountCut(s, f, q, k + 1);
    hide FirstFrom;
    hide OccursAt;
    hide CountFrom;
    hide LastAt;
    if k + |f| > q {
      FirstInPrefix(s, f, q, k);
      CountStep(s[..q], f, k);
      CountLater(s[..q], f, k, k + 1);
    }
  }

  /** Occurrences do not overlap. */
  ghost predicate Apart<T>(s: seq<T>, f: seq<T>) {
    forall i, j :: i < j && OccursAt(s, f, i) && OccursAt(s, f, j) ==> i + |f| <= j
  }

  /** An occurrence that overlaps none cannot be taken later. */
  lemma {:induction false} ApartNeverDelays<T>(s: seq<T>, f: seq<T>, k: nat)
    requires f != [] && k < |s| && Apart(s, f) && FirstFrom(s, f, k) == k
    ensures !Delays(s, f, k)
  {
    hide FirstFrom;
    hide OccursAt;
    hide CountFrom;
    CountStep(s, f, k);
    CountStep(s, f, k + 1);
    var l := FirstFrom(s, f, k + 1);
    if l >= 0 { CountLater(s, f, k + |f|, l); }
  }
}
