/** The growing branch of `String::replace`, as a transformation of the text.

    The loop walks from the right and searches the text it has just edited, so an
    inserted replacement can take part in a later match.  This module proves exactly
    when that never matters. */
module RightToLeft {
  import opened Counting
  import opened Patterns

  /** The text after replacing at `p`. */
  function Graft<T(==)>(t: seq<T>, f: seq<T>, r: seq<T>, p: nat): seq<T>
    requires p + |f| <= |t|
  {
    t[..p] + r + t[p + |f|..]
  }

  /** The text the loop leaves behind when it continues from `index` on text `t`. */
  function Rewrite<T(==)>(t: seq<T>, f: seq<T>, r: seq<T>, index: int): seq<T>
    requires f != [] && index >= -1
    decreases index + 1
  {
    var p := LastUpTo(t, f, index);
    if p < 0 then t else Rewrite(Graft(t, f, r, p), f, r, p - 1)
  }

  /** The whole loop, started at the last character. */
  function RewriteAll<T(==)>(t: seq<T>, f: seq<T>, r: seq<T>): seq<T>
    requires f != []
  {
    Rewrite(t, f, r, |t| - 1)
  }

  /** No proper non-empty prefix of `f` is also a suffix of `f`. */
  ghost predicate Unbordered<T>(f: seq<T>) {
    forall b :: 0 < b < |f| ==> f[..b] != f[|f| - b..]
  }

  /** `f` can be spelled by its first `|f| - b` characters followed by the start of `r`. */
  predicate Grafts<T(==)>(f: seq<T>, r: seq<T>, b: int) {
    0 < b < |f| && f[|f| - b..] <= r
  }

  /** No proper non-empty suffix of `f` is a prefix of `r`. */
  ghost predicate Graftless<T>(f: seq<T>, r: seq<T>) {
    forall b :: !Grafts(f, r, b)
  }

  /** An `r` put at `p` completes, together with the text before it, a new `f` starting at `q`. */
  predicate Revives<T(==)>(t: seq<T>, f: seq<T>, r: seq<T>, p: int, q: int) {
    0 <= q < p <= |t| && Grafts(f, r, q + |f| - p) && t[q..p] == f[..p - q]
  }

  /** No occurrence of `f` within `t[..end]` revives `f` when it is replaced. */
  ghost predicate Settled<T>(t: seq<T>, f: seq<T>, r: seq<T>, end: int) {
    forall p, q :: p + |f| <= end && OccursAt(t, f, p) ==> !Revives(t, f, r, p, q)
  }

  /** No occurrence starts before `p` and reaches past it. */
  ghost predicate NoneCrosses<T>(t: seq<T>, f: seq<T>, p: int) {
    forall q :: p - |f| < q < p ==> !OccursAt(t, f, q)
  }

  // ----- one step of the loop

  /** After replacing at `p`, the crossing occurrences are the revived ones. */
  lemma {:induction false} CrossingIsRevival<T>(t: seq<T>, f: seq<T>, r: seq<T>, p: nat, q: int)
    requires f != [] && |r| >= |f| && p + |f| <= |t|
    requires p - |f| < q < p
    ensures OccursAt(Graft(t, f, r, p), f, q) <==> Revives(t, f, r, p, q)
  {
    if q >= 0 {
      var y, c := Graft(t, f, r, p), p - q;
      var w := y[q..q + |f|];
      assert w[..c] == t[q..p];
      assert w[c..] == r[..|f| - c];
      assert f[..c] + f[c..] == f;
      assert w[..c] + w[c..] == w;
      if f[c..] <= r { assert f[c..] == r[..|f| - c]; }
    }
  }

  /** Where two occurrences overlap, the pattern has a border. */
  lemma {:induction false} OverlapIsBorder<T>(t: seq<T>, f: seq<T>, p: nat, q: nat)
    requires OccursAt(t, f, p) && OccursAt(t, f, q) && p < q < p + |f|
    ensures var b := p + |f| - q; f[..b] == f[|f| - b..]
  {
    assert t[p..p + |f|][q - p..] == t[q..p + |f|];
    assert t[q..q + |f|][..p + |f| - q] == t[q..p + |f|];
  }

  /** In an unbordered pattern two occurrences never overlap. */
  lemma {:induction false} NoOverlap<T>(t: seq<T>, f: seq<T>, p: nat, q: nat)
    requires Unbordered(f) && OccursAt(t, f, p) && OccursAt(t, f, q) && p < q
    ensures p + |f| <= q
  {
    if q < p + |f| { OverlapIsBorder(t, f, p, q); }
  }

  /** Unbordered patterns have no overlapping occurrences. */
  lemma {:induction false} UnborderedIsApart<T>(t: seq<T>, f: seq<T>)
    requires Unbordered(f)
    ensures Apart(t, f)
  {
    hide OccursAt;
    hide Unbordered;
    forall i, j | i < j && OccursAt(t, f, i) && OccursAt(t, f, j)
      ensures i + |f| <= j
    {
      OccurrenceInText(t, f, i);
      NoOverlap(t, f, i, j);
    }
  }

  lemma {:induction false} OccurrenceInText<T>(t: seq<T>, f: seq<T>, i: int)
    requires OccursAt(t, f, i)
    ensures 0 <= i <= |t| - |f|
  {
  }

  /** Seen from `p`, the last occurrence that fits before `p` is the last one in `t[..p]`. */
  lemma {:induction false} LastInPrefix<T>(t: seq<T>, f: seq<T>, p: nat)
    requires f != [] && p <= |t| && 0 <= LastUpTo(t, f, p - 1) <= p - |f|
    ensures LastAt(t[..p], f, LastUpTo(t, f, p - 1))
  {
    hide LastUpTo;
    hide OccursAt;
    var q := LastUpTo(t, f, p - 1);
    PrefixOccurs(t, f, p, q);
    forall j | q < j
      ensures !OccursAt(t[..p], f, j)
    {
      PrefixOccurs(t, f, p, j);
      if j < p && OccursAt(t, f, j) { LastIsGreatest(t, f, p - 1, j); }
    }
  }

  lemma {:induction false} NoneStarts<T>(t: seq<T>, f: seq<T>, p: nat)
    requires f != [] && p <= |t| && LastUpTo(t, f, p - 1) < 0
    ensures forall k :: k < p ==> !OccursAt(t, f, k)
  {
    hide LastUpTo;
    forall k | k < p
      ensures !OccursAt(t, f, k)
    {
      if OccursAt(t, f, k) { LastIsGreatest(t, f, p - 1, k); }
    }
  }

  lemma {:induction false} NothingLeft<T>(t: seq<T>, f: seq<T>, r: seq<T>, p: nat)
    requires f != [] && p <= |t| && LastUpTo(t, f, p - 1) < 0
    ensures NoneCrosses(t, f, p) && Settled(t, f, r, p)
    ensures FirstFrom(t[..p], f, 0) < 0 && CountFrom(t[..p], f, 0) == 0
  {
    NoneStarts(t, f, p);
    var k := FirstFrom(t[..p], f, 0);
    PrefixOccurs(t, f, p, k);
    hide LastUpTo;
    hide FirstFrom;
  }

  /** The loop's last match before `p` reaches past it unless nothing crosses `p`. */
  lemma {:induction false} FitsIfNoneCrosses<T>(t: seq<T>, f: seq<T>, p: nat)
    requires f != [] && p <= |t| && LastUpTo(t, f, p - 1) >= 0
    ensures NoneCrosses(t, f, p) <==> LastUpTo(t, f, p - 1) + |f| <= p
  {
    hide LastUpTo;
    hide OccursAt;
    var q := LastUpTo(t, f, p - 1);
    forall k | q < k < p
      ensures !OccursAt(t, f, k)
    {
      if OccursAt(t, f, k) { LastIsGreatest(t, f, p - 1, k); }
    }
  }

  lemma {:induction false} GraftSlices<T>(t: seq<T>, f: seq<T>, r: seq<T>, p: nat, q: nat)
    requires q + |f| <= p <= |t|
    ensures |Graft(t, f, r, q)| == |t| + |r| - |f| && |Graft(t, f, r, q)| >= q
    ensures Graft(t, f, r, q)[..q] == t[..p][..q] == t[..q]
    ensures Graft(t, f, r, q)[q..] == r + t[q + |f|..p] + t[p..]
    ensures t[..p][q + |f|..] == t[q + |f|..p]
  {
  }

  /** After replacing the last match `q`, nothing crosses `q` exactly if `q` revived nothing. */
  lemma {:induction false} CrossesIfRevived<T>(t: seq<T>, f: seq<T>, r: seq<T>, q: nat)
    requires f != [] && |r| >= |f| && q + |f| <= |t|
    ensures |Graft(t, f, r, q)| >= q
    ensures NoneCrosses(Graft(t, f, r, q), f, q) <==> forall k :: !Revives(t, f, r, q, k)
  {
    hide OccursAt;
    forall k | q - |f| < k < q
      ensures OccursAt(Graft(t, f, r, q), f, k) <==> Revives(t, f, r, q, k)
    {
      CrossingIsRevival(t, f, r, q, k);
    }
    forall k | Revives(t, f, r, q, k)
      ensures q - |f| < k < q
    {
    }
    hide Revives;
  }

  /** Replacing at `q` changes neither the occurrences nor the revivals before it. */
  lemma {:induction false} EarlierRevival<T>(t: seq<T>, f: seq<T>, r: seq<T>, q: nat, i: int, k: int)
    requires q + |f| <= |t| && i + |f| <= q
    ensures OccursAt(Graft(t, f, r, q), f, i) <==> OccursAt(t, f, i)
    ensures Revives(Graft(t, f, r, q), f, r, i, k) <==> Revives(t, f, r, i, k)
  {
    var y := Graft(t, f, r, q);
    if 0 <= i { assert y[i..i + |f|] == t[i..i + |f|]; }
    if 0 <= k < i { assert y[k..i] == t[k..i]; }
  }

  // ----- exactly when the loop is leftmost replacement

  /** Each occurrence that leftmost replacement takes from `from` on could not be taken later without losing
      one, and revives nothing when it is replaced. */
  ghost predicate Faithful<T>(t: seq<T>, f: seq<T>, r: seq<T>, from: nat)
    requires f != [] && from <= |t|
    decreases |t| - from
  {
    var k := FirstFrom(t, f, from);
    k < 0 || (!Delays(t, f, k) && (forall q :: !Revives(t, f, r, k, q)) && Faithful(t, f, r, k + |f|))
  }

  lemma {:induction false} FaithfulNext<T>(t: seq<T>, f: seq<T>, r: seq<T>, from: nat)
    requires f != [] && from <= |t|
    ensures var k := FirstFrom(t, f, from);
            Faithful(t, f, r, from) <==>
            k < 0 || (!Delays(t, f, k) && (forall q :: !Revives(t, f, r, k, q)) && Faithful(t, f, r, k + |f|))
  {
    hide FirstFrom;
    hide OccursAt;
    hide Delays;
    hide Revives;
  }

  /** Seen from the right: the last occurrence is one that leftmost replacement takes, it revives nothing, and
      the text before it is faithful. */
  lemma {:induction false} FaithfulSplit<T>(s: seq<T>, f: seq<T>, r: seq<T>, q: nat, from: nat)
    requires f != [] && from <= q && LastAt(s, f, q)
    ensures q + |f| <= |s|
    ensures Faithful(s, f, r, from)
            <==> FirstFrom(s, f, Reach(s, f, from, q)) == q && (forall k :: !Revives(s, f, r, q, k)) && Faithful(s[..q], f, r, from)
    decreases q - from
  {
    hide *;
    LastAtFits(s, f, q, from);
    var k := FirstFrom(s, f, from);
    FirstInPrefix(s, f, q, from);
    CountStep(s, f, from);
    FaithfulNext(s, f, r, from);
    FaithfulNext(s[..q], f, r, from);
    ReachStep(s, f, from, q);
    if k == q {
      LastDelays(s, f, q);
      FaithfulNext(s, f, r, q + |f|);
    } else {
      DelaysCut(s, f, q, k);
      if k + |f| <= q {
        forall j ensures Revives(s[..q], f, r, k, j) <==> Revives(s, f, r, k, j) { PrefixRevival(s, f, r, q, k, j); }
        FaithfulSplit(s, f, r, q, k + |f|);
      }
    }
  }

  lemma {:induction false} ReachStep<T>(t: seq<T>, f: seq<T>, from: nat, p: nat)
    requires f != [] && from <= p <= |t|
    ensures var k := FirstFrom(t, f, from);
            Reach(t, f, from, p) == if k < 0 || k + |f| > p then from else Reach(t, f, k + |f|, p)
  {
    hide FirstFrom;
  }

  lemma {:induction false} PrefixRevival<T>(s: seq<T>, f: seq<T>, r: seq<T>, q: nat, k: nat, j: int)
    requires k <= q <= |s|
    ensures Revives(s[..q], f, r, k, j) <==> Revives(s, f, r, k, j)
  {
    if 0 <= j < k { assert s[..q][j..k] == s[j..k]; }
  }

  /** Leftmost replacement of a faithful text can be cut before the last occurrence. */
  lemma {:induction false} ReplaceCut<T>(s: seq<T>, f: seq<T>, r: seq<T>, q: nat, from: nat)
    requires f != [] && from <= q && LastAt(s, f, q) && FirstFrom(s, f, Reach(s, f, from, q)) == q
    ensures q + |f| <= |s| && ReplaceFrom(s, f, r, from) == ReplaceFrom(s[..q], f, r, from) + r + s[q + |f|..]
    decreases q - from
  {
    hide *;
    LastAtFits(s, f, q, from);
    var k := FirstFrom(s, f, from);
    FirstInPrefix(s, f, q, from);
    SliceOfPrefix(s, q, from, k);
    ReplaceNext(s, f, r, from);
    ReachStep(s, f, from, q);
    if k == q {
      LastDelays(s, f, q);
      ReplaceDone(s[..q], f, r, from);
      ReplaceDone(s, f, r, q + |f|);
    } else {
      ReplaceNext(s[..q], f, r, from);
      ReplaceCut(s, f, r, q, k + |f|);
      var rest := ReplaceFrom(s[..q], f, r, k + |f|);
      Assoc(s[from..k] + r, rest + r, s[q + |f|..]);
      Assoc(s[from..k] + r, rest, r);
    }
  }

  /** If nothing crosses `p` and `t[..p]` is faithful, the loop does to `t[..p]` what leftmost replacement
      does, and leaves `t[p..]` alone. */
  lemma {:induction false} RewriteFaithful<T>(t: seq<T>, f: seq<T>, r: seq<T>, p: nat)
    requires f != [] && |r| >= |f| && p <= |t| && NoneCrosses(t, f, p) && Faithful(t[..p], f, r, 0)
    ensures Rewrite(t, f, r, p - 1) == ReplaceFrom(t[..p], f, r, 0) + t[p..]
    decreases p
  {
    hide *;
    RewriteStep(t, f, r, p);
    var q := LastUpTo(t, f, p - 1);
    if q < 0 {
      NothingLeft(t, f, r, p);
      ReplaceDone(t[..p], f, r, 0);
      SliceFromZero(t, p);
      assert t[..p][0..] + t[p..] == t;
    } else {
      FitsIfNoneCrosses(t, f, p);
      LastInPrefix(t, f, p);
      FaithfulSplit(t[..p], f, r, q, 0);
      ReplaceCut(t[..p], f, r, q, 0);
      GraftSlices(t, f, r, p, q);
      forall k ensures Revives(t[..p], f, r, q, k) <==> Revives(t, f, r, q, k) { PrefixRevival(t, f, r, p, q, k); }
      CrossesIfRevived(t, f, r, q);
      RewriteFaithful(Graft(t, f, r, q), f, r, q);
      Assoc(ReplaceFrom(t[..q], f, r, 0), r + t[q + |f|..p], t[p..]);
      Assoc(ReplaceFrom(t[..q], f, r, 0), r, t[q + |f|..p]);
    }
  }

  lemma {:induction false} RewriteStep<T>(t: seq<T>, f: seq<T>, r: seq<T>, p: nat)
    requires f != [] && p <= |t|
    ensures var q := LastUpTo(t, f, p - 1);
            && q < p && (q >= 0 ==> q + |f| <= |t|)
            && Rewrite(t, f, r, p - 1) == if q < 0 then t else Rewrite(Graft(t, f, r, q), f, r, q - 1)
  {
    hide OccursAt;
  }

  // ----- lengths

  lemma {:induction false} TimesNext(n: nat, d: int)
    ensures Times(n + 1, d) == d + Times(n, d)
  {
  }

  /** How long leftmost replacement makes `t[..p]`, in terms of the last match `q` before `p`. */
  lemma {:induction false} CountAtLast<T>(t: seq<T>, f: seq<T>, p: nat, q: nat)
    requires f != [] && p <= |t| && q == LastUpTo(t, f, p - 1)
    ensures q <= p
    ensures var n, m := CountFrom(t[..p], f, 0), CountFrom(t[..q], f, 0);
            if q + |f| <= p then n == m + 1
            else m <= n <= m + 1 && (n > m ==> !Unbordered(f))
  {
    hide LastUpTo;
    hide CountFrom;
    hide FirstFrom;
    hide LastAt;
    if q + |f| <= p {
      LastInPrefix(t, f, p);
      CountCut(t[..p], f, q, 0);
      SliceOfPrefix(t, p, 0, q);
    } else {
      CountPrefix(t, f, p, q, 0);
      if CountFrom(t[..p], f, 0) > CountFrom(t[..q], f, 0) && Unbordered(f) {
        var k :| q < k + |f| <= p && OccursAt(t, f, k);
        NoOverlap(t, f, k, q);
      }
    }
  }

  /** Whatever the loop matches, its result is at least as long as leftmost replacement's. */
  lemma {:induction false} RewriteLength<T>(t: seq<T>, f: seq<T>, r: seq<T>, p: nat)
    requires f != [] && |r| > |f| && p <= |t|
    ensures |Rewrite(t, f, r, p - 1)| >= |t| + Times(CountFrom(t[..p], f, 0), |r| - |f|)
    decreases p
  {
    hide *;
    RewriteStep(t, f, r, p);
    var q := LastUpTo(t, f, p - 1);
    if q < 0 {
      NothingLeft(t, f, r, p);
      NoTimes(|r| - |f|);
    } else {
      GraftPrefix(t, f, r, q);
      RewriteLength(Graft(t, f, r, q), f, r, q);
      CountAtLast(t, f, p, q);
      TimesNext(CountFrom(t[..q], f, 0), |r| - |f|);
    }
  }

  lemma {:induction false} NoTimes(d: int)
    ensures Times(0, d) == 0
  {
  }

  lemma {:induction false} GraftPrefix<T>(t: seq<T>, f: seq<T>, r: seq<T>, q: nat)
    requires q + |f| <= |t|
    ensures |Graft(t, f, r, q)| == |t| + |r| - |f| && |Graft(t, f, r, q)| >= q && Graft(t, f, r, q)[..q] == t[..q]
  {
  }

  /** What replacing the last occurrence `q` leaves to the left of it. */
  lemma {:induction false} StepKeepsSettled<T>(t: seq<T>, f: seq<T>, r: seq<T>, p: nat, q: nat)
    requires f != [] && |r| >= |f| && p <= |t| && q + |f| <= p && OccursAt(t, f, q)
    requires Settled(t, f, r, p)
    ensures NoneCrosses(Graft(t, f, r, q), f, q)
    ensures Settled(Graft(t, f, r, q), f, r, q)
  {
    CrossesIfRevived(t, f, r, q);
    var y := Graft(t, f, r, q);
    forall i, k | i + |f| <= q && OccursAt(y, f, i)
      ensures !Revives(y, f, r, i, k)
    {
      EarlierRevival(t, f, r, q, i, k);
      assert !Revives(t, f, r, i, k);
    }
  }

  /** If no occurrence revives another, the result is exactly as long. */
  lemma {:induction false} SettledLength<T>(t: seq<T>, f: seq<T>, r: seq<T>, p: nat)
    requires f != [] && |r| > |f| && p <= |t| && NoneCrosses(t, f, p) && Settled(t, f, r, p)
    ensures |Rewrite(t, f, r, p - 1)| == |t| + Times(CountFrom(t[..p], f, 0), |r| - |f|)
    decreases p
  {
    hide *;
    RewriteStep(t, f, r, p);
    var q := LastUpTo(t, f, p - 1);
    if q < 0 {
      NothingLeft(t, f, r, p);
      NoTimes(|r| - |f|);
    } else {
      FitsIfNoneCrosses(t, f, p);
      GraftPrefix(t, f, r, q);
      StepKeepsSettled(t, f, r, p, q);
      SettledLength(Graft(t, f, r, q), f, r, q);
      CountAtLast(t, f, p, q);
      TimesNext(CountFrom(t[..q], f, 0), |r| - |f|);
    }
  }

  /** Revivals survive the step they are not part of. */
  lemma {:induction false} UnsettledStep<T>(t: seq<T>, f: seq<T>, r: seq<T>, p: nat, q: nat)
    requires f != [] && |r| >= |f| && Unbordered(f) && p <= |t| && q + |f| <= p
    requires q == LastUpTo(t, f, p - 1)
    requires NoneCrosses(Graft(t, f, r, q), f, q) && Settled(Graft(t, f, r, q), f, r, q)
    ensures Settled(t, f, r, p)
  {
    hide LastUpTo;
    forall i, k | i + |f| <= p && OccursAt(t, f, i)
      ensures !Revives(t, f, r, i, k)
    {
      LastIsGreatest(t, f, p - 1, i);
      if i == q {
        CrossesIfRevived(t, f, r, q);
      } else {
        NoOverlap(t, f, i, q);
        EarlierRevival(t, f, r, q, i, k);
      }
    }
  }

  /** For an unbordered pattern only then. */
  lemma {:induction false} UnborderedLength<T>(t: seq<T>, f: seq<T>, r: seq<T>, p: nat)
    requires f != [] && |r| > |f| && Unbordered(f) && p <= |t|
    requires |Rewrite(t, f, r, p - 1)| == |t| + Times(CountFrom(t[..p], f, 0), |r| - |f|)
    ensures NoneCrosses(t, f, p) && Settled(t, f, r, p)
    decreases p
  {
    hide *;
    RewriteStep(t, f, r, p);
    var q := LastUpTo(t, f, p - 1);
    if q < 0 {
      NothingLeft(t, f, r, p);
    } else {
      GraftPrefix(t, f, r, q);
      RewriteLength(Graft(t, f, r, q), f, r, q);
      CountAtLast(t, f, p, q);
      TimesNext(CountFrom(t[..q], f, 0), |r| - |f|);
      UnborderedLength(Graft(t, f, r, q), f, r, q);
      FitsIfNoneCrosses(t, f, p);
      UnsettledStep(t, f, r, p, q);
    }
  }

  // ----- equal results come from faithful texts only

  /** Two ways to go on with a replacement that agree although one starts at `k` and the other at a later,
      overlapping occurrence `j`: then replacing at `j` revives the occurrence at `k`. */
  lemma {:induction false} Clash<T>(t: seq<T>, f: seq<T>, r: seq<T>, c: nat, k: nat, j: nat, x: seq<T>, z: seq<T>)
    requires |r| >= |f| && c <= k < j < k + |f| && OccursAt(t, f, k) && OccursAt(t, f, j)
    requires t[c..j] + r + x == t[c..k] + r + z
    ensures Revives(t, f, r, j, k)
  {
    var d := j - k;
    OverlapIsBorder(t, f, k, j);
    assert f[d..] == f[..|f| - d];
    assert t[k..j] == t[k..k + |f|][..d] == f[..d];
    assert t[c..j] == t[c..k] + t[k..j];
    hide OccursAt;
    CancelLeft(t[c..k], t[k..j], r, x, z);
    forall i | 0 <= i < |f| - d
      ensures r[i] == f[i]
    {
      Repeats(f, r, x, z, d, i);
    }
    assert f[d..] == r[..|f| - d];
  }

  lemma {:induction false} CancelLeft<T>(a: seq<T>, b: seq<T>, r: seq<T>, x: seq<T>, z: seq<T>)
    requires a + b + r + x == a + r + z
    ensures b + r + x == r + z
  {
    assert (a + b + r + x)[|a|..] == b + r + x;
    assert (a + r + z)[|a|..] == r + z;
  }

  /** If the loop on `y`, which agrees with `t` up to `p`, ends with the leftmost replacement of `t` and wastes
      no step, then `t[..p]` is faithful and nothing crosses `p`. */
  lemma {:induction false} EqualIsFaithful<T>(t: seq<T>, f: seq<T>, r: seq<T>, y: seq<T>, p: nat)
    requires f != [] && |r| > |f| && p <= |t| && p <= |y| && y[..p] == t[..p]
    requires Rewrite(y, f, r, p - 1) == ReplaceFrom(t, f, r, 0)
    requires |Rewrite(y, f, r, p - 1)| == |y| + Times(CountFrom(t[..p], f, 0), |r| - |f|)
    ensures NoneCrosses(y, f, p) && Faithful(t[..p], f, r, 0)
    ensures y[Reach(t, f, 0, p)..] == ReplaceFrom(t, f, r, Reach(t, f, 0, p))
    decreases p
  {
    hide *;
    RewriteStep(y, f, r, p);
    var q := LastUpTo(y, f, p - 1);
    if q < 0 {
      NothingLeft(y, f, r, p);
      FaithfulNext(t[..p], f, r, 0);
      FirstInPrefix(t, f, p, 0);
      ReachNext(t, f, 0, p);
    } else {
      GraftPrefix(y, f, r, q);
      RewriteLength(Graft(y, f, r, q), f, r, q);
      CountAtLast(y, f, p, q);
      SameUpTo(t, y, q, p);
      TimesNext(CountFrom(t[..q], f, 0), |r| - |f|);
      EqualIsFaithful(t, f, r, Graft(y, f, r, q), q);
      LastIsTaken(t, f, r, y, p, q);
      FaithfulBefore(t, f, r, y, p, q);
    }
  }

  lemma {:induction false} SameUpTo<T>(t: seq<T>, y: seq<T>, q: nat, p: nat)
    requires q <= p <= |t| && p <= |y| && y[..p] == t[..p]
    ensures y[..q] == t[..q]
  {
    assert y[..p][..q] == y[..q] && t[..p][..q] == t[..q];
  }

  /** The loop's last match is the next occurrence that leftmost replacement takes. */
  lemma {:induction false} LastIsTaken<T>(t: seq<T>, f: seq<T>, r: seq<T>, y: seq<T>, p: nat, q: nat)
    requires f != [] && |r| > |f| && p <= |t| && p <= |y| && y[..p] == t[..p] && q <= p
    requires q == LastUpTo(y, f, p - 1) && q + |f| <= |y|
    requires CountFrom(t[..p], f, 0) == CountFrom(t[..q], f, 0) + 1
    requires |Graft(y, f, r, q)| >= q && NoneCrosses(Graft(y, f, r, q), f, q)
    requires Graft(y, f, r, q)[Reach(t, f, 0, q)..] == ReplaceFrom(t, f, r, Reach(t, f, 0, q))
    ensures q + |f| <= p && FirstFrom(t, f, Reach(t, f, 0, q)) == q
  {
    hide *;
    var c := Reach(t, f, 0, q);
    ReachSplit(t, f, 0, q, p);
    ReachNext(t, f, c, p);
    var k := FirstFrom(t, f, c);
    PrefixOccurs(t, f, p, k);
    PrefixOccurs(y, f, p, k);
    LastIsGreatest(y, f, p - 1, k);
    LastOccurs(y, f, p - 1);
    CrossesIfRevived(y, f, r, q);
    if k < q {
      ReplaceNext(t, f, r, c);
      GraftFrom(y, f, r, q, c);
      SamePieces(t, y, c, k, p);
      Clash(y, f, r, c, k, q, y[q + |f|..], ReplaceFrom(t, f, r, k + |f|));
    }
  }

  lemma {:induction false} LastOccurs<T>(t: seq<T>, f: seq<T>, upTo: int)
    requires upTo >= -1 && LastUpTo(t, f, upTo) >= 0
    ensures OccursAt(t, f, LastUpTo(t, f, upTo))
  {
  }

  lemma {:induction false} GraftFrom<T>(y: seq<T>, f: seq<T>, r: seq<T>, q: nat, c: nat)
    requires c <= q && q + |f| <= |y|
    ensures |Graft(y, f, r, q)| >= c && Graft(y, f, r, q)[c..] == y[c..q] + r + y[q + |f|..]
  {
  }

  lemma {:induction false} SamePieces<T>(t: seq<T>, y: seq<T>, c: nat, k: nat, p: nat)
    requires c <= k <= p <= |t| && p <= |y| && y[..p] == t[..p]
    ensures y[c..k] == t[c..k]
  {
    assert y[..p][c..k] == y[c..k] && t[..p][c..k] == t[c..k];
  }

  lemma {:induction false} FaithfulBefore<T>(t: seq<T>, f: seq<T>, r: seq<T>, y: seq<T>, p: nat, q: nat)
    requires f != [] && |r| > |f| && p <= |t| && p <= |y| && y[..p] == t[..p]
    requires q == LastUpTo(y, f, p - 1) && q + |f| <= p && FirstFrom(t, f, Reach(t, f, 0, q)) == q
    requires CountFrom(t[..p], f, 0) == CountFrom(t[..q], f, 0) + 1
    requires |Graft(y, f, r, q)| >= q && NoneCrosses(Graft(y, f, r, q), f, q) && Faithful(t[..q], f, r, 0)
    requires Graft(y, f, r, q)[Reach(t, f, 0, q)..] == ReplaceFrom(t, f, r, Reach(t, f, 0, q))
    ensures NoneCrosses(y, f, p) && Faithful(t[..p], f, r, 0)
    ensures y[Reach(t, f, 0, p)..] == ReplaceFrom(t, f, r, Reach(t, f, 0, p))
  {
    hide *;
    var c := Reach(t, f, 0, q);
    FitsIfNoneCrosses(y, f, p);
    LastInPrefix(y, f, p);
    ReachPrefix(t, f, 0, q, p);
    FirstInPrefix(t, f, p, c);
    CrossesIfRevived(y, f, r, q);
    forall k
      ensures !Revives(t[..p], f, r, q, k)
    {
      PrefixRevival(y, f, r, p, q, k);
    }
    SliceOfPrefix(t, p, 0, q);
    FaithfulSplit(t[..p], f, r, q, 0);
    ReachSplit(t, f, 0, q, p);
    ReachNext(t, f, c, p);
    ReachNext(t, f, q + |f|, p);
    ReplaceNext(t, f, r, c);
    GraftFrom(y, f, r, q, c);
    SamePieces(t, y, c, q, p);
    var x, z := y[q + |f|..], ReplaceFrom(t, f, r, q + |f|);
    assert (y[c..q] + r + x)[q - c + |r|..] == x && (t[c..q] + r + z)[q - c + |r|..] == z;
  }

  /** For all patterns and all texts: the loop is leftmost replacement if and only if the text is faithful. */
  lemma {:induction false} RewriteExact<T>(t: seq<T>, f: seq<T>, r: seq<T>)
    requires f != [] && |r| > |f|
    ensures RewriteAll(t, f, r) == ReplaceAll(t, f, r) <==> Faithful(t, f, r, 0)
  {
    assert t[..|t|] == t && t[|t|..] == [];
    WholeIsUncrossed(t, f);
    ReplaceLengthTimes(t, f, r, 0);
    hide Rewrite;
    hide ReplaceFrom;
    hide CountFrom;
    hide Faithful;
    hide NoneCrosses;
    if Faithful(t, f, r, 0) {
      RewriteFaithful(t, f, r, |t|);
      assert ReplaceFrom(t, f, r, 0) + [] == ReplaceFrom(t, f, r, 0);
    } else if RewriteAll(t, f, r) == ReplaceAll(t, f, r) {
      EqualIsFaithful(t, f, r, t, |t|);
    }
  }

  lemma {:induction false} WholeIsUncrossed<T>(t: seq<T>, f: seq<T>)
    ensures NoneCrosses(t, f, |t|)
  {
  }

  /** The loop never gives less than leftmost replacement, and just as much when no occurrence revives another. */
  lemma {:induction false} RewriteAllLength<T>(t: seq<T>, f: seq<T>, r: seq<T>)
    requires f != [] && |r| > |f|
    ensures |RewriteAll(t, f, r)| >= |ReplaceAll(t, f, r)|
    ensures Settled(t, f, r, |t|) ==> |RewriteAll(t, f, r)| == |ReplaceAll(t, f, r)|
    ensures Unbordered(f) && |RewriteAll(t, f, r)| == |ReplaceAll(t, f, r)| ==> Settled(t, f, r, |t|)
  {
    assert t[..|t|] == t;
    WholeIsUncrossed(t, f);
    ReplaceLengthTimes(t, f, r, 0);
    hide Rewrite;
    hide ReplaceFrom;
    hide CountFrom;
    hide Settled;
    hide NoneCrosses;
    hide Unbordered;
    RewriteLength(t, f, r, |t|);
    if Settled(t, f, r, |t|) { SettledLength(t, f, r, |t|); }
    if Unbordered(f) && |RewriteAll(t, f, r)| == |ReplaceAll(t, f, r)| { UnborderedLength(t, f, r, |t|); }
  }

  /** Where occurrences do not overlap, it is enough that none revives another. */
  lemma {:induction false} ApartIsFaithful<T>(t: seq<T>, f: seq<T>, r: seq<T>, from: nat)
    requires f != [] && from <= |t| && Apart(t, f) && Settled(t, f, r, |t|)
    ensures Faithful(t, f, r, from)
    decreases |t| - from
  {
    hide *;
    FaithfulNext(t, f, r, from);
    CountStep(t, f, from);
    var k := FirstFrom(t, f, from);
    if k >= 0 {
      ApartNeverDelays(t, f, k);
      SettledAt(t, f, r, from);
      ApartIsFaithful(t, f, r, k + |f|);
    }
  }

  lemma {:induction false} SettledAt<T>(t: seq<T>, f: seq<T>, r: seq<T>, from: nat)
    requires Settled(t, f, r, |t|) && FirstFrom(t, f, from) >= 0
    ensures forall q :: !Revives(t, f, r, FirstFrom(t, f, from), q)
  {
    hide FirstFrom;
    hide Revives;
  }

  /** For an unbordered pattern, text by text: the loop is leftmost replacement if and only if no
      replaced occurrence is revived; otherwise its result is longer than the precomputed size. */
  lemma {:induction false} RewriteAllExact<T>(t: seq<T>, f: seq<T>, r: seq<T>)
    requires f != [] && |r| > |f| && Unbordered(f)
    ensures RewriteAll(t, f, r) == ReplaceAll(t, f, r) <==> Settled(t, f, r, |t|)
    ensures |RewriteAll(t, f, r)| >= |ReplaceAll(t, f, r)|
    ensures |RewriteAll(t, f, r)| == |ReplaceAll(t, f, r)| <==> Settled(t, f, r, |t|)
  {
    hide *;
    RewriteAllLength(t, f, r);
    RewriteExact(t, f, r);
    if Settled(t, f, r, |t|) {
      UnborderedIsApart(t, f);
      ApartIsFaithful(t, f, r, 0);
    }
  }

  /** A pattern with no suffix that starts the replacement revives nothing, in any text. */
  lemma {:induction false} GraftlessIsSettled<T>(t: seq<T>, f: seq<T>, r: seq<T>, end: int)
    requires Graftless(f, r)
    ensures Settled(t, f, r, end)
  {
    hide Grafts;
  }

  // ----- exactly how long the result is

  /** The loop's next match before `p`, where it has replaced at `p` unless it has just started: it depends only on
      the text up to `p`, because a match that starts before `p` ends within the replacement. */
  function NextMatch<T(==)>(t: seq<T>, f: seq<T>, r: seq<T>, p: nat): (q: int)
    requires p <= |t|
    ensures q < p
  {
    LastUpTo(if p < |t| then t[..p] + r else t, f, p - 1)
  }

  /** How many matches the loop has before `p`, counted on the original text. */
  function Matches<T(==)>(t: seq<T>, f: seq<T>, r: seq<T>, p: nat): nat
    requires p <= |t|
    decreases p
  {
    var q := NextMatch(t, f, r, p);
    if q < 0 then 0 else 1 + Matches(t, f, r, q)
  }

  /** Searching from `upTo` back only looks at the characters that a match there could reach. */
  lemma {:induction false} LastInReach<T>(s: seq<T>, t: seq<T>, f: seq<T>, upTo: int, n: nat)
    requires -1 <= upTo && upTo + |f| <= n <= |s| && n <= |t| && s[..n] == t[..n]
    ensures LastUpTo(s, f, upTo) == LastUpTo(t, f, upTo)
    decreases upTo + 1
  {
    if upTo >= 0 {
      PrefixOccurs(s, f, n, upTo);
      PrefixOccurs(t, f, n, upTo);
      LastInReach(s, t, f, upTo - 1, n);
    }
  }

  /** The loop on `y`, which has the replacement at `p` behind the text before it, or is the original text. */
  lemma {:induction false} RewriteMatches<T>(t: seq<T>, f: seq<T>, r: seq<T>, y: seq<T>, p: nat)
    requires f != [] && |r| > |f| && p <= |t|
    requires if p < |t| then t[..p] + r <= y else y == t
    ensures |Rewrite(y, f, r, p - 1)| == |y| + Times(Matches(t, f, r, p), |r| - |f|)
    decreases p
  {
    hide *;
    RewriteStep(y, f, r, p);
    MatchesStep(t, f, r, p);
    NextIs(t, f, r, y, p);
    var q := LastUpTo(y, f, p - 1);
    if q < 0 {
      NoTimes(|r| - |f|);
    } else {
      GraftBehind(t, f, r, y, p, q);
      RewriteMatches(t, f, r, Graft(y, f, r, q), q);
      TimesNext(Matches(t, f, r, q), |r| - |f|);
    }
  }

  lemma {:induction false} MatchesStep<T>(t: seq<T>, f: seq<T>, r: seq<T>, p: nat)
    requires p <= |t|
    ensures var q := NextMatch(t, f, r, p);
            q < p && Matches(t, f, r, p) == if q < 0 then 0 else 1 + Matches(t, f, r, q)
  {
    hide NextMatch;
  }

  lemma {:induction false} NextIs<T>(t: seq<T>, f: seq<T>, r: seq<T>, y: seq<T>, p: nat)
    requires |r| > |f| && p <= |t| && if p < |t| then t[..p] + r <= y else y == t
    ensures p <= |y| && LastUpTo(y, f, p - 1) == NextMatch(t, f, r, p)
  {
    hide LastUpTo;
    if p < |t| {
      var n := p + |r|;
      assert y[..n] == t[..p] + r == (t[..p] + r)[..n];
      LastInReach(y, t[..p] + r, f, p - 1, n);
    }
  }

  lemma {:induction false} GraftBehind<T>(t: seq<T>, f: seq<T>, r: seq<T>, y: seq<T>, p: nat, q: nat)
    requires q < p <= |t| && q + |f| <= |y| && if p < |t| then t[..p] + r <= y else y == t
    ensures q < |t| && t[..q] + r <= Graft(y, f, r, q) && |Graft(y, f, r, q)| == |y| + |r| - |f|
  {
    assert y[..q] == t[..q] by {
      if p < |t| { assert y[..q] == y[..p + |r|][..q] == (t[..p] + r)[..q]; }
    }
  }

  /** For every pattern and text: how long the loop's result is, in terms of the original text; and it has the size
      computed for the buffer if and only if the loop has as many matches as leftmost replacement. */
  lemma {:induction false} LoopLength<T>(t: seq<T>, f: seq<T>, r: seq<T>)
    requires f != [] && |r| > |f|
    ensures |RewriteAll(t, f, r)| == |t| + Matches(t, f, r, |t|) * (|r| - |f|)
    ensures |RewriteAll(t, f, r)| == |ReplaceAll(t, f, r)| <==> Matches(t, f, r, |t|) == CountFrom(t, f, 0)
  {
    var m, n, d := Matches(t, f, r, |t|), CountFrom(t, f, 0), |r| - |f|;
    RewriteMatches(t, f, r, t, |t|);
    ReplaceLengthTimes(t, f, r, 0);
    hide *;
    TimesIsProduct(m, d);
    TimesApart(m, n, d);
    AllLengths(t, f, r);
  }

  lemma {:induction false} AllLengths<T>(t: seq<T>, f: seq<T>, r: seq<T>)
    requires f != []
    ensures RewriteAll(t, f, r) == Rewrite(t, f, r, |t| - 1) && ReplaceAll(t, f, r) == ReplaceFrom(t, f, r, 0)
  {
  }

  lemma {:induction false} TimesApart(m: nat, n: nat, d: nat)
    requires d > 0
    ensures Times(m, d) == Times(n, d) <==> m == n
  {
    if m < n {
      TimesAdd(m, n - m, d);
      TimesGrows(n - m, d);
    } else if n < m {
      TimesAdd(n, m - n, d);
      TimesGrows(m - n, d);
    }
  }

  lemma {:induction false} TimesGrows(n: nat, d: nat)
    requires n > 0 && d > 0
    ensures Times(n, d) > 0
    decreases n
  {
    if n > 1 { TimesGrows(n - 1, d); }
  }

  /** The loop never shortens the text, and any further match lengthens it. */
  lemma {:induction false} RewriteGrows<T>(t: seq<T>, f: seq<T>, r: seq<T>, index: int)
    requires f != [] && |r| > |f| && index >= -1
    ensures |Rewrite(t, f, r, index)| >= |t|
    ensures LastUpTo(t, f, index) >= 0 ==> |Rewrite(t, f, r, index)| >= |t| + |r| - |f|
    ensures LastUpTo(t, f, index) < 0 ==> Rewrite(t, f, r, index) == t
    decreases index + 1
  {
    hide LastUpTo;
    hide OccursAt;
    var p := LastUpTo(t, f, index);
    if p >= 0 { RewriteGrows(Graft(t, f, r, p), f, r, p - 1); }
  }

  /** In a text shorter than two patterns leftmost replacement has one occurrence to replace. */
  lemma {:induction false} ShortReplace<T>(t: seq<T>, f: seq<T>, r: seq<T>, k: nat)
    requires f != [] && |t| < 2 * |f| && OccursAt(t, f, k) && FirstFrom(t, f, 0) == k
    ensures ReplaceAll(t, f, r) == t[..k] + r + t[k + |f|..]
  {
    hide FirstFrom;
    hide OccursAt;
    hide ReplaceFrom;
    TooShort(t, f, k + |f|);
    ReplaceNext(t, f, r, 0);
    ReplaceDone(t, f, r, k + |f|);
    SliceFromZero(t, k);
  }

  /** The loop starts with the occurrence at the very end of the text, if there is one. */
  lemma {:induction false} RewriteAtEnd<T>(t: seq<T>, f: seq<T>, r: seq<T>)
    requires f != [] && |f| <= |t| && OccursAt(t, f, |t| - |f|)
    ensures var q := |t| - |f|; RewriteAll(t, f, r) == Rewrite(t[..q] + r, f, r, q - 1)
  {
    hide LastUpTo;
    hide OccursAt;
    var q := |t| - |f|;
    LastIsGreatest(t, f, |t| - 1, q);
    assert Graft(t, f, r, q) == t[..q] + r;
  }

  /** A suffix of `f` that starts `r` breaks the loop on the text `f[..|f| - b] + f`: the result is too long. */
  lemma {:induction false} GraftBreaks<T>(f: seq<T>, r: seq<T>, b: nat)
    requires |r| > |f| && Grafts(f, r, b)
    ensures var t := f[..|f| - b] + f; |RewriteAll(t, f, r)| > |ReplaceAll(t, f, r)|
  {
    var d := |f| - b;
    var t := f[..d] + f;
    assert t[d..d + |f|] == f;
    FirstIsLeast(t, f, 0, d);
    ShortReplace(t, f, r, FirstFrom(t, f, 0));
    RewriteAtEnd(t, f, r);
    var y := f[..d] + r;
    assert t[..d] == f[..d];
    assert OccursAt(y, f, 0) by {
      assert y[0..|f|] == f[..d] + r[..b];
      assert f[d..] == r[..b];
    }
    LastIsGreatest(y, f, d - 1, 0);
    RewriteGrows(y, f, r, d - 1);
  }

  /** A text that reads the same with `f[..d]` before it or something behind it repeats `f`. */
  lemma {:induction false} Repeats<T>(f: seq<T>, r: seq<T>, x: seq<T>, z: seq<T>, d: nat, i: nat)
    requires 0 < d <= |f| <= |r| && i < |f| && f[d..] == f[..|f| - d]
    requires f[..d] + r + x == r + z
    ensures r[i] == f[i]
    decreases i
  {
    assert (f[..d] + r + x)[i] == (r + z)[i] == r[i];
    if i >= d {
      Repeats(f, r, x, z, d, i - d);
      assert f[i] == f[d..][i - d] == f[..|f| - d][i - d];
    }
  }

  /** The text in which two occurrences of `f` overlap by its border of length `b`. */
  lemma {:induction false} OverlapText<T>(f: seq<T>, b: nat)
    requires 0 < b < |f| && f[..b] == f[|f| - b..]
    ensures var t := f + f[b..];
            OccursAt(t, f, 0) && OccursAt(t, f, |f| - b) && t[..|f| - b] == f[..|f| - b] && t[|f|..] == f[b..]
  {
    var d := |f| - b;
    var t := f + f[b..];
    assert t[d..d + |f|] == f[d..] + f[b..];
    assert f[..b] + f[b..] == f;
  }

  lemma {:induction false} RepeatsGraft<T>(f: seq<T>, r: seq<T>, b: nat)
    requires |r| > |f| && 0 < b < |f| && f[..b] == f[|f| - b..]
    requires f[..|f| - b] + r == r + f[b..]
    ensures Grafts(f, r, b)
  {
    assert f[..|f| - b] + r + [] == r + f[b..];
    forall i | 0 <= i < b
      ensures r[i] == f[i]
    {
      Repeats(f, r, [], f[b..], |f| - b, i);
    }
    assert r[..b] == f[..b];
  }

  lemma {:induction false} OverlapReplace<T>(f: seq<T>, r: seq<T>, b: nat)
    requires |r| > |f| && 0 < b < |f| && f[..b] == f[|f| - b..]
    ensures ReplaceAll(f + f[b..], f, r) == r + f[b..]
  {
    var t := f + f[b..];
    OverlapText(f, b);
    FirstIsLeast(t, f, 0, 0);
    hide FirstFrom;
    hide OccursAt;
    hide ReplaceAll;
    ShortReplace(t, f, r, 0);
    assert t[..0] + r + t[|f|..] == r + f[b..];
  }

  lemma {:induction false} OverlapRewrite<T>(f: seq<T>, r: seq<T>, b: nat)
    requires |r| > |f| && 0 < b < |f| && f[..b] == f[|f| - b..]
    ensures var w := RewriteAll(f + f[b..], f, r); w == f[..|f| - b] + r || |w| > |r| + |f| - b
  {
    hide LastUpTo;
    hide OccursAt;
    hide RewriteAll;
    hide Rewrite;
    OverlapText(f, b);
    RewriteAtEnd(f + f[b..], f, r);
    RewriteGrows(f[..|f| - b] + r, f, r, |f| - b - 1);
  }

  /** A border of `f` breaks the loop too, on the text in which two occurrences overlap by it. */
  lemma {:induction false} BorderBreaks<T>(f: seq<T>, r: seq<T>, b: nat)
    requires |r| > |f| && 0 < b < |f| && f[..b] == f[|f| - b..] && !Grafts(f, r, b)
    ensures var t := f + f[b..]; RewriteAll(t, f, r) != ReplaceAll(t, f, r)
  {
    hide ReplaceAll;
    hide RewriteAll;
    OverlapReplace(f, r, b);
    OverlapRewrite(f, r, b);
    if f[..|f| - b] + r == r + f[b..] { RepeatsGraft(f, r, b); }
  }

  /** For all texts at once: the growing branch asks for enough room exactly for the patterns without a suffix
      that starts the replacement, bordered or not. */
  lemma {:induction false} GrowingLengthExact<T(!new)>(f: seq<T>, r: seq<T>)
    requires f != [] && |r| > |f|
    ensures (forall t: seq<T> :: |RewriteAll(t, f, r)| == |ReplaceAll(t, f, r)|) <==> Graftless(f, r)
  {
    hide RewriteAll;
    hide ReplaceAll;
    if Graftless(f, r) {
      forall t: seq<T>
        ensures |RewriteAll(t, f, r)| == |ReplaceAll(t, f, r)|
      {
        GraftlessIsSettled(t, f, r, |t|);
        RewriteAllLength(t, f, r);
      }
    } else {
      var b: int :| Grafts(f, r, b);
      GraftBreaks(f, r, b);
    }
  }

  /** For all texts at once: the growing branch is leftmost replacement exactly for the patterns
      without a border and without a suffix that starts the replacement. */
  lemma {:induction false} GrowingReplaceExact<T(!new)>(f: seq<T>, r: seq<T>)
    requires f != [] && |r| > |f|
    ensures (forall t: seq<T> :: RewriteAll(t, f, r) == ReplaceAll(t, f, r))
            <==> Unbordered(f) && Graftless(f, r)
  {
    if Unbordered(f) && Graftless(f, r) {
      forall t: seq<T>
        ensures RewriteAll(t, f, r) == ReplaceAll(t, f, r)
      {
        RewriteAllExact(t, f, r);
      }
    } else if !Graftless(f, r) {
      var b: int :| Grafts(f, r, b);
      GraftBreaks(f, r, b);
    } else {
      var b :| 0 < b < |f| && f[..b] == f[|f| - b..];
      BorderBreaks(f, r, b);
    }
  }

  /** The smallest failing edit: "ab" becomes "bxx" in "aab", where the loop turns the new "ab" of
      "abxx" over again and ends with "bxxxx". */
  lemma {:induction false} GrowingReplaceFails()
    ensures RewriteAll("aab", "ab", "bxx") != ReplaceAll("aab", "ab", "bxx")
  {
    hide RewriteAll;
    hide ReplaceAll;
    var f, r := "ab", "bxx";
    assert f[1..] == [f[1]] && r[..1] == [r[0]];
    assert f[..1] + f == "aab";
    GraftBreaks(f, r, 1);
  }
}
