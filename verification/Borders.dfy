/** Streaming search: which prefix of a pattern the input read so far ends with. */
module Borders {

  /** The first `k` characters of `p` are the last `k` characters of `h`. */
  predicate EndsWith<T(==)>(h: seq<T>, p: seq<T>, k: int) {
    0 <= k <= |p| && k <= |h| && h[|h| - k..] == p[..k]
  }

  /** `h` ends with the whole pattern. */
  predicate Ends<T(==)>(h: seq<T>, p: seq<T>) {
    EndsWith(h, p, |p|)
  }

  /** No prefix of `p` longer than `k` ends `h`. */
  ghost predicate NoneLonger<T>(h: seq<T>, p: seq<T>, k: int) {
    forall j :: k < j ==> !EndsWith(h, p, j)
  }

  /** `k` is the length of the longest prefix of `p` that ends `h`. */
  ghost predicate Longest<T>(h: seq<T>, p: seq<T>, k: int) {
    EndsWith(h, p, k) && NoneLonger(h, p, k)
  }

  /** Reading `c` extends exactly the prefixes that continue with `c`. */
  lemma {:induction false} Extend<T>(h: seq<T>, p: seq<T>, c: T, k: int)
    requires k >= 0
    ensures EndsWith(h + [c], p, k + 1) <==> EndsWith(h, p, k) && k < |p| && p[k] == c
  {
    if k < |p| && k <= |h| {
      assert (h + [c])[|h| - k..] == h[|h| - k..] + [c];
      assert p[..k + 1] == p[..k] + [p[k]];
      LastSplit(h[|h| - k..], c, p[..k], p[k]);
    }
  }

  lemma {:induction false} LastSplit<T>(a: seq<T>, x: T, b: seq<T>, y: T)
    ensures a + [x] == b + [y] <==> a == b && x == y
  {
    if a + [x] == b + [y] {
      assert (a + [x])[..|a|] == a && (b + [y])[..|b|] == b;
      assert (a + [x])[|a|] == x && (b + [y])[|b|] == y;
    }
  }

  /** Below a known match of length `i`, matches of `h` are borders of the pattern itself. */
  lemma {:induction false} MatchIsBorder<T>(h: seq<T>, p: seq<T>, i: nat, k: nat)
    requires EndsWith(h, p, i) && k <= i
    ensures EndsWith(h, p, k) <==> p[i - k..i] == p[..k]
  {
    assert h[|h| - k..] == h[|h| - i..][i - k..] == p[..i][i - k..] == p[i - k..i];
  }

  /** The first character that does not continue the longest match rules it out, and all longer ones. */
  lemma {:induction false} Mismatch<T>(h: seq<T>, p: seq<T>, c: T, i: nat)
    requires Longest(h, p, i) && i < |p| && p[i] != c
    ensures NoneLonger(h + [c], p, i)
  {
    hide EndsWith;
    forall j | i < j
      ensures !EndsWith(h + [c], p, j)
    {
      Extend(h, p, c, j - 1);
    }
  }

  lemma {:induction false} Match<T>(h: seq<T>, p: seq<T>, c: T, i: nat)
    requires Longest(h, p, i) && i < |p| && p[i] == c
    ensures Longest(h + [c], p, i + 1)
  {
    hide EndsWith;
    Extend(h, p, c, i);
    forall j | i + 1 < j
      ensures !EndsWith(h + [c], p, j)
    {
      Extend(h, p, c, j - 1);
    }
  }

  /** One candidate of the fallback: `k` is right if `c` continues it and it is a border, else it is ruled out. */
  lemma {:induction false} Candidate<T>(h: seq<T>, p: seq<T>, c: T, i: nat, k: nat)
    requires Longest(h, p, i) && k < i < |p| && NoneLonger(h + [c], p, k + 1)
    ensures if p[k] == c && p[i - k..i] == p[..k] then Longest(h + [c], p, k + 1) else NoneLonger(h + [c], p, k)
  {
    MatchIsBorder(h, p, i, k);
    hide EndsWith;
    Extend(h, p, c, k);
  }

  lemma {:induction false} NothingMatches<T>(h: seq<T>, p: seq<T>)
    requires NoneLonger(h, p, 0)
    ensures Longest(h, p, 0)
  {
    assert h[|h|..] == [] == p[..0];
  }

  /** A match shorter than the pattern that is the longest means the pattern has not come. */
  lemma {:induction false} NotYet<T>(h: seq<T>, p: seq<T>, k: nat)
    requires Longest(h, p, k)
    ensures Ends(h, p) <==> k == |p|
  {
  }

  // ----- naive search for several patterns

  /** The least `j >= from` such that `h` ends with `ps[j]`, or -1. */
  function FirstHit<T(==)>(ps: seq<seq<T>>, h: seq<T>, from: nat): (j: int)
    ensures j == -1 || (from <= j < |ps| && Ends(h, ps[j]))
    decreases |ps| - from
  {
    if from >= |ps| then -1
    else if Ends(h, ps[from]) then from
    else FirstHit(ps, h, from + 1)
  }

  /** Try every end position from `n` on, and at each every pattern: how much was read, and which
      pattern it ended with (-1: none). */
  function NaiveSearch<T(==)>(ps: seq<seq<T>>, s: seq<T>, n: nat): (nat, int)
    requires n <= |s|
    decreases |s| - n
  {
    var j := FirstHit(ps, s[..n], 0);
    if j >= 0 then (n, j)
    else if n == |s| then (n, -1)
    else NaiveSearch(ps, s, n + 1)
  }

  lemma {:induction false} FirstHitIs<T>(ps: seq<seq<T>>, h: seq<T>, from: nat, j: int)
    requires from <= |ps| && (j == -1 || (from <= j < |ps| && Ends(h, ps[j])))
    requires forall i :: from <= i < (if j < 0 then |ps| else j) ==> !Ends(h, ps[i])
    ensures FirstHit(ps, h, from) == j
    decreases |ps| - from
  {
    hide EndsWith;
    if from < |ps| && !Ends(h, ps[from]) { FirstHitIs(ps, h, from + 1, j); }
  }

  /** No pattern ends at position `m` or before. */
  ghost predicate QuietUpTo<T>(ps: seq<seq<T>>, s: seq<T>, m: int)
    requires m <= |s|
  {
    forall n :: 0 <= n <= m ==> FirstHit(ps, s[..n], 0) < 0
  }

  lemma {:induction false} NaiveSkips<T>(ps: seq<seq<T>>, s: seq<T>, n: nat, m: nat)
    requires n <= m <= |s| && QuietUpTo(ps, s, m - 1)
    ensures NaiveSearch(ps, s, n) == NaiveSearch(ps, s, m)
    decreases m - n
  {
    hide FirstHit;
    if n < m { NaiveSkips(ps, s, n + 1, m); }
  }

  /** The answer `(k, r)`: nothing ends before position `k`, and either pattern `r` is the lowest-numbered
      one that ends there, or the input is over and nothing ends there either (`r` is -1). */
  ghost predicate Answers<T>(ps: seq<seq<T>>, s: seq<T>, n: nat, k: nat, r: int)
    requires n <= k <= |s|
  {
    && (forall m, j :: n <= m < k && 0 <= j < |ps| ==> !Ends(s[..m], ps[j]))
    && (forall j :: 0 <= j < (if r < 0 then |ps| else r) && j < |ps| ==> !Ends(s[..k], ps[j]))
    && (if r < 0 then r == -1 && k == |s| else r < |ps| && Ends(s[..k], ps[r]))
  }

  /** `NaiveSearch` gives the one answer there is. */
  lemma {:induction false} NaiveSearchMeans<T>(ps: seq<seq<T>>, s: seq<T>, n: nat, k: nat, r: int)
    requires n <= k <= |s|
    ensures NaiveSearch(ps, s, n) == (k, r) <==> Answers(ps, s, n, k, r)
    decreases |s| - n
  {
    hide Ends;
    hide FirstHit;
    var j := FirstHit(ps, s[..n], 0);
    FirstHitMeans(ps, s[..n], 0);
    if j < 0 && n < |s| {
      if k == n {
        NaiveSearchBounds(ps, s, n + 1);
      } else {
        NaiveSearchMeans(ps, s, n + 1, k, r);
      }
    }
  }

  lemma {:induction false} FirstHitMeans<T>(ps: seq<seq<T>>, h: seq<T>, from: nat)
    ensures var j := FirstHit(ps, h, from);
            forall i :: from <= i < (if j < 0 then |ps| else j) ==> !Ends(h, ps[i])
    decreases |ps| - from
  {
    hide Ends;
    if from < |ps| && !Ends(h, ps[from]) { FirstHitMeans(ps, h, from + 1); }
  }

  lemma {:induction false} NaiveSearchBounds<T>(ps: seq<seq<T>>, s: seq<T>, n: nat)
    requires n <= |s|
    ensures n <= NaiveSearch(ps, s, n).0 <= |s|
    decreases |s| - n
  {
    hide FirstHit;
    if n < |s| { NaiveSearchBounds(ps, s, n + 1); }
  }

  /** What the first component of `NaiveSearch` is for a single pattern: how much must be read before `p`
      has come, or more than there is. */
  function FirstEnd<T(==)>(p: seq<T>, s: seq<T>, n: nat): (e: nat)
    requires n <= |s| + 1
    ensures n <= e <= |s| + 1
    decreases |s| + 1 - n
  {
    if n > |s| || Ends(s[..n], p) then n else FirstEnd(p, s, n + 1)
  }

  /** Target against terminator: the target is found exactly when it ends no later, and nothing is
      read past whichever ends first. */
  lemma {:induction false} UntilMeaning<T>(target: seq<T>, terminator: seq<T>, s: seq<T>, n: nat)
    requires n <= |s|
    ensures var (read, r) := NaiveSearch([target, terminator], s, n);
            var e, f := FirstEnd(target, s, n), FirstEnd(terminator, s, n);
            && (r == 0 <==> e <= |s| && e <= f)
            && read == if e <= |s| && e <= f then e else if f <= |s| then f else |s|
    decreases |s| - n
  {
    hide Ends;
    var ps := [target, terminator];
    assert FirstHit(ps, s[..n], 0) == if Ends(s[..n], target) then 0 else if Ends(s[..n], terminator) then 1 else -1 by {
      assert FirstHit(ps, s[..n], 2) == -1;
    }
    if n < |s| { UntilMeaning(target, terminator, s, n + 1); }
  }

  /** A single pattern is found exactly when it ends somewhere. */
  lemma {:induction false} FindMeaning<T>(target: seq<T>, s: seq<T>, n: nat)
    requires n <= |s|
    ensures var ((read, r), e) := (NaiveSearch([target], s, n), FirstEnd(target, s, n));
            (r == 0 <==> e <= |s|) && read == if e <= |s| then e else |s|
    decreases |s| - n
  {
    hide Ends;
    assert FirstHit([target], s[..n], 0) == if Ends(s[..n], target) then 0 else -1 by {
      assert FirstHit([target], s[..n], 1) == -1;
    }
    if n < |s| { FindMeaning(target, s, n + 1); }
  }
}
