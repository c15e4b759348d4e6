/** Numbers printed on one side and parsed on the other. */
module RoundTrip {
  import opened Bytes
  import opened IntegerText
  import opened Printing
  import opened Streams
  import Patterns

  lemma {:induction false} LinesSnoc(xs: seq<int>, x: int)
    ensures Lines(xs + [x]) == Lines(xs) + (Decimal(x) + [CR, LF])
    decreases |xs|
  {
    hide Decimal;
    if xs == [] {
      assert [] + [x] == [x] && [x][1..] == [];
      assert Decimal(x) + [CR, LF] + [] == [] + (Decimal(x) + [CR, LF]);
    } else {
      LinesSnoc(xs[1..], x);
      assert (xs + [x])[1..] == xs[1..] + [x];
      var line := Decimal(xs[0]) + [CR, LF];
      assert line + (Lines(xs[1..]) + (Decimal(x) + [CR, LF])) == line + Lines(xs[1..]) + (Decimal(x) + [CR, LF]);
    }
  }

  lemma {:induction false} LongAt(xs: seq<int>, i: nat)
    requires Longs(xs) && i < |xs|
    ensures -TWO_31 <= xs[i] < TWO_31
  {
  }

  /** println of each number. */
  method PrintAll(p: Print, xs: seq<int>)
    requires Longs(xs)
    modifies p
    ensures p.sink == old(p.sink) + Lines(xs)
  {
    var i := 0;
    assert old(p.sink) + Lines(xs[..0]) == old(p.sink);
    hide *;
    while i < |xs|
      invariant 0 <= i <= |xs| && p.sink == old(p.sink) + Lines(xs[..i])
    {
      LinesSnoc(xs[..i], xs[i]);
      assert xs[..i + 1] == xs[..i] + [xs[i]];
      LongAt(xs, i);
      var n := p.PrintlnLong(xs[i], 10);
      Patterns.Assoc(old(p.sink) + Lines(xs[..i]), Decimal(xs[i]), [CR, LF]);
      Patterns.Assoc(old(p.sink), Lines(xs[..i]), Decimal(xs[i]) + [CR, LF]);
      i := i + 1;
    }
    assert xs[..i] == xs;
  }

  /** Every byte of the input has arrived. */
  ghost predicate Arrived(s: Stream)
    reads s
  {
    forall k :: 0 <= k < |s.due| ==> s.due[k] <= s.ticks
  }

  /** `n` calls of parseInt on input that has arrived; the text after the last number is left. */
  method ParseAll(s: Stream, n: nat, mode: LookaheadMode, ignore: byte) returns (ys: seq<int>)
    requires s.Valid() && Arrived(s)
    modifies s
    ensures s.Valid() && Arrived(s)
    ensures var rs := ParsedMany(s.input, old(s.pos), mode, ignore, n);
            && |ys| == |rs| && (forall k :: 0 <= k < n ==> ys[k] == rs[k].1)
            && s.pos == if n == 0 then old(s.pos) else rs[n - 1].0
  {
    ys := [];
    ghost var start := s.pos;
    ReadStart(s.input, start, mode, ignore, n);
    hide *;
    while |ys| < n
      invariant s.Valid() && Arrived(s) && ReadSoFar(s.input, start, mode, ignore, n, ys, s.pos)
      decreases n - |ys|
    {
      StillInside(s);
      ghost var from, ticks := s.pos, s.ticks;
      var y;
      ghost var seen;
      y, seen := s.ParseInt(mode, ignore);
      AllSeen(s, seen, ticks);
      ReadNext(s.input, start, mode, ignore, n, ys, from, y, s.pos);
      ys := ys + [y];
    }
    ReadEnd(s.input, start, mode, ignore, n, ys, s.pos);
  }

  /** `ys` are the first values of `n` calls from `start` on, and the next call starts at `pos`. */
  ghost predicate ReadSoFar(input: seq<byte>, start: nat, mode: LookaheadMode, ignore: byte, n: nat, ys: seq<int>, pos: nat) {
    && start <= |input| && pos <= |input| && |ys| <= n
    && var rs := ParsedMany(input, start, mode, ignore, n);
    && (forall k :: 0 <= k < |ys| ==> ys[k] == rs[k].1)
    && pos == (if ys == [] then start else rs[|ys| - 1].0)
    && rs[|ys|..] == ParsedMany(input, pos, mode, ignore, n - |ys|)
  }

  lemma {:induction false} ReadStart(input: seq<byte>, start: nat, mode: LookaheadMode, ignore: byte, n: nat)
    requires start <= |input|
    ensures ReadSoFar(input, start, mode, ignore, n, [], start)
  {
    hide ParsedMany;
  }

  lemma {:induction false} ReadNext(input: seq<byte>, start: nat, mode: LookaheadMode, ignore: byte, n: nat, ys: seq<int>,
                                    pos: nat, y: int, next: nat)
    requires pos <= |input| && |ys| < n && ReadSoFar(input, start, mode, ignore, n, ys, pos)
    requires (next, y) == ParsedInt(input, pos, mode, ignore)
    ensures ReadSoFar(input, start, mode, ignore, n, ys + [y], next)
  {
    FirstCall(input, pos, mode, ignore, n - |ys| - 1);
    hide ParsedMany;
    hide ParsedInt;
    var rs := ParsedMany(input, start, mode, ignore, n);
    assert rs[|ys|] == rs[|ys|..][0];
    assert rs[|ys| + 1..] == rs[|ys|..][1..];
  }

  lemma {:induction false} ReadEnd(input: seq<byte>, start: nat, mode: LookaheadMode, ignore: byte, n: nat, ys: seq<int>,
                                   pos: nat)
    requires |ys| >= n && ReadSoFar(input, start, mode, ignore, n, ys, pos)
    ensures start <= |input|
    ensures var rs := ParsedMany(input, start, mode, ignore, n);
            && |ys| == n && (forall k :: 0 <= k < n ==> ys[k] == rs[k].1)
            && pos == if n == 0 then start else rs[n - 1].0
  {
    hide ParsedMany;
  }

  lemma {:induction false} StillInside(s: Stream)
    requires s.Valid()
    ensures s.pos <= |s.input|
  {
  }

  /** No call times out before the end of input that has arrived. */
  lemma {:induction false} AllSeen(s: Stream, seen: seq<byte>, ticks: nat)
    requires s.Valid() && s.ticks >= ticks && forall k :: 0 <= k < |s.due| ==> s.due[k] <= ticks
    requires seen == s.input || (seen == s.input[..s.pos] && s.TimedOut() && s.began >= ticks)
    ensures seen == s.input && Arrived(s)
  {
  }

  /** The list round trip with the methods in sequence: whatever list of longs is printed line by line is read back. */
  method PrintThenParse(xs: seq<int>, mode: LookaheadMode, ignore: byte) returns (ys: seq<int>)
    requires Longs(xs) && !IsDigit(ignore) && ignore !in {MINUS, CR} && !mode.SkipNone?
    ensures ys == xs
  {
    var p := new Print();
    PrintAll(p, xs);
    var s := new Stream(p.sink, seq(|p.sink|, i => 0));
    hide *;
    ys := ParseAll(s, |xs|, mode, ignore);
    assert s.input == [] + Lines(xs);
    ListRoundTrip([], xs, mode, ignore);
    ReadBackIs(s.input, xs, ParsedMany(s.input, 0, mode, ignore, |xs|), ys);
  }

  lemma {:induction false} ReadBackIs(input: seq<byte>, xs: seq<int>, rs: seq<(nat, int)>, ys: seq<int>)
    requires |xs| == |rs| == |ys| && forall k :: 0 <= k < |xs| ==> ReadBack(input, xs, rs, k)
    requires forall k :: 0 <= k < |ys| ==> ys[k] == rs[k].1
    ensures ys == xs
  {
    forall k | 0 <= k < |xs|
      ensures ys[k] == xs[k]
    {
      assert ReadBack(input, xs, rs, k);
    }
  }
}
