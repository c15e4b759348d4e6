/** The `Stream` class: input that arrives over time, read with a timeout, searched and parsed. */
module Streams {
  import opened Bytes
  import opened Borders
  import opened IntegerText
  import Patterns

  datatype Option<T> = None | Some(value: T)

  /** A string to search for, and how much of it the input read so far ends with. */
  datatype MultiTarget = MultiTarget(str: seq<byte>, len: nat, index: nat) {
    predicate Valid() { len <= |str| }

    function Pattern(): seq<byte>
      requires Valid()
    {
      str[..len]
    }
  }

  /** How many polls fit between two ticks of the millisecond clock. */
  const POLLS_PER_TICK: nat := 100_000

  class Stream {
    const input: seq<byte>  // every byte that will ever arrive
    const due: seq<nat>     // the tick at which each of them arrives
    var pos: nat            // how many have been read
    var ticks: nat          // true milliseconds since start-up; millis() shows them modulo 2^32
    var polls: nat          // polls since the last tick
    var timeout: nat        // _timeout
    var startMillis: nat    // _startMillis

    // For specification: the tick at which the last timed read began, and that of its last poll.
    ghost var began: nat
    ghost var polled: nat

    constructor (input: seq<byte>, due: seq<nat>)
      requires |due| == |input|
      ensures Valid() && pos == 0 && this.input == input && this.due == due
    {
      this.input, this.due := input, due;
      pos, ticks, polls, timeout, startMillis := 0, 0, 0, 1000, 0;
    }

    ghost predicate Valid()
      reads this
    {
      |due| == |input| && pos <= |input| && polls < POLLS_PER_TICK && timeout < TWO_32
    }

    method SetTimeout(timeout: nat)
      requires Valid() && timeout < TWO_32
      modifies `timeout
      ensures Valid() && this.timeout == timeout
    {
      this.timeout := timeout;
    }

    /** A byte has arrived and not been read. */
    predicate Waiting()
      requires Valid()
      reads this
    {
      pos < |input| && due[pos] <= ticks
    }

    method Read() returns (c: int)
      requires Valid()
      modifies `pos
      ensures Valid()
      ensures if old(Waiting()) then c == input[old(pos)] && pos == old(pos) + 1 else c == -1 && pos == old(pos)
    {
      if pos < |input| && due[pos] <= ticks {
        c := input[pos];
        pos := pos + 1;
      } else {
        c := -1;
      }
    }

    method Peek() returns (c: int)
      requires Valid()
      ensures c == if Waiting() then input[pos] else -1
    {
      c := if pos < |input| && due[pos] <= ticks then input[pos] else -1;
    }

    /** millis().  Time passes between any two calls: an arbitrary part of a tick, or ticks, but fewer
        than it takes the 32-bit clock to wrap past the timeout. */
    method Millis() returns (m: nat)
      requires Valid()
      modifies `ticks, `polls
      ensures Valid() && m == U32(ticks)
      ensures old(ticks) <= ticks <= old(ticks) + TWO_32 - timeout
      ensures ticks == old(ticks) ==> polls > old(polls)
    {
      var jump: nat := *;
      if 0 < jump <= TWO_32 - timeout {
        ticks := ticks + jump;
        polls := 0;
      } else if polls + 1 < POLLS_PER_TICK {
        polls := polls + 1;
      } else {
        ticks := ticks + 1;
        polls := 0;
      }
      m := U32(ticks);
    }

    /** The last timed read gave up: the timeout had truly passed, not before its last poll, and that
        poll had found nothing. */
    ghost predicate TimedOut()
      requires Valid()
      reads this
      ensures TimedOut() ==> ticks - began >= timeout && (pos < |input| ==> due[pos] > polled >= began)
    {
      && began <= polled <= ticks
      && ticks - began >= timeout
      && (polled == began || polled - began < timeout)
      && (pos < |input| ==> due[pos] > polled)
    }

    /** Waits for the next byte and takes it; -1 when it does not come in time. */
    method TimedRead() returns (c: int)
      requires Valid()
      modifies `pos, `ticks, `polls, `startMillis, `began, `polled
      ensures Valid() && ticks >= old(ticks)
      ensures if c >= 0 then old(pos) < |input| && c == input[old(pos)] && pos == old(pos) + 1
              else c == -1 && pos == old(pos) && TimedOut()
      ensures old(ticks) <= began <= polled <= ticks && (polled == began || polled - began < timeout)
      ensures c >= 0 ==> due[old(pos)] <= polled
      ensures c < 0 ==> ticks - began >= timeout && (pos < |input| ==> due[pos] > polled)
    {
      startMillis := Millis();
      began := ticks;
      while true
        invariant Valid() && pos == old(pos) && old(ticks) <= began <= ticks
        invariant startMillis == U32(began) && (ticks == began || ticks - began < timeout)
        decreases began + timeout - ticks, POLLS_PER_TICK - polls
      {
        c := Read();
        polled := ticks;
        if c >= 0 {
          return;
        }
        var m := Millis();
        ElapsedIs(began, ticks);
        if U32(m - startMillis) >= timeout {
          break;
        }
      }
      return -1;
    }

    /** Waits for the next byte and leaves it; -1 when it does not come in time. */
    method TimedPeek() returns (c: int)
      requires Valid()
      modifies `ticks, `polls, `startMillis, `began, `polled
      ensures Valid() && ticks >= old(ticks)
      ensures if c >= 0 then pos < |input| && c == input[pos] && due[pos] <= ticks else c == -1 && TimedOut()
      ensures old(ticks) <= began <= polled <= ticks && (polled == began || polled - began < timeout)
      ensures c >= 0 ==> due[pos] <= polled
      ensures c < 0 ==> ticks - began >= timeout && (pos < |input| ==> due[pos] > polled)
    {
      startMillis := Millis();
      began := ticks;
      while true
        invariant Valid() && old(ticks) <= began <= ticks
        invariant startMillis == U32(began) && (ticks == began || ticks - began < timeout)
        decreases began + timeout - ticks, POLLS_PER_TICK - polls
      {
        c := Peek();
        polled := ticks;
        if c >= 0 {
          return;
        }
        var m := Millis();
        ElapsedIs(began, ticks);
        if U32(m - startMillis) >= timeout {
          break;
        }
      }
      return -1;
    }

    /** The reading loop of `FindMulti`: one character at a time for all targets. */
    method Search(targets: array<MultiTarget>, ghost ps: seq<seq<byte>>)
      returns (r: int, ghost falls: seq<nat>, ghost work: seq<nat>, ghost times: seq<(nat, nat)>)
      requires Valid() && |ps| == targets.Length
      requires forall j :: 0 <= j < |ps| ==>
                 targets[j].Valid() && targets[j].index == 0 && ps[j] == targets[j].Pattern() != []
      modifies targets, `pos, `ticks, `polls, `startMillis, `began, `polled
      ensures Valid() && pos >= old(pos)
      ensures var seen := if r < 0 then input[old(pos)..pos] else input[old(pos)..];
              (pos - old(pos), r) == NaiveSearch(ps, seen, 0)
      ensures r < 0 ==> TimedOut() && began >= old(ticks)
      ensures r < 0 ==> forall j :: 0 <= j < |ps| ==> Tracks(targets[j], ps[j], input[old(pos)..pos])
      ensures |falls| == |work| == |ps|
      ensures forall j :: 0 <= j < |ps| ==> falls[j] <= pos - old(pos) && work[j] <= Patterns.Times(pos - old(pos), |ps[j]|)
      ensures |times| == pos - old(pos) && InTime(due, old(pos), times, timeout, old(ticks), ticks)
    {
      ghost var s := input[pos..];
      hide *;
      falls, work := seq(targets.Length, i => 0), seq(targets.Length, i => 0);
      StartTracking(targets[..], ps, s);
      times := [];
      NothingInTime(due, pos, timeout, ticks);
      while true
        invariant Valid() && old(pos) <= pos <= |input| && ticks >= old(ticks)
        invariant |falls| == |work| == targets.Length && Searching(targets[..], ps, s, pos - old(pos), falls, work)
        invariant |times| == pos - old(pos) && InTime(due, old(pos), times, timeout, old(ticks), ticks)
        decreases |input| - pos
      {
        var over;
        over, r, falls, work, times := SearchOne(targets, ps, old(pos), old(ticks), falls, work, times);
        if over {
          return;
        }
      }
    }

    /** One round of that loop, in a search that started at `from`. */
    method SearchOne(targets: array<MultiTarget>, ghost ps: seq<seq<byte>>, ghost from: nat, ghost start: nat,
                     ghost falls0: seq<nat>, ghost work0: seq<nat>, ghost times0: seq<(nat, nat)>)
      returns (over: bool, r: int, ghost falls: seq<nat>, ghost work: seq<nat>, ghost times: seq<(nat, nat)>)
      requires Valid() && from <= pos <= |input| && start <= ticks
      requires |falls0| == |work0| == targets.Length
      requires Searching(targets[..], ps, input[from..], pos - from, falls0, work0)
      requires |times0| == pos - from && InTime(due, from, times0, timeout, start, ticks)
      modifies targets, `pos, `ticks, `polls, `startMillis, `began, `polled
      ensures Valid() && old(pos) <= pos <= |input| && ticks >= old(ticks) && |falls| == |work| == targets.Length
      ensures |times| == pos - from && InTime(due, from, times, timeout, start, ticks)
      ensures !over ==> pos > old(pos) && Searching(targets[..], ps, input[from..], pos - from, falls, work)
      ensures over ==> (pos - from, r) == NaiveSearch(ps, if r < 0 then input[from..pos] else input[from..], 0)
      ensures over && r < 0 ==> TimedOut() && began >= old(ticks)
      ensures over && r < 0 ==> forall j :: 0 <= j < |ps| ==> Tracks(targets[j], ps[j], input[from..pos])
      ensures |ps| == targets.Length
      ensures over ==> forall j :: 0 <= j < |ps| ==> falls[j] <= pos - from && work[j] <= Patterns.Times(pos - from, |ps[j]|)
    {
      hide *;
      ghost var s, n := input[from..], pos - from;
      falls, work, times := falls0, work0, times0;
      ghost var before := ticks;
      var c := TimedRead();
      if c < 0 {
        SearchEnds(targets[..], ps, s, n, falls, work);
        assert s[..n] == input[from..pos];
        LaterInTime(due, from, times, timeout, start, before, ticks);
        return true, -1, falls, work, times;
      }
      NextInTime(due, from, times, timeout, start, before, began, polled, ticks);
      times := times + [(began, polled)];
      SearchingMeans(targets[..], ps, s, n, falls, work);
      assert s[..n] + [c] == s[..n + 1];
      r, falls, work := Feed(targets, c, ps, s[..n], falls, work);
      n := n + 1;
      over := r >= 0;
      if over {
        SearchFound(targets[..], ps, s, n, falls, work, r);
      } else {
        QuietNext(targets[..], ps, s, n, falls, work);
      }
    }

    /** Reads until the input ends with one of the targets, or nothing more comes in time. */
    method FindMulti(targets: array<MultiTarget>)
      returns (r: int, ghost falls: seq<nat>, ghost work: seq<nat>, ghost times: seq<(nat, nat)>)
      requires Valid()
      requires forall j :: 0 <= j < targets.Length ==> targets[j].Valid() && targets[j].index == 0
      modifies targets, `pos, `ticks, `polls, `startMillis, `began, `polled
      ensures Valid() && pos >= old(pos)
      ensures var seen := if r < 0 then input[old(pos)..pos] else input[old(pos)..];
              (pos - old(pos), r) == NaiveSearch(PatternsOf(old(targets[..])), seen, 0)
      ensures r < 0 ==> TimedOut() && began >= old(ticks)
      ensures r < 0 ==> forall j :: 0 <= j < targets.Length ==>
                Tracks(targets[j], old(targets[j]).Pattern(), input[old(pos)..pos])
      ensures |falls| == |work| == targets.Length
      ensures forall j :: 0 <= j < targets.Length ==>
                falls[j] <= pos - old(pos) && work[j] <= (pos - old(pos)) * old(targets[j]).len
      ensures |times| == pos - old(pos) && InTime(due, old(pos), times, timeout, old(ticks), ticks)
      ensures forall k :: 0 <= k < |times| ==>
                due[old(pos) + k] <= times[k].1 <= ticks && (times[k].1 == times[k].0 || times[k].1 - times[k].0 < timeout)
    {
      hide NaiveSearch;
      hide PatternsOf;
      ghost var ps := PatternsOf(targets[..]);
      var t := 0;
      while t < targets.Length
        invariant 0 <= t <= targets.Length && forall j :: 0 <= j < t ==> ps[j] != []
      {
        if targets[t].len <= 0 {
          HitAtOnce(ps, input[pos..], t);
          return t, seq(targets.Length, i => 0), seq(targets.Length, i => 0), [];
        }
        t := t + 1;
      }
      r, falls, work, times := Search(targets, ps);
      forall j | 0 <= j < targets.Length
        ensures work[j] <= (pos - old(pos)) * old(targets[j]).len
      {
        Patterns.TimesIsProduct(pos - old(pos), old(targets[j]).len);
      }
    }

    /** Whether `target` comes before `terminator` and before the input dries up.  `seen` is the input the
        answer is about: all that is left, or what arrived before the timeout. */
    method FindUntil(target: seq<byte>, terminator: Option<seq<byte>>)
      returns (found: bool, ghost seen: seq<byte>, ghost times: seq<(nat, nat)>)
      requires Valid()
      modifies `pos, `ticks, `polls, `startMillis, `began, `polled
      ensures Valid() && pos >= old(pos)
      ensures seen == input[old(pos)..] || (seen == input[old(pos)..pos] && !found && TimedOut() && began >= old(ticks))
      ensures var e := FirstEnd(target, seen, 0);
              var f := if terminator.Some? then FirstEnd(terminator.value, seen, 0) else |seen| + 1;
              && (found <==> e <= |seen| && e <= f)
              && pos - old(pos) == if found then e else if f <= |seen| then f else |seen|
      ensures |times| == pos - old(pos) && InTime(due, old(pos), times, timeout, old(ticks), ticks)
      ensures forall k :: 0 <= k < |times| ==>
                due[old(pos) + k] <= times[k].1 <= ticks && (times[k].1 == times[k].0 || times[k].1 - times[k].0 < timeout)
    {
      hide NaiveSearch;
      hide FirstEnd;
      hide PatternsOf;
      var r: int;
      ghost var falls, work;
      if terminator.None? {
        var t := new MultiTarget[1][MultiTarget(target, |target|, 0)];
        PatternsOfOne(t[..], target);
        r, falls, work, times := FindMulti(t);
        seen := if r < 0 then input[old(pos)..pos] else input[old(pos)..];
        FindMeaning(target, seen, 0);
      } else {
        var t := new MultiTarget[2][MultiTarget(target, |target|, 0), MultiTarget(terminator.value, |terminator.value|, 0)];
        PatternsOfTwo(t[..], target, terminator.value);
        r, falls, work, times := FindMulti(t);
        seen := if r < 0 then input[old(pos)..pos] else input[old(pos)..];
        UntilMeaning(target, terminator.value, seen, 0);
      }
      found := r == 0;
    }

    // ----- parsing integers

    /** Discards characters until a digit or a sign is next, and shows it; -1 when something else that may
        not be discarded is next, or nothing comes.  `seen` is the input the answer is about. */
    method PeekNextDigit(mode: LookaheadMode, detectDecimal: bool) returns (c: int, ghost seen: seq<byte>)
      requires Valid()
      modifies `pos, `ticks, `polls, `startMillis, `began, `polled
      ensures Valid() && old(pos) <= pos <= |seen|
      ensures seen == input || (seen == input[..pos] && TimedOut() && began >= old(ticks))
      ensures pos == LeadEnd(seen, old(pos), mode, detectDecimal)
      ensures c == if pos < |seen| && Starts(seen[pos], detectDecimal) then seen[pos] else -1
      ensures c >= 0 ==> seen == input && Waiting()
      ensures ticks >= old(ticks) && ArrivedBy(due, old(pos), pos, ticks)
    {
      hide Starts;
      hide Discards;
      hide LeadEnd;
      while true
        invariant Valid() && pos >= old(pos) && ticks >= old(ticks) && ArrivedBy(due, old(pos), pos, ticks)
        invariant forall k :: old(pos) <= k < pos ==> !Starts(input[k], detectDecimal) && Discards(mode, input[k])
        decreases |input| - pos
      {
        c := TimedPeek();
        if c < 0 {
          seen := input[..pos];
          LeadRun(seen, old(pos), pos, mode, detectDecimal);
          LeadStops(seen, pos, mode, detectDecimal);
          return;
        }
        if Starts(c, detectDecimal) || !Discards(mode, c) {
          seen := input;
          LeadRun(seen, old(pos), pos, mode, detectDecimal);
          LeadStops(seen, pos, mode, detectDecimal);
          return if Starts(c, detectDecimal) then c else -1, seen;
        }
        var discarded := Read();
      }
    }

    /** The integer at the current position. */
    method ParseInt(mode: LookaheadMode, ignore: byte) returns (value: int, ghost seen: seq<byte>)
      requires Valid()
      modifies `pos, `ticks, `polls, `startMillis, `began, `polled
      ensures Valid() && old(pos) <= |seen| && ticks >= old(ticks)
      ensures seen == input || (seen == input[..pos] && TimedOut() && began >= old(ticks))
      ensures (pos, value) == ParsedInt(seen, old(pos), mode, ignore)
      ensures old(pos) <= pos && forall k :: old(pos) <= k < pos ==> due[k] <= ticks
    {
      hide LeadEnd;
      hide ParsedInt;
      hide Starts;
      var c: int;
      c, seen := PeekNextDigit(mode, false);
      if c < 0 {
        NothingParsed(seen, old(pos), mode, ignore);
        return 0, seen;
      }
      ghost var p := pos;
      var isNegative: bool;
      value, isNegative, c := ReadRun(c, ignore);
      ghost var hi := if c < 0 then pos else |input|;
      seen := input[..hi];
      ReadAll(input, old(pos), hi, p, pos, mode, ignore, value, isNegative);
      if isNegative {
        value := I32(-value);
      }
    }

    /** The reading loop of `ParseInt`, entered with the first character waiting. */
    method ReadRun(first: int, ignore: byte) returns (value: int, isNegative: bool, c: int)
      requires Valid() && Waiting() && first == input[pos] && Starts(first, false)
      modifies `pos, `ticks, `polls, `startMillis, `began, `polled
      ensures Valid() && old(pos) < pos && ticks >= old(ticks)
      ensures Reading(input, old(pos), pos, ignore, value, isNegative)
      ensures ArrivedBy(due, old(pos), pos, ticks)
      ensures if c < 0 then TimedOut() && began >= old(ticks)
              else pos < |input| && c == input[pos] && !IsDigit(c) && c != ignore
    {
      isNegative := false;
      value := 0;
      c := first;
      ghost var p := pos;
      assert Reading(input, p, pos, ignore, value, false);
      NoneArrived(due, p, ticks);
      hide Reading;
      hide Starts;
      hide I32;
      hide IsDigit;
      hide ArrivedBy;
      while true
        invariant Valid() && p <= pos < |input| && c == input[pos] && Waiting() && ticks >= old(ticks)
        invariant pos == p || IsDigit(c) || c == ignore
        invariant Reading(input, p, pos, ignore, value, isNegative) && ArrivedBy(due, p, pos, ticks)
        decreases |input| - pos
      {
        ReadOne(input, p, pos, ignore, value, isNegative);
        ghost var arrived := ticks;
        if c == ignore {
        } else if c == MINUS {
          isNegative := true;
        } else if IsDigit(c) {
          StepWraps(value, c);
          value := I32(I32(I32(value * 10) + c) - DIGIT_0);
        }
        var consumed := Read();
        c := TimedPeek();
        OneArrived(due, p, pos - 1, arrived, ticks);
        if !(IsDigit(c) || c == ignore) {
          break;
        }
      }
    }
  }

  /** The bytes read from `from` on, each with the start of its timed read and the poll that found it, had all arrived
      by that poll, the first or one within the timeout; and each read began after the one before it was over. */
  ghost predicate InTime(due: seq<nat>, from: nat, times: seq<(nat, nat)>, timeout: nat, start: nat, now: nat) {
    && from + |times| <= |due|
    && forall k :: 0 <= k < |times| ==>
         && due[from + k] <= times[k].1 && times[k].0 <= times[k].1 <= now
         && (times[k].1 == times[k].0 || times[k].1 - times[k].0 < timeout)
         && times[k].0 >= if k == 0 then start else times[k - 1].1
  }

  lemma {:induction false} NothingInTime(due: seq<nat>, from: nat, timeout: nat, now: nat)
    requires from <= |due|
    ensures InTime(due, from, [], timeout, now, now)
  {
  }

  lemma {:induction false} LaterInTime(due: seq<nat>, from: nat, times: seq<(nat, nat)>, timeout: nat, start: nat, now: nat,
                                       later: nat)
    requires InTime(due, from, times, timeout, start, now) && now <= later
    ensures InTime(due, from, times, timeout, start, later)
  {
  }

  lemma {:induction false} NextInTime(due: seq<nat>, from: nat, times: seq<(nat, nat)>, timeout: nat, start: nat, now: nat,
                                      began: nat, polled: nat, later: nat)
    requires InTime(due, from, times, timeout, start, now) && start <= now <= began <= polled <= later
    requires from + |times| < |due| && due[from + |times|] <= polled && (polled == began || polled - began < timeout)
    ensures InTime(due, from, times + [(began, polled)], timeout, start, later)
  {
  }

  /** A byte that comes a full timeout or more after its read began is not read. */
  lemma {:induction false} LateIsNotRead(due: seq<nat>, from: nat, times: seq<(nat, nat)>, timeout: nat, start: nat, now: nat,
                                         k: nat)
    requires InTime(due, from, times, timeout, start, now) && k < |times| && timeout > 0
    ensures due[from + k] < times[k].0 + timeout
  {
  }

  /** The bytes between the two places had arrived by then. */
  ghost predicate ArrivedBy(due: seq<nat>, from: nat, to: nat, now: nat) {
    from <= to <= |due| && forall k :: from <= k < to ==> due[k] <= now
  }

  lemma {:induction false} NoneArrived(due: seq<nat>, from: nat, now: nat)
    requires from <= |due|
    ensures ArrivedBy(due, from, from, now)
  {
  }

  lemma {:induction false} OneArrived(due: seq<nat>, from: nat, to: nat, now: nat, later: nat)
    requires ArrivedBy(due, from, to, now) && to < |due| && due[to] <= now <= later
    ensures ArrivedBy(due, from, to + 1, later)
  {
  }

  /** The fallback loop. */
  method FallBack(str: seq<byte>, c: byte, origIndex: nat, ghost h: seq<byte>)
    returns (index: nat, ghost falls: nat, ghost work: nat)
    requires 0 < origIndex < |str| && Longest(h, str, origIndex) && NoneLonger(h + [c], str, origIndex)
    ensures index <= origIndex && Longest(h + [c], str, index)
    ensures falls + index <= origIndex + 1
    ensures work <= Patterns.Times(falls, |str| - 1)
  {
    hide Longest;
    hide NoneLonger;
    index, falls, work := origIndex, 0, 0;
    while true
      invariant 0 < index <= origIndex && NoneLonger(h + [c], str, index)
      invariant falls + index == origIndex
      invariant work <= Patterns.Times(falls, |str| - 1)
      decreases index
    {
      index := index - 1;
      falls, work := falls + 1, work + 1;
      Candidate(h, str, c, origIndex, index);
      if c == str[index] {
        if index == 0 {
          assert str[origIndex..origIndex] == str[..0];
          index := 1;
          return;
        }
        var diff := origIndex - index;
        var i := 0;
        ghost var before := work;
        while i < index
          invariant 0 <= i <= index && work == before + i
          invariant forall k :: 0 <= k < i ==> str[k] == str[k + diff]
        {
          work := work + 1;
          if str[i] != str[i + diff] {
            assert str[diff..origIndex][i] != str[..index][i];
            break;
          }
          i := i + 1;
        }
        if i == index {
          assert str[diff..origIndex] == str[..index];
          index := index + 1;
          return;
        }
      }
      if index == 0 {
        NothingMatches(h + [c], str);
        return;
      }
    }
  }

  /** One character for one target: extend the match, or fall back to the longest shorter one that it
      continues, found by comparing the pattern with itself.  `falls` counts the fallback rounds and
      `work` the character comparisons. */
  method Advance(targets: array<MultiTarget>, t: nat, c: byte, ghost h: seq<byte>)
    returns (hit: bool, ghost falls: nat, ghost work: nat)
    requires t < targets.Length && targets[t].Valid() && targets[t].index < targets[t].len
    requires Longest(h, targets[t].Pattern(), targets[t].index)
    modifies targets
    ensures targets[..] == old(targets[..])[t := old(targets[t]).(index := targets[t].index)]
    ensures targets[t].index <= targets[t].len
    ensures Longest(h + [c], targets[t].Pattern(), targets[t].index)
    ensures hit <==> targets[t].index == targets[t].len
    ensures falls + targets[t].index <= old(targets[t].index) + 1
    ensures work <= 1 + Patterns.Times(falls, targets[t].len - 1)
  {
    var str, len, index := targets[t].str, targets[t].len, targets[t].index;
    ghost var p := targets[t].Pattern();
    falls, work := 0, 1;
    if c == str[index] {
      Match(h, p, c, index);
      targets[t] := targets[t].(index := index + 1);
      return index + 1 == len, falls, work;
    }
    Mismatch(h, p, c, index);
    if index == 0 {
      NothingMatches(h + [c], p);
      return false, falls, work;
    }
    index, falls, work := FallBack(str[..len], c, index, h);
    work := work + 1;
    targets[t] := targets[t].(index := index);
    hit := false;
  }

  function PatternsOf(ts: seq<MultiTarget>): (ps: seq<seq<byte>>)
    requires forall j :: 0 <= j < |ts| ==> ts[j].Valid()
    ensures |ps| == |ts| && forall j :: 0 <= j < |ts| ==> ps[j] == ts[j].Pattern()
  {
    seq(|ts|, j requires 0 <= j < |ts| => ts[j].Pattern())
  }

  lemma {:induction false} PatternsOfOne(ts: seq<MultiTarget>, p: seq<byte>)
    requires |ts| == 1 && ts[0].str == p && ts[0].len == |p|
    ensures PatternsOf(ts) == [p]
  {
    assert ts[0].Pattern() == p;
  }

  lemma {:induction false} PatternsOfTwo(ts: seq<MultiTarget>, p: seq<byte>, q: seq<byte>)
    requires |ts| == 2 && ts[0].str == p && ts[0].len == |p| && ts[1].str == q && ts[1].len == |q|
    ensures PatternsOf(ts) == [p, q]
  {
    assert ts[0].Pattern() == p && ts[1].Pattern() == q;
  }

  /** The target follows its pattern through `h` without having reached its end. */
  ghost predicate Tracks(t: MultiTarget, p: seq<byte>, h: seq<byte>) {
    t.Valid() && t.Pattern() == p && t.index < t.len && Longest(h, p, t.index)
  }

  /** After `n` characters, at most `n` fallback rounds and `len - 1` comparisons for each, and one
      comparison per character: every fallback round takes back a character of an earlier match. */
  ghost predicate Frugal(t: MultiTarget, falls: nat, work: nat, n: nat) {
    t.len > 0 && falls + t.index <= n && work <= n + Patterns.Times(falls, t.len - 1)
  }

  /** The state of the search after the first `n` characters of `s`. */
  ghost predicate Searching(ts: seq<MultiTarget>, ps: seq<seq<byte>>, s: seq<byte>, n: nat,
                            falls: seq<nat>, work: seq<nat>)
    requires n <= |s| && |falls| == |work| == |ts|
  {
    && |ps| == |ts|
    && QuietUpTo(ps, s, n)
    && forall j :: 0 <= j < |ts| ==> Tracks(ts[j], ps[j], s[..n]) && Frugal(ts[j], falls[j], work[j], n)
  }

  lemma {:induction false} HitAtOnce(ps: seq<seq<byte>>, s: seq<byte>, t: nat)
    requires t < |ps| && ps[t] == [] && forall j :: 0 <= j < t ==> ps[j] != []
    ensures NaiveSearch(ps, s, 0) == (0, t)
  {
    FirstHitIs(ps, s[..0], 0, t);
  }

  lemma {:induction false} StartTracking(ts: seq<MultiTarget>, ps: seq<seq<byte>>, s: seq<byte>)
    requires |ps| == |ts| && forall j :: 0 <= j < |ts| ==> ts[j].Valid() && ts[j].index == 0 && ps[j] == ts[j].Pattern() != []
    ensures Searching(ts, ps, s, 0, seq(|ts|, i => 0), seq(|ts|, i => 0))
  {
    FirstHitIs(ps, s[..0], 0, -1);
  }

  lemma {:induction false} SearchingMeans(ts: seq<MultiTarget>, ps: seq<seq<byte>>, s: seq<byte>, n: nat,
                                          falls: seq<nat>, work: seq<nat>)
    requires n <= |s| && |falls| == |work| == |ts| && Searching(ts, ps, s, n, falls, work)
    ensures |ps| == |ts| && QuietUpTo(ps, s, n)
    ensures forall j :: 0 <= j < |ts| ==> Tracks(ts[j], ps[j], s[..n]) && Frugal(ts[j], falls[j], work[j], n)
  {
  }

  lemma {:induction false} SearchEnds(ts: seq<MultiTarget>, ps: seq<seq<byte>>, s: seq<byte>, n: nat,
                                      falls: seq<nat>, work: seq<nat>)
    requires n <= |s| && |falls| == |work| == |ts| && Searching(ts, ps, s, n, falls, work)
    ensures NaiveSearch(ps, s[..n], 0) == (n, -1)
    ensures |ps| == |ts| && forall j :: 0 <= j < |ts| ==> Tracks(ts[j], ps[j], s[..n])
    ensures forall j :: 0 <= j < |ts| ==> falls[j] <= n && work[j] <= Patterns.Times(n, |ps[j]|)
  {
    hide FirstHit;
    forall m | 0 <= m <= n
      ensures s[..n][..m] == s[..m]
    {
    }
    NaiveSkips(ps, s[..n], 0, n);
    forall j | 0 <= j < |ts|
      ensures falls[j] <= n && work[j] <= Patterns.Times(n, |ps[j]|)
    {
      FrugalBound(ts[j], falls[j], work[j], n);
    }
  }

  lemma {:induction false} SearchFound(ts: seq<MultiTarget>, ps: seq<seq<byte>>, s: seq<byte>, n: nat,
                                       falls: seq<nat>, work: seq<nat>, hit: nat)
    requires 0 < n <= |s| && |falls| == |work| == |ts| == |ps| && QuietUpTo(ps, s, n - 1)
    requires FirstHit(ps, s[..n], 0) == hit
    requires forall j :: 0 <= j < |ts| ==> ts[j].len == |ps[j]| && Frugal(ts[j], falls[j], work[j], n)
    ensures NaiveSearch(ps, s, 0) == (n, hit)
    ensures forall j :: 0 <= j < |ts| ==> falls[j] <= n && work[j] <= Patterns.Times(n, |ps[j]|)
  {
    hide FirstHit;
    NaiveSkips(ps, s, 0, n);
    forall j | 0 <= j < |ts|
      ensures falls[j] <= n && work[j] <= Patterns.Times(n, |ps[j]|)
    {
      FrugalBound(ts[j], falls[j], work[j], n);
    }
  }

  lemma {:induction false} QuietNext(ts: seq<MultiTarget>, ps: seq<seq<byte>>, s: seq<byte>, n: nat,
                                     falls: seq<nat>, work: seq<nat>)
    requires 0 < n <= |s| && |falls| == |work| == |ts| == |ps|
    requires QuietUpTo(ps, s, n - 1) && FirstHit(ps, s[..n], 0) < 0
    requires forall j :: 0 <= j < |ts| ==> Tracks(ts[j], ps[j], s[..n]) && Frugal(ts[j], falls[j], work[j], n)
    ensures Searching(ts, ps, s, n, falls, work)
  {
    hide FirstHit;
  }

  lemma {:induction false} FrugalBound(t: MultiTarget, falls: nat, work: nat, n: nat)
    requires Frugal(t, falls, work, n)
    ensures falls <= n && work <= Patterns.Times(n, t.len)
  {
    Patterns.TimesAdd(falls, n - falls, t.len - 1);
    Patterns.TimesIsProduct(n, t.len - 1);
    Patterns.TimesIsProduct(n, t.len);
    Patterns.TimesIsProduct(n - falls, t.len - 1);
    assert n + n * (t.len - 1) == n * t.len;
  }

  lemma {:induction false} FrugalStep(t: MultiTarget, u: MultiTarget, falls: nat, work: nat, f: nat, w: nat, n: nat)
    requires Frugal(t, falls, work, n) && u.len == t.len
    requires f + u.index <= t.index + 1 && w <= 1 + Patterns.Times(f, t.len - 1)
    ensures Frugal(u, falls + f, work + w, n + 1)
  {
    Patterns.TimesAdd(falls, f, t.len - 1);
  }

  lemma {:induction false} FrugalLater(ts: seq<MultiTarget>, falls: seq<nat>, work: seq<nat>, n: nat, from: nat)
    requires |ts| == |falls| == |work|
    requires forall j :: from <= j < |ts| ==> Frugal(ts[j], falls[j], work[j], n)
    ensures forall j :: from <= j < |ts| ==> Frugal(ts[j], falls[j], work[j], n + 1)
  {
  }

  /** All targets, one character on: the inner loop over the targets. */
  method Feed(targets: array<MultiTarget>, c: byte, ghost ps: seq<seq<byte>>, ghost h: seq<byte>,
              ghost falls0: seq<nat>, ghost work0: seq<nat>)
    returns (hit: int, ghost falls: seq<nat>, ghost work: seq<nat>)
    requires |ps| == |falls0| == |work0| == targets.Length
    requires forall j :: 0 <= j < |ps| ==> Tracks(targets[j], ps[j], h)
    requires forall j :: 0 <= j < |ps| ==> Frugal(targets[j], falls0[j], work0[j], |h|)
    modifies targets
    ensures hit == FirstHit(ps, h + [c], 0) && |falls| == |work| == |ps|
    ensures hit < 0 ==> forall j :: 0 <= j < |ps| ==> Tracks(targets[j], ps[j], h + [c])
    ensures forall j :: 0 <= j < |ps| ==> Frugal(targets[j], falls[j], work[j], |h| + 1)
    ensures forall j :: 0 <= j < |ps| ==> targets[j].len == |ps[j]|
  {
    hide Longest;
    hide NoneLonger;
    hide EndsWith;
    hide Frugal;
    hide Ends;
    hide FirstHit;
    hide Patterns.Times;
    falls, work := falls0, work0;
    var t := 0;
    while t < targets.Length
      invariant 0 <= t <= |ps| && |falls| == |work| == |ps|
      invariant forall j :: 0 <= j < t ==> Tracks(targets[j], ps[j], h + [c]) && !Ends(h + [c], ps[j])
      invariant forall j :: 0 <= j < t ==> Frugal(targets[j], falls[j], work[j], |h| + 1)
      invariant forall j :: t <= j < |ps| ==> Tracks(targets[j], ps[j], h)
      invariant forall j :: 0 <= j < |ps| ==> targets[j].len == |ps[j]|
      invariant forall j :: t <= j < |ps| ==> Frugal(targets[j], falls[j], work[j], |h|)
    {
      var matched: bool;
      ghost var f: nat, w: nat;
      ghost var before := targets[t];
      matched, f, w := Advance(targets, t, c, h);
      FrugalStep(before, targets[t], falls[t], work[t], f, w, |h|);
      falls, work := falls[t := falls[t] + f], work[t := work[t] + w];
      NotYet(h + [c], ps[t], targets[t].index);
      if matched {
        FirstHitIs(ps, h + [c], 0, t);
        FrugalLater(targets[..], falls, work, |h|, t + 1);
        return t, falls, work;
      }
      t := t + 1;
    }
    FirstHitIs(ps, h + [c], 0, -1);
    hit := -1;
  }

  /** Unsigned subtraction of two clock readings is the true elapsed time, across a wrap, exactly as
      long as less than 2^32 ms have passed. */
  lemma {:induction false} ElapsedIs(start: nat, now: nat)
    requires start <= now
    ensures U32(U32(now) - U32(start)) == now - start <==> now - start < TWO_32
  {
    var e, a := now - start, U32(start);
    if e < TWO_32 {
      assert start == a + TWO_32 * (start / TWO_32);
      var b := if a + e < TWO_32 then a + e else a + e - TWO_32;
      assert now == b + TWO_32 * (start / TWO_32 + if a + e < TWO_32 then 0 else 1);
      assert U32(now) == b;
    }
  }
}
