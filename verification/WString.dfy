/** The `String` class: text in a heap buffer with a capacity, edited in place. */
module WString {
  import opened Bytes
  import opened CString
  import opened Patterns
  import opened RightToLeft

  class String {
    var buffer: array?<byte>  // the characters and their terminator
    var capacity: nat         // the buffer's size minus one
    var len: nat              // the text's length
    const heap: Heap          // where memory comes from

    /** The representation invariant. */
    ghost predicate Valid()
      reads this, buffer
    {
      if buffer == null then capacity == 0 && len == 0
      else
        && buffer.Length == capacity + 1 < TWO_31
        && len <= capacity
        && buffer[len] == NUL
        && NulFree(buffer[..len])
    }

    /** The text the object stands for; an invalid (null) string has none. */
    function Text(): (t: seq<byte>)
      requires Valid()
      reads this, buffer
      ensures |t| == len && NulFree(t)
    {
      if buffer == null then [] else buffer[..len]
    }

    // ----- memory management

    constructor Init(heap: Heap)
      ensures Valid() && buffer == null && this.heap == heap
    {
      this.heap := heap;
      buffer, capacity, len := null, 0, 0;
    }

    /** There is room for `n` characters without a request. */
    predicate Enough(n: nat)
      reads this
    {
      buffer != null && capacity >= n
    }

    method Invalidate()
      modifies this
      ensures Valid() && buffer == null
    {
      buffer := null;
      capacity, len := 0, 0;
    }

    method ChangeBuffer(maxStrLen: nat) returns (ok: bool)
      requires Valid() && capacity <= maxStrLen < TWO_32 - 1
      modifies this, heap
      ensures len == old(len) && heap.requests == old(heap.requests) + 1
      ensures ok <==> maxStrLen + 1 < TWO_31 && old(heap.requests) < |heap.grants| && heap.grants[old(heap.requests)]
      ensures ok <==> old(heap.Grants(maxStrLen + 1))
      ensures ok ==> buffer != null && fresh(buffer) && capacity == maxStrLen && buffer.Length == maxStrLen + 1 < TWO_31
      ensures ok && old(buffer) != null ==> Valid() && Text() == old(Text())
      ensures !ok ==> buffer == old(buffer) && capacity == old(capacity)
    {
      ghost var was := if buffer == null then [] else buffer[..];
      var newbuffer := heap.Realloc(buffer, maxStrLen + 1);
      if newbuffer == null {
        return false;
      }
      if buffer != null {
        assert newbuffer[..buffer.Length] == was;
        assert newbuffer[len] == newbuffer[..buffer.Length][len];
        assert newbuffer[..len] == newbuffer[..buffer.Length][..len];
      }
      buffer := newbuffer;
      capacity := maxStrLen;
      return true;
    }

    method Reserve(size: nat) returns (ok: bool)
      requires Valid() && size < TWO_32 - 1
      modifies this, buffer, heap
      ensures Valid() && Text() == old(Text())
      ensures ok <==> old(buffer != null && capacity >= size) || old(heap.Grants(size + 1))
      ensures heap.requests == old(heap.requests) + if old(buffer != null && capacity >= size) then 0 else 1
      ensures old(Enough(size)) == old(buffer != null && capacity >= size)
      ensures buffer == old(buffer) || fresh(buffer)
      ensures ok ==> buffer != null && capacity >= size && (!old(Enough(size)) ==> capacity == size)
      ensures !ok ==> buffer == old(buffer) && capacity == old(capacity)
    {
      if buffer != null && capacity >= size {
        return true;
      }
      ok := ChangeBuffer(size);
      if ok {
        if len == 0 {
          buffer[0] := NUL;
        }
      }
    }

    // ----- assignment and concatenation

    /** Copies the C string of `length` characters that starts at `cells[from]`. */
    method Copy(cells: seq<byte>, from: nat, length: nat)
      requires Valid() && Terminated(cells, from) && length == |CStr(cells, from)| < TWO_32 - 1
      modifies this, buffer, heap
      ensures Valid() && (buffer == old(buffer) || buffer == null || fresh(buffer))
      ensures buffer != null <==> old(Enough(length)) || old(heap.Grants(length + 1))
      ensures heap.requests == old(heap.requests) + if old(Enough(length)) then 0 else 1
      ensures buffer != null ==> Text() == CStr(cells, from) && capacity >= length
      ensures buffer != null && !old(Enough(length)) ==> capacity == length
    {
      var ok := Reserve(length);
      if !ok {
        Invalidate();
        return;
      }
      len := length;
      PutCString(buffer[..], 0, CStr(cells, from));
      MemMove(buffer, 0, CStr(cells, from) + [NUL]);
      assert buffer[..len] == CStr(cells, from);
    }

    /** operator= for another string. */
    method Assign(rhs: String)
      requires Valid() && rhs.Valid() && (rhs != this ==> rhs.buffer == null || rhs.buffer != buffer)
      modifies this, buffer, heap
      ensures Valid() && (buffer == old(buffer) || buffer == null || fresh(buffer))
      ensures rhs.Valid() && rhs.Text() == old(rhs.Text()) && rhs.buffer == old(rhs.buffer)
      ensures rhs == this ==> heap.requests == old(heap.requests)
      ensures rhs != this ==>
                (buffer != null <==> rhs.buffer != null && (old(Enough(rhs.len)) || old(heap.Grants(rhs.len + 1))))
      ensures buffer != null ==> Text() == old(rhs.Text())
    {
      if rhs == this {
        return;
      }
      if rhs.buffer != null {
        CStrIs(rhs.buffer[..], rhs.len);
        Copy(rhs.buffer[..], 0, rhs.len);
      } else {
        Invalidate();
      }
    }

    method Concat(s: String) returns (ok: bool)
      requires Valid() && s.Valid() && s != this && (s.buffer == null || s.buffer != buffer)
      modifies this, buffer, heap
      ensures Valid() && s.Valid() && s.Text() == old(s.Text())
      ensures buffer == old(buffer) || fresh(buffer)
      ensures ok <==> s.buffer != null
                      && (s.len == 0 || old(Enough(len + s.len)) || old(heap.Grants(len + s.len + 1)))
      ensures Text() == if ok then old(Text()) + s.Text() else old(Text())
    {
      var newlen := U32(len + s.len);
      if s.buffer == null {
        return false;
      }
      if s.len == 0 {
        return true;
      }
      ok := Reserve(newlen);
      if !ok {
        return false;
      }
      hide EndOf;
      hide Put;
      CStrIs(s.buffer[..], s.len);
      PutCString(buffer[..], len, s.Text());
      MemMove(buffer, len, CStr(s.buffer[..], 0) + [NUL]);
      len := newlen;
    }

    // ----- search

    /** The greatest occurrence of `s2` that starts at or before `fromIndex`, found by searching forward. */
    method LastIndexOf(s2: String, fromIndex: nat) returns (found: int)
      requires Valid() && s2.Valid()
      ensures found == if s2.len == 0 || len == 0 then -1
                       else LastUpTo(Text(), s2.Text(), if fromIndex < len then fromIndex else len - 1)
    {
      hide LastUpTo;
      hide FirstFrom;
      hide StrStr;
      hide OccursAt;
      var last := if fromIndex >= len then len - 1 else fromIndex;
      if s2.len == 0 || len == 0 || s2.len > len {
        if s2.len > len { NoneFits(Text(), s2.Text(), last); }
        return -1;
      }
      ghost var t, f := Text(), s2.Text();
      found := -1;
      var p := 0;
      NothingBefore(t, f);
      while p <= last
        invariant 0 <= p <= len
        invariant found == LastUpTo(t, f, if p <= last then p - 1 else last)
        decreases len - p
      {
        StrStrIs(buffer[..], len, p, s2.buffer[..], s2.len);
        var at := StrStr(buffer[..], p, s2.buffer[..]);
        SkipTo(t, f, p, last);
        if at < 0 {
          break;
        }
        if at <= last {
          found := at;
        }
        p := at + 1;
      }
    }

    /** The last `ch` at or before `fromIndex`.  A NUL is planted behind it and taken away again. */
    method LastIndexOfChar(ch: byte, fromIndex: nat) returns (at: int)
      requires Valid()
      modifies buffer
      ensures buffer != null ==> buffer[..] == old(buffer[..])
      ensures fromIndex >= len ==> at == -1
      ensures fromIndex < len && ch != NUL ==> at == LastUpTo(Text(), [ch], fromIndex)
      ensures fromIndex < len && ch == NUL ==> at == fromIndex + 1
    {
      if fromIndex >= len {
        return -1;
      }
      ghost var cells := buffer[..];
      var tempchar := buffer[fromIndex + 1];
      buffer[fromIndex + 1] := NUL;
      StrRChrIs(cells, fromIndex, ch);
      at := StrRChr(buffer[..], ch);
      buffer[fromIndex + 1] := tempchar;
      assert buffer[..] == cells;
      StrRChrText(cells, len, fromIndex, ch);
    }

    // ----- replace

    /** Equal lengths: each occurrence is overwritten. */
    method ReplaceSame(find: String, replace: String)
      requires Valid() && find.Valid() && replace.Valid() && 0 < find.len == replace.len
      requires buffer != null && find.buffer != buffer && replace.buffer != buffer
      modifies buffer
      ensures Valid() && Text() == ReplaceAll(old(Text()), find.Text(), replace.Text())
    {
      hide FirstFrom;
      hide ReplaceFrom;
      hide ReplaceAll;
      hide StrStr;
      hide EndOf;
      hide CStr;
      hide Put;
      hide NulFree;
      hide Editing;
      ghost var cells, f, r := buffer[..], find.Text(), replace.Text();
      var readFrom: nat := 0;
      StartEditing(cells, f, r, len);
      while true
        invariant Editing(buffer[..], cells, f, r, len, readFrom, readFrom)
        decreases len - readFrom
      {
        SearchIs(buffer[..], cells, f, r, len, readFrom, readFrom, find.buffer[..], find.len);
        var foundAt := StrStr(buffer[..], readFrom, find.buffer[..]);
        if foundAt < 0 {
          break;
        }
        EditStep(buffer[..], cells, f, r, len, readFrom, readFrom, foundAt);
        PutBack(buffer[..], readFrom, foundAt);
        MemMove(buffer, foundAt, replace.Text());
        readFrom := foundAt + replace.len;
      }
      EditEnd(buffer[..], cells, f, r, len, readFrom, readFrom);
    }

    /** A shorter replacement: the text is compacted, the write cursor behind the read cursor. */
    method ReplaceShrink(find: String, replace: String)
      requires Valid() && find.Valid() && replace.Valid() && replace.len < find.len
      requires buffer != null && find.buffer != buffer && replace.buffer != buffer
      modifies buffer, `len
      ensures Valid() && Text() == ReplaceAll(old(Text()), find.Text(), replace.Text())
    {
      hide FirstFrom;
      hide ReplaceFrom;
      hide ReplaceAll;
      hide StrStr;
      hide EndOf;
      hide CStr;
      hide Put;
      hide NulFree;
      hide Editing;
      ghost var cells, n, f, r := buffer[..], len, find.Text(), replace.Text();
      var diff := replace.len - find.len;
      var readFrom: nat, writeTo: nat := 0, 0;
      StartEditing(cells, f, r, n);
      while true
        invariant Editing(buffer[..], cells, f, r, n, writeTo, readFrom)
        invariant len - writeTo == n - readFrom
        decreases n - readFrom
      {
        SearchIs(buffer[..], cells, f, r, n, writeTo, readFrom, find.buffer[..], find.len);
        var foundAt := StrStr(buffer[..], readFrom, find.buffer[..]);
        if foundAt < 0 {
          break;
        }
        EditStep(buffer[..], cells, f, r, n, writeTo, readFrom, foundAt);
        MemMove(buffer, writeTo, buffer[readFrom..foundAt]);
        writeTo := writeTo + foundAt - readFrom;
        MemMove(buffer, writeTo, replace.Text());
        writeTo := writeTo + replace.len;
        readFrom := foundAt + find.len;
        len := len + diff;
      }
      EditEnd(buffer[..], cells, f, r, n, writeTo, readFrom);
      PutCString(buffer[..], writeTo, CStr(buffer[..], readFrom));
      MemMove(buffer, writeTo, CStr(buffer[..], readFrom) + [NUL]);
    }

    /** One replacement of the right-to-left pass: make room behind `p`, then overwrite. */
    method ReplaceAt(p: nat, find: String, replace: String)
      requires Valid() && find.Valid() && replace.Valid() && find.len < replace.len
      requires buffer != null && find.buffer != buffer && replace.buffer != buffer
      requires find != this && replace != this
      requires p + find.len <= len && len + replace.len - find.len <= capacity
      modifies buffer, `len
      ensures Valid() && Text() == Graft(old(Text()), find.Text(), replace.Text(), p)
    {
      hide NulFree;
      hide Graft;
      hide Put;
      var diff := replace.len - find.len;
      var readFrom := p + find.len;
      GraftCells(buffer[..], len, find.Text(), replace.Text(), p);
      MemMove(buffer, readFrom + diff, buffer[readFrom..len]);
      len := len + diff;
      buffer[len] := NUL;
      MemMove(buffer, p, replace.Text());
    }

    /** The first pass over the text: the size the result needs, in 32 bits. */
    method GrownSize(find: String, replace: String) returns (size: nat)
      requires Valid() && find.Valid() && replace.Valid() && 0 < find.len < replace.len && buffer != null
      ensures size == U32(|ReplaceAll(Text(), find.Text(), replace.Text())|)
    {
      hide U32;
      hide FirstFrom;
      hide ReplaceFrom;
      hide StrStr;
      hide EndOf;
      hide NulFree;
      ghost var t, f, r := Text(), find.Text(), replace.Text();
      var diff := replace.len - find.len;
      ghost var full: nat := len;
      SmallWraps(len);
      size := len;
      var readFrom: nat := 0;
      while true
        invariant readFrom <= len && size == U32(full)
        invariant full + |ReplaceFrom(t, f, r, readFrom)| == |ReplaceAll(t, f, r)| + len - readFrom
        decreases len - readFrom
      {
        StrStrIs(buffer[..], len, readFrom, find.buffer[..], find.len);
        var foundAt := StrStr(buffer[..], readFrom, find.buffer[..]);
        if foundAt < 0 {
          ReplaceDone(t, f, r, readFrom);
          break;
        }
        ReplaceStep(t, f, r, readFrom);
        readFrom := foundAt + find.len;
        WrapAdd(full, diff);
        size := U32(size + diff);
        full := full + diff;
      }
    }

    /** The second pass: occurrences are replaced from the right, in the text edited so far. */
    method RewriteBuffer(find: String, replace: String)
      requires Valid() && find.Valid() && replace.Valid() && 0 < find.len < replace.len
      requires buffer != null && find.buffer != buffer && replace.buffer != buffer
      requires find != this && replace != this
      requires |RewriteAll(Text(), find.Text(), replace.Text())| <= capacity
      modifies buffer, `len
      ensures Valid() && Text() == RewriteAll(old(Text()), find.Text(), replace.Text())
    {
      ghost var t, f, r := Text(), find.Text(), replace.Text();
      var index: int := len - 1;
      assert Rewrite(Text(), f, r, index) == RewriteAll(t, f, r);
      hide *;
      while index >= 0
        invariant Valid() && find.Valid() && replace.Valid() && find.Text() == f && replace.Text() == r
        invariant -1 <= index < len
        invariant Rewrite(Text(), f, r, index) == RewriteAll(t, f, r)
        decreases index
      {
        RewriteNext(Text(), f, r, index);
        index := LastIndexOf(find, index);
        if index < 0 {
          break;
        }
        ReplaceAt(index, find, replace);
        index := index - 1;
      }
      RewriteStop(Text(), f, r);
    }

    /** A longer replacement. */
    method ReplaceGrow(find: String, replace: String)
      requires Valid() && find.Valid() && replace.Valid() && 0 < find.len < replace.len
      requires buffer != null && find.buffer != buffer && replace.buffer != buffer
      requires find != this && replace != this
      requires Roomy(Text(), find.Text(), replace.Text(), capacity)
      modifies this, buffer, heap
      ensures Valid() && (buffer == old(buffer) || fresh(buffer))
      ensures var t, f, r := old(Text()), find.Text(), replace.Text();
              var size := U32(|ReplaceAll(t, f, r)|);
              && Text() == (if GivesUp(|t|, size, old(capacity), old(heap.Grants(size + 1))) then t else RewriteAll(t, f, r))
              && heap.requests == old(heap.requests) + (if |t| != size > old(capacity) then 1 else 0)
    {
      hide RewriteAll;
      hide ReplaceAll;
      hide NulFree;
      hide U32;
      hide Roomy;
      var size := GrownSize(find, replace);
      RoomyMeans(Text(), find.Text(), replace.Text(), capacity);
      if size == len {
        return;
      }
      if size > capacity {
        var ok := ChangeBuffer(size);
        if !ok {
          return;
        }
      }
      RewriteBuffer(find, replace);
    }

    /** Replaces `find` by `replace` throughout the text. */
    method Replace(find: String, replace: String)
      requires Valid() && find.Valid() && replace.Valid() && find != this && replace != this
      requires buffer == null || (find.buffer != buffer && replace.buffer != buffer)
      requires len > 0 && 0 < find.len < replace.len ==> Roomy(Text(), find.Text(), replace.Text(), capacity)
      modifies this, buffer, heap
      ensures Valid() && (buffer == old(buffer) || fresh(buffer))
      ensures find.Valid() && replace.Valid() && find.Text() == old(find.Text()) && replace.Text() == old(replace.Text())
      ensures var t, f, r := old(Text()), find.Text(), replace.Text();
              Text() == if t == [] || f == [] then t
                        else if |r| <= |f| then ReplaceAll(t, f, r)
                        else
                          var size := U32(|ReplaceAll(t, f, r)|);
                          if GivesUp(|t|, size, old(capacity), old(heap.Grants(size + 1))) then t else RewriteAll(t, f, r)
      ensures var t, f, r := old(Text()), find.Text(), replace.Text();
              t != [] && 0 < |f| < |r| && (Faithful(t, f, r, 0) || (Unbordered(f) && Settled(t, f, r, |t|)))
              && (|ReplaceAll(t, f, r)| <= old(capacity)
                  || (|ReplaceAll(t, f, r)| + 1 < TWO_31 && old(heap.requests) < |heap.grants| && heap.grants[old(heap.requests)]))
              ==> Text() == ReplaceAll(t, f, r)
    {
      hide RewriteAll;
      hide ReplaceAll;
      hide Settled;
      hide Unbordered;
      hide Faithful;
      hide Roomy;
      if len > 0 && 0 < find.len < replace.len {
        RewriteExact(Text(), find.Text(), replace.Text());
        if Unbordered(find.Text()) { RewriteAllExact(Text(), find.Text(), replace.Text()); }
        RewriteUnchanged(Text(), find.Text(), replace.Text());
      }
      if len == 0 || find.len == 0 {
        return;
      }
      var diff := replace.len - find.len;
      if diff == 0 {
        ReplaceSame(find, replace);
      } else if diff < 0 {
        ReplaceShrink(find, replace);
      } else {
        ReplaceGrow(find, replace);
      }
    }

    // ----- cutting

    /** Closes the gap left by the `n` characters at `index`. */
    method CloseGap(index: nat, n: nat)
      requires Valid() && buffer != null && index + n <= len
      modifies buffer, `len
      ensures Valid() && Text() == old(Text())[..index] + old(Text())[index + n..]
    {
      hide Put;
      hide NulFree;
      CutCells(buffer[..], len, index, n);
      len := len - n;
      MemMove(buffer, index, buffer[index + n..len + n]);
      buffer[len] := NUL;
    }

    /** Removes `count` characters from `index` on, or what there is of them. */
    method Remove(index: nat, count: nat)
      requires Valid() && index < TWO_32 && count < TWO_32
      requires index < len ==> index + count < TWO_32
      modifies buffer, `len
      ensures Valid()
      ensures var t := old(Text());
              Text() == if index >= |t| then t
                        else t[..index] + t[if index + count < |t| then index + count else |t|..]
    {
      if index >= len {
        return;
      }
      if count <= 0 {
        assert Text() == Text()[..index] + Text()[index..];
        return;
      }
      CloseGap(index, if U32(index + count) > len then len - index else count);
    }

    /** Keeps the characters from `begin` up to `end`. */
    method Keep(begin: nat, end: nat)
      requires Valid() && buffer != null && begin <= end <= len
      modifies buffer, `len
      ensures Valid() && Text() == old(Text())[begin..end]
    {
      hide Put;
      hide NulFree;
      TrimCells(buffer[..], len, begin, end);
      len := end - begin;
      if begin > 0 {
        MemMove(buffer, 0, buffer[begin..begin + len]);
      }
      buffer[len] := NUL;
    }

    /** Strips white space from both ends. */
    method Trim()
      requires Valid()
      modifies buffer, `len
      ensures Valid() && IsTrimmed(old(Text()), Text())
    {
      if buffer == null || len == 0 {
        assert TrimCut(Text(), 0, 0);
        return;
      }
      ghost var t := Text();
      var begin := 0;
      while IsSpace(buffer[begin])
        invariant 0 <= begin <= len && forall i :: 0 <= i < begin ==> IsSpace(t[i])
        decreases len - begin
      {
        begin := begin + 1;
      }
      var end := len - 1;
      while IsSpace(buffer[end]) && end >= begin
        invariant 0 <= end < len && (if begin < len then begin <= end else end == len - 1)
        invariant forall i :: end < i < len ==> IsSpace(t[i])
        decreases end
      {
        end := end - 1;
      }
      assert TrimCut(t, begin, end + 1);
      Keep(begin, end + 1);
    }

    /** The characters from `left` up to `right`, in either order, as a new string.  A NUL is planted
        behind them and taken away again. */
    method Substring(left: nat, right: nat) returns (out: String)
      requires Valid() && (buffer == null ==> left > 0 && right > 0)
      modifies buffer, heap
      ensures buffer != null ==> buffer[..] == old(buffer[..])
      ensures fresh(out) && out.Valid() && (out.buffer == null || fresh(out.buffer))
      ensures var lo, hi := if left > right then right else left, if left > right then left else right;
              var slice := if lo > len then [] else old(Text())[lo..if hi > len then len else hi];
              var next := old(heap.requests);
              var first, second := next < |heap.grants| && heap.grants[next], next + 1 < |heap.grants| && heap.grants[next + 1];
              && (out.buffer != null ==> out.Text() == slice)
              && (out.buffer != null <==> if lo > len then first else if slice == [] then first || second else second)
    {
      var lo, hi := left, right;
      if lo > hi {
        lo, hi := hi, lo;
      }
      out := new String.Init(heap);
      var empty: seq<byte> := [NUL];
      CStrIs(empty, 0);
      hide NulFree;
      hide EndOf;
      hide CStr;
      out.Copy(empty, 0, 0);
      if lo > len {
        return;
      }
      if hi > len {
        hi := len;
      }
      Extract(lo, hi, out);
    }

    /** Copies the characters from `lo` up to `hi` into another string. */
    method Extract(lo: nat, hi: nat, out: String)
      requires Valid() && buffer != null && lo <= hi <= len
      requires out != this && out.Valid() && (out.buffer == null || out.buffer != buffer)
      modifies buffer, out, out.buffer, out.heap
      ensures Valid() && buffer[..] == old(buffer[..])
      ensures out.Valid() && (out.buffer == null || out.buffer == old(out.buffer) || fresh(out.buffer))
      ensures out.buffer != null <==> old(out.Enough(hi - lo)) || old(out.heap.Grants(hi - lo + 1))
      ensures out.buffer != null ==> out.Text() == old(Text())[lo..hi]
    {
      ghost var cells := buffer[..];
      SubCells(cells, len, lo, hi);
      hide NulFree;
      hide EndOf;
      hide CStr;
      var temp := buffer[hi];
      buffer[hi] := NUL;
      out.Copy(buffer[..], lo, hi - lo);
      buffer[hi] := temp;
      assert buffer[..] == cells;
    }
  }

  /** A pattern longer than the text occurs nowhere. */
  lemma {:induction false} NoneFits(t: seq<byte>, f: seq<byte>, upTo: int)
    requires upTo >= -1 && |f| > |t|
    ensures LastUpTo(t, f, upTo) == -1
  {
  }

  /** In a buffer that holds text of length `n`, strstr searches that text. */
  lemma {:induction false} StrStrIs(cells: seq<byte>, n: nat, from: nat, needle: seq<byte>, m: nat)
    requires from <= n < |cells| && cells[n] == NUL && NulFree(cells[..n])
    requires m < |needle| && needle[m] == NUL && NulFree(needle[..m])
    ensures Terminated(cells, from) && Terminated(needle, 0)
    ensures StrStr(cells, from, needle) == FirstFrom(cells[..n], needle[..m], from)
  {
    assert forall i :: from <= i < n ==> cells[..n][i] == cells[i] == cells[from..n][i - from];
    EndIs(cells, from, n);
    assert needle[0..m] == needle[..m];
    EndIs(needle, 0, m);
  }

  lemma {:induction false} NothingBefore(t: seq<byte>, f: seq<byte>)
    ensures LastUpTo(t, f, -1) == -1
  {
  }

  /** No last occurrence lies between the search position and the first occurrence after it. */
  lemma {:induction false} SkipTo(t: seq<byte>, f: seq<byte>, p: nat, last: nat)
    requires p <= last
    ensures var k := FirstFrom(t, f, p);
            if 0 <= k <= last then LastUpTo(t, f, k) == k
            else LastUpTo(t, f, last) == LastUpTo(t, f, p - 1)
  {
    hide FirstFrom;
    var k := FirstFrom(t, f, p);
    if !(0 <= k <= last) { LastUnchanged(t, f, p - 1, last); }
  }

  lemma {:induction false} LastUnchanged(t: seq<byte>, f: seq<byte>, a: int, b: int)
    requires -1 <= a <= b && (FirstFrom(t, f, a + 1) < 0 || FirstFrom(t, f, a + 1) > b)
    ensures LastUpTo(t, f, b) == LastUpTo(t, f, a)
    decreases b - a
  {
    hide FirstFrom;
    if a < b {
      if OccursAt(t, f, b) { FirstIsLeast(t, f, a + 1, b); }
      LastUnchanged(t, f, a, b - 1);
    }
  }

  /** With a NUL planted at `from + 1`, strrchr sees the text up to `from`. */
  lemma {:induction false} StrRChrIs(cells: seq<byte>, from: nat, ch: byte)
    requires from + 1 < |cells| && NulFree(cells[..from + 1])
    ensures var cut := cells[from + 1 := NUL];
            && Terminated(cut, 0)
            && StrRChr(cut, ch) == LastUpTo(cut, [ch], from + 1)
  {
    var cut := cells[from + 1 := NUL];
    assert cut[0..from + 1] == cells[..from + 1];
    EndIs(cut, 0, from + 1);
  }

  /** And that is where the text has its last `ch`. */
  lemma {:induction false} StrRChrText(cells: seq<byte>, n: nat, from: nat, ch: byte)
    requires from < n < |cells| && NulFree(cells[..n])
    ensures var cut := cells[from + 1 := NUL];
            LastUpTo(cut, [ch], from + 1) == if ch == NUL then from + 1 else LastUpTo(cells[..n], [ch], from)
  {
    var cut := cells[from + 1 := NUL];
    assert cut[from + 1..from + 2] == [NUL];
    if ch != NUL { LastChar(cut, cells[..n], ch, from); }
  }

  lemma {:induction false} LastChar(s: seq<byte>, t: seq<byte>, ch: byte, upTo: int)
    requires -1 <= upTo < |s| && upTo < |t| && s[..upTo + 1] == t[..upTo + 1]
    ensures LastUpTo(s, [ch], upTo) == LastUpTo(t, [ch], upTo)
    decreases upTo + 1
  {
    if upTo >= 0 {
      assert s[upTo] == s[..upTo + 1][upTo] == t[upTo];
      assert s[upTo..upTo + 1] == [s[upTo]] == t[upTo..upTo + 1];
      assert s[..upTo] == s[..upTo + 1][..upTo] == t[..upTo];
      LastChar(s, t, ch, upTo - 1);
    }
  }

  /** The state of the left-to-right passes over `cells[..n]`: what stands before `writeTo` is
      edited, what stands at `readFrom` and behind is not. */
  ghost predicate Editing(now: seq<byte>, cells: seq<byte>, f: seq<byte>, r: seq<byte>, n: nat,
                          writeTo: nat, readFrom: nat)
  {
    && f != [] && writeTo <= readFrom <= n < |cells| == |now|
    && now[readFrom..] == cells[readFrom..]
    && now[..writeTo] + ReplaceFrom(cells[..n], f, r, readFrom) == ReplaceAll(cells[..n], f, r)
  }

  lemma {:induction false} StartEditing(cells: seq<byte>, f: seq<byte>, r: seq<byte>, n: nat)
    requires f != [] && n < |cells|
    ensures Editing(cells, cells, f, r, n, 0, 0)
  {
    hide ReplaceFrom;
  }

  /** Copying down the text before an occurrence and then the replacement keeps the state. */
  lemma {:induction false} EditStep(now: seq<byte>, cells: seq<byte>, f: seq<byte>, r: seq<byte>, n: nat,
                                    writeTo: nat, readFrom: nat, k: int)
    requires Editing(now, cells, f, r, n, writeTo, readFrom)
    requires |r| <= |f| && 0 <= k == FirstFrom(cells[..n], f, readFrom)
    ensures writeTo <= readFrom <= k && k + |f| <= n
    ensures var w := writeTo + k - readFrom;
            Editing(Put(Put(now, writeTo, now[readFrom..k]), w, r), cells, f, r, n, w + |r|, k + |f|)
  {
    hide FirstFrom;
    hide ReplaceFrom;
    hide ReplaceAll;
    var s, w := cells[..n], writeTo + k - readFrom;
    var next := Put(Put(now, writeTo, now[readFrom..k]), w, r);
    var rest := ReplaceFrom(s, f, r, k + |f|);
    ReplaceNext(s, f, r, readFrom);
    assert now[readFrom..k] == s[readFrom..k] by {
      assert now[readFrom..k] == now[readFrom..][..k - readFrom] == cells[readFrom..][..k - readFrom];
    }
    assert next[..w + |r|] == now[..writeTo] + s[readFrom..k] + r;
    assert next[k + |f|..] == now[readFrom..][k + |f| - readFrom..] == cells[readFrom..][k + |f| - readFrom..];
    assert cells[readFrom..][k + |f| - readFrom..] == cells[k + |f|..];
    assert now[..writeTo] + s[readFrom..k] + r + rest == now[..writeTo] + (s[readFrom..k] + r + rest);
  }

  lemma {:induction false} PutBack(now: seq<byte>, i: nat, k: nat)
    requires i <= k <= |now|
    ensures Put(now, i, now[i..k]) == now
  {
  }

  /** When nothing more is found, the unread text completes the result, which has no NUL. */
  lemma {:induction false} EditEnd(now: seq<byte>, cells: seq<byte>, f: seq<byte>, r: seq<byte>, n: nat,
                                   writeTo: nat, readFrom: nat)
    requires Editing(now, cells, f, r, n, writeTo, readFrom)
    requires FirstFrom(cells[..n], f, readFrom) < 0 && cells[n] == NUL && NulFree(cells[..n]) && NulFree(r)
    ensures writeTo <= readFrom <= n && now[n] == NUL
    ensures now[..writeTo] + now[readFrom..n] == ReplaceAll(cells[..n], f, r)
    ensures writeTo == readFrom ==> now[..n] == ReplaceAll(cells[..n], f, r)
    ensures NulFree(ReplaceAll(cells[..n], f, r))
    ensures Terminated(now, readFrom) && CStr(now, readFrom) == now[readFrom..n]
  {
    hide FirstFrom;
    hide ReplaceFrom;
    UnreadEnd(now, cells, n, readFrom);
    ReplaceDone(cells[..n], f, r, readFrom);
    ReplaceNulFree(cells[..n], f, r, 0);
    assert now[..readFrom] + now[readFrom..n] == now[..n];
  }

  lemma {:induction false} ReplaceNulFree(s: seq<byte>, f: seq<byte>, r: seq<byte>, from: nat)
    requires f != [] && from <= |s| && NulFree(s) && NulFree(r)
    ensures NulFree(ReplaceFrom(s, f, r, from))
    decreases |s| - from
  {
    hide FirstFrom;
    hide OccursAt;
    var k := FirstFrom(s, f, from);
    if k >= 0 { ReplaceNulFree(s, f, r, k + |f|); }
  }

  /** While the unread part is unchanged, strstr finds the next occurrence of the original text. */
  lemma {:induction false} SearchIs(now: seq<byte>, cells: seq<byte>, f: seq<byte>, r: seq<byte>, n: nat,
                                    writeTo: nat, readFrom: nat, needle: seq<byte>, m: nat)
    requires Editing(now, cells, f, r, n, writeTo, readFrom)
    requires cells[n] == NUL && NulFree(cells[..n])
    requires m < |needle| && needle[m] == NUL && NulFree(needle[..m])
    ensures Terminated(now, readFrom) && Terminated(needle, 0)
    ensures StrStr(now, readFrom, needle) == FirstFrom(cells[..n], needle[..m], readFrom)
  {
    hide ReplaceFrom;
    hide FirstFrom;
    UnreadEnd(now, cells, n, readFrom);
    assert needle[0..m] == needle[..m];
    EndIs(needle, 0, m);
    assert now[..n][readFrom..] == now[readFrom..n] == cells[..n][readFrom..];
    FirstInSuffix(now[..n], cells[..n], needle[..m], readFrom);
  }

  lemma {:induction false} UnreadEnd(now: seq<byte>, cells: seq<byte>, n: nat, from: nat)
    requires from <= n < |cells| == |now| && now[from..] == cells[from..]
    requires cells[n] == NUL && NulFree(cells[..n])
    ensures now[n] == NUL && now[from..n] == cells[from..n] == cells[..n][from..]
    ensures Terminated(now, from) && EndOf(now, from) == n
  {
    assert now[n] == now[from..][n - from] == cells[from..][n - from] == NUL;
    assert now[from..n] == now[from..][..n - from] == cells[from..n];
    assert NulFree(cells[..n][from..]);
    EndIs(now, from, n);
  }

  /** strcpy of `s` to `to`. */
  lemma {:induction false} PutCString(now: seq<byte>, to: nat, s: seq<byte>)
    requires to + |s| < |now|
    ensures var next := Put(now, to, s + [NUL]);
            |next| == |now| && next[..to + |s|] == now[..to] + s && next[to + |s|] == NUL
  {
  }

  /** Making room behind `p` and overwriting replaces the `|f|` characters at `p`. */
  lemma {:induction false} GraftCells(now: seq<byte>, n: nat, f: seq<byte>, r: seq<byte>, p: nat)
    requires |f| < |r| && p + |f| <= n && n + |r| - |f| < |now|
    requires NulFree(now[..n]) && NulFree(r)
    ensures var m, q := n + |r| - |f|, p + |f|;
            var next := Put(Put(now, q + |r| - |f|, now[q..n])[m := NUL], p, r);
            && |next| == |now| && next[m] == NUL
            && next[..m] == Graft(now[..n], f, r, p) && NulFree(next[..m])
  {
    var m, q := n + |r| - |f|, p + |f|;
    var moved := Put(now, q + |r| - |f|, now[q..n])[m := NUL];
    var next := Put(moved, p, r);
    assert next[..m] == now[..p] + r + now[q..n];
    assert now[..n][..p] == now[..p] && now[..n][q..] == now[q..n];
  }

  lemma {:induction false} ReplaceNoShorter(t: seq<byte>, f: seq<byte>, r: seq<byte>, from: nat)
    requires f != [] && |r| >= |f| && from <= |t|
    ensures |ReplaceFrom(t, f, r, from)| >= |t| - from
    decreases |t| - from
  {
    hide FirstFrom;
    hide OccursAt;
    if FirstFrom(t, f, from) >= 0 {
      ReplaceStep(t, f, r, from);
      ReplaceNoShorter(t, f, r, FirstFrom(t, f, from) + |f|);
    }
  }

  /** If nothing is to be replaced, the right-to-left pass would change nothing either. */
  lemma {:induction false} RewriteUnchanged(t: seq<byte>, f: seq<byte>, r: seq<byte>)
    requires f != [] && |r| > |f|
    ensures |ReplaceAll(t, f, r)| == |t| ==> RewriteAll(t, f, r) == t
  {
    hide FirstFrom;
    hide LastUpTo;
    hide ReplaceFrom;
    if FirstFrom(t, f, 0) >= 0 {
      ReplaceStep(t, f, r, 0);
      ReplaceNoShorter(t, f, r, FirstFrom(t, f, 0) + |f|);
    }
    var p := LastUpTo(t, f, |t| - 1);
    if p >= 0 { FirstIsLeast(t, f, 0, p); } else { RewriteStop(t, f, r); }
  }

  lemma {:induction false} RewriteNext(t: seq<byte>, f: seq<byte>, r: seq<byte>, index: nat)
    requires f != [] && |r| > |f|
    ensures var p := LastUpTo(t, f, index);
            && (p < 0 ==> Rewrite(t, f, r, index) == Rewrite(t, f, r, -1))
            && (p >= 0 ==> p + |f| <= |t| && Rewrite(t, f, r, index) == Rewrite(Graft(t, f, r, p), f, r, p - 1)
                           && |t| + |r| - |f| <= |Rewrite(t, f, r, index)|)
  {
    hide OccursAt;
    var p := LastUpTo(t, f, index);
    if p < 0 {
      assert LastUpTo(t, f, -1) < 0;
      hide LastUpTo;
    } else {
      hide LastUpTo;
      RewriteGrows(Graft(t, f, r, p), f, r, p - 1);
    }
  }

  lemma {:induction false} RewriteStop(t: seq<byte>, f: seq<byte>, r: seq<byte>)
    requires f != []
    ensures Rewrite(t, f, r, -1) == t
  {
  }

  /** What the growing branch needs in order to stay within its buffer, counted on the text as it is before the
      call: the 32-bit size makes it give up, or there is spare capacity for as many matches as the right-to-left
      pass has, or the size has not wrapped and that pass has no more matches than the first one.  It has no more
      when no suffix of the pattern starts the replacement, and when no occurrence revives another. */
  ghost predicate Roomy(t: seq<byte>, f: seq<byte>, r: seq<byte>, capacity: nat)
    requires f != []
  {
    var size := |ReplaceAll(t, f, r)|;
    || U32(size) == |t|
    || |t| + Matches(t, f, r, |t|) * (|r| - |f|) <= capacity
    || (size < TWO_32 - 1 && (Graftless(f, r) || Settled(t, f, r, |t|) || Matches(t, f, r, |t|) == CountFrom(t, f, 0)))
  }

  /** For every pattern, text and capacity: that is so if and only if the result of the pass fits where it is going
      to be.  Three simpler conditions suffice, and with no spare capacity an unbordered pattern needs the second. */
  lemma {:induction false} RoomyExactly(t: seq<byte>, f: seq<byte>, r: seq<byte>, capacity: nat)
    requires f != [] && |r| > |f|
    ensures var size, n := |ReplaceAll(t, f, r)|, |RewriteAll(t, f, r)|;
            Roomy(t, f, r, capacity) <==> U32(size) == |t| || n <= capacity || (size < TWO_32 - 1 && n <= size)
    ensures Graftless(f, r) ==> Settled(t, f, r, |t|)
    ensures |ReplaceAll(t, f, r)| < TWO_32 - 1 && Settled(t, f, r, |t|) ==> Roomy(t, f, r, capacity)
    ensures Faithful(t, f, r, 0) ==> RewriteAll(t, f, r) == ReplaceAll(t, f, r)
    ensures |ReplaceAll(t, f, r)| < TWO_32 - 1 && Faithful(t, f, r, 0) ==> Roomy(t, f, r, capacity)
    ensures Unbordered(f) && |t| < |ReplaceAll(t, f, r)| < TWO_32 - 1 && capacity <= |ReplaceAll(t, f, r)| ==>
              (Roomy(t, f, r, capacity) <==> Settled(t, f, r, |t|))
  {
    RewriteAllLength(t, f, r);
    RewriteExact(t, f, r);
    LoopLength(t, f, r);
    if Graftless(f, r) { GraftlessIsSettled(t, f, r, |t|); }
    hide Settled;
    hide Graftless;
    hide Unbordered;
    hide RewriteAll;
    hide ReplaceAll;
    hide Faithful;
    hide Matches;
    hide CountFrom;
    if |ReplaceAll(t, f, r)| < TWO_32 - 1 { SmallWraps(|ReplaceAll(t, f, r)|); }
    hide U32;
  }

  /** The growing branch leaves the text alone: there is nothing to replace (or the size wraps to the same length),
      or the buffer is too small and the request for a larger one is not met. */
  predicate GivesUp(len: nat, size: nat, capacity: nat, granted: bool) {
    size == len || (size > capacity && !granted)
  }

  /** The 32-bit size is never less than what the pass that is about to run needs, unless it makes the branch
      give up. */
  lemma {:induction false} RoomyMeans(t: seq<byte>, f: seq<byte>, r: seq<byte>, capacity: nat)
    requires f != [] && |r| > |f| && |t| <= capacity < TWO_31 && Roomy(t, f, r, capacity)
    ensures var (size, n) := (|ReplaceAll(t, f, r)|, |RewriteAll(t, f, r)|);
            && |t| <= size <= n
            && (U32(size) == |t| ==> size == |t| || capacity < size)
            && (size == |t| ==> RewriteAll(t, f, r) == t)
            && (U32(size) != |t| && U32(size) > capacity ==> U32(size) == size < TWO_32 - 1 && n <= size)
            && (U32(size) != |t| && U32(size) <= capacity ==> n <= capacity)
  {
    RewriteUnchanged(t, f, r);
    RewriteAllLength(t, f, r);
    ReplaceNoShorter(t, f, r, 0);
    RoomyExactly(t, f, r, capacity);
    hide Roomy;
    var size := |ReplaceAll(t, f, r)|;
    assert |ReplaceFrom(t, f, r, 0)| == size;
    hide Settled;
    hide Graftless;
    hide RewriteAll;
    hide ReplaceAll;
    hide ReplaceFrom;
    hide Unbordered;
    if size < TWO_32 { SmallWraps(size); }
  }

  lemma {:induction false} SmallWraps(n: nat)
    requires n < TWO_32
    ensures U32(n) == n
  {
  }

  lemma {:induction false} WrapAdd(n: nat, d: nat)
    ensures U32(U32(n) + d) == U32(n + d)
  {
    var k := n / TWO_32;
    assert n == U32(n) + k * TWO_32;
    assert n + d == U32(n) + d + k * TWO_32;
  }

  /** The clamp of `remove` computes the number of characters there are exactly when the unsigned
      sum does not wrap. */
  lemma {:induction false} RemoveClampExact(len: nat, index: nat, count: nat)
    requires index < len < TWO_31 && 0 < count < TWO_32
    ensures var n := if U32(index + count) > len then len - index else count;
            n == (if count < len - index then count else len - index) <==> index + count < TWO_32
  {
    if index + count >= TWO_32 { assert U32(index + count) == index + count - TWO_32; }
  }

  lemma {:induction false} CStrIs(cells: seq<byte>, n: nat)
    requires n < |cells| && cells[n] == NUL && NulFree(cells[..n])
    ensures Terminated(cells, 0) && CStr(cells, 0) == cells[..n]
  {
    assert cells[0..n] == cells[..n];
    EndIs(cells, 0, n);
  }

  /** Closing the gap left by the `cut` characters at `index`. */
  lemma {:induction false} CutCells(now: seq<byte>, n: nat, index: nat, cut: nat)
    requires index + cut <= n < |now| && NulFree(now[..n])
    ensures var m := n - cut;
            var next := Put(now, index, now[index + cut..n])[m := NUL];
            && |next| == |now| && next[m] == NUL && NulFree(next[..m])
            && next[..m] == now[..n][..index] + now[..n][index + cut..]
  {
    var m := n - cut;
    var next := Put(now, index, now[index + cut..n])[m := NUL];
    assert next[..m] == now[..index] + now[index + cut..n];
  }

  /** `s[i..j]` is what remains of `s` without the white space at its ends. */
  predicate TrimCut(s: seq<byte>, i: int, j: int) {
    && 0 <= i <= j <= |s|
    && (forall k :: 0 <= k < i ==> s[k] in WHITE)
    && (forall k :: j <= k < |s| ==> s[k] in WHITE)
    && (i < j ==> s[i] !in WHITE && s[j - 1] !in WHITE)
  }

  /** Space, tab, line feed, vertical tab, form feed and carriage return. */
  const WHITE: set<int> := {' ' as int, '\t' as int, '\n' as int, 11, 12, '\r' as int}

  ghost predicate IsTrimmed(s: seq<byte>, t: seq<byte>) {
    exists i, j :: TrimCut(s, i, j) && t == s[i..j]
  }

  /** There is only one way to strip white space from both ends. */
  lemma {:induction false} TrimUnique(s: seq<byte>, t: seq<byte>, u: seq<byte>)
    requires IsTrimmed(s, t) && IsTrimmed(s, u)
    ensures t == u
  {
    var i, j :| TrimCut(s, i, j) && t == s[i..j];
    var k, l :| TrimCut(s, k, l) && u == s[k..l];
    TrimStart(s, i, j, k, l);
    TrimStart(s, k, l, i, j);
  }

  lemma {:induction false} TrimStart(s: seq<byte>, i: int, j: int, k: int, l: int)
    requires TrimCut(s, i, j) && TrimCut(s, k, l)
    ensures i < j ==> k <= i && j <= l
  {
    if i < j { assert s[i] !in WHITE && s[j - 1] !in WHITE; }
  }

  lemma {:induction false} TrimCells(now: seq<byte>, n: nat, i: nat, j: nat)
    requires i <= j <= n < |now| && NulFree(now[..n])
    ensures var m := j - i;
            var next := (if i > 0 then Put(now, 0, now[i..j]) else now)[m := NUL];
            && |next| == |now| && next[m] == NUL && NulFree(next[..m]) && next[..m] == now[..n][i..j]
  {
    var m := j - i;
    var next := (if i > 0 then Put(now, 0, now[i..j]) else now)[m := NUL];
    assert now[..n][i..j] == now[i..j];
    assert next[..m] == now[i..j];
  }

  lemma {:induction false} SubCells(now: seq<byte>, n: nat, i: nat, j: nat)
    requires i <= j <= n < |now| && NulFree(now[..n])
    ensures var cut := now[j := NUL];
            Terminated(cut, i) && CStr(cut, i) == now[..n][i..j]
  {
    var cut := now[j := NUL];
    assert cut[i..j] == now[..n][i..j];
    EndIs(cut, i, j);
  }
}
