/** The C library functions the string code relies on, as functions of memory contents
    (ISO/IEC 9899:2011, sections 7.22.3.5 and 7.24). */
module CString {
  import opened Bytes
  import opened Patterns

  /** A NUL stands in `cells` at or after `from`. */
  predicate Terminated(cells: seq<byte>, from: nat) {
    exists n :: from <= n < |cells| && cells[n] == NUL
  }

  predicate NulFree(s: seq<byte>) {
    forall i :: 0 <= i < |s| ==> s[i] != NUL
  }

  /** The index of the first NUL at or after `from`. */
  function EndOf(cells: seq<byte>, from: nat): (end: nat)
    requires Terminated(cells, from)
    ensures from <= end < |cells| && cells[end] == NUL && NulFree(cells[from..end])
    decreases |cells| - from
  {
    if cells[from] == NUL then from else EndOf(cells, from + 1)
  }

  /** The C string that starts at `from`. */
  function CStr(cells: seq<byte>, from: nat): seq<byte>
    requires Terminated(cells, from)
  {
    cells[from..EndOf(cells, from)]
  }

  /** strstr: the index of the first occurrence of `needle` at or after `from`, or -1. */
  function StrStr(cells: seq<byte>, from: nat, needle: seq<byte>): int
    requires Terminated(cells, from) && Terminated(needle, 0)
  {
    FirstFrom(cells[..EndOf(cells, from)], CStr(needle, 0), from)
  }

  /** strrchr: the index of the last `c` up to and including the terminator, or -1. */
  function StrRChr(cells: seq<byte>, c: byte): int
    requires Terminated(cells, 0)
  {
    LastUpTo(cells, [c], EndOf(cells, 0))
  }

  /** The memory after `src` has been written at `to`. */
  function Put(cells: seq<byte>, to: nat, src: seq<byte>): seq<byte>
    requires to + |src| <= |cells|
  {
    cells[..to] + src + cells[to + |src|..]
  }

  /** Writing one more character. */
  lemma {:induction false} PutNext(cells: seq<byte>, to: nat, src: seq<byte>, k: nat)
    requires k < |src| && to + |src| <= |cells|
    ensures Put(cells, to, src[..k])[to + k := src[k]] == Put(cells, to, src[..k + 1])
  {
    assert src[..k + 1] == src[..k] + [src[k]];
  }

  /** The first NUL is where the first NUL is. */
  lemma {:induction false} EndIs(cells: seq<byte>, from: nat, n: nat)
    requires from <= n < |cells| && cells[n] == NUL && NulFree(cells[from..n])
    ensures Terminated(cells, from) && EndOf(cells, from) == n
    decreases n - from
  {
    if from < n {
      assert cells[from] == cells[from..n][0] != NUL;
      assert cells[from + 1..n] == cells[from..n][1..];
      EndIs(cells, from + 1, n);
    }
  }

  /** memmove, and strcpy when `src` carries the terminator; also an overlapping forward memcpy. */
  method MemMove(a: array<byte>, to: nat, src: seq<byte>)
    requires to + |src| <= a.Length
    modifies a
    ensures a[..] == Put(old(a[..]), to, src)
  {
    var i := 0;
    while i < |src|
      invariant i <= |src|
      invariant a[..] == Put(old(a[..]), to, src[..i])
    {
      PutNext(old(a[..]), to, src, i);
      a[to + i] := src[i];
      i := i + 1;
    }
    assert src[..i] == src;
  }

  /** The memory allocator.  Which requests it meets is not for its users to choose. */
  class Heap {
    const grants: seq<bool>  // whether each request is met, in order; none is after the last of them
    var requests: nat        // how many have been made

    constructor (grants: seq<bool>)
      ensures this.grants == grants && requests == 0
    {
      this.grants, requests := grants, 0;
    }

    /** The next request will be met if it is for `size` bytes.  No object reaches 2^31 bytes. */
    predicate Grants(size: nat)
      reads this
    {
      size < TWO_31 && requests < |grants| && grants[requests]
    }

    /** realloc: fresh memory that starts with the old contents, or null if the request is not met. */
    method Realloc(a: array?<byte>, size: nat) returns (b: array?<byte>)
      modifies this
      ensures requests == old(requests) + 1
      ensures b != null <==> size < TWO_31 && old(requests) < |grants| && grants[old(requests)]
      ensures b != null ==> fresh(b) && b.Length == size
      ensures b != null && a != null && a.Length <= size ==> b[..a.Length] == old(a[..])
    {
      var granted := Grants(size);
      requests := requests + 1;
      if !granted {
        return null;
      }
      b := new byte[size];
      if a != null && a.Length <= size {
        MemMove(b, 0, a[..]);
      }
    }
  }
}
