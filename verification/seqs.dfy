/** Sequence facts shared by the searcher and the builder: strict ordering,
    flattening a sequence of pieces, and cutting a list into fixed-size chunks. */
module Seqs {

  /** Every element is strictly smaller than every later one. */
  predicate StrictlyIncreasing(s: seq<int>) {
    forall i, j :: 0 <= i < j < |s| ==> s[i] < s[j]
  }

  function Last<T>(s: seq<T>): T
    requires |s| > 0
  {
    s[|s| - 1]
  }

  /** The pieces laid end to end. */
  function Concat<T>(ss: seq<seq<T>>): seq<T> {
    if |ss| == 0 then [] else ss[0] + Concat(ss[1..])
  }

  /** An element of the flattening lies in some piece, and every element of
      every piece survives flattening. */
  lemma {:induction false} InConcat<T>(ss: seq<seq<T>>, x: T)
    ensures x in Concat(ss) <==> exists i :: 0 <= i < |ss| && x in ss[i]
  {
    if |ss| > 0 {
      InConcat(ss[1..], x);
      if x in Concat(ss[1..]) {
        var i :| 0 <= i < |ss[1..]| && x in ss[1..][i];
        assert x in ss[i + 1];
      }
      if exists i :: 0 <= i < |ss| && x in ss[i] {
        var i :| 0 <= i < |ss| && x in ss[i];
        if i > 0 {
          assert x in ss[1..][i - 1];
        }
      }
    }
  }

  /** A concatenation is strictly increasing exactly when both halves are and
      the first half ends below the start of the second. */
  lemma SortedAppend(a: seq<int>, b: seq<int>)
    ensures StrictlyIncreasing(a + b) <==>
      && StrictlyIncreasing(a)
      && StrictlyIncreasing(b)
      && (|a| == 0 || |b| == 0 || Last(a) < b[0])
  {
    var c := a + b;
    if StrictlyIncreasing(a) && StrictlyIncreasing(b) && (|a| == 0 || |b| == 0 || Last(a) < b[0]) {
      forall i, j | 0 <= i < j < |c|
        ensures c[i] < c[j]
      {
        if j < |a| {
          assert c[i] == a[i] && c[j] == a[j];
        } else if |a| <= i {
          assert c[i] == b[i - |a|] && c[j] == b[j - |a|];
        } else {
          assert c[i] == a[i] && c[j] == b[j - |a|];
          assert a[i] <= Last(a);
          assert b[0] <= b[j - |a|];
        }
      }
    }
    if StrictlyIncreasing(c) {
      forall i, j | 0 <= i < j < |a|
        ensures a[i] < a[j]
      {
        assert c[i] == a[i] && c[j] == a[j];
      }
      forall i, j | 0 <= i < j < |b|
        ensures b[i] < b[j]
      {
        assert c[|a| + i] == b[i] && c[|a| + j] == b[j];
      }
      if |a| > 0 && |b| > 0 {
        assert c[|a| - 1] == Last(a) && c[|a|] == b[0];
      }
    }
  }

  /** In a strictly increasing concatenation every element of the first half
      is below every element of the second. */
  lemma SortedAppendSeparates(a: seq<int>, b: seq<int>)
    requires StrictlyIncreasing(a + b)
    ensures forall x, y :: x in a && y in b ==> x < y
  {
    forall x, y | x in a && y in b
      ensures x < y
    {
      var i :| 0 <= i < |a| && a[i] == x;
      var j :| 0 <= j < |b| && b[j] == y;
      assert (a + b)[i] == x && (a + b)[|a| + j] == y;
    }
  }

  /** Every element of a non-empty strictly increasing sequence lies between
      its first and its last element. */
  lemma SortedBounds(s: seq<int>)
    requires StrictlyIncreasing(s) && |s| > 0
    ensures forall e :: e in s ==> s[0] <= e <= Last(s)
  {
  }

  /** The list cut into consecutive chunks of `k`, the last one possibly short. */
  function Chunks<T>(s: seq<T>, k: nat): seq<seq<T>>
    requires k > 0
    decreases |s|
  {
    if |s| == 0 then []
    else if |s| <= k then [s]
    else [s[..k]] + Chunks(s[k..], k)
  }

  /** Chunking loses and reorders nothing: laid end to end the chunks give back
      the list, none is empty, none is longer than `k`, and all but the last
      are full. A list of two or more items yields fewer chunks than items once
      `k` exceeds one, which is what makes repeated regrouping terminate. */
  lemma {:induction false} ChunksFacts<T>(s: seq<T>, k: nat)
    requires k > 0
    ensures Concat(Chunks(s, k)) == s
    ensures forall i :: 0 <= i < |Chunks(s, k)| ==> 0 < |Chunks(s, k)[i]| <= k
    ensures forall i :: 0 <= i < |Chunks(s, k)| - 1 ==> |Chunks(s, k)[i]| == k
    ensures |Chunks(s, k)| <= |s|
    ensures k > 1 && |s| > 1 ==> |Chunks(s, k)| < |s|
    decreases |s|
  {
    if |s| > k {
      var rest := Chunks(s[k..], k);
      ChunksFacts(s[k..], k);
      assert ([s[..k]] + rest)[1..] == rest;
      assert s[..k] + s[k..] == s;
    } else if |s| > 0 {
      assert [s][1..] == [];
    }
  }

  /** The list without its first `i` elements (empty once `i` passes the end). */
  function Drop<T>(s: seq<T>, i: nat): seq<T> {
    if i < |s| then s[i..] else []
  }

  /** The slice `s[i:j]` with its end clipped to the list, as a slice
      expression clips it. */
  function Slice<T>(s: seq<T>, i: nat, j: nat): seq<T>
    requires i <= |s| && i <= j
  {
    if j < |s| then s[i..j] else s[i..]
  }

  /** One step of chunking: the chunks from `i` on are the slice starting at
      `i` followed by the chunks from `i + k` on. */
  lemma ChunksStep<T>(s: seq<T>, i: nat, k: nat)
    requires k > 0 && i < |s|
    ensures Chunks(Drop(s, i), k) == [Slice(s, i, i + k)] + Chunks(Drop(s, i + k), k)
  {
    var rest := s[i..];
    if |rest| > k {
      assert rest[..k] == s[i..i + k];
      assert rest[k..] == s[i + k..];
    }
  }

  /** The chunking loop of the builder: advance an index by `size` and take
      the slice from it, clipped at the end of the list. */
  method SplitChunks<T>(lst: seq<T>, size: nat) returns (subs: seq<seq<T>>)
    requires size > 0
    ensures subs == Chunks(lst, size)
  {
    subs := [];
    var i := 0;
    assert Drop(lst, 0) == lst;
    assert [] + Chunks(lst, size) == Chunks(lst, size);
    while i < |lst|
      invariant subs + Chunks(Drop(lst, i), size) == Chunks(lst, size)
    {
      ChunksStep(lst, i, size);
      var chunk := Slice(lst, i, i + size);
      var later := Chunks(Drop(lst, i + size), size);
      assert (subs + [chunk]) + later == subs + ([chunk] + later);
      subs := subs + [chunk];
      i := i + size;
    }
    assert Drop(lst, i) == [];
    assert subs + [] == subs;
  }
}
