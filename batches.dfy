/**
 * `divide(lst, n)`: the generator that walks `range(0, len(lst), n)` and
 * yields the slice `lst[i : i + n]` at every step. Its chunks are taken here
 * as the list the callers build with `list(...)`.
 */
module Batches {

  /** The chunks glued back together, in order. */
  function Flatten<T>(chunks: seq<seq<T>>): seq<T>
  {
    if chunks == [] then [] else chunks[0] + Flatten(chunks[1..])
  }

  /** The slice `lst[i : i + n]`, which Python clips at the end of the list. */
  function Slice<T>(s: seq<T>, i: nat, n: nat): seq<T>
    requires i <= |s|
  {
    if i + n <= |s| then s[i..i + n] else s[i..]
  }

  /**
   * The chunks the loop yields from start i on: the slice at i, then the
   * chunks from i + n, until i reaches the end of the list.
   */
  function DivideFrom<T>(s: seq<T>, n: nat, i: nat): (chunks: seq<seq<T>>)
    requires n > 0 && i <= |s|
    ensures Flatten(chunks) == s[i..]
    ensures forall k :: 0 <= k < |chunks| ==> 0 < |chunks[k]| <= n
    ensures forall k :: 0 <= k < |chunks| - 1 ==> |chunks[k]| == n
    decreases |s| - i
  {
    if i == |s| then []
    else if i + n >= |s| then
      assert Flatten([s[i..]]) == s[i..] + [];
      [Slice(s, i, n)]
    else
      var rest := DivideFrom(s, n, i + n);
      var chunks := [s[i..i + n]] + rest;
      assert chunks[1..] == rest;
      assert s[i..] == s[i..i + n] + s[i + n..];
      chunks
  }

  /**
   * All the chunks: the loop starts at 0 and stops before |s|, so an empty
   * list yields no chunk at all.
   */
  function Divide<T>(s: seq<T>, n: nat): (chunks: seq<seq<T>>)
    requires n > 0
    ensures Flatten(chunks) == s
    ensures forall k :: 0 <= k < |chunks| ==> 0 < |chunks[k]| <= n
    ensures forall k :: 0 <= k < |chunks| - 1 ==> |chunks[k]| == n
  {
    assert s[0..] == s;
    DivideFrom(s, n, 0)
  }

  /** The k-th value of `range(i, len(lst), n)`: k steps of n from i. */
  function Start(i: nat, k: nat, n: nat): nat
  {
    if k == 0 then i else Start(i, k - 1, n) + n
  }

  lemma MulStep(k: int, n: int)
    ensures (k + 1) * n == k * n + n
  {
  }

  /** The k-th start from 0 is k * n. */
  lemma {:induction false} StartIsProduct(k: nat, n: nat)
    ensures Start(0, k, n) == k * n
  {
    if k > 0 {
      StartIsProduct(k - 1, n);
      MulStep(k - 1, n);
    }
  }

  /** k steps from i are k - 1 steps from i + n. */
  lemma {:induction false} StartShift(i: nat, k: nat, n: nat)
    requires k > 0
    ensures Start(i, k, n) == Start(i + n, k - 1, n)
  {
    if k > 1 {
      StartShift(i, k - 1, n);
    }
  }

  /** The k-th chunk from start i is the slice at the k-th start of the range. */
  lemma {:induction false} DivideFromChunk<T>(s: seq<T>, n: nat, i: nat, k: nat)
    requires n > 0 && i <= |s| && k < |DivideFrom(s, n, i)|
    ensures Start(i, k, n) < |s|
    ensures DivideFrom(s, n, i)[k] == Slice(s, Start(i, k, n), n)
    decreases k
  {
    if k > 0 {
      assert i + n < |s|;
      assert DivideFrom(s, n, i) == [s[i..i + n]] + DivideFrom(s, n, i + n);
      DivideFromChunk(s, n, i + n, k - 1);
      StartShift(i, k, n);
    }
  }

  /**
   * The k-th chunk is `lst[k * n : k * n + n]`: exactly what the generator
   * yields in its k-th step.
   */
  lemma DivideChunk<T>(s: seq<T>, n: nat, k: nat)
    requires n > 0 && k < |Divide(s, n)|
    ensures k * n < |s|
    ensures Divide(s, n)[k] == Slice(s, k * n, n)
  {
    DivideFromChunk(s, n, 0, k);
    StartIsProduct(k, n);
  }

  /** The loop from start i runs ceil((|s| - i) / n) times. */
  lemma {:induction false} DivideFromCount<T>(s: seq<T>, n: nat, i: nat)
    requires n > 0 && i <= |s|
    ensures (|DivideFrom(s, n, i)| - 1) * n < |s| - i <= |DivideFrom(s, n, i)| * n
    decreases |s| - i
  {
    if i + n < |s| {
      var m := |DivideFrom(s, n, i + n)|;
      DivideFromCount(s, n, i + n);
      assert |DivideFrom(s, n, i)| == m + 1;
      MulStep(m, n);
      MulStep(m - 1, n);
    }
  }

  /** There are ceil(|s| / n) chunks: n * (count - 1) < |s| <= n * count. */
  lemma DivideCount<T>(s: seq<T>, n: nat)
    requires n > 0
    ensures (|Divide(s, n)| - 1) * n < |s| <= |Divide(s, n)| * n
  {
    DivideFromCount(s, n, 0);
  }

  /** An empty list yields no chunks; any other list yields at least one. */
  lemma DivideEmpty<T>(s: seq<T>, n: nat)
    requires n > 0
    ensures Divide(s, n) == [] <==> s == []
  {
  }
}
