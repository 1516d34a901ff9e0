/** Cutting a list into consecutive slices of a fixed size, as
    `[xs[i:i + n] for i in range(0, len(xs), n)]` does. */
module Chunks {

  function Min(a: int, b: int): int { if a <= b then a else b }

  /** The number of slices: `ceil(len / n)`, written `(len + n - 1) // n`. */
  function CeilDiv(len: nat, n: nat): nat
    requires n > 0
  {
    (len + n - 1) / n
  }

  function Concat<T>(ss: seq<seq<T>>): seq<T> {
    if |ss| == 0 then [] else ss[0] + Concat(ss[1..])
  }

  /** The slices of `xs` of size `n`, the last one possibly shorter. */
  function Chunk<T>(xs: seq<T>, n: nat): (r: seq<seq<T>>)
    requires n > 0
    ensures forall i :: 0 <= i < |r| ==> 0 < |r[i]| <= n
    decreases |xs|
  {
    if |xs| == 0 then []
    else if |xs| <= n then [xs]
    else [xs[..n]] + Chunk(xs[n..], n)
  }

  /** Read in order the slices are the list, and there are as few of them as
      slices of size `n` allow: `ceil(len / n)`. */
  lemma {:induction false} ChunkCovers<T>(xs: seq<T>, n: nat)
    requires n > 0
    ensures Concat(Chunk(xs, n)) == xs
    ensures |Chunk(xs, n)| * n >= |xs| > (|Chunk(xs, n)| - 1) * n
    decreases |xs|
  {
    if |xs| == 0 {
    } else if |xs| <= n {
      assert Concat([xs]) == xs + Concat<T>([]);
    } else {
      ChunkCovers(xs[n..], n);
      var r := Chunk(xs, n);
      var c := |Chunk(xs[n..], n)|;
      assert r[1..] == Chunk(xs[n..], n);
      assert |r| == c + 1;
      MulSucc(c, n);
      MulSucc(c - 1, n);
      assert xs[..n] + xs[n..] == xs;
    }
  }

  lemma MulSucc(c: int, n: int)
    ensures (c + 1) * n == c * n + n
  {
  }

  /** Integer division has one answer: the `c` with `c*n <= x < c*n + n`. */
  lemma DivUnique(x: nat, n: nat, c: nat)
    requires n > 0 && c * n <= x < c * n + n
    ensures x / n == c
  {
    var q := x / n;
    assert x == q * n + x % n;
    assert (q - c) * n == q * n - c * n;
    assert (c - q) * n == c * n - q * n;
    BelowOne(q - c, n);
    BelowOne(c - q, n);
  }

  lemma BelowOne(d: int, n: nat)
    requires n > 0 && d * n < n
    ensures d < 1
  {
  }

  /** The slice count is the source's ceiling division. */
  lemma ChunkCount<T>(xs: seq<T>, n: nat)
    requires n > 0
    ensures |Chunk(xs, n)| == CeilDiv(|xs|, n)
  {
    ChunkCovers(xs, n);
    var c := |Chunk(xs, n)|;
    if c == 0 {
      DivUnique(n - 1, n, 0);
    } else {
      assert (c - 1) * n + n == c * n;
      DivUnique(|xs| + n - 1, n, c);
    }
  }

  /** Slice `i` is `xs[i*n : min(i*n + n, len)]`, as the source computes its
      bounds. */
  lemma {:induction false} ChunkAt<T>(xs: seq<T>, n: nat, i: nat)
    requires n > 0 && i < |Chunk(xs, n)|
    ensures i * n < |xs|
    ensures Chunk(xs, n)[i] == xs[i * n..Min(i * n + n, |xs|)]
    decreases |xs|
  {
    if |xs| <= n {
    } else if i > 0 {
      var t := xs[n..];
      assert Chunk(xs, n)[i] == Chunk(t, n)[i - 1];
      ChunkAt(t, n, i - 1);
      ShiftedSlice(xs, n, i);
    }
  }

  /** Slice `i - 1` of what follows the first `n` elements is slice `i` of
      the whole. */
  lemma ShiftedSlice<T>(xs: seq<T>, n: nat, i: nat)
    requires 0 < n < |xs| && 0 < i && (i - 1) * n < |xs| - n
    ensures i * n < |xs|
    ensures xs[n..][(i - 1) * n..Min((i - 1) * n + n, |xs| - n)] == xs[i * n..Min(i * n + n, |xs|)]
  {
    MulSucc(i - 1, n);
    var lo := (i - 1) * n;
    var hi := Min(lo + n, |xs| - n);
    assert xs[n..][lo..hi] == xs[n + lo..n + hi];
  }
}
