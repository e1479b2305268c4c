/**
 * `chunks(l, n)`: the generator of successive slices `l[i:i + n]` for
 * `i` in `range(0, len(l), n)`. It is a second, fixed-size splitter beside
 * the partitioner, and nothing in the module calls it.
 */
module Chunks {
  import opened Wrappers
  import opened Seqs

  /** The slices `l[i:i + n]`, `l[i + n:i + 2n]`, ... from index `i` on, for a positive step. */
  function ChunksFrom<T>(l: seq<T>, n: nat, i: nat): (r: seq<seq<T>>)
    requires n > 0 && i <= |l|
    decreases |l| - i
  {
    if i == |l| then []
    else if i + n >= |l| then [l[i..]]
    else [l[i..i + n]] + ChunksFrom(l, n, i + n)
  }

  /**
   * The slices from `i` on make up `l[i..]`; all have length `n` except the
   * last, which is non-empty and possibly shorter.
   */
  lemma {:induction false} ChunksFromContents<T>(l: seq<T>, n: nat, i: nat)
    requires n > 0 && i <= |l|
    ensures var r := ChunksFrom(l, n, i);
      && Flatten(r) == l[i..]
      && (forall k :: 0 <= k < |r| - 1 ==> |r[k]| == n)
      && (|r| > 0 ==> 0 < |r[|r| - 1]| <= n)
    decreases |l| - i
  {
    if i == |l| {
      assert l[i..] == [];
    } else if i + n >= |l| {
      assert [l[i..]][1..] == [];
    } else {
      var rest := ChunksFrom(l, n, i + n);
      ChunksFromContents(l, n, i + n);
      ChunkCons(l[i..i + n], rest, n);
      assert l[i..] == l[i..i + n] + l[i + n..];
    }
  }

  /** There are ceil((|l| - i) / n) slices from `i` on. */
  lemma {:induction false} ChunksFromCount<T>(l: seq<T>, n: nat, i: nat)
    requires n > 0 && i <= |l|
    ensures |ChunksFrom(l, n, i)| == Ceil(|l| - i, n)
    decreases |l| - i
  {
    if i + n < |l| {
      ChunksFromCount(l, n, i + n);
    }
  }

  /** `a` items in groups of `n`: how many groups, counted one group at a time. */
  function Ceil(a: nat, n: nat): nat
    requires n > 0
    decreases a
  {
    if a == 0 then 0 else if a <= n then 1 else 1 + Ceil(a - n, n)
  }

  lemma {:induction false} CeilIsDiv(a: nat, n: nat)
    requires n > 0
    ensures Ceil(a, n) == (a + n - 1) / n
    decreases a
  {
    if a == 0 {
      DivUnique(n - 1, n, 0, n - 1);
    } else if a <= n {
      CeilOne(a, n);
    } else {
      CeilIsDiv(a - n, n);
      CeilStep(a - n, n);
    }
  }

  /** A full chunk in front keeps every chunk but the last full. */
  lemma ChunkCons<T>(c: seq<T>, rest: seq<seq<T>>, n: nat)
    requires |c| == n && |rest| > 0
    requires forall k :: 0 <= k < |rest| - 1 ==> |rest[k]| == n
    ensures var r := [c] + rest;
      && Flatten(r) == c + Flatten(rest)
      && (forall k :: 0 <= k < |r| - 1 ==> |r[k]| == n)
      && r[|r| - 1] == rest[|rest| - 1]
  {
    var r := [c] + rest;
    assert r[1..] == rest;
    forall k | 0 < k < |r| - 1 ensures |r[k]| == n {
      assert r[k] == rest[k - 1];
    }
  }

  lemma CeilOne(a: nat, n: nat)
    requires 0 < a <= n
    ensures (a + n - 1) / n == 1
  {
  }

  lemma CeilStep(a: nat, n: nat)
    requires n > 0
    ensures (a + n + n - 1) / n == (a + n - 1) / n + 1
  {
    var b := a + n - 1;
    var q, r := b / n, b % n;
    assert b == q * n + r;
    assert b + n == (q + 1) * n + r;
    DivUnique(b + n, n, q + 1, r);
  }

  lemma DivUnique(x: int, n: int, q: int, r: int)
    requires n > 0 && 0 <= r < n && x == q * n + r
    ensures x / n == q
  {
    var q', r' := x / n, x % n;
    assert x == q' * n + r';
    if q > q' {
      MulAtLeast(q - q', n);
    } else if q < q' {
      MulAtLeast(q' - q, n);
    }
  }

  lemma {:induction false} MulAtLeast(d: int, n: int)
    requires d >= 1 && n > 0
    ensures d * n >= n
    decreases d
  {
    if d > 1 {
      MulAtLeast(d - 1, n);
      assert d * n == (d - 1) * n + n;
    }
  }

  /**
   * `list(chunks(l, n))`: the generator run to the end. A zero step makes
   * `range` raise ValueError at the first iteration (None here); a negative
   * step gives an empty range and so no chunk at all.
   */
  function Chunks<T>(l: seq<T>, n: int): (r: Option<seq<seq<T>>>)
    ensures r.None? <==> n == 0
    ensures n < 0 ==> r == Some([])
  {
    if n == 0 then None
    else if n < 0 then Some([])
    else Some(ChunksFrom(l, n, 0))
  }

  /** For a positive step the chunks are lossless, full-sized but for a non-empty last one, and ceil(|l| / n) in number. */
  lemma ChunksShape<T>(l: seq<T>, n: int)
    requires n > 0
    ensures Chunks(l, n).Some?
    ensures var r := Chunks(l, n).value;
      && Flatten(r) == l
      && (forall k :: 0 <= k < |r| - 1 ==> |r[k]| == n)
      && (|r| > 0 ==> 0 < |r[|r| - 1]| <= n)
      && |r| == (|l| + n - 1) / n
  {
    ChunksFromContents(l, n, 0);
    ChunksFromCount(l, n, 0);
    CeilIsDiv(|l|, n);
    assert l[0..] == l;
  }
}
