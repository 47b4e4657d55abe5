/**
 * The arithmetic of batch mode in `_process`: Python's floor division and
 * remainder, the batch count, and the slices the batches delete.
 */
module Batching {
  import opened Wrappers

  /** Python's `a // b`, which rounds toward negative infinity. */
  function FloorDiv(a: int, b: int): (q: int)
    requires b != 0
    ensures b > 0 ==> b * q <= a < b * q + b
    ensures b < 0 ==> b * q + b < a <= b * q
  {
    if b > 0 then a / b else (-a) / (-b)
  }

  /** Python's `a % b`, which takes the sign of the divisor. */
  function FloorMod(a: int, b: int): (r: int)
    requires b != 0
    ensures b > 0 ==> 0 <= r < b
    ensures b < 0 ==> b < r <= 0
  {
    a - b * FloorDiv(a, b)
  }

  /** Python's `min` of two integers. */
  function Min(a: int, b: int): int
  {
    if a <= b then a else b
  }

  /** `c` is the number of slices of length `size` that cover `n` items: ceil(n / size). */
  ghost predicate IsCeilQuotient(c: int, n: int, size: int)
  {
    (c - 1) * size < n <= c * size
  }

  /**
   * `batch_count`: `n // batch_size`, plus one when the remainder is
   * positive. `None` stands for the ZeroDivisionError raised when the batch
   * size is zero. A negative batch size gives a count of at most zero, so no
   * batch runs.
   */
  function BatchCount(n: nat, size: int): (r: Option<int>)
    ensures r.None? <==> size == 0
    ensures size > 0 ==> r.Some? && r.value >= 0 && IsCeilQuotient(r.value, n, size)
    ensures size < 0 ==> r.Some? && r.value <= 0
  {
    if size == 0 then None
    else
      var q := FloorDiv(n, size);
      Some(if FloorMod(n, size) > 0 then q + 1 else q)
  }

  /** The ceiling quotient is unique. */
  lemma CeilQuotientUnique(c: int, d: int, n: int, size: int)
    requires size > 0
    requires IsCeilQuotient(c, n, size) && IsCeilQuotient(d, n, size)
    ensures c == d
  {
  }

  /**
   * The reference partition of a list into batches: the first `size` items,
   * then the batches of the rest.
   */
  function Chunks<T>(l: seq<T>, size: nat): seq<seq<T>>
    requires size > 0
    decreases |l|
  {
    if |l| == 0 then []
    else if |l| <= size then [l]
    else [l[..size]] + Chunks(l[size..], size)
  }

  /** The concatenation of a list of batches. */
  function Flatten<T>(bs: seq<seq<T>>): seq<T>
    decreases |bs|
  {
    if |bs| == 0 then [] else bs[0] + Flatten(bs[1..])
  }

  /** Concatenating the batches gives back the list, in order. */
  lemma {:induction false} ChunksFlatten<T>(l: seq<T>, size: nat)
    requires size > 0
    ensures Flatten(Chunks(l, size)) == l
    decreases |l|
  {
    if |l| > size {
      ChunksFlatten(l[size..], size);
      var bs := Chunks(l, size);
      assert bs[1..] == Chunks(l[size..], size);
      assert l[..size] + l[size..] == l;
    } else if |l| > 0 {
      assert Flatten([l]) == l + Flatten([]);
    }
  }

  /** Every batch is non-empty and at most `size` long; all but the last are full. */
  lemma {:induction false} ChunksShape<T>(l: seq<T>, size: nat)
    requires size > 0
    ensures forall i :: 0 <= i < |Chunks(l, size)| ==> 0 < |Chunks(l, size)[i]| <= size
    ensures forall i :: 0 <= i < |Chunks(l, size)| - 1 ==> |Chunks(l, size)[i]| == size
    decreases |l|
  {
    if |l| > size {
      ChunksShape(l[size..], size);
      var bs := Chunks(l, size);
      assert forall i :: 1 <= i < |bs| ==> bs[i] == Chunks(l[size..], size)[i - 1];
    }
  }

  /** There are exactly `batch_count` batches. */
  lemma {:induction false} ChunksCount<T>(l: seq<T>, size: nat)
    requires size > 0
    ensures |Chunks(l, size)| == BatchCount(|l|, size).value
    decreases |l|
  {
    var n := |l|;
    var c := BatchCount(n, size).value;
    if n == 0 {
      CeilQuotientUnique(c, 0, n, size);
    } else if n <= size {
      CeilQuotientUnique(c, 1, n, size);
    } else {
      ChunksCount(l[size..], size);
      var c' := BatchCount(n - size, size).value;
      assert IsCeilQuotient(c' + 1, n, size) by {
        assert (c' + 1) * size == c' * size + size;
        assert (c' + 1 - 1) * size == (c' - 1) * size + size;
      }
      CeilQuotientUnique(c, c' + 1, n, size);
    }
  }

  /**
   * One step of the batch loop: the batches of `l[start..]` are the slice
   * `l[start..min(start + size, |l|)]` followed by the batches of what follows it.
   */
  lemma ChunksStep<T>(l: seq<T>, start: nat, size: nat)
    requires size > 0 && start < |l|
    ensures var end := if start + size < |l| then start + size else |l|;
            Chunks(l[start..], size) == [l[start..end]] + Chunks(l[end..], size)
  {
    var t := l[start..];
    if start + size < |l| {
      assert t[..size] == l[start..start + size];
      assert t[size..] == l[start + size..];
    } else {
      assert l[start..|l|] == t;
      assert l[|l|..] == [];
      assert Chunks(t, size) == [t];
    }
  }

  /** Inside the loop the next slice starts before the end of the list. */
  lemma BatchBounds(n: nat, size: int, count: int, index: int)
    requires 0 <= index < count
    requires size > 0 ==> IsCeilQuotient(count, n, size)
    requires size < 0 ==> count <= 0
    requires size != 0
    ensures size > 0 && 0 <= size * index < n
    ensures Min(size * (index + 1), n) == Min(size * index + size, n)
  {
    assert size > 0;
    Distribute(size, index, 1);
    Distribute(size, index, count - 1 - index);
    NonNegativeProduct(size, count - 1 - index);
    NonNegativeProduct(size, index);
  }

  lemma Distribute(a: int, b: int, c: int)
    ensures a * (b + c) == a * b + a * c
  {
  }

  lemma NonNegativeProduct(a: int, b: int)
    requires a >= 0 && b >= 0
    ensures a * b >= 0
  {
  }

  /** After `count` iterations the slices reach the end of the list. */
  lemma BatchesComplete(n: nat, size: int, count: int)
    requires size > 0 && IsCeilQuotient(count, n, size)
    ensures Min(size * count, n) == n
  {
  }

  /** The slice a loop iteration takes is the next reference batch. */
  lemma BatchLoopStep<T>(l: seq<T>, size: nat, start: nat, batches: seq<seq<T>>)
    requires size > 0 && start < |l|
    requires batches + Chunks(l[start..], size) == Chunks(l, size)
    ensures var end := Min(start + size, |l|);
            (batches + [l[start..end]]) + Chunks(l[end..], size) == Chunks(l, size)
  {
    ChunksStep(l, start, size);
    var end := Min(start + size, |l|);
    assert batches + ([l[start..end]] + Chunks(l[end..], size)) == (batches + [l[start..end]]) + Chunks(l[end..], size);
  }
}
