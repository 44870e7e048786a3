/** The batch loop of the scoring script: walk `start` over
    `0, size, 2 * size, ...`, score the slice `[start, min(start + size, n))`,
    collect the scored slices and concatenate them.

    The per-record scoring is a parameter `f`, so the loop is stated once
    for any record and result type.
 */
module BatchOrchestrator {
  import opened Frame

  function Min(a: int, b: int): int {
    if a <= b then a else b
  }

  /** Every record scored on its own: the reference the batches must reproduce. */
  function MapAll<T, U>(f: T -> U, xs: seq<T>): (ys: seq<U>)
    ensures |ys| == |xs|
    ensures forall i :: 0 <= i < |xs| ==> ys[i] == f(xs[i])
  {
    seq(|xs|, i requires 0 <= i < |xs| => f(xs[i]))
  }

  /** The chunks laid end to end, first chunk first. */
  function Flatten<T>(chunks: seq<seq<T>>): seq<T> {
    if |chunks| == 0 then [] else Flatten(chunks[..|chunks| - 1]) + chunks[|chunks| - 1]
  }

  /** The slice bounds for every start from `from` up to `n` in steps of
      `size`: each slice ends `size` records later, or at `n` if that is
      sooner. */
  function BoundsFrom(from: nat, n: nat, size: nat): (b: seq<(nat, nat)>)
    requires size > 0
    ensures from >= n <==> b == []
    decreases n - from
  {
    if from >= n then []
    else [(from, Min(from + size, n))] + BoundsFrom(from + size, n, size)
  }

  /** The slices the batch loop visits for a frame of `n` rows: none
      exactly when the frame is empty. */
  function Batches(n: nat, size: nat): (b: seq<(nat, nat)>)
    requires size > 0
    ensures b == [] <==> n == 0
    ensures n > 0 ==> b[0] == (0, Min(size, n))
  {
    BoundsFrom(0, n, size)
  }

  /** Every slice is non-empty, holds at most `size` records and lies
      inside `[from, n)`. */
  lemma {:induction false} BoundsInRange(from: nat, n: nat, size: nat)
    requires size > 0
    ensures forall i :: 0 <= i < |BoundsFrom(from, n, size)| ==>
              var (lo, hi) := BoundsFrom(from, n, size)[i];
              from <= lo < hi <= n && hi - lo <= size
    decreases n - from
  {
    if from < n {
      BoundsInRange(from + size, n, size);
    }
  }

  /** The slices are laid end to end: the first starts at `from`, each
      starts where the previous one ended, and the last ends at `n`. */
  lemma {:induction false} BoundsContiguous(from: nat, n: nat, size: nat)
    requires size > 0
    ensures var b := BoundsFrom(from, n, size);
            && (b != [] ==> b[0].0 == from && b[|b| - 1].1 == n)
            && (forall i, j :: 0 <= i < j < |b| && j - i == 1 ==> b[i].1 == b[j].0)
            && (forall i :: 0 <= i < |b| - 1 ==> b[i].1 == b[i].0 + size)
    decreases n - from
  {
    if from < n {
      BoundsContiguous(from + size, n, size);
      var b := BoundsFrom(from, n, size);
      var rest := BoundsFrom(from + size, n, size);
      assert b[1..] == rest;
      forall i, j | 0 <= i < j < |b| && j - i == 1
        ensures b[i].1 == b[j].0
      {
        if i > 0 {
          assert b[i] == rest[i - 1] && b[j] == rest[j - 1];
        }
      }
    }
  }

  /** The slices partition `[0, n)` into contiguous pieces of 1 to `size` rows. */
  lemma BatchesPartition(n: nat, size: nat)
    requires size > 0
    ensures var b := Batches(n, size);
            && (n == 0 <==> b == [])
            && (b != [] ==> b[0].0 == 0 && b[|b| - 1].1 == n)
            && (forall i :: 0 <= i < |b| ==> 1 <= b[i].1 - b[i].0 <= size && b[i].1 <= n)
            && (forall i, j :: 0 <= i < j < |b| && j - i == 1 ==> b[i].1 == b[j].0)
            && (forall i :: 0 <= i < |b| - 1 ==> b[i].1 == b[i].0 + size)
  {
    BoundsInRange(0, n, size);
    BoundsContiguous(0, n, size);
  }

  /** Scoring two adjacent slices is scoring their union. */
  lemma MapAllSlices<T, U>(f: T -> U, xs: seq<T>, a: nat, b: nat)
    requires a <= b <= |xs|
    ensures MapAll(f, xs[..a]) + MapAll(f, xs[a..b]) == MapAll(f, xs[..b])
  {
  }

  /** The loop: score each slice and collect the scored slices in order.
      Every chunk is the per-record scoring of its slice, and laid end to end
      the chunks are the per-record scoring of the whole input, whatever the
      batch size: chunk boundaries have no effect. */
  method ProcessInBatches<T, U>(xs: seq<T>, size: nat, f: T -> U) returns (chunks: seq<seq<U>>)
    requires size > 0
    ensures |chunks| == |Batches(|xs|, size)|
    ensures forall i :: 0 <= i < |chunks| ==>
              var (lo, hi) := Batches(|xs|, size)[i];
              lo <= hi <= |xs| && chunks[i] == MapAll(f, xs[lo..hi])
    ensures Flatten(chunks) == MapAll(f, xs)
  {
    ghost var bounds := BoundsFrom(0, |xs|, size);
    BoundsInRange(0, |xs|, size);
    chunks := [];
    var start: nat := 0;
    while start < |xs|
      invariant |chunks| <= |bounds|
      invariant bounds[|chunks|..] == BoundsFrom(start, |xs|, size)
      invariant forall i :: 0 <= i < |chunks| ==>
                  bounds[i].0 <= bounds[i].1 <= |xs| && chunks[i] == MapAll(f, xs[bounds[i].0..bounds[i].1])
      invariant Flatten(chunks) == MapAll(f, xs[..Min(start, |xs|)])
      decreases |xs| - start
    {
      var end := Min(start + size, |xs|);
      assert bounds[|chunks|] == (start, end);
      var scored := MapAll(f, xs[start..end]);
      MapAllSlices(f, xs, start, end);
      assert xs[..Min(start, |xs|)] == xs[..start];
      var done := chunks;
      chunks := chunks + [scored];
      assert chunks[..|done|] == done;
      assert Flatten(chunks) == Flatten(done) + scored == MapAll(f, xs[..end]);
      assert bounds[|chunks|..] == bounds[|done|..][1..];
      start := start + size;
      assert Min(start, |xs|) == end;
    }
    assert xs[..|xs|] == xs;
  }

  /** The final concatenation as the script calls it: pandas refuses an
      empty list of chunks, and otherwise lays the chunks end to end. */
  function ConcatAsWritten<T>(chunks: seq<seq<T>>): Result<seq<T>> {
    if chunks == [] then Err(NoObjectsToConcatenate) else Ok(Flatten(chunks))
  }

  /** The loop followed by the concatenation as written: it fails exactly on
      an empty input, and on every other input yields the per-record scoring
      of the whole input, as the corrected run does. */
  lemma ConcatAfterBatches<T, U>(xs: seq<T>, size: nat, f: T -> U, chunks: seq<seq<U>>)
    requires size > 0
    requires |chunks| == |Batches(|xs|, size)| && Flatten(chunks) == MapAll(f, xs)
    ensures ConcatAsWritten(chunks).Err? <==> |xs| == 0
    ensures ConcatAsWritten(chunks).Err? ==> ConcatAsWritten(chunks).error == NoObjectsToConcatenate
    ensures ConcatAsWritten(chunks).Ok? ==> ConcatAsWritten(chunks).value == MapAll(f, xs)
  {
  }

  /** The input that shows it: a frame with no rows produces no slices, so the
      concatenation as written fails instead of yielding an empty result. */
  lemma EmptyInputFailsAsWritten<T>(size: nat)
    requires size > 0
    ensures Batches(0, size) == []
    ensures ConcatAsWritten<T>([]) == Err(NoObjectsToConcatenate)
    ensures Flatten<T>([]) == []
  {
  }
}
