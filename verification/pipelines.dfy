/** Pipelines the library's tests build from the constructors, the operators
    and the terminal folds. A stream that may be infinite is run for a
    bounded number of pulls; these lemmas show that the bound does not show
    in what the pipeline returns. */
module Pipelines {
  import opened Wrappers
  import Consume
  import Generators
  import Operators
  import Chunking

  /** `take(n)` over the unbounded `fromRange(start)`: however many pulls
      beyond `n` the source is allowed, the result is the first `n`
      integers, and `take` pulls `n + 1` of them, so that a source allowed
      `n + 1` pulls is indistinguishable from the infinite one. */
  lemma TakeOfUnbounded(start: int, n: nat, fuel: nat)
    requires fuel >= n + 1
    ensures Operators.Take(n, Generators.FromRange(start, None, fuel).out) == Generators.Interval(start, start + n)
    ensures Operators.TakePulls(n, Generators.FromRange(start, None, fuel).out) == n + 1
  {
    Generators.RangeUnbounded(start, fuel);
    var xs := Generators.Interval(start, start + fuel);
    assert xs[..n] == Generators.Interval(start, start + n);
  }

  /** The laziness test: `fromRec` counting up from `some(0)`, then
      `take(5)`, yields `0` to `4`. */
  lemma LazyTakeExample()
    ensures Operators.Take(5, Generators.FromRange(0, None, 6).out) == [0, 1, 2, 3, 4]
  {
    TakeOfUnbounded(0, 5, 6);
    var r := Generators.Interval(0, 5);
    assert r == [0, 1, 2, 3, 4];
  }

  /** The `take` tests over `fromRange(1, 6)`: two, seven, zero and a
      negative count. */
  lemma TakeExamples()
    ensures Operators.Take(2, Generators.FromRange(1, Some(6), 5).out) == [1, 2]
    ensures Operators.Take(7, Generators.FromRange(1, Some(6), 5).out) == [1, 2, 3, 4, 5]
    ensures Operators.Take(0, Generators.FromRange(1, Some(6), 5).out) == []
    ensures Operators.Take(-1, Generators.FromRange(1, Some(6), 5).out) == []
  {
    Generators.RangeBelowEnd(1, 6, 5);
    var xs := Generators.Interval(1, 6);
    assert xs == [1, 2, 3, 4, 5];
  }

  /** The property the `take` tests check on generated sources: a prefix of
      length `n` followed by anything is cut back to that prefix. */
  lemma TakePrefix<T>(front: seq<T>, extra: seq<T>)
    ensures Operators.Take(|front|, front + extra) == front
  {
    assert (front + extra)[..|front|] == front;
  }

  /** The stack-safety test: folding `fromRange(0, n)` with "keep the latest
      element" from `-1` returns `n - 1`. The seed is yielded whatever `n`
      is, so for `n <= 0` the fold returns `0`, never the seed `-1`. */
  lemma LastOfRange(n: int, fuel: nat)
    requires fuel >= n
    ensures n >= 1 ==> Consume.KeepLast(-1, Generators.FromRange(0, Some(n), fuel).out) == n - 1
    ensures n <= 0 && fuel >= 1 ==> Consume.KeepLast(-1, Generators.FromRange(0, Some(n), fuel).out) == 0
  {
    if n <= 0 && fuel >= 1 {
      Generators.EmptyRangeYieldsStart(0, n, fuel);
    }
    if n >= 1 {
      Generators.RangeBelowEnd(0, n, fuel);
      var xs := Generators.Interval(0, n);
      assert xs[|xs| - 1] == n - 1;
    }
  }

  /** `fromRange(0)`, `chunksOf(5)`, `take(2)`: the first two chunks of the
      unbounded range, whatever number of pulls beyond ten the source is
      allowed. */
  lemma RangeChunksTake(fuel: nat)
    requires fuel >= 10
    ensures Operators.Take(2, Chunking.Chunks(5, Generators.FromRange(0, None, fuel).out))
         == [[0, 1, 2, 3, 4], [5, 6, 7, 8, 9]]
  {
    Generators.RangeUnbounded(0, fuel);
    var xs := Generators.Interval(0, fuel);
    var ys := xs[5..];
    assert xs[..5] == [0, 1, 2, 3, 4];
    assert ys[..5] == [5, 6, 7, 8, 9];
    var cs := Chunking.Chunks(5, xs);
    assert cs == [xs[..5]] + Chunking.Chunks(5, ys);
    assert Chunking.Chunks(5, ys) == [ys[..5]] + Chunking.Chunks(5, ys[5..]);
  }

  /** `fromRange(0)`, `take(3)`, `chunksOf(3)`: one full chunk. */
  lemma RangeTakeChunks()
    ensures Chunking.Chunks(3, Operators.Take(3, Generators.FromRange(0, None, 4).out)) == [[0, 1, 2]]
  {
    TakeOfUnbounded(0, 3, 4);
    var xs := Generators.Interval(0, 3);
    assert xs == [0, 1, 2];
    assert xs[..3] == xs && xs[3..] == [];
  }

  /** The `fromRange` test: `fromRange(0, 5)` collected by `toArray`. */
  lemma FromRangeExample()
    ensures Consume.ToArray(Generators.FromRange(0, Some(5), 5).out) == [0, 1, 2, 3, 4]
  {
    Generators.RangeBelowEnd(0, 5, 5);
    assert Generators.Interval(0, 5) == [0, 1, 2, 3, 4];
  }
}
