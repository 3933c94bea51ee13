/** The terminal fold `execute` and the terminal operations built from it
    (`toArray`, `length`, `last`, `isEmpty`). A stream is the finite
    sequence of elements one run of its generator yields; one pull of the
    generator is one element of that sequence. */
module Consume {
  import opened Wrappers

  /** Reference left fold: the accumulator after `combine` has been applied,
      in source order, to every element of `xs`, starting from `seed`.
      It is stated on the last element so that "the accumulator after the
      first i elements" is `Fold(combine, seed, xs[..i])`. */
  function Fold<T, A>(combine: (A, T) -> A, seed: A, xs: seq<T>): A
    decreases |xs|
  {
    if xs == [] then seed else combine(Fold(combine, seed, xs[..|xs| - 1]), xs[|xs| - 1])
  }

  /** `execute(fn, init)`: pulls every element of one run of the stream and
      combines it into the accumulator, returning the accumulator once the
      stream is done. */
  method Execute<T, A>(combine: (A, T) -> A, seed: A, xs: seq<T>) returns (agg: A)
    ensures agg == Fold(combine, seed, xs)
  {
    agg := seed;
    var i := 0;
    while i < |xs|
      invariant 0 <= i <= |xs|
      invariant agg == Fold(combine, seed, xs[..i])
    {
      assert xs[..i + 1][..i] == xs[..i];
      agg := combine(agg, xs[i]);
      i := i + 1;
    }
    assert xs[..|xs|] == xs;
  }

  /** Folding a concatenation folds the second part from where the first
      part left off: every element is combined exactly once, in order. */
  lemma {:induction false} FoldAppend<T, A>(combine: (A, T) -> A, seed: A, xs: seq<T>, ys: seq<T>)
    ensures Fold(combine, seed, xs + ys) == Fold(combine, Fold(combine, seed, xs), ys)
    decreases |ys|
  {
    if ys == [] {
      assert xs + ys == xs;
    } else {
      var zs := xs + ys;
      assert zs[..|zs| - 1] == xs + ys[..|ys| - 1];
      assert zs[|zs| - 1] == ys[|ys| - 1];
      FoldAppend(combine, seed, xs, ys[..|ys| - 1]);
    }
  }

  /** The combiners `toArray`, `length`, `last` and `isEmpty` pass to `execute`. */
  function Snoc<T>(agg: seq<T>, c: T): seq<T> { agg + [c] }
  function Count<T>(agg: int, c: T): int { agg + 1 }
  function Latest<T>(agg: Option<T>, c: T): Option<T> { Some(c) }
  function NotEmpty<T>(agg: bool, c: T): bool { false }
  function Keep<T>(agg: T, t: T): T { t }

  lemma {:induction false} FoldCollects<T>(xs: seq<T>)
    ensures Fold(Snoc, [], xs) == xs
    decreases |xs|
  {
    if xs != [] {
      FoldCollects(xs[..|xs| - 1]);
    }
  }

  lemma {:induction false} FoldCounts<T>(xs: seq<T>)
    ensures Fold(Count, 0, xs) == |xs|
    decreases |xs|
  {
    if xs != [] {
      FoldCounts(xs[..|xs| - 1]);
    }
  }

  /** `toArray`: the fold that appends each element to the accumulator. */
  function ToArray<T>(xs: seq<T>): (r: seq<T>)
    ensures r == xs
  {
    FoldCollects(xs);
    Fold(Snoc, [], xs)
  }

  /** `length`: the fold that adds one per element, from zero. */
  function Length<T>(xs: seq<T>): (r: int)
    ensures r == |xs|
  {
    FoldCounts(xs);
    Fold(Count, 0, xs)
  }

  /** `last`: the fold that keeps `some` of the latest element, from `none`. */
  function Last<T>(xs: seq<T>): (r: Option<T>)
    ensures xs == [] ==> r == None
    ensures xs != [] ==> r == Some(xs[|xs| - 1])
  {
    Fold(Latest, None, xs)
  }

  /** `isEmpty`: the fold that answers `false` as soon as any element was
      combined, from `true`. */
  function IsEmpty<T>(xs: seq<T>): (r: bool)
    ensures r <==> |xs| == 0
  {
    Fold(NotEmpty, true, xs)
  }

  /** `execute((_, t) => t, seed)`, the fold the stack-safety tests run over
      a long range: it returns the last element, or the seed when there is
      none. */
  function KeepLast<T>(seed: T, xs: seq<T>): (r: T)
    ensures xs == [] ==> r == seed
    ensures xs != [] ==> r == xs[|xs| - 1]
  {
    Fold(Keep, seed, xs)
  }
}
