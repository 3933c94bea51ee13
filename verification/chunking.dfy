/** `chunksOf`: fixed-size grouping with a partial trailing chunk, and
    `chop`: repeatedly consume a prefix of what is left, producing one value
    per step. */
module Chunking {
  import opened Wrappers

  function Flatten<T>(xss: seq<seq<T>>): seq<T>
    decreases |xss|
  {
    if xss == [] then [] else xss[0] + Flatten(xss[1..])
  }

  lemma {:induction false} FlattenAppend<T>(a: seq<seq<T>>, b: seq<seq<T>>)
    ensures Flatten(a + b) == Flatten(a) + Flatten(b)
    decreases |a|
  {
    if a == [] {
      assert a + b == b;
    } else {
      assert (a + b)[1..] == a[1..] + b;
      FlattenAppend(a[1..], b);
    }
  }

  /** Reference definition: the first chunk takes `n` elements, or all of
      them when fewer are left; the rest is chunked the same way. */
  function Chunks<T>(n: int, xs: seq<T>): seq<seq<T>>
    requires n >= 1
    decreases |xs|
  {
    if xs == [] then [] else
    var k := Min(n, |xs|);
    [xs[..k]] + Chunks(n, xs[k..])
  }

  /** The shape every chunking of `xs` into size-`n` chunks has: the chunks
      concatenate back to `xs`, each has between 1 and `n` elements, and
      every chunk but the last has exactly `n`. */
  ghost predicate IsChunking<T>(n: int, xs: seq<T>, cs: seq<seq<T>>) {
    && Flatten(cs) == xs
    && (forall i :: 0 <= i < |cs| ==> 1 <= |cs[i]| <= n)
    && (forall i :: 0 <= i < |cs| - 1 ==> |cs[i]| == n)
  }

  lemma {:induction false} ChunksIsChunking<T>(n: int, xs: seq<T>)
    requires n >= 1
    ensures IsChunking(n, xs, Chunks(n, xs))
    decreases |xs|
  {
    if xs != [] {
      var k := Min(n, |xs|);
      ChunksIsChunking(n, xs[k..]);
      assert xs[..k] + xs[k..] == xs;
    }
  }

  /** There is only one way to chunk a sequence: anything of the chunking
      shape is the reference chunking. */
  lemma {:induction false} ChunkingUnique<T>(n: int, xs: seq<T>, cs: seq<seq<T>>)
    requires n >= 1
    requires IsChunking(n, xs, cs)
    ensures cs == Chunks(n, xs)
    decreases |cs|
  {
    if cs == [] {
      assert xs == [];
    } else {
      var c := cs[0];
      assert xs == c + Flatten(cs[1..]);
      var k := Min(n, |xs|);
      if |cs| == 1 {
        assert Flatten(cs[1..]) == [];
        assert |c| == |xs| == k;
      } else {
        assert |c| == n;
        assert |Flatten(cs[1..])| > 0 by {
          assert |cs[1..][0]| >= 1;
          assert Flatten(cs[1..]) == cs[1..][0] + Flatten(cs[2..]);
        }
        assert k == n;
      }
      assert c == xs[..k];
      assert Flatten(cs[1..]) == xs[k..];
      assert IsChunking(n, xs[k..], cs[1..]) by {
        forall i | 0 <= i < |cs[1..]|
          ensures 1 <= |cs[1..][i]| <= n
        {
          assert cs[1..][i] == cs[i + 1];
        }
        forall i | 0 <= i < |cs[1..]| - 1
          ensures |cs[1..][i]| == n
        {
          assert cs[1..][i] == cs[i + 1];
        }
      }
      ChunkingUnique(n, xs[k..], cs[1..]);
    }
  }

  /** Every element on its own: what `chunksOf` yields after its first,
      empty, chunk when the size is not positive. */
  function Singletons<T>(xs: seq<T>): (r: seq<seq<T>>)
    ensures |r| == |xs|
    ensures forall i :: 0 <= i < |xs| ==> r[i] == [xs[i]]
    decreases |xs|
  {
    if xs == [] then [] else [[xs[0]]] + Singletons(xs[1..])
  }

  lemma FlattenSnoc<T>(r: seq<seq<T>>, c: seq<T>)
    ensures Flatten(r + [c]) == Flatten(r) + c
  {
    FlattenAppend(r, [c]);
    assert Flatten([c]) == c + Flatten([]);
  }

  lemma SingletonsSnoc<T>(xs: seq<T>, i: nat)
    requires i < |xs|
    ensures Singletons(xs[..i + 1]) == Singletons(xs[..i]) + [[xs[i]]]
  {
  }

  /** The state of `chunksOf` after `i` elements, for a positive size: the
      yielded chunks are full, and they and the current chunk make up the
      elements read so far. */
  ghost predicate PositiveState<T>(n: int, xs: seq<T>, i: nat, r: seq<seq<T>>, chunk: seq<T>)
    requires i <= |xs|
  {
    && Flatten(r) + chunk == xs[..i]
    && (forall j :: 0 <= j < |r| ==> |r[j]| == n)
    && (i > 0 ==> 1 <= |chunk| <= n)
  }

  /** The same for a size of zero or less: an empty chunk, then every
      element but the current one on its own. */
  ghost predicate NonPositiveState<T>(xs: seq<T>, i: nat, r: seq<seq<T>>, chunk: seq<T>)
    requires i <= |xs|
  {
    i > 0 ==> r == [[]] + Singletons(xs[..i - 1]) && chunk == [xs[i - 1]]
  }

  lemma PositiveStep<T>(n: int, xs: seq<T>, i: nat, r: seq<seq<T>>, chunk: seq<T>)
    requires n >= 1 && i < |xs|
    requires i == 0 ==> r == [] && chunk == []
    requires PositiveState(n, xs, i, r, chunk)
    ensures |chunk| < n ==> PositiveState(n, xs, i + 1, r, chunk + [xs[i]])
    ensures |chunk| >= n ==> PositiveState(n, xs, i + 1, r + [chunk], [xs[i]])
  {
    assert xs[..i + 1] == xs[..i] + [xs[i]];
    if |chunk| >= n {
      FlattenSnoc(r, chunk);
    }
  }

  lemma PositiveFinish<T>(n: int, xs: seq<T>, r: seq<seq<T>>, chunk: seq<T>)
    requires n >= 1
    requires xs == [] ==> r == [] && chunk == []
    requires PositiveState(n, xs, |xs|, r, chunk)
    ensures var out := if |chunk| > 0 then r + [chunk] else r;
            out == Chunks(n, xs) && IsChunking(n, xs, out)
  {
    assert xs[..|xs|] == xs;
    var out := if |chunk| > 0 then r + [chunk] else r;
    if |chunk| > 0 {
      FlattenSnoc(r, chunk);
    }
    assert IsChunking(n, xs, out);
    ChunkingUnique(n, xs, out);
  }

  lemma NonPositiveStep<T>(n: int, xs: seq<T>, i: nat, r: seq<seq<T>>, chunk: seq<T>)
    requires n <= 0 && i < |xs|
    requires i == 0 ==> r == [] && chunk == []
    requires NonPositiveState(xs, i, r, chunk)
    ensures NonPositiveState(xs, i + 1, r + [chunk], [xs[i]])
  {
    if i > 0 {
      SingletonsSnoc(xs, i - 1);
    }
  }

  /** `chunksOf(chunkSize)`: for each element, append it to the current
      chunk while that has fewer than `chunkSize` elements, otherwise yield
      the chunk and start a new one with the element; at the end yield the
      current chunk if it is not empty. For a positive size this is the
      reference chunking; for a size of zero or less the first element
      flushes an empty chunk and every element then becomes a chunk of its
      own. */
  method ChunksOf<T>(n: int, xs: seq<T>) returns (r: seq<seq<T>>)
    ensures n >= 1 ==> r == Chunks(n, xs) && IsChunking(n, xs, r)
    ensures n <= 0 ==> r == (if xs == [] then [] else [[]] + Singletons(xs))
    ensures xs == [] ==> r == []
  {
    r := [];
    var chunk: seq<T> := [];
    var i := 0;
    while i < |xs|
      invariant 0 <= i <= |xs|
      invariant i == 0 ==> r == [] && chunk == []
      invariant n >= 1 ==> PositiveState(n, xs, i, r, chunk)
      invariant n <= 0 ==> NonPositiveState(xs, i, r, chunk)
    {
      if n >= 1 {
        PositiveStep(n, xs, i, r, chunk);
      } else {
        NonPositiveStep(n, xs, i, r, chunk);
      }
      if |chunk| < n {
        chunk := chunk + [xs[i]];
      } else {
        r := r + [chunk];
        chunk := [xs[i]];
      }
      i := i + 1;
    }
    if n >= 1 {
      PositiveFinish(n, xs, r, chunk);
    } else if i > 0 {
      SingletonsSnoc(xs, i - 1);
      assert xs[..i] == xs;
    }
    if |chunk| > 0 {
      r := r + [chunk];
    }
  }

  /** Chunking distributes over concatenation when the size divides the
      length of the first part: no partial chunk straddles the seam. */
  lemma ChunksAppend<T>(n: int, xs: seq<T>, ys: seq<T>)
    requires n >= 1
    requires |xs| % n == 0
    ensures Chunks(n, xs) + Chunks(n, ys) == Chunks(n, xs + ys)
  {
    var k := |xs| / n;
    assert |xs| == n * k;
    ChunksAppendFull(n, k, xs, ys);
  }

  lemma {:induction false} ChunksAppendFull<T>(n: int, k: nat, xs: seq<T>, ys: seq<T>)
    requires n >= 1
    requires |xs| == n * k
    ensures Chunks(n, xs) + Chunks(n, ys) == Chunks(n, xs + ys)
    decreases k
  {
    if k == 0 {
      assert xs == [];
      assert xs + ys == ys;
    } else {
      assert |xs| == n * (k - 1) + n;
      var zs := xs + ys;
      assert zs[..n] == xs[..n];
      assert zs[n..] == xs[n..] + ys;
      ChunksAppendFull(n, k - 1, xs[n..], ys);
    }
  }

  /** The concrete scenarios of the chunking tests. */
  lemma ChunksExamples()
    ensures Chunks(2, [1, 2, 3, 4, 5]) == [[1, 2], [3, 4], [5]]
    ensures Chunks(3, [0, 1, 2, 3, 4]) == [[0, 1, 2], [3, 4]]
    ensures Chunks(3, [0, 1, 2]) == [[0, 1, 2]]
    ensures Chunks<int>(3, []) == []
  {
    var a: seq<int> := [1, 2, 3, 4, 5];
    assert a[..2] == [1, 2] && a[2..] == [3, 4, 5];
    var a1 := a[2..];
    assert a1[..2] == [3, 4] && a1[2..] == [5];
    var a2 := a1[2..];
    assert a2[..1] == [5] && a2[1..] == [];
    assert Chunks(2, a2) == [[5]];
    assert Chunks(2, a1) == [[3, 4], [5]];
    var b: seq<int> := [0, 1, 2, 3, 4];
    assert b[..3] == [0, 1, 2] && b[3..] == [3, 4];
    var b1 := b[3..];
    assert b1[..2] == [3, 4] && b1[2..] == [];
    assert Chunks(3, b1) == [[3, 4]];
    var c: seq<int> := [0, 1, 2];
    assert c[..3] == c && c[3..] == [];
  }

  /** A `chop` step: given everything not yet consumed, produce one value
      and what is left. */
  type Chopper<!A, B> = seq<A> -> (B, seq<A>)

  /** A step that, given a non-empty remainder, leaves a strictly shorter
      one. */
  ghost predicate Shrinks<A(!new), B>(f: Chopper<A, B>) {
    forall s: seq<A> :: |s| > 0 ==> |f(s).1| < |s|
  }

  /** The loop of `chop`: stop when the remainder is empty, otherwise apply
      the step to it, yield the value and continue with what is left. The
      loop need not end, so it is run for at most `fuel` steps; the flag says
      whether it ended by itself. */
  function ChopRest<A, B>(f: Chopper<A, B>, rest: seq<A>, fuel: nat): (r: (seq<B>, bool))
    ensures |r.0| <= fuel
    ensures rest == [] ==> r == ([], true)
    ensures rest != [] && fuel > 0 ==> |r.0| >= 1 && r.0[0] == f(rest).0
    decreases fuel
  {
    if rest == [] then ([], true)
    else if fuel == 0 then ([], false)
    else
      var (b, next) := f(rest);
      var tail := ChopRest(f, next, fuel - 1);
      ([b] + tail.0, tail.1)
  }

  /** A step that shrinks the remainder ends the loop by itself within as
      many steps as there are elements left, yielding at most one value per
      element. */
  lemma {:induction false} ShrinkingChopEnds<A(!new), B>(f: Chopper<A, B>, rest: seq<A>, fuel: nat)
    requires Shrinks(f)
    requires fuel >= |rest|
    ensures ChopRest(f, rest, fuel).1
    ensures |ChopRest(f, rest, fuel).0| <= |rest|
    decreases fuel
  {
    if rest != [] {
      ShrinkingChopEnds(f, f(rest).1, fuel - 1);
    }
  }

  /** `chop(f)`: the step is applied once to the whole input before the loop
      starts, even when the input is empty, so at least one value is
      yielded. */
  function Chop<A, B>(f: Chopper<A, B>, xs: seq<A>, fuel: nat): (r: (seq<B>, bool))
    ensures 1 <= |r.0| <= fuel + 1
    ensures r.0[0] == f(xs).0
    ensures f(xs).1 == [] ==> r == ([f(xs).0], true)
  {
    var (b, rest) := f(xs);
    var tail := ChopRest(f, rest, fuel);
    assert [b] + [] == [b];
    ([b] + tail.0, tail.1)
  }

  /** The step that splits off the first chunk of size `n`. */
  function SplitChunk<T>(n: int): Chopper<T, seq<T>>
    requires n >= 1
  {
    (s: seq<T>) => (s[..Min(n, |s|)], s[Min(n, |s|)..])
  }

  lemma SplitChunkShrinks<T(!new)>(n: int)
    requires n >= 1
    ensures Shrinks(SplitChunk<T>(n))
  {
  }

  /** Chopping with the first-chunk step is chunking, except that on an
      empty input `chop` still applies the step once and yields one empty
      chunk where `chunksOf` yields nothing. */
  lemma ChopChunks<T>(n: int, xs: seq<T>, fuel: nat)
    requires n >= 1
    requires fuel >= |xs|
    ensures xs != [] ==> Chop(SplitChunk(n), xs, fuel) == (Chunks(n, xs), true)
    ensures xs == [] ==> Chop(SplitChunk(n), xs, fuel) == ([[]], true)
  {
    if xs != [] {
      var k := Min(n, |xs|);
      ChopRestChunks(n, xs[k..], fuel);
    }
  }

  lemma {:induction false} ChopRestChunks<T>(n: int, xs: seq<T>, fuel: nat)
    requires n >= 1
    requires fuel >= |xs|
    ensures ChopRest(SplitChunk(n), xs, fuel) == (Chunks(n, xs), true)
    decreases |xs|
  {
    if xs != [] {
      var k := Min(n, |xs|);
      ChopRestChunks(n, xs[k..], fuel - 1);
    }
  }
}
