/** The single-pass operators. Each one runs a `for await` loop over the
    source with a little state (a counter, a flag, a buffer); here that loop
    is a recursive function over the rest of the source, with the loop state
    as parameters, and its contract says what the whole output is. */
module Operators {
  import opened Wrappers
  import Consume
  import Chunking

  // ---------------------------------------------------------------------------
  // take, drop and head
  // ---------------------------------------------------------------------------

  /** `take(n)` after `count` elements were let through. */
  function TakeFrom<T>(n: int, count: int, xs: seq<T>): (r: seq<T>)
    ensures r == xs[..Clamp(n - count, |xs|)]
    decreases |xs|
  {
    if xs == [] || count >= n then [] else [xs[0]] + TakeFrom(n, count + 1, xs[1..])
  }

  /** `take(n)`: the first `n` elements, all of them when there are fewer,
      none when `n` is not positive. */
  function Take<T>(n: int, xs: seq<T>): (r: seq<T>)
    ensures r == xs[..Clamp(n, |xs|)]
    ensures |r| == Clamp(n, |xs|)
  {
    TakeFrom(n, 0, xs)
  }

  /** How many elements `take(n)` pulls from its source: the loop checks the
      count only after pulling, so it pulls one element more than it lets
      through, unless the source ends first. */
  function TakePullsFrom<T>(n: int, count: int, xs: seq<T>): (k: nat)
    ensures k == Min(|xs|, Clamp(n - count, |xs|) + 1)
    decreases |xs|
  {
    if xs == [] then 0 else if count >= n then 1 else 1 + TakePullsFrom(n, count + 1, xs[1..])
  }

  function TakePulls<T>(n: int, xs: seq<T>): (k: nat)
    ensures k <= Max(n, 0) + 1
    ensures k == Min(|xs|, Clamp(n, |xs|) + 1)
  {
    TakePullsFrom(n, 0, xs)
  }

  /** `drop(n)` after `count` elements were seen. */
  function DropFrom<T>(n: int, count: int, xs: seq<T>): (r: seq<T>)
    ensures r == xs[Clamp(n - count, |xs|)..]
    decreases |xs|
  {
    if xs == [] then []
    else (if count >= n then [xs[0]] else []) + DropFrom(n, count + 1, xs[1..])
  }

  /** `drop(n)`: everything after the first `n` elements; the whole source
      when `n` is not positive. */
  function Drop<T>(n: int, xs: seq<T>): (r: seq<T>)
    ensures r == xs[Clamp(n, |xs|)..]
    ensures |r| == |xs| - Clamp(n, |xs|)
  {
    DropFrom(n, 0, xs)
  }

  /** `take(n)` and `drop(n)` split the source between them, for every
      integer `n`. */
  lemma TakeDrop<T>(n: int, xs: seq<T>)
    ensures Take(n, xs) + Drop(n, xs) == xs
  {
    var k := Clamp(n, |xs|);
    assert xs[..k] + xs[k..] == xs;
  }

  /** `head`: `last` of `take(1)`, so the first element or nothing. */
  function Head<T>(xs: seq<T>): (r: Option<T>)
    ensures xs == [] ==> r == None
    ensures xs != [] ==> r == Some(xs[0])
  {
    Consume.Last(Take(1, xs))
  }

  // ---------------------------------------------------------------------------
  // takeWhile, dropWhileIndex, dropWhile
  // ---------------------------------------------------------------------------

  /** `takeWhile(p)`: the longest prefix whose elements all satisfy `p`. */
  function TakeWhile<T>(p: T -> bool, xs: seq<T>): (r: seq<T>)
    ensures r <= xs
    ensures forall i :: 0 <= i < |r| ==> p(r[i])
    ensures |r| < |xs| ==> !p(xs[|r|])
    decreases |xs|
  {
    if xs == [] || !p(xs[0]) then [] else [xs[0]] + TakeWhile(p, xs[1..])
  }

  /** `r` is what is left of `xs`, read from index `idx`, once the longest
      prefix in which every element satisfies `p` with its index is dropped:
      a suffix of `xs`, every dropped element satisfies `p`, and the first
      element kept (if any) does not. */
  ghost predicate DroppedWhile<T>(p: (int, T) -> bool, idx: int, xs: seq<T>, r: seq<T>) {
    && |r| <= |xs| && r == xs[|xs| - |r|..]
    && (forall j :: 0 <= j < |xs| - |r| ==> p(idx + j, xs[j]))
    && (|r| > 0 ==> !p(idx + |xs| - |r|, xs[|xs| - |r|]))
  }

  /** Dropping a first element that satisfies `p` leaves what dropping from
      the rest leaves. */
  lemma DroppedWhileStep<T>(p: (int, T) -> bool, idx: int, xs: seq<T>, r: seq<T>)
    requires xs != [] && p(idx, xs[0])
    requires DroppedWhile(p, idx + 1, xs[1..], r)
    ensures DroppedWhile(p, idx, xs, r)
  {
    var c := |xs| - |r|;
    assert xs[1..][c - 1..] == xs[c..];
    forall j | 0 <= j < c
      ensures p(idx + j, xs[j])
    {
      if j > 0 {
        assert xs[1..][j - 1] == xs[j];
      }
    }
    if |r| > 0 {
      assert xs[1..][c - 1] == xs[c];
    }
  }

  /** `dropWhileIndex(p)` at index `idx`, once `yielding` has (or has not)
      been switched on. */
  function DropWhileIndexFrom<T>(p: (int, T) -> bool, idx: int, yielding: bool, xs: seq<T>): (r: seq<T>)
    ensures yielding ==> r == xs
    ensures !yielding ==> DroppedWhile(p, idx, xs, r)
    decreases |xs|
  {
    if xs == [] then []
    else if yielding || !p(idx, xs[0]) then
      var rest := DropWhileIndexFrom(p, idx + 1, true, xs[1..]);
      assert [xs[0]] + rest == xs;
      [xs[0]] + rest
    else
      var rest := DropWhileIndexFrom(p, idx + 1, false, xs[1..]);
      DroppedWhileStep(p, idx, xs, rest);
      rest
  }

  /** `dropWhileIndex(p)`: drops the longest prefix in which every element
      satisfies `p` together with its index, and keeps everything after it,
      whether or not later elements satisfy `p`. */
  function DropWhileIndex<T>(p: (int, T) -> bool, xs: seq<T>): (r: seq<T>)
    ensures |r| <= |xs| && r == xs[|xs| - |r|..]
    ensures forall j :: 0 <= j < |xs| - |r| ==> p(j, xs[j])
    ensures |r| > 0 ==> !p(|xs| - |r|, xs[|xs| - |r|])
  {
    var r := DropWhileIndexFrom(p, 0, false, xs);
    assert DroppedWhile(p, 0, xs, r);
    r
  }

  /** `dropWhile(p)`: `dropWhileIndex` with a predicate that ignores the
      index. */
  function DropWhile<T>(p: T -> bool, xs: seq<T>): (r: seq<T>)
    ensures |r| <= |xs| && r == xs[|xs| - |r|..]
    ensures forall j :: 0 <= j < |xs| - |r| ==> p(xs[j])
    ensures |r| > 0 ==> !p(xs[|xs| - |r|])
  {
    DropWhileIndex((i: int, a: T) => p(a), xs)
  }

  /** What `takeWhile(p)` keeps and what `dropWhile(p)` keeps make up the
      source: both cut at the first element that fails `p`. */
  lemma TakeWhileDropWhile<T>(p: T -> bool, xs: seq<T>)
    ensures TakeWhile(p, xs) + DropWhile(p, xs) == xs
  {
    SpanFrom(p, (i: int, a: T) => p(a), 0, xs);
  }

  /** The induction behind the lemma above, from index `idx` on, for any
      indexed predicate that ignores the index. */
  lemma {:induction false} SpanFrom<T>(p: T -> bool, q: (int, T) -> bool, idx: int, xs: seq<T>)
    requires forall i, a :: q(i, a) == p(a)
    ensures TakeWhile(p, xs) + DropWhileIndexFrom(q, idx, false, xs) == xs
    decreases |xs|
  {
    if xs != [] {
      var t := TakeWhile(p, xs[1..]);
      if p(xs[0]) {
        assert q(idx, xs[0]);
        var d := DropWhileIndexFrom(q, idx + 1, false, xs[1..]);
        SpanFrom(p, q, idx + 1, xs[1..]);
        assert TakeWhile(p, xs) == [xs[0]] + t;
        assert DropWhileIndexFrom(q, idx, false, xs) == d;
        assert ([xs[0]] + t) + d == [xs[0]] + (t + d);
      } else {
        assert !q(idx, xs[0]);
        assert TakeWhile(p, xs) == [];
        assert DropWhileIndexFrom(q, idx, false, xs) == xs;
      }
    }
  }

  /** The example of the `dropWhileIndex` test. */
  lemma DropWhileIndexExample()
    ensures DropWhileIndex((idx: int, c: char) => c != 'c' || idx < 3, "cbace") == "ce"
  {
    var p := (idx: int, c: char) => c != 'c' || idx < 3;
    var s := "cbace";
    assert DropWhileIndexFrom(p, 3, false, s[3..]) == s[3..];
  }

  // ---------------------------------------------------------------------------
  // init, uniq
  // ---------------------------------------------------------------------------

  /** `init` with the previous element held back in `buffer`. */
  function InitFrom<T>(buffer: Option<T>, xs: seq<T>): (r: seq<T>)
    ensures var full := buffer.ToSeq() + xs;
            r == (if full == [] then [] else full[..|full| - 1])
    decreases |xs|
  {
    if xs == [] then [] else buffer.ToSeq() + InitFrom(Some(xs[0]), xs[1..])
  }

  /** `init`: every element but the last; nothing for a source of at most
      one element. */
  function Init<T>(xs: seq<T>): (r: seq<T>)
    ensures xs == [] ==> r == []
    ensures xs != [] ==> r == xs[..|xs| - 1]
  {
    InitFrom(None, xs)
  }

  /** `init` and `last` split a non-empty source between them. */
  lemma InitLast<T>(xs: seq<T>)
    requires xs != []
    ensures Consume.Last(xs).Some?
    ensures Init(xs) + [Consume.Last(xs).value] == xs
  {
  }

  /** Whether `a` equals, under `eq`, an element already in `seen`. */
  predicate Seen<T>(eq: (T, T) -> bool, seen: seq<T>, a: T) {
    exists i :: 0 <= i < |seen| && eq(seen[i], a)
  }

  /** An element is accounted for by `kept` when it was kept or equals a kept
      element. */
  ghost predicate Covered<T>(eq: (T, T) -> bool, kept: seq<T>, a: T) {
    a in kept || Seen(eq, kept, a)
  }

  /** `a` is `b` with some elements left out, the others in their order. */
  ghost predicate IsSubsequence<T>(a: seq<T>, b: seq<T>)
    decreases |b|
  {
    if a == [] then true
    else if b == [] then false
    else (a[0] == b[0] && IsSubsequence(a[1..], b[1..])) || IsSubsequence(a, b[1..])
  }

  /** `uniq(E)` with the elements kept so far in `seen`: an element is kept
      when no element seen so far equals it. */
  function UniqFrom<T>(eq: (T, T) -> bool, seen: seq<T>, xs: seq<T>): (r: seq<T>)
    ensures IsSubsequence(r, xs)
    decreases |xs|
  {
    if xs == [] then []
    else if Seen(eq, seen, xs[0]) then UniqFrom(eq, seen, xs[1..])
    else [xs[0]] + UniqFrom(eq, seen + [xs[0]], xs[1..])
  }

  /** No element of `r` equals, under `eq`, a later one. */
  ghost predicate Separated<T>(eq: (T, T) -> bool, r: seq<T>) {
    forall i, j :: 0 <= i < j < |r| ==> !eq(r[i], r[j])
  }

  /** No element of `before` equals, under `eq`, an element of `r`. */
  ghost predicate Apart<T>(eq: (T, T) -> bool, before: seq<T>, r: seq<T>) {
    forall k, i :: 0 <= k < |before| && 0 <= i < |r| ==> !eq(before[k], r[i])
  }

  /** Every element of `xs` is accounted for by `kept`. */
  ghost predicate CoversAll<T>(eq: (T, T) -> bool, kept: seq<T>, xs: seq<T>) {
    forall k :: 0 <= k < |xs| ==> Covered(eq, kept, xs[k])
  }

  /** No kept element equals a later kept one, nor any element kept before
      the call. */
  lemma {:induction false} UniqFromSeparated<T>(eq: (T, T) -> bool, seen: seq<T>, xs: seq<T>)
    ensures Separated(eq, UniqFrom(eq, seen, xs))
    ensures Apart(eq, seen, UniqFrom(eq, seen, xs))
    decreases |xs|
  {
    if xs != [] {
      if Seen(eq, seen, xs[0]) {
        UniqFromSeparated(eq, seen, xs[1..]);
      } else {
        var seen' := seen + [xs[0]];
        var rest := UniqFrom(eq, seen', xs[1..]);
        var r := UniqFrom(eq, seen, xs);
        assert r == [xs[0]] + rest;
        UniqFromSeparated(eq, seen', xs[1..]);
        forall i, j | 0 <= i < j < |r|
          ensures !eq(r[i], r[j])
        {
          assert r[j] == rest[j - 1];
          if i == 0 {
            assert seen'[|seen|] == xs[0];
          } else {
            assert r[i] == rest[i - 1];
          }
        }
        forall k, i | 0 <= k < |seen| && 0 <= i < |r|
          ensures !eq(seen[k], r[i])
        {
          if i > 0 {
            assert r[i] == rest[i - 1];
            assert seen'[k] == seen[k];
          }
        }
      }
    }
  }

  /** Every element of the source was kept, or equals an element that was
      kept (by this call or before it). Which one is kept first is fixed by
      the step lemmas below. */
  lemma {:induction false} UniqFromCovers<T>(eq: (T, T) -> bool, seen: seq<T>, xs: seq<T>)
    ensures CoversAll(eq, seen + UniqFrom(eq, seen, xs), xs)
    decreases |xs|
  {
    if xs != [] {
      var r := UniqFrom(eq, seen, xs);
      if Seen(eq, seen, xs[0]) {
        UniqFromCovers(eq, seen, xs[1..]);
        var i :| 0 <= i < |seen| && eq(seen[i], xs[0]);
        assert (seen + r)[i] == seen[i];
        forall k | 1 <= k < |xs|
          ensures Covered(eq, seen + r, xs[k])
        {
          assert xs[k] == xs[1..][k - 1];
        }
      } else {
        var seen' := seen + [xs[0]];
        var rest := UniqFrom(eq, seen', xs[1..]);
        UniqFromCovers(eq, seen', xs[1..]);
        assert seen' + rest == seen + r;
        assert (seen + r)[|seen|] == xs[0];
        forall k | 1 <= k < |xs|
          ensures Covered(eq, seen + r, xs[k])
        {
          assert xs[k] == xs[1..][k - 1];
        }
      }
    }
  }

  /** `uniq(E)`: keeps each element unless an earlier kept element equals it
      under `E`. The result is a subsequence of the source, no kept element
      equals a later kept one, and every source element was kept or equals a
      kept one. */
  function Uniq<T>(eq: (T, T) -> bool, xs: seq<T>): (r: seq<T>)
    ensures IsSubsequence(r, xs)
    ensures Separated(eq, r)
    ensures CoversAll(eq, r, xs)
  {
    var r := UniqFrom(eq, [], xs);
    UniqFromSeparated(eq, [], xs);
    UniqFromCovers(eq, [], xs);
    assert [] + r == r;
    r
  }

  /** What the loop yields for `a` once `kept` has been kept: `a`, unless an
      element of `kept` equals it. */
  function KeptNext<T>(eq: (T, T) -> bool, kept: seq<T>, a: T): (r: seq<T>)
    ensures r == [] || r == [a]
  {
    if Seen(eq, kept, a) then [] else [a]
  }

  /** The loop read one element at a time: uniq of a source with one more
      element keeps that element exactly when no element kept so far (or
      seen before the call) equals it. */
  lemma {:induction false} UniqFromSnoc<T>(eq: (T, T) -> bool, seen: seq<T>, xs: seq<T>, a: T)
    ensures UniqFrom(eq, seen, xs + [a]) == UniqFrom(eq, seen, xs) + KeptNext(eq, seen + UniqFrom(eq, seen, xs), a)
    decreases |xs|
  {
    if xs == [] {
      assert xs + [a] == [a];
      assert seen + [] == seen;
    } else {
      assert (xs + [a])[0] == xs[0];
      assert (xs + [a])[1..] == xs[1..] + [a];
      if Seen(eq, seen, xs[0]) {
        UniqFromSnoc(eq, seen, xs[1..], a);
      } else {
        var seen' := seen + [xs[0]];
        UniqFromSnoc(eq, seen', xs[1..], a);
        SnocKeep(eq, seen, xs, a);
      }
    }
  }

  /** The step of the induction above when the first element is kept. */
  lemma SnocKeep<T>(eq: (T, T) -> bool, seen: seq<T>, xs: seq<T>, a: T)
    requires xs != [] && !Seen(eq, seen, xs[0])
    requires (xs + [a])[1..] == xs[1..] + [a]
    requires UniqFrom(eq, seen + [xs[0]], xs[1..] + [a])
          == UniqFrom(eq, seen + [xs[0]], xs[1..]) + KeptNext(eq, (seen + [xs[0]]) + UniqFrom(eq, seen + [xs[0]], xs[1..]), a)
    ensures UniqFrom(eq, seen, xs + [a]) == UniqFrom(eq, seen, xs) + KeptNext(eq, seen + UniqFrom(eq, seen, xs), a)
  {
    var seen' := seen + [xs[0]];
    var rest := UniqFrom(eq, seen', xs[1..]);
    KeepHead(eq, seen, xs);
    KeepHead(eq, seen, xs + [a]);
    Regroup(xs[0], seen, rest, KeptNext(eq, seen' + rest, a));
  }

  /** A first element that no seen element equals is kept. */
  lemma KeepHead<T>(eq: (T, T) -> bool, seen: seq<T>, xs: seq<T>)
    requires xs != [] && !Seen(eq, seen, xs[0])
    ensures UniqFrom(eq, seen, xs) == [xs[0]] + UniqFrom(eq, seen + [xs[0]], xs[1..])
  {
  }

  /** The sequence algebra of the step above. */
  lemma Regroup<T>(x: T, seen: seq<T>, rest: seq<T>, tail: seq<T>)
    ensures [x] + (rest + tail) == ([x] + rest) + tail
    ensures seen + ([x] + rest) == (seen + [x]) + rest
  {
  }

  /** `uniq(E)` keeps the first occurrence: appending an element to the
      source appends it to the result exactly when no kept element equals
      it. With `Uniq(eq, []) == []` this fixes the whole result. */
  lemma UniqSnoc<T>(eq: (T, T) -> bool, xs: seq<T>, a: T)
    ensures Uniq(eq, xs + [a]) == Uniq(eq, xs) + (if Seen(eq, Uniq(eq, xs), a) then [] else [a])
  {
    UniqFromSnoc(eq, [], xs, a);
    assert [] + Uniq(eq, xs) == Uniq(eq, xs);
    assert KeptNext(eq, [] + Uniq(eq, xs), a) == if Seen(eq, Uniq(eq, xs), a) then [] else [a];
  }

  /** The same rule, read along the source: the element at index `k` is kept
      exactly when no element kept from the indexes before it equals it. */
  lemma UniqStep<T>(eq: (T, T) -> bool, xs: seq<T>, k: nat)
    requires k < |xs|
    ensures Uniq(eq, xs[..k + 1])
         == Uniq(eq, xs[..k]) + (if Seen(eq, Uniq(eq, xs[..k]), xs[k]) then [] else [xs[k]])
  {
    assert xs[..k + 1] == xs[..k] + [xs[k]];
    UniqSnoc(eq, xs[..k], xs[k]);
  }

  lemma {:induction false} SubsequenceElements<T>(a: seq<T>, b: seq<T>)
    requires IsSubsequence(a, b)
    ensures forall i :: 0 <= i < |a| ==> a[i] in b
    decreases |b|
  {
    if a != [] {
      if a[0] == b[0] && IsSubsequence(a[1..], b[1..]) {
        SubsequenceElements(a[1..], b[1..]);
        forall i | 0 <= i < |a|
          ensures a[i] in b
        {
          if i > 0 {
            assert a[i] == a[1..][i - 1];
          }
        }
      } else {
        SubsequenceElements(a, b[1..]);
      }
    }
  }

  /** Under plain equality `uniq` keeps exactly the distinct elements: each
      once, and nothing that is not in the source. */
  lemma UniqDistinct<T>(xs: seq<T>)
    ensures var r := Uniq((a: T, b: T) => a == b, xs);
            && (forall i, j :: 0 <= i < j < |r| ==> r[i] != r[j])
            && (forall k :: 0 <= k < |xs| ==> xs[k] in r)
            && (forall i :: 0 <= i < |r| ==> r[i] in xs)
  {
    var eq := (a: T, b: T) => a == b;
    var r := Uniq(eq, xs);
    SubsequenceElements(r, xs);
    forall k | 0 <= k < |xs|
      ensures xs[k] in r
    {
      assert Covered(eq, r, xs[k]);
    }
    forall i, j | 0 <= i < j < |r|
      ensures r[i] != r[j]
    {
      assert !eq(r[i], r[j]);
    }
  }

  /** The example of the `uniq` test. */
  lemma UniqExample()
    ensures Uniq((a: int, b: int) => a == b, [1, 2, 1]) == [1, 2]
  {
    var eq := (a: int, b: int) => a == b;
    var xs := [1, 2, 1];
    assert !Seen(eq, [], 1);
    assert !Seen(eq, [1], 2);
    assert eq([1, 2][0], 1);
    assert xs[1..] == [2, 1] && xs[1..][1..] == [1] && xs[1..][1..][1..] == [];
    assert UniqFrom(eq, [1, 2], [1]) == [];
    assert [] + [1] == [1] && [1] + [2] == [1, 2];
    assert UniqFrom(eq, [1], [2, 1]) == [2];
    assert UniqFrom(eq, [], xs) == [1, 2];
  }

  // ---------------------------------------------------------------------------
  // insertAt, modifyAt, rotate
  // ---------------------------------------------------------------------------

  /** `insertAt(i, a)` after `j` elements: the counter is incremented before
      it is compared, so `a` follows the element that makes the count reach
      `i`. */
  function InsertFrom<T>(i: int, a: T, j: int, xs: seq<T>): (r: seq<T>)
    ensures j < i <= j + |xs| ==> r == xs[..i - j] + [a] + xs[i - j..]
    ensures !(j < i <= j + |xs|) ==> r == xs
    decreases |xs|
  {
    if xs == [] then []
    else
      var j' := j + 1;
      [xs[0]] + (if j' == i then [a] else []) + InsertFrom(i, a, j', xs[1..])
  }

  /** `insertAt(i, a)` as written: inserts `a` at index `i` for
      `1 <= i <= |xs|` (at the end for `i == |xs|`) and leaves every other
      index, including 0, without effect. */
  function InsertAt<T>(i: int, a: T, xs: seq<T>): (r: seq<T>)
    ensures 1 <= i <= |xs| ==> r == xs[..i] + [a] + xs[i..]
    ensures i < 1 || i > |xs| ==> r == xs
  {
    InsertFrom(i, a, 0, xs)
  }

  /** The examples of the `insertAt` test. */
  lemma InsertAtExamples()
    ensures InsertAt(2, 5, [1, 2, 3, 4]) == [1, 2, 5, 3, 4]
    ensures InsertAt(4, 5, [1, 2, 3, 4]) == [1, 2, 3, 4, 5]
  {
    var xs := [1, 2, 3, 4];
    assert xs[..2] + [5] + xs[2..] == [1, 2, 5, 3, 4];
    assert xs[..4] + [5] + xs[4..] == [1, 2, 3, 4, 5];
  }

  /** Index 0 is in bounds, yet `insertAt(0, a)` never inserts. */
  lemma InsertAtZeroIgnored<T>(a: T, xs: seq<T>)
    ensures InsertAt(0, a, xs) == xs
    ensures InsertAt(0, 9, [1, 2]) == [1, 2] != [9, 1, 2]
  {
  }

  /** `insertAt(i, a)` with the comparison made before each element is
      yielded, and once more after the last one. */
  function InsertFromChecked<T>(i: int, a: T, j: int, xs: seq<T>): (r: seq<T>)
    ensures j <= i <= j + |xs| ==> r == xs[..i - j] + [a] + xs[i - j..]
    ensures !(j <= i <= j + |xs|) ==> r == xs
    decreases |xs|
  {
    if j == i then
      // the count is past `i` from here on, so the rest is copied
      assert xs[..0] == [] && xs[0..] == xs;
      [a] + xs
    else if xs == [] then []
    else
      var rest := InsertFromChecked(i, a, j + 1, xs[1..]);
      if j < i <= j + |xs| then
        InsertAfterHead(xs, a, i - j - 1, rest);
        [xs[0]] + rest
      else
        [xs[0]] + rest
  }

  /** Putting the head back in front of an insertion into the tail. */
  lemma InsertAfterHead<T>(xs: seq<T>, a: T, k: int, rest: seq<T>)
    requires 0 <= k < |xs|
    requires rest == xs[1..][..k] + [a] + xs[1..][k..]
    ensures [xs[0]] + rest == xs[..k + 1] + [a] + xs[k + 1..]
  {
    assert xs[..k + 1] == [xs[0]] + xs[1..][..k];
    assert xs[k + 1..] == xs[1..][k..];
  }

  /** `insertAt(i, a)` as documented: inserts at every index from 0 to the
      length, and leaves the stream unchanged only for an out-of-bounds
      index. */
  function InsertAtChecked<T>(i: int, a: T, xs: seq<T>): (r: seq<T>)
    ensures 0 <= i <= |xs| ==> r == xs[..i] + [a] + xs[i..]
    ensures i < 0 || i > |xs| ==> r == xs
  {
    InsertFromChecked(i, a, 0, xs)
  }

  /** The two versions differ only at index 0. */
  lemma InsertAtAgreesAwayFromZero<T>(i: int, a: T, xs: seq<T>)
    ensures i != 0 ==> InsertAt(i, a, xs) == InsertAtChecked(i, a, xs)
    ensures InsertAtChecked(0, a, xs) == [a] + xs
  {
    assert xs[..0] == [] && xs[0..] == xs;
  }

  /** `modifyAt(i, f)` after `j` elements. */
  function ModifyFrom<T>(i: int, f: T -> T, j: int, xs: seq<T>): (r: seq<T>)
    ensures |r| == |xs|
    ensures forall k :: 0 <= k < |xs| ==> r[k] == (if j + k == i then f(xs[k]) else xs[k])
    decreases |xs|
  {
    if xs == [] then [] else [if j == i then f(xs[0]) else xs[0]] + ModifyFrom(i, f, j + 1, xs[1..])
  }

  /** `modifyAt(i, f)`: applies `f` to the element at index `i`; the source
      unchanged when `i` is out of bounds. */
  function ModifyAt<T>(i: int, f: T -> T, xs: seq<T>): (r: seq<T>)
    ensures 0 <= i < |xs| ==> r == xs[i := f(xs[i])]
    ensures !(0 <= i < |xs|) ==> r == xs
  {
    ModifyFrom(i, f, 0, xs)
  }

  /** `rotate(n)` at index `idx`, with the first elements held in `buffer`. */
  function RotateFrom<T>(n: int, idx: int, buffer: seq<T>, xs: seq<T>): (r: seq<T>)
    ensures var k := Clamp(n - idx, |xs|); r == xs[k..] + buffer + xs[..k]
    decreases |xs|
  {
    if xs == [] then buffer
    else if idx < n then
      var rest := RotateFrom(n, idx + 1, buffer + [xs[0]], xs[1..]);
      HoldHead(xs, buffer, Clamp(n - idx - 1, |xs| - 1));
      rest
    else
      var rest := RotateFrom(n, idx + 1, buffer, xs[1..]);
      assert rest == xs[1..] + buffer + [];
      assert [xs[0]] + rest == xs[0..] + buffer + xs[..0];
      [xs[0]] + rest
  }

  /** Moving the head of the source to the end of the held-back buffer. */
  lemma HoldHead<T>(xs: seq<T>, buffer: seq<T>, k: nat)
    requires xs != [] && k <= |xs| - 1
    ensures xs[1..][k..] + (buffer + [xs[0]]) + xs[1..][..k] == xs[k + 1..] + buffer + xs[..k + 1]
  {
    assert xs[1..][k..] == xs[k + 1..];
    assert xs[..k + 1] == [xs[0]] + xs[1..][..k];
  }

  /** `rotate(n)`: the first `n` elements are held back and yielded after
      the rest. */
  function Rotate<T>(n: int, xs: seq<T>): (r: seq<T>)
    ensures var k := Clamp(n, |xs|); r == xs[k..] + xs[..k]
  {
    RotateFrom(n, 0, [], xs)
  }

  /** `rotate(n)` is `drop(n)` followed by `take(n)`: a left rotation, so
      `rotate(2)` of `[1, 2, 3, 4, 5]` is `[3, 4, 5, 1, 2]`. */
  lemma RotateIsDropThenTake<T>(n: int, xs: seq<T>)
    ensures Rotate(n, xs) == Drop(n, xs) + Take(n, xs)
    ensures multiset(Rotate(n, xs)) == multiset(xs)
    ensures Rotate(2, [1, 2, 3, 4, 5]) == [3, 4, 5, 1, 2]
  {
    var k := Clamp(n, |xs|);
    assert xs[..k] + xs[k..] == xs;
    var ys := [1, 2, 3, 4, 5];
    assert ys[2..] == [3, 4, 5] && ys[..2] == [1, 2];
  }

  // ---------------------------------------------------------------------------
  // zipWith, chainWithIndex, filterMapWithIndex, getSemigroup
  // ---------------------------------------------------------------------------

  /** `zipWith(fa, fb, f)`: combines elements at the same index until either
      source is done. */
  function ZipWith<A, B, C>(xs: seq<A>, bs: seq<B>, f: (A, B) -> C): (r: seq<C>)
    ensures |r| == Min(|xs|, |bs|)
    ensures forall i :: 0 <= i < |r| ==> r[i] == f(xs[i], bs[i])
    decreases |xs|
  {
    if xs == [] || bs == [] then [] else [f(xs[0], bs[0])] + ZipWith(xs[1..], bs[1..], f)
  }

  /** `chainWithIndex(f)` from index `idx`: for each element, everything the
      stream `f(idx, element)` yields. */
  function ChainFrom<A, B>(f: (int, A) -> seq<B>, idx: int, xs: seq<A>): (r: seq<B>)
    ensures r == Chunking.Flatten(seq(|xs|, i requires 0 <= i < |xs| => f(idx + i, xs[i])))
    decreases |xs|
  {
    if xs == [] then []
    else
      var rest := ChainFrom(f, idx + 1, xs[1..]);
      assert seq(|xs|, i requires 0 <= i < |xs| => f(idx + i, xs[i]))[1..]
          == seq(|xs[1..]|, i requires 0 <= i < |xs[1..]| => f(idx + 1 + i, xs[1..][i]));
      f(idx, xs[0]) + rest
  }

  /** `chainWithIndex(f)`: the concatenation of `f(i, xs[i])` over the
      source, in order. */
  function ChainWithIndex<A, B>(f: (int, A) -> seq<B>, xs: seq<A>): (r: seq<B>)
    ensures r == Chunking.Flatten(seq(|xs|, i requires 0 <= i < |xs| => f(i, xs[i])))
  {
    assert seq(|xs|, i requires 0 <= i < |xs| => f(0 + i, xs[i])) == seq(|xs|, i requires 0 <= i < |xs| => f(i, xs[i]));
    ChainFrom(f, 0, xs)
  }

  /** The decimal digit of a small index, as the example below prints it. */
  function Digit(i: int): char {
    if 0 <= i < 10 then "0123456789"[i] else '?'
  }

  /** The function of the `chainWithIndex` test: each element twice, tagged
      with its index. */
  function Tagged(i: int, x: string): seq<string> {
    [x + [Digit(i)], x + [Digit(i)]]
  }

  lemma ChainWithIndexExample()
    ensures ChainWithIndex(Tagged, ["a", "b", "c"]) == ["a0", "a0", "b1", "b1", "c2", "c2"]
  {
    var xs := ["a", "b", "c"];
    assert "a" + ['0'] == "a0" && "b" + ['1'] == "b1" && "c" + ['2'] == "c2";
    assert Tagged(0, "a") == ["a0", "a0"] && Tagged(1, "b") == ["b1", "b1"] && Tagged(2, "c") == ["c2", "c2"];
    assert xs[1..] == ["b", "c"] && xs[1..][1..] == ["c"] && xs[1..][1..][1..] == [];
    assert ChainFrom(Tagged, 2, ["c"]) == ["c2", "c2"];
    assert ChainFrom(Tagged, 1, ["b", "c"]) == ["b1", "b1", "c2", "c2"];
  }

  /** `filterMapWithIndex(f)` from index `idx`. */
  function FilterMapFrom<A, B>(f: (int, A) -> Option<B>, idx: int, xs: seq<A>): (r: seq<B>)
    ensures |r| <= |xs|
    decreases |xs|
  {
    if xs == [] then [] else f(idx, xs[0]).ToSeq() + FilterMapFrom(f, idx + 1, xs[1..])
  }

  /** `filterMapWithIndex(f)`: the present values of `f(i, xs[i])`, in
      order. */
  function FilterMapWithIndex<A, B>(f: (int, A) -> Option<B>, xs: seq<A>): (r: seq<B>)
    ensures |r| <= |xs|
    ensures r == Chunking.Flatten(seq(|xs|, i requires 0 <= i < |xs| => f(i, xs[i]).ToSeq()))
  {
    var g := (i: int, a: A) => f(i, a).ToSeq();
    FilterMapIsChain(f, 0, xs);
    assert seq(|xs|, i requires 0 <= i < |xs| => g(0 + i, xs[i])) == seq(|xs|, i requires 0 <= i < |xs| => f(i, xs[i]).ToSeq());
    FilterMapFrom(f, 0, xs)
  }

  /** `filterMapWithIndex(f)` is `chainWithIndex` over `f` read as a stream
      of at most one element. */
  lemma {:induction false} FilterMapIsChain<A, B>(f: (int, A) -> Option<B>, idx: int, xs: seq<A>)
    ensures FilterMapFrom(f, idx, xs) == ChainFrom((i: int, a: A) => f(i, a).ToSeq(), idx, xs)
    decreases |xs|
  {
    if xs != [] {
      FilterMapIsChain(f, idx + 1, xs[1..]);
    }
  }

  /** Upper-casing of the ASCII letters, the only characters the example
      below uses. */
  function Upper(s: string): (r: string)
    ensures |r| == |s|
    ensures forall i :: 0 <= i < |s| ==> r[i] == (if 'a' <= s[i] <= 'z' then (s[i] as int - 32) as char else s[i])
  {
    seq(|s|, i requires 0 <= i < |s| => if 'a' <= s[i] <= 'z' then (s[i] as int - 32) as char else s[i])
  }

  /** The function of the `filterMapWithIndex` test: the upper-cased element
      at odd indexes, nothing at even ones. */
  function UpperAtOdd(i: int, s: string): Option<string> {
    if i % 2 == 1 then Some(Upper(s)) else None
  }

  lemma FilterMapWithIndexExample()
    ensures FilterMapWithIndex(UpperAtOdd, ["a", "no", "neither", "b"]) == ["NO", "B"]
  {
    var xs := ["a", "no", "neither", "b"];
    assert Upper("no") == "NO" && Upper("b") == "B";
    assert xs[1..] == ["no", "neither", "b"] && xs[1..][1..] == ["neither", "b"] && xs[1..][1..][1..] == ["b"];
    assert FilterMapFrom(UpperAtOdd, 3, ["b"]) == ["B"];
    assert FilterMapFrom(UpperAtOdd, 2, ["neither", "b"]) == ["B"];
    assert FilterMapFrom(UpperAtOdd, 1, ["no", "neither", "b"]) == ["NO", "B"];
  }

  /** `getSemigroup().concat(first, second)`: everything `first` yields,
      then everything `second` yields. */
  function Concat<T>(first: seq<T>, second: seq<T>): (r: seq<T>)
    ensures |r| == |first| + |second|
    ensures r[..|first|] == first && r[|first|..] == second
  {
    first + second
  }

  /** `concat` is associative and has the empty stream (`getMonoid().empty`)
      as its identity on both sides. */
  lemma ConcatMonoid<T>(a: seq<T>, b: seq<T>, c: seq<T>)
    ensures Concat(Concat(a, b), c) == Concat(a, Concat(b, c))
    ensures Concat([], a) == a && Concat(a, []) == a
  {
  }
}
