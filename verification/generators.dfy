/** Stream constructors driven by a loop with a cursor: `fromRec`,
    `fromRange` (built on `fromRec`), `unfold` and `makeBy`. `fromRec` and
    `unfold` may never stop, so each is run for at most `fuel` iterations of
    its loop; the result records what was yielded and whether the loop
    ended by itself. */
module Generators {
  import opened Wrappers

  datatype Run<A> = Run(out: seq<A>, finished: bool)

  /** Reference semantics of `fromRec(fn)(next)`, stated recursively: one
      iteration yields the cursor if it is present, then replaces it by
      `fn` of it, and the loop ends when the new cursor is absent. */
  function RecRun<A>(fn: Option<A> -> Option<A>, next: Option<A>, fuel: nat): (r: Run<A>)
    ensures |r.out| <= fuel
    decreases fuel
  {
    if fuel == 0 then Run([], false)
    else
      var after := fn(next);
      if after.None? then Run(next.ToSeq(), true)
      else
        var rest := RecRun(fn, after, fuel - 1);
        Run(next.ToSeq() + rest.out, rest.finished)
  }

  /** `fromRec(fn)(init)` as the source writes it: a do-while loop over a
      cursor, so that no call stack grows with the length of the stream. */
  method FromRec<A>(fn: Option<A> -> Option<A>, init: Option<A>, fuel: nat) returns (out: seq<A>, finished: bool)
    ensures Run(out, finished) == RecRun(fn, init, fuel)
  {
    out := [];
    finished := false;
    var next := init;
    var k := 0;
    ghost var whole := RecRun(fn, init, fuel);
    assert [] + whole.out == whole.out;
    while k < fuel && !finished
      invariant 0 <= k <= fuel
      invariant !finished ==> whole == Resume(out, RecRun(fn, next, fuel - k))
      invariant finished ==> whole == Run(out, true)
    {
      RecRunStep(fn, next, fuel - k, out);
      out := out + next.ToSeq();
      var after := fn(next);
      k := k + 1;
      if after.None? {
        finished := true;
      }
      next := after;
    }
    if !finished {
      assert out + [] == out;
    }
  }

  /** The output of a run that has already yielded `done`. */
  function Resume<A>(done: seq<A>, r: Run<A>): Run<A> {
    Run(done + r.out, r.finished)
  }

  /** One iteration of the `fromRec` loop, seen from the outside: the
      cursor's value (if any) moves to the output, and the loop ends when
      the new cursor is absent. */
  lemma RecRunStep<A>(fn: Option<A> -> Option<A>, next: Option<A>, fuel: nat, done: seq<A>)
    requires fuel >= 1
    ensures fn(next).None? ==> Resume(done, RecRun(fn, next, fuel)) == Run(done + next.ToSeq(), true)
    ensures fn(next).Some? ==> Resume(done, RecRun(fn, next, fuel)) == Resume(done + next.ToSeq(), RecRun(fn, fn(next), fuel - 1))
  {
    var rest := RecRun(fn, fn(next), fuel - 1);
    assert done + (next.ToSeq() + rest.out) == (done + next.ToSeq()) + rest.out;
  }

  /** More fuel only extends what is yielded: the first outputs of a
      recurrence do not depend on how far it is later run. */
  lemma {:induction false} RecRunExtends<A>(fn: Option<A> -> Option<A>, next: Option<A>, fuel: nat)
    ensures RecRun(fn, next, fuel).out <= RecRun(fn, next, fuel + 1).out
    ensures RecRun(fn, next, fuel).finished ==> RecRun(fn, next, fuel + 1) == RecRun(fn, next, fuel)
    decreases fuel
  {
    if fuel > 0 && fn(next).Some? {
      RecRunExtends(fn, fn(next), fuel - 1);
    }
  }

  /** The cursor after `i` applications of `fn`. */
  function Iterate<A>(fn: Option<A> -> Option<A>, c: Option<A>, i: nat): Option<A>
    decreases i
  {
    if i == 0 then c else Iterate(fn, fn(c), i - 1)
  }

  /** What `fromRec(fn)(some(v))` yields: `v`, then each further
      application of `fn` while it is present; when the loop ends by itself
      the next application is absent, and when it does not, it used all of
      its fuel. */
  lemma {:induction false} RecRunIterates<A>(fn: Option<A> -> Option<A>, v: A, fuel: nat)
    ensures var r := RecRun(fn, Some(v), fuel);
            && (forall j :: 0 <= j < |r.out| ==> Iterate(fn, Some(v), j) == Some(r.out[j]))
            && (r.finished ==> Iterate(fn, Some(v), |r.out|).None?)
            && (!r.finished ==> |r.out| == fuel)
    decreases fuel
  {
    var r := RecRun(fn, Some(v), fuel);
    if fuel > 0 {
      var after := fn(Some(v));
      if after.Some? {
        var rest := RecRun(fn, after, fuel - 1);
        RecRunIterates(fn, after.value, fuel - 1);
        assert r.out == [v] + rest.out;
        forall j | 0 <= j < |r.out|
          ensures Iterate(fn, Some(v), j) == Some(r.out[j])
        {
          if j > 0 {
            assert r.out[j] == rest.out[j - 1];
          }
        }
      }
    }
  }

  /** With an absent seed the loop still runs its body once: nothing is
      yielded, `fn` is applied to the absent cursor, and the stream is what
      `fn(none)` seeds, with one iteration used up. */
  lemma AbsentSeed<A>(fn: Option<A> -> Option<A>, fuel: nat)
    ensures fn(None).None? ==> RecRun(fn, None, fuel + 1) == Run([], true)
    ensures fn(None).Some? ==> RecRun(fn, None, fuel + 1) == RecRun(fn, fn(None), fuel)
  {
  }

  /** The step `fromRange(start, end)` hands to `fromRec`: add one, keep the
      result only while it is below `end` (`None` stands for the default
      end, positive infinity). */
  function RangeStep(end: Option<int>, o: Option<int>): Option<int> {
    match o
    case None => None
    case Some(r) => if end.None? || r + 1 < end.value then Some(r + 1) else None
  }

  /** `fromRange(start, end)`: consecutive integers from `start`; every
      element after the seed is below `end`, and the stream ends by itself
      only once the next integer would reach `end`. */
  function FromRange(start: int, end: Option<int>, fuel: nat): (r: Run<int>)
    ensures CountsUp(start, end, fuel, r)
  {
    var step := o => RangeStep(end, o);
    RangeCountsUp(step, start, end, fuel);
    RecRun(step, Some(start), fuel)
  }

  /** What a run of `fromRange(start, end)` for `fuel` iterations looks like. */
  ghost predicate CountsUp(start: int, end: Option<int>, fuel: nat, r: Run<int>) {
    && (forall i :: 0 <= i < |r.out| ==> r.out[i] == start + i)
    && (forall i :: 1 <= i < |r.out| ==> end.None? || r.out[i] < end.value)
    && (r.finished ==> end.Some? && |r.out| >= 1 && start + |r.out| >= end.value)
    && (!r.finished ==> |r.out| == fuel)
  }

  lemma {:induction false} RangeCountsUp(step: Option<int> -> Option<int>, start: int, end: Option<int>, fuel: nat)
    requires forall o :: step(o) == RangeStep(end, o)
    ensures CountsUp(start, end, fuel, RecRun(step, Some(start), fuel))
    decreases fuel
  {
    var r := RecRun(step, Some(start), fuel);
    if fuel > 0 && step(Some(start)).Some? {
      var rest := RecRun(step, Some(start + 1), fuel - 1);
      RangeCountsUp(step, start + 1, end, fuel - 1);
      assert r.out == [start] + rest.out;
      forall i | 1 <= i < |r.out|
        ensures r.out[i] == start + i && (end.None? || r.out[i] < end.value)
      {
        assert r.out[i] == rest.out[i - 1];
      }
    }
  }

  /** The integers from `lo` up to but not including `hi`. */
  function Interval(lo: int, hi: int): (r: seq<int>)
    ensures |r| == (if lo < hi then hi - lo else 0)
    ensures forall i :: 0 <= i < |r| ==> r[i] == lo + i
    decreases hi - lo
  {
    if lo < hi then [lo] + Interval(lo + 1, hi) else []
  }

  /** `fromRange(start, end)` with `start < end` yields `start` up to
      `end - 1` and then stops by itself. */
  lemma {:induction false} RangeBelowEnd(start: int, end: int, fuel: nat)
    requires start < end
    requires fuel >= end - start
    ensures FromRange(start, Some(end), fuel) == Run(Interval(start, end), true)
    decreases end - start
  {
    if start + 1 < end {
      RangeBelowEnd(start + 1, end, fuel - 1);
      assert Interval(start, end) == [start] + Interval(start + 1, end);
    } else {
      assert Interval(start, end) == [start];
    }
  }

  /** The seed is yielded unconditionally: `fromRange(start, end)` with
      `start >= end` still yields `[start]`. */
  lemma EmptyRangeYieldsStart(start: int, end: int, fuel: nat)
    requires start >= end
    requires fuel >= 1
    ensures FromRange(start, Some(end), fuel) == Run([start], true)
  {
  }

  /** `fromRange(start)` with the default end never stops: run for `fuel`
      iterations it yields the next `fuel` integers. */
  lemma {:induction false} RangeUnbounded(start: int, fuel: nat)
    ensures FromRange(start, None, fuel) == Run(Interval(start, start + fuel), false)
    decreases fuel
  {
    if fuel > 0 {
      RangeUnbounded(start + 1, fuel - 1);
      assert Interval(start, start + fuel) == [start] + Interval(start + 1, start + fuel);
    }
  }

  /** Reference semantics of `unfold(b, f)`: each iteration applies `f` to
      the state; an absent result ends the loop, a present one yields its
      value and carries its new state to the next iteration. */
  function UnfoldRun<A, B>(f: B -> Option<(A, B)>, b: B, fuel: nat): (r: Run<A>)
    ensures |r.out| <= fuel
    decreases fuel
  {
    if fuel == 0 then Run([], false)
    else
      match f(b)
      case None => Run([], true)
      case Some((a, b')) =>
        var rest := UnfoldRun(f, b', fuel - 1);
        Run([a] + rest.out, rest.finished)
  }

  /** `unfold(b, f)` as the source writes it: a `while (true)` loop over the
      state. */
  method Unfold<A, B>(f: B -> Option<(A, B)>, b: B, fuel: nat) returns (out: seq<A>, finished: bool)
    ensures Run(out, finished) == UnfoldRun(f, b, fuel)
  {
    out := [];
    finished := false;
    var bb := b;
    var k := 0;
    while k < fuel && !finished
      invariant 0 <= k <= fuel
      invariant !finished ==> UnfoldRun(f, b, fuel) == Run(out + UnfoldRun(f, bb, fuel - k).out, UnfoldRun(f, bb, fuel - k).finished)
      invariant finished ==> UnfoldRun(f, b, fuel) == Run(out, true)
    {
      var mt := f(bb);
      ghost var here := UnfoldRun(f, bb, fuel - k);
      k := k + 1;
      if mt.None? {
        assert here == Run([], true);
        assert out + here.out == out;
        finished := true;
      } else {
        ghost var rest := UnfoldRun(f, mt.value.1, fuel - k);
        assert here == Run([mt.value.0] + rest.out, rest.finished);
        assert out + here.out == (out + [mt.value.0]) + rest.out;
        out := out + [mt.value.0];
        bb := mt.value.1;
      }
    }
  }

  /** The unfold step that turns a present cursor into `fromRec`'s yield and
      its next cursor. */
  function CursorStep<A>(fn: Option<A> -> Option<A>, o: Option<A>): Option<(A, Option<A>)> {
    match o
    case None => None
    case Some(v) => Some((v, fn(o)))
  }

  /** `fromRec` with a present seed is `unfold` over the cursor: run for the
      same number of iterations, both yield the same elements. */
  lemma {:induction false} RecIsUnfold<A>(fn: Option<A> -> Option<A>, v: A, fuel: nat)
    ensures RecRun(fn, Some(v), fuel).out == UnfoldRun(o => CursorStep(fn, o), Some(v), fuel).out
    decreases fuel
  {
    if fuel > 0 {
      var after := fn(Some(v));
      if after.Some? {
        RecIsUnfold(fn, after.value, fuel - 1);
      } else if fuel > 1 {
        assert UnfoldRun(o => CursorStep(fn, o), after, fuel - 1) == Run([], true);
      }
    }
  }

  /** The example of the `unfold` tests: from 5, yield twice the state and
      count down, stopping at zero. */
  function CountDown(n: int): Option<(int, int)> {
    if n <= 0 then None else Some((n * 2, n - 1))
  }

  lemma CountDownExample()
    ensures UnfoldRun(CountDown, 5, 6) == Run([10, 8, 6, 4, 2], true)
  {
    assert UnfoldRun(CountDown, 0, 1) == Run([], true);
    assert UnfoldRun(CountDown, 1, 2) == Run([2], true);
    assert UnfoldRun(CountDown, 2, 3) == Run([4, 2], true);
    assert UnfoldRun(CountDown, 3, 4) == Run([6, 4, 2], true);
    assert UnfoldRun(CountDown, 4, 5) == Run([8, 6, 4, 2], true);
  }

  /** `makeBy(n, f)`: `f(0)`, ..., `f(n - 1)`, nothing when `n` is not
      positive. */
  method MakeBy<A>(n: int, f: int -> A) returns (r: seq<A>)
    ensures |r| == Max(0, n)
    ensures forall i :: 0 <= i < |r| ==> r[i] == f(i)
  {
    var j := Max(0, n);
    r := [];
    var i := 0;
    while i < j
      invariant 0 <= i <= j
      invariant |r| == i
      invariant forall k :: 0 <= k < i ==> r[k] == f(k)
    {
      r := r + [f(i)];
      i := i + 1;
    }
  }
}
