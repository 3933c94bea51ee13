/** `broadcast`: one live run of a source stream shared by two derived
    streams (the left and the right side). Each side, when pulled, advances
    the shared source cursor by one element, yields its own pending buffer
    followed by that element, and stages the element in the other side's
    buffer. A side returns once the source is done and its own buffer is
    empty. Each pull's batch of yields is taken as one atomic step. */
module Broadcast {
  import opened Wrappers

  datatype Side = Left | Right {
    function Other(): (o: Side)
      ensures o != this
    {
      if this == Left then Right else Left
    }
  }

  /** What the session keeps for one side: the elements staged for it by the
      other side and not yet yielded, everything it has yielded so far,
      whether its generator was started (`aConsumed`/`bConsumed`) and
      whether it has returned. */
  datatype Reader<T> = Reader(pending: seq<T>, delivered: seq<T>, used: bool, finished: bool)

  /** The error a second run of a side raises:
      "Broadcasted stream already consumed". */
  datatype BroadcastError = AlreadyConsumed

  /** The session: the source's elements, the shared cursor (how many
      elements the one live source run has produced) and both readers. */
  datatype Session<T> = Session(src: seq<T>, pos: nat, left: Reader<T>, right: Reader<T>) {

    function Get(side: Side): Reader<T> {
      if side == Left then left else right
    }

    function With(side: Side, r: Reader<T>): (s: Session<T>)
      ensures s.Get(side) == r
      ensures s.Get(side.Other()) == Get(side.Other())
      ensures s.src == src && s.pos == pos
    {
      if side == Left then this.(left := r) else this.(right := r)
    }
  }

  /** The facts that hold of every reachable session. */
  ghost predicate ReaderValid<T>(s: Session<T>, r: Reader<T>)
    requires s.pos <= |s.src|
  {
    && r.delivered + r.pending == s.src[..s.pos]
    && (r.finished ==> r.used && s.pos == |s.src| && r.pending == [])
    && (!r.used ==> r.delivered == [])
  }

  ghost predicate Valid<T>(s: Session<T>) {
    && s.pos <= |s.src|
    && ReaderValid(s, s.left)
    && ReaderValid(s, s.right)
    && (s.left.pending == [] || s.right.pending == [])
  }

  /** `broadcast(as)`: a fresh session over one run of the source. */
  function Start<T>(src: seq<T>): (s: Session<T>)
    ensures Valid(s)
    ensures s.src == src && s.pos == 0
    ensures forall side: Side :: !s.Get(side).used && s.Get(side).pending == [] && s.Get(side).delivered == []
  {
    Session(src, 0, Reader([], [], false, false), Reader([], [], false, false))
  }

  /** Running one side's generator: the first run marks the side used; any
      later run fails with `AlreadyConsumed` and leaves the session exactly
      as it was. */
  function Open<T>(s: Session<T>, side: Side): (r: (Session<T>, Option<BroadcastError>))
    requires Valid(s)
    ensures Valid(r.0)
    ensures r.1 == Some(AlreadyConsumed) <==> s.Get(side).used
    ensures r.1.Some? ==> r.0 == s
    ensures r.1.None? ==> r.0 == s.With(side, s.Get(side).(used := true))
  {
    if s.Get(side).used then (s, Some(AlreadyConsumed))
    else (s.With(side, s.Get(side).(used := true)), None)
  }

  /** A pull while the source has an element left: the shared cursor
      advances, the pulling side yields its buffer and the new element, and
      the element is staged for the other side. */
  function Advance<T>(s: Session<T>, side: Side): (r: (Session<T>, seq<T>))
    requires Valid(s) && s.Get(side).used && !s.Get(side).finished && s.pos < |s.src|
    ensures Valid(r.0) && r.0.src == s.src && r.0.pos == s.pos + 1
    ensures r.1 == s.Get(side).pending + [s.src[s.pos]]
    ensures r.0.Get(side) == s.Get(side).(pending := [], delivered := s.Get(side).delivered + r.1)
    ensures r.0.Get(side.Other()) == s.Get(side.Other()).(pending := s.Get(side.Other()).pending + [s.src[s.pos]])
  {
    var me := s.Get(side);
    var other := s.Get(side.Other());
    var v := s.src[s.pos];
    var batch := me.pending + [v];
    var me' := me.(pending := [], delivered := me.delivered + batch);
    var other' := other.(pending := other.pending + [v]);
    var s' := if side == Left then Session(s.src, s.pos + 1, me', other') else Session(s.src, s.pos + 1, other', me');
    assert s.src[..s.pos + 1] == s.src[..s.pos] + [v];
    assert me'.delivered + me'.pending == (me.delivered + me.pending) + [v];
    assert other'.delivered + other'.pending == (other.delivered + other.pending) + [v];
    (s', batch)
  }

  /** A pull once the source is done: the side yields what is left in its
      buffer and returns. */
  function Finish<T>(s: Session<T>, side: Side): (r: (Session<T>, seq<T>))
    requires Valid(s) && s.Get(side).used && s.pos == |s.src|
    ensures Valid(r.0) && r.0.src == s.src && r.0.pos == s.pos
    ensures r.1 == s.Get(side).pending
    ensures r.0.Get(side) == s.Get(side).(pending := [], delivered := s.Get(side).delivered + r.1, finished := true)
    ensures r.0.Get(side.Other()) == s.Get(side.Other())
  {
    var me := s.Get(side);
    assert s.src[..s.pos] == s.src;
    (s.With(side, me.(pending := [], delivered := me.delivered + me.pending, finished := true)), me.pending)
  }

  /** One pull of a started side. Returns the new session and the batch the
      side yields. A side that has returned yields nothing more. */
  function Pull<T>(s: Session<T>, side: Side): (r: (Session<T>, seq<T>))
    requires Valid(s) && s.Get(side).used
    ensures Valid(r.0)
    ensures r.0.src == s.src
    // the pulling side has caught up with the shared cursor
    ensures r.0.Get(side).pending == []
    ensures r.0.Get(side).delivered == s.Get(side).delivered + r.1
    ensures r.0.Get(side).used
    // the other side yields nothing; it only sees the new element staged
    ensures r.0.Get(side.Other()).delivered == s.Get(side.Other()).delivered
    ensures r.0.Get(side.Other()).used == s.Get(side.Other()).used
    ensures r.0.Get(side.Other()).finished == s.Get(side.Other()).finished
    ensures r.0.Get(side.Other()).pending == s.Get(side.Other()).pending + s.src[s.pos..r.0.pos]
    // the source advances by at most one element, and only if not yet done
    ensures r.0.pos == (if s.pos < |s.src| && !s.Get(side).finished then s.pos + 1 else s.pos)
    // a side returns exactly when it pulls a done source
    ensures r.0.Get(side).finished <==> s.Get(side).finished || s.pos == |s.src|
    ensures s.Get(side).finished ==> r == (s, [])
  {
    if s.Get(side).finished then
      assert s.src[s.pos..s.pos] == [];
      (s, [])
    else if s.pos < |s.src| then
      var r := Advance(s, side);
      assert s.src[s.pos..s.pos + 1] == [s.src[s.pos]];
      r
    else
      assert s.src[s.pos..s.pos] == [];
      Finish(s, side)
  }

  /** How many more pulls `side` needs before it returns. */
  function Remaining<T>(s: Session<T>, side: Side): nat
    requires s.pos <= |s.src|
  {
    (|s.src| - s.pos) + (if s.Get(side).finished then 0 else 1)
  }

  /** Any interleaving of pulls of the two started sides. */
  function Run<T>(s: Session<T>, schedule: seq<Side>): (r: Session<T>)
    requires Valid(s) && s.left.used && s.right.used
    ensures Valid(r) && r.left.used && r.right.used
    ensures r.src == s.src
    decreases |schedule|
  {
    if schedule == [] then s
    else Run(Pull(s, schedule[0]).0, schedule[1..])
  }

  /** Under every interleaving of pulls, each side has yielded a prefix of
      the source, and a side that has returned has yielded the whole source,
      in order, with nothing dropped or repeated. */
  lemma InterleavingFidelity<T>(xs: seq<T>, schedule: seq<Side>)
    ensures var s0 := Open(Open(Start(xs), Left).0, Right).0;
            var r := Run(s0, schedule);
            && (forall side: Side :: r.Get(side).delivered <= xs)
            && (forall side: Side :: r.Get(side).finished ==> r.Get(side).delivered == xs)
  {
    var s0 := Open(Open(Start(xs), Left).0, Right).0;
    var r := Run(s0, schedule);
    forall side: Side
      ensures r.Get(side).delivered <= xs
      ensures r.Get(side).finished ==> r.Get(side).delivered == xs
    {
      assert r.Get(side).delivered + r.Get(side).pending == xs[..r.pos];
      assert r.Get(side).delivered <= xs[..r.pos];
      if r.Get(side).finished {
        assert xs[..r.pos] == xs;
      }
    }
  }

  /** One pull of a side that has not returned yet, as the draining loop
      sees it: the side's yields grow by the batch and it comes one pull
      closer to returning. */
  method Step<T>(s: Session<T>, side: Side) returns (s': Session<T>, batch: seq<T>)
    requires Valid(s) && s.Get(side).used && !s.Get(side).finished
    ensures Valid(s') && s'.src == s.src && s'.Get(side).used
    ensures s'.Get(side).delivered == s.Get(side).delivered + batch
    ensures s'.Get(side.Other()).delivered == s.Get(side.Other()).delivered
    ensures s'.Get(side.Other()).used == s.Get(side.Other()).used
    ensures Remaining(s', side) < Remaining(s, side)
  {
    var r := Pull(s, side);
    s', batch := r.0, r.1;
  }

  /** Pulling one side until it returns: it ends having yielded the whole
      source, and the batches it yields along the way are exactly the part
      of the source it had not yielded yet. */
  method Drain<T>(s: Session<T>, side: Side) returns (s': Session<T>, out: seq<T>)
    requires Valid(s) && s.Get(side).used
    ensures Valid(s') && s'.src == s.src
    ensures s'.Get(side).finished
    ensures s'.Get(side).delivered == s.src
    ensures s.Get(side).delivered + out == s.src
    ensures s'.Get(side.Other()).delivered == s.Get(side.Other()).delivered
    ensures s'.Get(side.Other()).used == s.Get(side.Other()).used
  {
    s' := s;
    out := [];
    while !s'.Get(side).finished
      invariant Valid(s') && s'.src == s.src && s'.Get(side).used
      invariant s'.Get(side).delivered == s.Get(side).delivered + out
      invariant s'.Get(side.Other()).delivered == s.Get(side.Other()).delivered
      invariant s'.Get(side.Other()).used == s.Get(side.Other()).used
      decreases Remaining(s', side)
    {
      var next, batch := Step(s', side);
      s', out := next, out + batch;
    }
    assert s'.pos == |s'.src|;
    assert s'.Get(side).delivered == s'.src[..s'.pos];
  }

  /** The scenario of the broadcast test: both sides of one broadcast are
      collected, and each collects the full source. This method drains the
      left side and then the right. The test collects both concurrently;
      `InterleavingFidelity` with `Drain` covers that case. */
  method CollectBoth<T>(xs: seq<T>) returns (left: seq<T>, right: seq<T>)
    ensures left == xs && right == xs
  {
    var s := Open(Open(Start(xs), Left).0, Right).0;
    s, left := Drain(s, Left);
    s, right := Drain(s, Right);
  }

  /** When the two sides are pulled in lock-step, the buffers never hold
      more than the one element the other side pulled last. */
  lemma LockStep<T>(s: Session<T>)
    requires Valid(s) && s.left.used && s.right.used
    requires |s.left.pending| <= 1 && s.right.pending == []
    ensures var r := Pull(Pull(s, Left).0, Right).0;
            |r.left.pending| <= 1 && r.right.pending == []
  {
  }

  /** A side's buffer holds exactly the elements the shared cursor is ahead
      of that side. */
  lemma PendingIsLag<T>(s: Session<T>, side: Side)
    requires Valid(s)
    ensures |s.Get(side).pending| == s.pos - |s.Get(side).delivered|
    ensures s.Get(side).pending == s.src[|s.Get(side).delivered|..s.pos]
  {
    var r := s.Get(side);
    assert r.delivered + r.pending == s.src[..s.pos];
    assert |r.delivered + r.pending| == s.pos;
    assert s.src[|r.delivered|..s.pos] == (r.delivered + r.pending)[|r.delivered|..];
  }
}
