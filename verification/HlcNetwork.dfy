/**
 Any number of nodes running hybrid logical clocks and sending each other stamps.
 A run is the list of events in the order they happened; the stamp of each event
 follows from the run.
 */
module HlcNetwork {
  import opened Hlc

  datatype Kind = Start | Local | Receive(source: nat)

  /** `node` read the physical time `now`; a receive got the stamp of event `source`. */
  datatype Event = Event(node: nat, now: nat, kind: Kind)

  type Run = seq<Event>

  /** The last event of `node` among the first `n`, or -1. */
  function LastOf(run: Run, node: nat, n: nat): (i: int)
    requires n <= |run|
    ensures -1 <= i < n && (i >= 0 ==> run[i].node == node)
  {
    if n == 0 then -1 else if run[n - 1].node == node then n - 1 else LastOf(run, node, n - 1)
  }

  function Previous(run: Run, i: nat): (j: int)
    requires i < |run|
    ensures -1 <= j < i && (j >= 0 ==> run[j].node == run[i].node)
  {
    LastOf(run, run[i].node, i)
  }

  /** A node's first event starts its clock, and only that one; stamps come from the past. */
  predicate Valid(run: Run) {
    forall i :: 0 <= i < |run| ==>
      && (run[i].kind.Start? <==> Previous(run, i) == -1)
      && (run[i].kind.Receive? ==> run[i].kind.source < i)
  }

  function StampOf(run: Run, i: nat): (s: Stamp)
    requires Valid(run) && i < |run|
    decreases i
  {
    var e := run[i];
    match e.kind
    case Start => Stamp(e.now, 0, e.node)
    case Local => Ticked(StampOf(run, Previous(run, i)), e.now)
    case Receive(source) => Updated(StampOf(run, Previous(run, i)), e.now, StampOf(run, source))
  }

  /** The greatest physical time read anywhere in the first `n` events. */
  function Frontier(run: Run, n: nat): (t: nat)
    requires n <= |run|
  {
    if n == 0 then 0 else Max(Frontier(run, n - 1), run[n - 1].now)
  }

  /** No physical clock is more than the allowed skew behind the greatest reading so far. */
  predicate Synchronised(run: Run) {
    forall i :: 0 <= i < |run| ==> Frontier(run, i) <= run[i].now + MAX_SKEW_MS
  }

  /** Event `i` happens before event `j`: at the same node, or through a message. */
  predicate HappensBefore(run: Run, i: nat, j: nat)
    requires Valid(run) && i < |run| && j < |run|
    decreases j
  {
    || (Previous(run, j) >= 0 && (i == Previous(run, j) || HappensBefore(run, i, Previous(run, j))))
    || (run[j].kind.Receive? && (i == run[j].kind.source || HappensBefore(run, i, run[j].kind.source)))
  }

  lemma {:induction false} FrontierGrows(run: Run, m: nat, n: nat)
    requires m <= n <= |run|
    ensures Frontier(run, m) <= Frontier(run, n)
  {
    if m < n {
      FrontierGrows(run, m, n - 1);
    }
  }

  /** The clamp in the receive step does not apply. */
  predicate Unclamped(run: Run, i: nat)
    requires Valid(run) && i < |run|
  {
    run[i].kind.Receive? ==>
      var remote := StampOf(run, run[i].kind.source);
      Clamped(run[i].now, remote) == remote.wall
  }

  /** In every run, no counter exceeds the number of earlier events. */
  lemma {:induction false} CounterBound(run: Run, i: nat)
    requires Valid(run) && i < |run|
    ensures StampOf(run, i).counter <= i
    decreases i
  {
    hide Ticked, Updated, Previous;
    var e, p := run[i], Previous(run, i);
    if p >= 0 {
      CounterBound(run, p);
      var own := StampOf(run, p);
      if e.kind.Local? {
        CounterGrowth(own, e.now, own);
      } else {
        CounterBound(run, e.kind.source);
        CounterGrowth(own, e.now, StampOf(run, e.kind.source));
      }
    }
  }

  /** How many of the first `n` events have this wall time. */
  function SameWall(run: Run, n: nat, wall: nat): (c: nat)
    requires Valid(run) && n <= |run|
  {
    if n == 0 then 0 else SameWall(run, n - 1, wall) + if StampOf(run, n - 1).wall == wall then 1 else 0
  }

  lemma {:induction false} SameWallGrows(run: Run, m: nat, n: nat, wall: nat)
    requires Valid(run) && m < n <= |run| && StampOf(run, m).wall == wall
    ensures SameWall(run, m, wall) < SameWall(run, n, wall)
  {
    hide StampOf;
    if m + 1 < n {
      SameWallGrows(run, m, n - 1, wall);
    }
  }

  /** In every run in which no receive was clamped, a counter is at most the number of earlier
      events with the same wall time. */
  lemma {:induction false} CounterCountsWall(run: Run, i: nat)
    requires Valid(run) && i < |run| && forall k :: 0 <= k <= i ==> Unclamped(run, k)
    ensures StampOf(run, i).counter <= SameWall(run, i, StampOf(run, i).wall)
    decreases i
  {
    hide Ticked, Updated, Clamped, Previous, StampOf, Valid, SameWall;
    EventFacts(run, i);
    var e, p, wall := run[i], Previous(run, i), StampOf(run, i).wall;
    if p >= 0 {
      CounterCountsWall(run, p);
      var own := StampOf(run, p);
      if own.wall == wall {
        SameWallGrows(run, p, i, wall);
      }
      if e.kind.Local? {
        CounterRestarts(own, e.now, own);
      } else {
        var source := e.kind.source;
        CounterCountsWall(run, source);
        if StampOf(run, source).wall == wall {
          SameWallGrows(run, source, i, wall);
        }
        assert Unclamped(run, i);
        CounterRestarts(own, e.now, StampOf(run, source));
      }
    }
  }

  /** What the stamp of an event is, and the frontier it moves. */
  lemma EventFacts(run: Run, i: nat)
    requires Valid(run) && i < |run|
    ensures Frontier(run, i + 1) == Max(Frontier(run, i), run[i].now)
    ensures var e, p := run[i], Previous(run, i);
      && (e.kind.Start? <==> p < 0) && (e.kind.Receive? ==> e.kind.source < i)
      && (e.kind.Start? ==> StampOf(run, i) == Stamp(e.now, 0, e.node))
      && (e.kind.Local? ==> StampOf(run, i) == Ticked(StampOf(run, p), e.now))
      && (e.kind.Receive? ==> StampOf(run, i) == Updated(StampOf(run, p), e.now, StampOf(run, e.kind.source)))
  {
    hide Ticked, Updated, Previous;
  }

  /** In every synchronised run, no stamp is ahead of the readings taken so far, so no receive is
      ever clamped. */
  lemma {:induction false} StampBounds(run: Run, i: nat)
    requires Valid(run) && Synchronised(run) && i < |run|
    ensures StampOf(run, i).wall <= Frontier(run, i + 1)
    ensures Unclamped(run, i)
    decreases i
  {
    hide Ticked, Updated, Clamped, Previous, StampOf, Frontier, Valid;
    EventFacts(run, i);
    var e, p := run[i], Previous(run, i);
    if p >= 0 {
      StampBounds(run, p);
      FrontierGrows(run, p + 1, i);
      var own := StampOf(run, p);
      if e.kind.Local? {
        TickAdvances(own, e.now);
      } else {
        var source := e.kind.source;
        StampBounds(run, source);
        FrontierGrows(run, source + 1, i);
        ReceiveBounds(own, e.now, StampOf(run, source), Frontier(run, i));
      }
    }
  }

  /** A receive from within the skew is not clamped and stays at the frontier. */
  lemma ReceiveBounds(own: Stamp, now: nat, remote: Stamp, frontier: nat)
    requires own.wall <= frontier && remote.wall <= frontier <= now + MAX_SKEW_MS
    ensures Clamped(now, remote) == remote.wall
    ensures Updated(own, now, remote).wall <= Max(frontier, now)
  {
    UpdateAdvances(own, now, remote);
  }

  /** The event moves its clock past its own last stamp and past what it received. */
  predicate Forward(run: Run, i: nat)
    requires Valid(run) && i < |run|
  {
    var e := run[i];
    match e.kind
    case Start => true
    case Local => TickForward(StampOf(run, Previous(run, i)), e.now)
    case Receive(source) =>
      var own, remote := StampOf(run, Previous(run, i)), StampOf(run, source);
      UpdateForward(own, e.now, remote) && PassesRemote(own, e.now, remote)
  }

  /** An event is later than the event before it at its node and than what it received exactly
      when it moves forward. */
  lemma DirectlyLater(run: Run, i: nat)
    requires Valid(run) && i < |run|
    ensures Forward(run, i) <==>
      && (Previous(run, i) >= 0 ==> Earlier(StampOf(run, Previous(run, i)), StampOf(run, i)))
      && (run[i].kind.Receive? ==> Earlier(StampOf(run, run[i].kind.source), StampOf(run, i)))
  {
    hide Ticked, Updated, Previous, TickForward, UpdateForward, PassesRemote;
    var e, p := run[i], Previous(run, i);
    if p >= 0 {
      var own := StampOf(run, p);
      if e.kind.Local? {
        TickAdvances(own, e.now);
      } else {
        UpdateAdvances(own, e.now, StampOf(run, e.kind.source));
        UpdateFollowsRemote(own, e.now, StampOf(run, e.kind.source));
      }
    }
  }

  lemma {:induction false} ForwardIsCausal(run: Run, i: nat, j: nat)
    requires Valid(run) && i < |run| && j < |run|
    requires forall k :: 0 <= k <= j ==> Forward(run, k)
    ensures HappensBefore(run, i, j) ==> Earlier(StampOf(run, i), StampOf(run, j))
    decreases j
  {
    hide StampOf, Forward;
    DirectlyLater(run, j);
    if Previous(run, j) >= 0 {
      ForwardIsCausal(run, i, Previous(run, j));
    }
    if run[j].kind.Receive? {
      ForwardIsCausal(run, i, run[j].kind.source);
    }
  }

  ghost predicate Causal(run: Run)
    requires Valid(run)
  {
    forall i: nat, j: nat :: i < |run| && j < |run| && HappensBefore(run, i, j) ==> Earlier(StampOf(run, i), StampOf(run, j))
  }

  /** For every run, on any number of nodes and with any clocks: whatever happens before an event
      has a strictly smaller (wall, counter) if and only if every event moves forward. */
  lemma CausalityIff(run: Run)
    requires Valid(run)
    ensures Causal(run) <==> forall i :: 0 <= i < |run| ==> Forward(run, i)
  {
    hide StampOf, Forward;
    if forall k :: 0 <= k < |run| ==> Forward(run, k) {
      forall i: nat, j: nat | i < |run| && j < |run| && HappensBefore(run, i, j)
        ensures Earlier(StampOf(run, i), StampOf(run, j))
      {
        ForwardIsCausal(run, i, j);
      }
    }
    if Causal(run) {
      forall k | 0 <= k < |run| ensures Forward(run, k) {
        DirectlyLater(run, k);
        assert Previous(run, k) >= 0 ==> HappensBefore(run, Previous(run, k), k);
        assert run[k].kind.Receive? ==> HappensBefore(run, run[k].kind.source, k);
      }
    }
  }

  lemma SynchronisedForward(run: Run, i: nat)
    requires Valid(run) && Synchronised(run) && i < |run| && |run| <= COUNTERS
    ensures Forward(run, i)
  {
    hide Ticked, Updated;
    StampBounds(run, i);
    var e, p := run[i], Previous(run, i);
    if p >= 0 {
      CounterBound(run, p);
      if e.kind.Receive? {
        CounterBound(run, e.kind.source);
      }
    }
  }

  /** Every run of at most 2^32 events with synchronised physical clocks is such a run. */
  lemma CausalOrder(run: Run)
    requires Valid(run) && Synchronised(run) && |run| <= COUNTERS
    ensures Causal(run)
  {
    hide Forward, Causal, StampOf;
    forall i | 0 <= i < |run| ensures Forward(run, i) {
      SynchronisedForward(run, i);
    }
    CausalityIff(run);
  }

  /** One clock more than the allowed skew behind is enough to break this: the receive is
      clamped and ends up earlier than the event it received. */
  lemma SkewBreaksCausality(now: nat)
    ensures var run := [Event(0, now + MAX_SKEW_MS + 1, Start), Event(1, now, Start), Event(1, now, Receive(0))];
      && Valid(run) && HappensBefore(run, 0, 2)
      && !Earlier(StampOf(run, 0), StampOf(run, 2))
  {
    var run := [Event(0, now + MAX_SKEW_MS + 1, Start), Event(1, now, Start), Event(1, now, Receive(0))];
    assert Previous(run, 0) == -1 && Previous(run, 1) == -1 && Previous(run, 2) == 1;
    assert StampOf(run, 0) == Stamp(now + MAX_SKEW_MS + 1, 0, 0);
    assert StampOf(run, 1) == Stamp(now, 0, 1);
  }
}
