/**
 Hybrid logical clock stamps. The counter is a 32-bit unsigned integer whose `+ 1`
 wraps in optimised builds; the model wraps too, and says exactly when that shows.
 */
module Hlc {

  const MAX_SKEW_MS: nat := 5 * 60 * 1000
  const COUNTERS: nat := 0x1_0000_0000

  type Counter = c: nat | c < COUNTERS

  datatype Stamp = Stamp(wall: nat, counter: Counter, node: nat)

  function Max(a: nat, b: nat): (r: nat) {
    if a >= b then a else b
  }

  function Next(c: Counter): (r: Counter) {
    (c + 1) % COUNTERS
  }

  /** The time part of the order: wall time, then counter. */
  predicate Earlier(a: Stamp, b: Stamp) {
    a.wall < b.wall || (a.wall == b.wall && a.counter < b.counter)
  }

  /** The total order: ties are broken by the node hash. */
  predicate Less(a: Stamp, b: Stamp) {
    Earlier(a, b) || (a.wall == b.wall && a.counter == b.counter && a.node < b.node)
  }

  function MinStamp(a: Stamp, b: Stamp): (r: Stamp) {
    if Less(b, a) then b else a
  }

  function MaxStamp(a: Stamp, b: Stamp): (r: Stamp) {
    if Less(b, a) then a else b
  }

  /** A local event at physical time `now`. */
  function Ticked(s: Stamp, now: nat): (r: Stamp) {
    if now > s.wall then s.(wall := now, counter := 0) else s.(counter := Next(s.counter))
  }

  /** The remote wall time as far as it is trusted. */
  function Clamped(now: nat, remote: Stamp): (r: nat) {
    if remote.wall > now + MAX_SKEW_MS then now + MAX_SKEW_MS else remote.wall
  }

  /** A receive event at physical time `now`. */
  function Updated(s: Stamp, now: nat, remote: Stamp): (r: Stamp) {
    var wall := Clamped(now, remote);
    if now > s.wall && now > wall then s.(wall := now, counter := 0)
    else if s.wall == wall then s.(counter := Next(Max(s.counter, remote.counter)))
    else if wall > s.wall then s.(wall := wall, counter := Next(remote.counter))
    else s.(counter := Next(s.counter))
  }

  /** The clock of one node, advanced in place. Physical time is a parameter. */
  class Clock {
    var wall: nat
    var counter: Counter
    const node: nat

    constructor Now(now: nat, node: nat)
      ensures Value() == Stamp(now, 0, node)
    {
      this.wall, this.counter, this.node := now, 0, node;
    }

    function Value(): (s: Stamp)
      reads this
    {
      Stamp(wall, counter, node)
    }

    method Tick(now: nat) returns (s: Stamp)
      modifies this
      ensures s == Value() == Ticked(old(Value()), now)
    {
      if now > wall {
        wall, counter := now, 0;
      } else {
        counter := Next(counter);
      }
      s := Value();
    }

    method Update(now: nat, remote: Stamp) returns (s: Stamp)
      modifies this
      ensures s == Value() == Updated(old(Value()), now, remote)
    {
      var remoteWall := if remote.wall > now + MAX_SKEW_MS then now + MAX_SKEW_MS else remote.wall;
      if now > wall && now > remoteWall {
        wall, counter := now, 0;
      } else if wall == remoteWall {
        counter := Next(Max(counter, remote.counter));
      } else if remoteWall > wall {
        wall, counter := remoteWall, Next(remote.counter);
      } else {
        counter := Next(counter);
      }
      s := Value();
    }
  }

  // ----- one clock ------------------------------------------------------------

  /** A tick moves forward unless the wall time stands still and the counter wraps. */
  predicate TickForward(s: Stamp, now: nat) {
    now > s.wall || s.counter + 1 < COUNTERS
  }

  /** Exactly then. */
  lemma TickAdvances(s: Stamp, now: nat)
    ensures Ticked(s, now).wall == Max(now, s.wall) && Ticked(s, now).node == s.node
    ensures Earlier(s, Ticked(s, now)) <==> TickForward(s, now)
  {
  }

  /** The counter a receive event counts on from, when the wall time does not move. */
  function Base(s: Stamp, now: nat, remote: Stamp): (c: Counter) {
    if s.wall == Clamped(now, remote) then Max(s.counter, remote.counter) else s.counter
  }

  /** A receive moves forward unless the wall time stands still and the counter wraps. */
  predicate UpdateForward(s: Stamp, now: nat, remote: Stamp) {
    Max(now, Clamped(now, remote)) > s.wall || Base(s, now, remote) + 1 < COUNTERS
  }

  /** The wall time after a receive is the greatest of the three, and the stamp moves forward
      exactly under that condition. */
  lemma UpdateAdvances(s: Stamp, now: nat, remote: Stamp)
    ensures Updated(s, now, remote).wall == Max(Max(now, s.wall), Clamped(now, remote))
    ensures Updated(s, now, remote).node == s.node
    ensures Earlier(s, Updated(s, now, remote)) <==> UpdateForward(s, now, remote)
  {
  }

  /** A receive passes a remote stamp it does not clamp unless a counter wraps at its wall time;
      one it clamps, only if the clock was already there. */
  predicate PassesRemote(s: Stamp, now: nat, remote: Stamp) {
    if remote.wall <= now + MAX_SKEW_MS then
      || Max(now, s.wall) > remote.wall
      || (if s.wall == remote.wall then Max(s.counter, remote.counter) else remote.counter) + 1 < COUNTERS
    else
      s.wall > remote.wall || (s.wall == remote.wall && remote.counter < s.counter + 1 < COUNTERS)
  }

  /** A receive event comes after the stamp it received exactly under that condition. */
  lemma UpdateFollowsRemote(s: Stamp, now: nat, remote: Stamp)
    ensures Earlier(remote, Updated(s, now, remote)) <==> PassesRemote(s, now, remote)
  {
  }

  /** Counters grow by at most one over those they were made from. */
  lemma CounterGrowth(s: Stamp, now: nat, remote: Stamp)
    ensures Ticked(s, now).counter <= s.counter + 1
    ensures Updated(s, now, remote).counter <= Max(s.counter, remote.counter) + 1
  {
  }

  /** Counters start over when the wall time is new: they count on only from a stamp with the same
      wall time, be it the clock's own or one received and not clamped. */
  lemma CounterRestarts(s: Stamp, now: nat, remote: Stamp)
    ensures Ticked(s, now).counter <= if Ticked(s, now).wall == s.wall then s.counter + 1 else 0
    ensures var u := Updated(s, now, remote);
      Clamped(now, remote) == remote.wall ==>
        u.counter <= if u.wall == s.wall == remote.wall then Max(s.counter, remote.counter) + 1
                     else if u.wall == s.wall then s.counter + 1
                     else if u.wall == remote.wall then remote.counter + 1 else 0
  {
  }

  /** The wrap is real: a remote stamp with the greatest counter, at the local wall time,
      sends the clock back. */
  lemma RemoteCounterCanWrap(now: nat, node: nat, other: nat)
    ensures var s, remote := Stamp(now, 1, node), Stamp(now, COUNTERS - 1, other);
      Updated(s, now, remote) == Stamp(now, 0, node) && Earlier(Updated(s, now, remote), s)
  {
  }

  /** What can happen to a clock: a tick, or any stamp from anywhere. */
  datatype Input = TickAt(now: nat) | ReceiveAt(now: nat, remote: Stamp)

  function Apply(s: Stamp, input: Input): (r: Stamp) {
    match input
    case TickAt(now) => Ticked(s, now)
    case ReceiveAt(now, remote) => Updated(s, now, remote)
  }

  /** The clock after being started by `now` and given the first `n` inputs. */
  function After(start: nat, node: nat, inputs: seq<Input>, n: nat): (r: Stamp)
    requires n <= |inputs|
  {
    if n == 0 then Stamp(start, 0, node) else Apply(After(start, node, inputs, n - 1), inputs[n - 1])
  }

  function GreatestReading(start: nat, inputs: seq<Input>, n: nat): (r: nat)
    requires n <= |inputs|
  {
    if n == 0 then start else Max(GreatestReading(start, inputs, n - 1), inputs[n - 1].now)
  }

  /** Whatever stamps arrive, a clock never runs more than the allowed skew ahead of the
      greatest time it has read itself, and never behind it. */
  lemma {:induction false} SkewBound(start: nat, node: nat, inputs: seq<Input>, n: nat)
    requires n <= |inputs|
    ensures GreatestReading(start, inputs, n) <= After(start, node, inputs, n).wall
         <= GreatestReading(start, inputs, n) + MAX_SKEW_MS
  {
    if n > 0 {
      SkewBound(start, node, inputs, n - 1);
    }
  }

  // ----- the order --------------------------------------------------------------

  lemma LessIsTotalOrder(a: Stamp, b: Stamp, c: Stamp)
    ensures !Less(a, a)
    ensures Less(a, b) || a == b || Less(b, a)
    ensures Less(a, b) && Less(b, c) ==> Less(a, c)
  {
  }
}
