/**
 The sliding-window rate limiter: per key, the times of the entries it has accepted, kept
 only as long as they can matter. `accepted` below is what an observer remembers of all
 entries ever accepted; the limiter itself forgets.
 */
module RateLimiter {

  type Time = int
  type Entries = map<string, seq<Time>>

  const DEFAULT_MAX_KEYS: nat := 10_000

  /** The entries after `cutoff`, in order. */
  function Recent(times: seq<Time>, cutoff: Time): (r: seq<Time>)
    ensures |r| <= |times|
  {
    if times == [] then []
    else
      var last := times[|times| - 1];
      Recent(times[..|times| - 1], cutoff) + if last > cutoff then [last] else []
  }

  function Cleaned(entries: Entries, cutoff: Time): (r: Entries) {
    map k | k in entries && Recent(entries[k], cutoff) != [] :: Recent(entries[k], cutoff)
  }

  function Of(entries: Entries, key: string): (r: seq<Time>) {
    if key in entries then entries[key] else []
  }

  datatype Limits = Limits(maxPerWindow: nat, window: Time, maxKeys: nat)

  /** The entries when the capacity check is done; `later` is the time the cleanup reads. */
  function Room(limits: Limits, entries: Entries, key: string, later: Time): (r: Entries) {
    if key !in entries && |entries| >= limits.maxKeys then Cleaned(entries, later - limits.window) else entries
  }

  predicate HasRoom(limits: Limits, entries: Entries, key: string, later: Time) {
    key in entries || |Room(limits, entries, key, later)| < limits.maxKeys
  }

  /** One check: the new entries, and whether the entry is allowed. */
  function Check(limits: Limits, entries: Entries, key: string, now: Time, later: Time): (r: (Entries, bool)) {
    var room := Room(limits, entries, key, later);
    if !HasRoom(limits, entries, key, later) then (room, false)
    else
      var times := Recent(Of(room, key), now - limits.window);
      if |times| >= limits.maxPerWindow then (room[key := times], false)
      else (room[key := times + [now]], true)
  }

  lemma Overwrite(entries: Entries, key: string, first: seq<Time>, second: seq<Time>)
    ensures entries[key := first][key := second] == entries[key := second]
  {
  }

  class RateLimiter {
    const limits: Limits
    var entries: Entries

    constructor (maxPerWindow: nat, window: Time)
      ensures limits == Limits(maxPerWindow, window, DEFAULT_MAX_KEYS) && entries == map[]
    {
      limits, entries := Limits(maxPerWindow, window, DEFAULT_MAX_KEYS), map[];
    }

    method Cleanup(now: Time)
      modifies this
      ensures entries == Cleaned(old(entries), now - limits.window)
    {
      var cutoff := now - limits.window;
      entries := map k | k in entries && Recent(entries[k], cutoff) != [] :: Recent(entries[k], cutoff);
    }

    method CheckAndRecord(key: string, now: Time, later: Time) returns (allowed: bool)
      modifies this
      ensures (entries, allowed) == Check(limits, old(entries), key, now, later)
    {
      hide Recent, Cleaned;
      var cutoff := now - limits.window;
      if key !in entries && |entries| >= limits.maxKeys {
        Cleanup(later);
        if |entries| >= limits.maxKeys {
          return false;
        }
      }
      ghost var room := entries;
      if key !in entries {
        entries := entries[key := []];
      }
      var times := Recent(entries[key], cutoff);
      Overwrite(room, key, [], times);
      entries := entries[key := times];
      if |times| >= limits.maxPerWindow {
        return false;
      }
      Overwrite(room, key, times, times + [now]);
      entries := entries[key := times + [now]];
      return true;
    }
  }

  // ----- forgetting is harmless ------------------------------------------------------------

  lemma {:induction false} RecentTwice(times: seq<Time>, early: Time, late: Time)
    requires early <= late
    ensures Recent(Recent(times, early), late) == Recent(times, late)
  {
    if times != [] {
      var before := Recent(times[..|times| - 1], early);
      RecentTwice(times[..|times| - 1], early, late);
      RecentAppend(before, times[|times| - 1], late);
      assert before + [] == before;
    }
  }

  lemma RecentAppend(times: seq<Time>, t: Time, cutoff: Time)
    ensures Recent(times + [t], cutoff) == Recent(times, cutoff) + if t > cutoff then [t] else []
  {
    assert (times + [t])[..|times|] == times;
  }

  /** What the limiter remembers of a key is all that matters from now on. */
  predicate Remembers(kept: seq<Time>, accepted: seq<Time>, cutoff: Time) {
    Recent(kept, cutoff) == Recent(accepted, cutoff)
  }

  lemma RemembersLater(kept: seq<Time>, accepted: seq<Time>, early: Time, late: Time)
    requires early <= late && Remembers(kept, accepted, early)
    ensures Remembers(kept, accepted, late)
  {
    RecentTwice(kept, early, late);
    RecentTwice(accepted, early, late);
  }

  // ----- runs ---------------------------------------------------------------------------------

  datatype Call = CheckAt(key: string, now: Time, later: Time) | CleanupAt(now: Time)

  /** The limiter, and what the observer has seen: all accepted times per key, the clock. */
  datatype State = State(entries: Entries, accepted: map<string, seq<Time>>, clock: Time)

  /** Readings never go back. */
  predicate InTime(s: State, call: Call) {
    s.clock <= call.now && (call.CheckAt? ==> call.now <= call.later)
  }

  function Accepted(s: State, key: string): (r: seq<Time>) {
    if key in s.accepted then s.accepted[key] else []
  }

  function Next(limits: Limits, s: State, call: Call): (s': State) {
    match call
    case CleanupAt(now) => State(Cleaned(s.entries, now - limits.window), s.accepted, now)
    case CheckAt(key, now, later) =>
      var (entries, allowed) := Check(limits, s.entries, key, now, later);
      State(entries, if allowed then s.accepted[key := Accepted(s, key) + [now]] else s.accepted, later)
  }

  predicate Possible(limits: Limits, calls: seq<Call>, start: Time, n: nat)
    requires n <= |calls|
  {
    n > 0 ==> Possible(limits, calls, start, n - 1) && InTime(After(limits, calls, start, n - 1), calls[n - 1])
  }

  function After(limits: Limits, calls: seq<Call>, start: Time, n: nat): (s: State)
    requires n <= |calls|
  {
    if n == 0 then State(map[], map[], start) else Next(limits, After(limits, calls, start, n - 1), calls[n - 1])
  }

  /** When each entry was accepted, its window held at most the maximum, itself included. */
  predicate Bounded(limits: Limits, accepted: seq<Time>) {
    accepted != [] ==>
      var last := accepted[|accepted| - 1];
      && Bounded(limits, accepted[..|accepted| - 1])
      && |Recent(accepted, last - limits.window)| <= limits.maxPerWindow
  }

  predicate Ascending(times: seq<Time>, clock: Time) {
    && (forall i, j :: 0 <= i < j < |times| ==> times[i] <= times[j])
    && (forall i :: 0 <= i < |times| ==> times[i] <= clock)
  }

  predicate KeyInv(limits: Limits, s: State, key: string) {
    && Remembers(Of(s.entries, key), Accepted(s, key), s.clock - limits.window)
    && Bounded(limits, Accepted(s, key))
    && Ascending(Accepted(s, key), s.clock)
  }

  ghost predicate Inv(limits: Limits, s: State) {
    |s.entries| <= limits.maxKeys && forall key :: KeyInv(limits, s, key)
  }

  lemma KeysOf(entries: Entries, cutoff: Time)
    ensures |Cleaned(entries, cutoff)| <= |entries| && Cleaned(entries, cutoff).Keys <= entries.Keys
  {
    var kept := Cleaned(entries, cutoff);
    assert entries.Keys == kept.Keys + (entries.Keys - kept.Keys);
    assert |kept| == |kept.Keys| && |entries| == |entries.Keys|;
  }

  lemma CleanedOf(entries: Entries, cutoff: Time, key: string)
    ensures Of(Cleaned(entries, cutoff), key) == Recent(Of(entries, key), cutoff)
  {
  }

  lemma AscendingLater(times: seq<Time>, clock: Time, later: Time)
    requires Ascending(times, clock) && clock <= later
    ensures Ascending(times, later)
  {
  }

  /** A key whose entries a step leaves alone, or cleans, keeps its invariant. */
  lemma KeyIdle(limits: Limits, s: State, s': State, key: string, cutoff: Time)
    requires KeyInv(limits, s, key) && Accepted(s', key) == Accepted(s, key)
    requires s.clock <= s'.clock && cutoff <= s'.clock - limits.window
    requires Of(s'.entries, key) == Of(s.entries, key) || Of(s'.entries, key) == Recent(Of(s.entries, key), cutoff)
    ensures KeyInv(limits, s', key)
  {
    hide Recent, Bounded, Ascending;
    var late := s'.clock - limits.window;
    AscendingLater(Accepted(s, key), s.clock, s'.clock);
    RemembersLater(Of(s.entries, key), Accepted(s, key), s.clock - limits.window, late);
    RecentTwice(Of(s.entries, key), cutoff, late);
  }

  /** The decision for a key, in terms of everything it ever got accepted. */
  lemma Decision(limits: Limits, s: State, key: string, now: Time, later: Time)
    requires KeyInv(limits, s, key) && InTime(s, CheckAt(key, now, later))
    ensures Check(limits, s.entries, key, now, later).1 <==>
      HasRoom(limits, s.entries, key, later) && |Recent(Accepted(s, key), now - limits.window)| < limits.maxPerWindow
  {
    hide Recent, Cleaned;
    var kept, cutoff := Of(s.entries, key), now - limits.window;
    RecentNothing(cutoff);
    RecentNothing(later - limits.window);
    RemembersLater(kept, Accepted(s, key), s.clock - limits.window, cutoff);
    CleanedOf(s.entries, later - limits.window, key);
  }

  /** An accepted entry: remembered, within bounds, and the latest. */
  lemma KeyAccepts(limits: Limits, got: seq<Time>, times: seq<Time>, now: Time, later: Time)
    requires times == Recent(got, now - limits.window) && |times| < limits.maxPerWindow && now <= later
    requires Bounded(limits, got) && Ascending(got, now)
    ensures Remembers(times + [now], got + [now], later - limits.window)
    ensures Bounded(limits, got + [now]) && Ascending(got + [now], later)
  {
    hide Recent, Ascending;
    var late := later - limits.window;
    RecentTwice(got, now - limits.window, late);
    AscendingAppend(got, now, later);
    RecentAppend(got, now, now - limits.window);
    RecentAppend(got, now, late);
    RecentAppend(times, now, late);
    assert (got + [now])[..|got|] == got;
  }

  lemma AscendingAppend(got: seq<Time>, now: Time, later: Time)
    requires Ascending(got, now) && now <= later
    ensures Ascending(got + [now], later)
  {
  }

  lemma KeyChecked(limits: Limits, s: State, key: string, now: Time, later: Time)
    requires KeyInv(limits, s, key) && InTime(s, CheckAt(key, now, later))
    ensures KeyInv(limits, Next(limits, s, CheckAt(key, now, later)), key)
  {
    hide Bounded, Recent, Cleaned;
    var s' := Next(limits, s, CheckAt(key, now, later));
    var kept, got, cutoff := Of(s.entries, key), Accepted(s, key), now - limits.window;
    CleanedOf(s.entries, later - limits.window, key);
    if HasRoom(limits, s.entries, key, later) {
      RemembersLater(kept, got, s.clock - limits.window, cutoff);
      if key !in s.entries {
        RecentNothing(cutoff);
        RecentNothing(later - limits.window);
      }
      if |Recent(kept, cutoff)| < limits.maxPerWindow {
        KeyAccepts(limits, got, Recent(kept, cutoff), now, later);
      } else {
        KeyIdle(limits, s, s', key, cutoff);
      }
    } else {
      KeyIdle(limits, s, s', key, later - limits.window);
    }
  }

  lemma RecentNothing(cutoff: Time)
    ensures Recent([], cutoff) == []
  {
  }

  lemma OtherKey(limits: Limits, s: State, call: Call, key: string)
    requires KeyInv(limits, s, key) && InTime(s, call) && (call.CheckAt? ==> call.key != key)
    ensures KeyInv(limits, Next(limits, s, call), key)
  {
    hide Recent, Cleaned, KeyInv;
    var at := if call.CheckAt? then call.later else call.now;
    CleanedOf(s.entries, at - limits.window, key);
    KeyIdle(limits, s, Next(limits, s, call), key, at - limits.window);
  }

  lemma CapacityKept(limits: Limits, s: State, call: Call)
    requires |s.entries| <= limits.maxKeys
    ensures |Next(limits, s, call).entries| <= limits.maxKeys
  {
    hide Recent, Cleaned;
    var at := if call.CheckAt? then call.later else call.now;
    KeysOf(s.entries, at - limits.window);
  }

  /** Every run with a clock that never goes back keeps what the limiter is for. */
  lemma {:induction false} RunKeepsInv(limits: Limits, calls: seq<Call>, start: Time, n: nat)
    requires n <= |calls| && Possible(limits, calls, start, n)
    ensures Inv(limits, After(limits, calls, start, n))
  {
    hide Next, KeyInv;
    if n == 0 {
      forall key ensures KeyInv(limits, After(limits, calls, start, 0), key) {
        FreshKey(limits, start, key);
      }
    } else {
      RunKeepsInv(limits, calls, start, n - 1);
      var s, call := After(limits, calls, start, n - 1), calls[n - 1];
      CapacityKept(limits, s, call);
      forall key ensures KeyInv(limits, Next(limits, s, call), key) {
        if call.CheckAt? && call.key == key {
          KeyChecked(limits, s, key, call.now, call.later);
        } else {
          OtherKey(limits, s, call, key);
        }
      }
    }
  }

  lemma FreshKey(limits: Limits, start: Time, key: string)
    ensures KeyInv(limits, State(map[], map[], start), key)
  {
  }

  // ----- what that means --------------------------------------------------------------------------

  /** How many entries fall in (after, until]. */
  function CountIn(times: seq<Time>, after: Time, until: Time): (n: nat) {
    if times == [] then 0
    else
      var last := times[|times| - 1];
      CountIn(times[..|times| - 1], after, until) + if after < last <= until then 1 else 0
  }

  lemma {:induction false} RecentShrinks(times: seq<Time>, early: Time, late: Time)
    requires early <= late
    ensures |Recent(times, late)| <= |Recent(times, early)|
  {
    if times != [] {
      RecentShrinks(times[..|times| - 1], early, late);
    }
  }

  lemma {:induction false} CountIsRecent(times: seq<Time>, after: Time, until: Time)
    requires Ascending(times, until)
    ensures CountIn(times, after, until) == |Recent(times, after)|
  {
    if times != [] {
      CountIsRecent(times[..|times| - 1], after, until);
    }
  }

  lemma {:induction false} AnyWindow(limits: Limits, times: seq<Time>, clock: Time, t: Time)
    requires Bounded(limits, times) && Ascending(times, clock)
    ensures CountIn(times, t - limits.window, t) <= limits.maxPerWindow
  {
    if times != [] {
      var last := times[|times| - 1];
      if last > t {
        AnyWindow(limits, times[..|times| - 1], clock, t);
      } else {
        CountIsRecent(times, t - limits.window, t);
        RecentShrinks(times, last - limits.window, t - limits.window);
      }
    }
  }

  /** In every run, whatever was forgotten in between: each key has at most the maximum of
      accepted entries in every window, and the number of tracked keys is capped. */
  lemma NeverMoreThanMaximum(limits: Limits, calls: seq<Call>, start: Time, n: nat, key: string, t: Time)
    requires n <= |calls| && Possible(limits, calls, start, n)
    ensures CountIn(Accepted(After(limits, calls, start, n), key), t - limits.window, t) <= limits.maxPerWindow
    ensures |After(limits, calls, start, n).entries| <= limits.maxKeys
  {
    hide After, Possible, Bounded, Remembers;
    RunKeepsInv(limits, calls, start, n);
    var s := After(limits, calls, start, n);
    assert KeyInv(limits, s, key);
    AnyWindow(limits, Accepted(s, key), s.clock, t);
  }

  /** In every run, a key with room is allowed exactly when its current window is not full,
      and refused only when the window holds exactly the maximum. A key with an accepted entry
      still in its window always has room, however often the limiter was cleaned: cleaning up
      changes no decision about it. */
  lemma DecisionsAreExact(limits: Limits, calls: seq<Call>, start: Time, n: nat, key: string, now: Time, later: Time)
    requires n <= |calls| && Possible(limits, calls, start, n)
    requires InTime(After(limits, calls, start, n), CheckAt(key, now, later))
    ensures var s := After(limits, calls, start, n);
      var inWindow := CountIn(Accepted(s, key), now - limits.window, now);
      && (Check(limits, s.entries, key, now, later).1 <==>
            HasRoom(limits, s.entries, key, later) && inWindow < limits.maxPerWindow)
      && inWindow <= limits.maxPerWindow
      && (inWindow > 0 ==> HasRoom(limits, s.entries, key, later))
  {
    hide After, Possible, Bounded, Check, Recent;
    RunKeepsInv(limits, calls, start, n);
    var s := After(limits, calls, start, n);
    assert KeyInv(limits, s, key);
    Decision(limits, s, key, now, later);
    NeverMoreThanMaximum(limits, calls, start, n, key, now);
    CountIsRecent(Accepted(s, key), now - limits.window, now);
    RemembersLater(Of(s.entries, key), Accepted(s, key), s.clock - limits.window, now - limits.window);
    RecentNothing(now - limits.window);
  }

  /** The other keys with an accepted entry in the window that ends at `later`. */
  function Busy(limits: Limits, s: State, key: string, later: Time): (keys: set<string>) {
    set k | k in s.accepted && k != key && CountIn(s.accepted[k], later - limits.window, later) > 0
  }

  lemma RemembersKey(limits: Limits, s: State, k: string, later: Time)
    requires KeyInv(limits, s, k) && s.clock <= later
    ensures Recent(Of(s.entries, k), later - limits.window) != []
      <==> CountIn(Accepted(s, k), later - limits.window, later) > 0
  {
    hide Recent, Bounded;
    RemembersLater(Of(s.entries, k), Accepted(s, k), s.clock - limits.window, later - limits.window);
    AscendingLater(Accepted(s, k), s.clock, later);
    CountIsRecent(Accepted(s, k), later - limits.window, later);
  }

  /** What a cleanup leaves are the keys that are busy. */
  lemma CleanedAreBusy(limits: Limits, s: State, key: string, later: Time)
    requires Inv(limits, s) && s.clock <= later
    ensures var kept := Cleaned(s.entries, later - limits.window).Keys;
      kept - {key} == Busy(limits, s, key, later)
  {
    hide Recent, KeyInv, CountIn;
    var kept, busy := Cleaned(s.entries, later - limits.window).Keys, Busy(limits, s, key, later);
    CountNothing(later - limits.window, later);
    RecentNothing(later - limits.window);
    forall k ensures k in kept - {key} <==> k in busy {
      RemembersKey(limits, s, k, later);
    }
    assert kept - {key} == busy;
  }

  lemma CountNothing(after: Time, until: Time)
    ensures CountIn([], after, until) == 0
  {
  }

  lemma RoomCounts(limits: Limits, entries: Entries, key: string, later: Time)
    requires |entries| <= limits.maxKeys
    ensures HasRoom(limits, entries, key, later)
      <==> |Cleaned(entries, later - limits.window).Keys - {key}| < limits.maxKeys
  {
    hide Cleaned, HasRoom;
    var kept := Cleaned(entries, later - limits.window);
    KeysOf(entries, later - limits.window);
    if key in entries {
      KeyCount(entries);
      Fewer(kept.Keys - {key}, entries.Keys, key);
      Tracked(limits, entries, key, later);
    } else {
      Without(kept.Keys, key);
      NewKey(limits, entries, key, later);
    }
  }

  lemma Without<T>(s: set<T>, x: T)
    requires x !in s
    ensures s - {x} == s
  {
  }

  lemma Tracked(limits: Limits, entries: Entries, key: string, later: Time)
    requires key in entries
    ensures HasRoom(limits, entries, key, later)
  {
  }

  lemma NewKey(limits: Limits, entries: Entries, key: string, later: Time)
    requires key !in entries
    ensures HasRoom(limits, entries, key, later) <==> |Cleaned(entries, later - limits.window).Keys| < limits.maxKeys
  {
    hide Cleaned;
    KeysOf(entries, later - limits.window);
    KeyCount(Cleaned(entries, later - limits.window));
  }

  /** A key has room exactly when fewer than the maximum of other keys are busy. */
  lemma RoomIff(limits: Limits, s: State, key: string, later: Time)
    requires Inv(limits, s) && s.clock <= later
    ensures HasRoom(limits, s.entries, key, later) <==> |Busy(limits, s, key, later)| < limits.maxKeys
  {
    hide KeyInv, Busy, Cleaned, HasRoom;
    CleanedAreBusy(limits, s, key, later);
    RoomCounts(limits, s.entries, key, later);
  }

  lemma KeyCount(entries: Entries)
    ensures |entries| == |entries.Keys|
  {
  }

  lemma Fewer<T>(some: set<T>, all: set<T>, other: T)
    requires some <= all && other in all && other !in some
    ensures |some| < |all|
  {
    assert all == some + (all - some) && other in all - some;
  }

  /** Every decision of every run, in terms of what was accepted before and nothing else: a check is
      refused exactly when the key's own window holds the maximum, or as many other keys as may be
      tracked each have an accepted entry in the window. */
  lemma RefusedIff(limits: Limits, calls: seq<Call>, start: Time, n: nat, key: string, now: Time, later: Time)
    requires n <= |calls| && Possible(limits, calls, start, n)
    requires InTime(After(limits, calls, start, n), CheckAt(key, now, later))
    ensures var s := After(limits, calls, start, n);
      !Check(limits, s.entries, key, now, later).1 <==>
        || CountIn(Accepted(s, key), now - limits.window, now) >= limits.maxPerWindow
        || |Busy(limits, s, key, later)| >= limits.maxKeys
  {
    hide After, Possible, Check, Inv, Busy, CountIn, HasRoom;
    RunKeepsInv(limits, calls, start, n);
    RoomIff(limits, After(limits, calls, start, n), key, later);
    DecisionsAreExact(limits, calls, start, n, key, now, later);
  }

  /** So the first entry of a key is accepted by a limiter that has seen nothing. */
  lemma FirstIsAccepted(limits: Limits, key: string, now: Time, later: Time)
    requires limits.maxPerWindow > 0 && limits.maxKeys > 0
    ensures Check(limits, map[], key, now, later) == (map[key := [now]], true)
  {
    hide Recent;
    RecentNothing(now - limits.window);
    var none: seq<Time> := [];
    assert none + [now] == [now];
  }
}
