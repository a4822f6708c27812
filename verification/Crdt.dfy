/**
 The replicated ban record: fields that merge by minimum, maximum and union, a reason
 and evidence kept from the last writer, and a tombstone that needs a quorum.
 */
module Crdt {
  import opened Options
  import opened Cidr
  import opened Hlc

  type NodeId = string

  const TOMBSTONE_QUORUM: nat := 2
  const DEFAULT_BAN_MS: nat := 24 * 3600 * 1000
  const WALLS: nat := 0x1_0000_0000_0000_0000

  datatype Record = Record(subject: IpNet, firstSeen: Stamp, banUntil: Stamp, severity: nat, reporters: set<NodeId>,
                           evidence: seq<nat>, reason: string, tombstoneReporters: set<NodeId>, tombstone: bool,
                           lastModified: Stamp)

  predicate Quorum(voters: set<NodeId>) {
    |voters| >= TOMBSTONE_QUORUM
  }

  /** A fresh record, stamped `now` by its creator's clock. */
  function Fresh(subject: IpNet, severity: nat, reason: string, evidence: seq<nat>, reporter: NodeId, now: Stamp): (r: Record) {
    Record(subject, now, Stamp((now.wall + DEFAULT_BAN_MS) % WALLS, 0, now.node), severity, {reporter},
           evidence, reason, {}, false, now)
  }

  function Merge(a: Record, b: Record): (r: Option<Record>) {
    if a.subject != b.subject then None
    else
      var voters := a.tombstoneReporters + b.tombstoneReporters;
      var newer := if Less(a.lastModified, b.lastModified) then b else a;
      Some(Record(a.subject, MinStamp(a.firstSeen, b.firstSeen), MaxStamp(a.banUntil, b.banUntil),
                  Max(a.severity, b.severity), a.reporters + b.reporters, newer.evidence, newer.reason,
                  voters, Quorum(voters), MaxStamp(a.lastModified, b.lastModified)))
  }

  predicate IsActive(r: Record, nowMs: nat) {
    !r.tombstone && r.banUntil.wall > nowMs
  }

  function Tombstoned(r: Record, voter: NodeId, now: Stamp): (r': Record) {
    var voters := r.tombstoneReporters + {voter};
    r.(tombstoneReporters := voters, tombstone := Quorum(voters), lastModified := now)
  }

  /** What the state layer does to the stored record of a subject it whitelists. */
  function Forced(r: Record): (r': Record) {
    r.(tombstone := true)
  }

  function Extended(r: Record, additionalMs: nat, now: Stamp): (r': Record) {
    r.(banUntil := r.banUntil.(wall := (r.banUntil.wall + additionalMs) % WALLS), lastModified := now)
  }

  /** A stored record, changed in place together with the clock that stamps the change. */
  class Replica {
    var record: Record

    constructor New(subject: IpNet, severity: nat, reason: string, evidence: seq<nat>, reporter: NodeId, clock: Clock, now: nat)
      modifies clock
      ensures clock.Value() == Ticked(old(clock.Value()), now)
      ensures record == Fresh(subject, severity, reason, evidence, reporter, clock.Value())
    {
      var stamp := clock.Tick(now);
      record := Fresh(subject, severity, reason, evidence, reporter, stamp);
    }

    method Tombstone(voter: NodeId, clock: Clock, now: nat)
      modifies this, clock
      ensures clock.Value() == Ticked(old(clock.Value()), now)
      ensures record == Tombstoned(old(record), voter, clock.Value())
    {
      record := record.(tombstoneReporters := record.tombstoneReporters + {voter});
      record := record.(tombstone := |record.tombstoneReporters| >= TOMBSTONE_QUORUM);
      var stamp := clock.Tick(now);
      record := record.(lastModified := stamp);
    }

    method ExtendBan(additionalMs: nat, clock: Clock, now: nat)
      modifies this, clock
      ensures clock.Value() == Ticked(old(clock.Value()), now)
      ensures record == Extended(old(record), additionalMs, clock.Value())
    {
      record := record.(banUntil := record.banUntil.(wall := (record.banUntil.wall + additionalMs) % WALLS));
      var stamp := clock.Tick(now);
      record := record.(lastModified := stamp);
    }
  }

  // ----- exactly when merge is a semilattice join ------------------------------------

  /** Records with the same last writer say the same. */
  predicate Agree(a: Record, b: Record) {
    a.lastModified == b.lastModified ==> a.reason == b.reason && a.evidence == b.evidence
  }

  /** Merging commutes on the whole record exactly when a tie carries the same text. */
  lemma MergeCommutesIff(a: Record, b: Record)
    requires a.subject == b.subject
    ensures Merge(a, b) == Merge(b, a) <==> Agree(a, b)
  {
    assert a.tombstoneReporters + b.tombstoneReporters == b.tombstoneReporters + a.tombstoneReporters;
    assert a.reporters + b.reporters == b.reporters + a.reporters;
    LessIsTotalOrder(a.lastModified, b.lastModified, a.lastModified);
  }

  /** Merging with itself gives a record back exactly when its flag is its quorum. */
  lemma MergeIdempotentIff(a: Record)
    ensures Merge(a, a) == Some(a) <==> (a.tombstone <==> Quorum(a.tombstoneReporters))
  {
    assert a.tombstoneReporters + a.tombstoneReporters == a.tombstoneReporters;
    assert a.reporters + a.reporters == a.reporters;
  }

  /** Merging is associative on all records of one subject, ties or not. */
  lemma MergeAssociates(a: Record, b: Record, c: Record)
    requires a.subject == b.subject == c.subject
    ensures Merge(Merge(a, b).value, c) == Merge(a, Merge(b, c).value)
  {
    assert a.tombstoneReporters + b.tombstoneReporters + c.tombstoneReporters
        == a.tombstoneReporters + (b.tombstoneReporters + c.tombstoneReporters);
    assert a.reporters + b.reporters + c.reporters == a.reporters + (b.reporters + c.reporters);
    StampsAssociate(a.firstSeen, b.firstSeen, c.firstSeen);
    StampsAssociate(a.banUntil, b.banUntil, c.banUntil);
    StampsAssociate(a.lastModified, b.lastModified, c.lastModified);
  }

  lemma StampsAssociate(a: Stamp, b: Stamp, c: Stamp)
    ensures MinStamp(MinStamp(a, b), c) == MinStamp(a, MinStamp(b, c))
    ensures MaxStamp(MaxStamp(a, b), c) == MaxStamp(a, MaxStamp(b, c))
  {
  }

  predicate HonestFlag(r: Record) {
    r.tombstone <==> Quorum(r.tombstoneReporters)
  }

  /** A tie with different reasons is resolved by whoever merges: each side keeps its own. */
  lemma MergeNeedNotCommute(subject: IpNet, reporter: NodeId, now: Stamp)
    ensures var a, b := Fresh(subject, 1, "ssh", [], reporter, now), Fresh(subject, 1, "web", [], reporter, now);
      && Merge(a, b).Some? && Merge(b, a).Some?
      && Merge(a, b).value.reason == "ssh" && Merge(b, a).value.reason == "web"
  {
  }

  /** A forced flag is not idempotent: the record is inactive, merged with itself it is active
      again, and so it is after merging the record it was forced on. */
  lemma ForcedFlagIsLost(subject: IpNet, reporter: NodeId, now: Stamp, time: nat)
    requires time < now.wall && now.wall + DEFAULT_BAN_MS < WALLS
    ensures var r := Fresh(subject, 1, "ssh", [], reporter, now);
      && !IsActive(Forced(r), time)
      && Merge(Forced(r), Forced(r)).Some? && IsActive(Merge(Forced(r), Forced(r)).value, time)
      && Merge(Forced(r), r).Some? && IsActive(Merge(Forced(r), r).value, time)
  {
    var none: set<NodeId> := {};
    assert none + none == none;
  }

  // ----- what a record means -----------------------------------------------------------

  /** A fresh record is active for exactly a day from its stamp, and everything in it is from its
      creator. */
  lemma FreshIsActive(subject: IpNet, severity: nat, reason: string, evidence: seq<nat>, reporter: NodeId, now: Stamp, time: nat)
    requires now.wall + 86_400_000 < WALLS
    ensures var r := Fresh(subject, severity, reason, evidence, reporter, now);
      && (IsActive(r, time) <==> time < now.wall + 86_400_000) && r.banUntil.counter == 0 && r.banUntil.node == now.node
      && r.firstSeen == r.lastModified == now && r.subject == subject && r.severity == severity
      && r.reporters == {reporter} && r.reason == reason && r.evidence == evidence && r.tombstoneReporters == {}
  {
  }

  /** An extension moves the end of the ban by what was asked, unless the end wraps, and changes
      nothing about who reported or voted. */
  lemma ExtensionLasts(r: Record, additionalMs: nat, now: Stamp, time: nat)
    requires r.banUntil.wall + additionalMs < WALLS
    ensures var longer := Extended(r, additionalMs, now);
      && (IsActive(longer, time) <==> time < r.banUntil.wall + additionalMs && !r.tombstone)
      && longer.(banUntil := r.banUntil, lastModified := r.lastModified) == r && longer.lastModified == now
  {
  }

  /** A record is inactive from its end on. */
  lemma InactiveOnceOver(r: Record, time: nat)
    ensures r.banUntil.wall <= time ==> !IsActive(r, time)
    ensures time < r.banUntil.wall ==> (IsActive(r, time) <==> !r.tombstone)
  {
  }

  /** A vote adds the voter and changes nothing else but the flag, which is set from two on. */
  lemma VoteIsCounted(r: Record, voter: NodeId, now: Stamp)
    ensures var voted := Tombstoned(r, voter, now);
      && (forall v :: v in voted.tombstoneReporters <==> v in r.tombstoneReporters || v == voter)
      && (voted.tombstone <==> |voted.tombstoneReporters| >= 2) && voted.lastModified == now
      && voted.(tombstoneReporters := r.tombstoneReporters, tombstone := r.tombstone, lastModified := r.lastModified) == r
  {
  }

  /** Two nodes that vote on a fresh record end it, and one, however often, does not. */
  lemma TwoVotersEndIt(subject: IpNet, reporter: NodeId, a: NodeId, b: NodeId, t0: Stamp, t1: Stamp, t2: Stamp, time: nat)
    requires time < t0.wall && t0.wall + DEFAULT_BAN_MS < WALLS
    ensures var r := Tombstoned(Tombstoned(Fresh(subject, 1, "ssh", [], reporter, t0), a, t1), b, t2);
      IsActive(r, time) <==> a == b
  {
    var one, two := {a}, {a, b};
    assert {} + {a} == one && one + {b} == two;
    if a == b {
      assert two == one;
    } else {
      assert two - {b} == one;
    }
  }

  // ----- local changes and the merge order ---------------------------------------------

  /** `a` is at or below `b` in the merge order: merging adds nothing to `b`. */
  predicate Below(a: Record, b: Record) {
    Merge(a, b) == Some(b)
  }

  /** A vote moves the record up exactly when its stamp is not earlier than the record's. */
  lemma VoteMovesUpIff(r: Record, voter: NodeId, now: Stamp)
    ensures Below(r, Tombstoned(r, voter, now)) <==> !Less(now, r.lastModified)
  {
    var voters := r.tombstoneReporters + {voter};
    assert r.tombstoneReporters + voters == voters;
    assert r.reporters + r.reporters == r.reporters;
    LessIsTotalOrder(r.lastModified, now, r.lastModified);
  }

  /** An extension, exactly when also the flag is honest and the end does not wrap. */
  lemma ExtensionMovesUpIff(r: Record, additionalMs: nat, now: Stamp)
    requires r.banUntil.wall < WALLS && additionalMs < WALLS
    ensures Below(r, Extended(r, additionalMs, now)) <==>
      !Less(now, r.lastModified) && HonestFlag(r) && r.banUntil.wall + additionalMs < WALLS
  {
    assert r.tombstoneReporters + r.tombstoneReporters == r.tombstoneReporters;
    assert r.reporters + r.reporters == r.reporters;
    LessIsTotalOrder(r.lastModified, now, r.lastModified);
    if r.banUntil.wall + additionalMs >= WALLS {
      assert (r.banUntil.wall + additionalMs) % WALLS == r.banUntil.wall + additionalMs - WALLS;
    }
  }

  /** Receiving a record does not advance the clock, so a vote can set the record's stamp back:
      the voter's copy does not move up, and after merging the two the old stamp stands. */
  lemma VoteCanGoBack(r: Record, voter: NodeId, clock: Stamp, now: nat)
    requires clock.wall < now < r.lastModified.wall
    ensures var voted := Tombstoned(r, voter, Ticked(clock, now));
      && Less(voted.lastModified, r.lastModified) && !Below(r, voted)
      && Merge(r, voted).Some? && Merge(r, voted).value.lastModified == r.lastModified
  {
    VoteMovesUpIff(r, voter, Ticked(clock, now));
  }

  // ----- replicas that absorb the same states are equal --------------------------------

  /** A replica that starts from the first state and merges in the others in turn. */
  function Absorb(states: seq<Record>): (r: Option<Record>)
    requires states != []
  {
    if |states| == 1 then Some(states[0])
    else
      var before := Absorb(states[..|states| - 1]);
      if before.None? then None else Merge(before.value, states[|states| - 1])
  }

  function Elements(states: seq<Record>): (s: set<Record>) {
    set x | x in states
  }

  ghost predicate NotAfter(a: Stamp, b: Stamp) {
    !Less(b, a)
  }

  /** `r` is the join of `s` up to the tombstone flag: described field by field, with no order of
      merging. */
  ghost predicate IsJoin(r: Record, s: set<Record>) {
    && (forall x :: x in s ==> x.subject == r.subject)
    && JoinsTimes(r, s) && JoinsText(r, s) && JoinsSets(r, s)
  }

  ghost predicate JoinsTimes(r: Record, s: set<Record>) {
    && (exists x :: x in s && x.firstSeen == r.firstSeen)
    && (forall x :: x in s ==> NotAfter(r.firstSeen, x.firstSeen))
    && (exists x :: x in s && x.banUntil == r.banUntil)
    && (forall x :: x in s ==> NotAfter(x.banUntil, r.banUntil))
    && (exists x :: x in s && x.severity == r.severity)
    && (forall x :: x in s ==> x.severity <= r.severity)
  }

  /** The text is that of a last writer. */
  ghost predicate JoinsText(r: Record, s: set<Record>) {
    && (exists x :: x in s && x.lastModified == r.lastModified && x.reason == r.reason && x.evidence == r.evidence)
    && (forall x :: x in s ==> NotAfter(x.lastModified, r.lastModified))
  }

  ghost predicate JoinsSets(r: Record, s: set<Record>) {
    && r.reporters == (set x, id | x in s && id in x.reporters :: id)
    && r.tombstoneReporters == (set x, id | x in s && id in x.tombstoneReporters :: id)
  }

  /** States of one subject that agree pairwise. */
  ghost predicate Compatible(s: set<Record>) {
    forall a, b :: a in s && b in s ==> a.subject == b.subject && Agree(a, b)
  }

  predicate SameButFlag(a: Record, b: Record) {
    a.(tombstone := false) == b.(tombstone := false)
  }

  lemma JoinUnique(r: Record, r': Record, s: set<Record>)
    requires IsJoin(r, s) && IsJoin(r', s) && Compatible(s)
    ensures SameButFlag(r, r')
  {
    LessIsTotalOrder(r.firstSeen, r'.firstSeen, r.firstSeen);
    LessIsTotalOrder(r.banUntil, r'.banUntil, r.banUntil);
    LessIsTotalOrder(r.lastModified, r'.lastModified, r.lastModified);
  }

  lemma JoinOne(a: Record)
    ensures IsJoin(a, {a})
  {
  }

  lemma JoinMore(r: Record, s: set<Record>, b: Record)
    requires IsJoin(r, s) && r.subject == b.subject
    ensures IsJoin(Merge(r, b).value, s + {b})
  {
    hide JoinsTimes, JoinsText, JoinsSets;
    TimesMore(r, s, b);
    TextMore(r, s, b);
    SetsMore(r, s, b);
  }

  lemma TimesMore(r: Record, s: set<Record>, b: Record)
    requires JoinsTimes(r, s) && r.subject == b.subject
    ensures JoinsTimes(Merge(r, b).value, s + {b})
  {
    var m, t := Merge(r, b).value, s + {b};
    var x :| x in s && x.firstSeen == r.firstSeen;
    var y :| y in s && y.banUntil == r.banUntil;
    var z :| z in s && z.severity == r.severity;
    assert x in t && y in t && z in t && b in t;
  }

  lemma TextMore(r: Record, s: set<Record>, b: Record)
    requires JoinsText(r, s) && r.subject == b.subject
    ensures JoinsText(Merge(r, b).value, s + {b})
  {
    var x :| x in s && x.lastModified == r.lastModified && x.reason == r.reason && x.evidence == r.evidence;
    assert x in s + {b} && b in s + {b};
  }

  lemma SetsMore(r: Record, s: set<Record>, b: Record)
    requires JoinsSets(r, s) && r.subject == b.subject
    ensures JoinsSets(Merge(r, b).value, s + {b})
  {
  }

  lemma {:induction false} AbsorbIsJoin(states: seq<Record>)
    requires states != [] && Compatible(Elements(states))
    ensures Absorb(states).Some? && IsJoin(Absorb(states).value, Elements(states))
  {
    hide IsJoin, Merge;
    var all := Elements(states);
    if |states| == 1 {
      JoinOne(states[0]);
      assert all == {states[0]};
    } else {
      var init, last := states[..|states| - 1], states[|states| - 1];
      var some := Elements(init);
      assert some <= all && states[0] in some && last in all;
      assert all == some + {last};
      AbsorbIsJoin(init);
      var r := Absorb(init).value;
      JoinSubject(r, some, states[0]);
      MergeSome(r, last);
      JoinMore(r, some, last);
    }
  }

  lemma JoinSubject(r: Record, s: set<Record>, x: Record)
    requires IsJoin(r, s) && x in s
    ensures r.subject == x.subject
  {
  }

  lemma MergeSome(a: Record, b: Record)
    ensures Merge(a, b).Some? <==> a.subject == b.subject
    ensures Merge(a, b).Some? ==> Merge(a, b).value.subject == a.subject
  {
  }

  /** Absorbing succeeds exactly when all the states are about one subject. */
  lemma {:induction false} AbsorbSomeIff(states: seq<Record>)
    requires states != []
    ensures Absorb(states).Some? <==> forall i :: 0 <= i < |states| ==> states[i].subject == states[0].subject
    ensures Absorb(states).Some? ==> Absorb(states).value.subject == states[0].subject
  {
    hide Merge;
    if |states| > 1 {
      var init, last := states[..|states| - 1], states[|states| - 1];
      AbsorbSomeIff(init);
      assert forall i :: 0 <= i < |init| ==> init[i] == states[i];
      if Absorb(init).Some? {
        MergeSome(Absorb(init).value, last);
      }
    }
  }

  ghost function VotersOf(states: seq<Record>): (ids: set<NodeId>) {
    set x, id | x in states && id in x.tombstoneReporters :: id
  }

  lemma VotersSnoc(init: seq<Record>, last: Record)
    ensures VotersOf(init + [last]) == VotersOf(init) + last.tombstoneReporters
    ensures VotersOf([last]) == last.tombstoneReporters
  {
    assert forall x :: x in init + [last] <==> x in init || x == last;
  }

  /** A first state keeps its flag until something is merged into it; from then on the flag is
      the quorum of all voters, whatever the flags were. */
  lemma {:induction false} AbsorbFlag(states: seq<Record>)
    requires states != [] && Absorb(states).Some?
    ensures Absorb(states).value.tombstoneReporters == VotersOf(states)
    ensures Absorb(states).value.tombstone <==>
      if |states| == 1 then states[0].tombstone else Quorum(VotersOf(states))
  {
    hide VotersOf, Quorum, Less, MinStamp, MaxStamp;
    var init, last := states[..|states| - 1], states[|states| - 1];
    assert states == init + [last];
    VotersSnoc(init, last);
    if |states| > 1 {
      AbsorbFlag(init);
    } else {
      assert states == [last];
    }
  }

  /** So a forced flag survives later merges exactly when there are none or the voters of all
      the records together are a quorum. */
  lemma ForcedSurvivesIff(r: Record, others: seq<Record>)
    requires Absorb([Forced(r)] + others).Some?
    ensures Absorb([Forced(r)] + others).value.tombstone <==>
      others == [] || Quorum(r.tombstoneReporters + VotersOf(others))
  {
    var states := [Forced(r)] + others;
    AbsorbFlag(states);
    assert VotersOf(states) == r.tombstoneReporters + VotersOf(others) by {
      assert forall x :: x in states <==> x == Forced(r) || x in others;
    }
  }

  /** Strong convergence: the same states, in any order and any number of times, leave the same
      record in every field but the flag; and in the flag too, except exactly when one side
      holds a single state whose flag is not its quorum and the other has merged it. */
  lemma Convergence(first: seq<Record>, second: seq<Record>)
    requires first != [] && second != []
    requires Elements(first) == Elements(second)
    requires Compatible(Elements(first))
    ensures Absorb(first).Some? && Absorb(second).Some? && SameButFlag(Absorb(first).value, Absorb(second).value)
    ensures Absorb(first) == Absorb(second) <==> (|first| == 1 <==> |second| == 1) || HonestFlag(first[0])
  {
    hide IsJoin, Compatible, Absorb, Quorum;
    AbsorbIsJoin(first);
    AbsorbIsJoin(second);
    JoinUnique(Absorb(first).value, Absorb(second).value, Elements(first));
    AbsorbFlag(first);
    AbsorbFlag(second);
    SameVoters(first, second);
    if |first| == 1 || |second| == 1 {
      SingleState(first, second);
    }
  }

  lemma SameVoters(first: seq<Record>, second: seq<Record>)
    requires Elements(first) == Elements(second)
    ensures VotersOf(first) == VotersOf(second)
  {
    assert forall x :: x in first <==> x in Elements(first);
    assert forall x :: x in second <==> x in Elements(second);
  }

  lemma SingleState(first: seq<Record>, second: seq<Record>)
    requires first != [] && second != [] && (|first| == 1 || |second| == 1)
    requires Elements(first) == Elements(second)
    ensures first[0] == second[0] && VotersOf(first) == first[0].tombstoneReporters
  {
    assert first[0] in Elements(first) && second[0] in Elements(second);
    SameVoters(first, second);
    var one := if |first| == 1 then first else second;
    assert one == [one[0]];
    assert VotersOf(one) == one[0].tombstoneReporters;
  }
}
