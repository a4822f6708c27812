/**
 Nodes that keep replicated ban records, change them, and send each other copies. Each
 node has a hybrid logical clock with a node hash of its own. Messages may be delayed,
 repeated and reordered: any record that ever existed may arrive anywhere, any time.
 */
module CrdtReplicas {
  import opened Options
  import opened Cidr
  import opened Hlc
  import opened Crdt

  datatype Key = Key(node: nat, subject: IpNet)
  datatype Text = Text(reason: string, evidence: seq<nat>)
  datatype Ballot = Ballot(subject: IpNet, voter: NodeId)

  /** `clocks` and `replicas` are the system; the rest is what an observer remembers: every
      record there ever was, who wrote which text under which stamp, who voted on what, and which
      subjects had a tombstone forced on them without a vote. */
  datatype State = State(clocks: map<nat, Stamp>, replicas: map<Key, Record>,
                         history: set<Record>, authored: map<Stamp, Text>, voted: set<Ballot>, forced: set<IpNet>)

  const INITIAL: State := State(map[], map[], {}, map[], {}, {})

  datatype Step =
    | Join(node: nat, now: nat)
    | Create(node: nat, now: nat, subject: IpNet, severity: nat, text: Text, reporter: NodeId)
    | Vote(node: nat, now: nat, subject: IpNet, voter: NodeId)
    | Extend(node: nat, now: nat, subject: IpNet, additionalMs: nat)
    | Force(node: nat, subject: IpNet)
    | Receive(node: nat, record: Record)
    | Hear(node: nat, now: nat, remote: Stamp)

  predicate Enabled(s: State, step: Step) {
    match step
    case Join(node, now) => node !in s.clocks
    case Create(node, now, subject, severity, text, reporter) => node in s.clocks
    case Vote(node, now, subject, voter) => node in s.clocks && Key(node, subject) in s.replicas
    case Extend(node, now, subject, additionalMs) => node in s.clocks && Key(node, subject) in s.replicas
    case Force(node, subject) => Key(node, subject) in s.replicas
    case Receive(node, record) => record in s.history
    case Hear(node, now, remote) => node in s.clocks && remote in s.authored
  }

  /** Keep a record at a node: merged into what is there, or as it is. */
  function Stored(s: State, node: nat, r: Record): (r': Record) {
    var key := Key(node, r.subject);
    if key in s.replicas && Merge(s.replicas[key], r).Some? then Merge(s.replicas[key], r).value else r
  }

  function Put(s: State, node: nat, r: Record): (s': State) {
    s.(replicas := s.replicas[Key(node, r.subject) := r], history := s.history + {r})
  }

  /** A local change: the node's clock ticks and the text goes out under the new stamp. */
  function Written(s: State, node: nat, stamp: Stamp, text: Text): (s': State) {
    s.(clocks := s.clocks[node := stamp], authored := s.authored[stamp := text])
  }

  /** The record a Create step makes. */
  function Created(s: State, step: Step): (r: Record)
    requires step.Create? && Enabled(s, step)
  {
    Fresh(step.subject, step.severity, step.text.reason, step.text.evidence, step.reporter, Ticked(s.clocks[step.node], step.now))
  }

  function Next(s: State, step: Step): (s': State)
    requires Enabled(s, step)
  {
    match step
    case Join(node, now) => s.(clocks := s.clocks[node := Stamp(now, 0, node)])
    case Create(node, now, subject, severity, text, reporter) =>
      var r := Created(s, step);
      var written := Written(s, node, Ticked(s.clocks[node], now), text);
      Put(written.(history := s.history + {r}), node, Stored(s, node, r))
    case Vote(node, now, subject, voter) =>
      var stamp, r := Ticked(s.clocks[node], now), s.replicas[Key(node, subject)];
      var written := Written(s, node, stamp, Text(r.reason, r.evidence));
      Put(written.(voted := s.voted + {Ballot(subject, voter)}), node, Tombstoned(r, voter, stamp))
    case Extend(node, now, subject, additionalMs) =>
      var stamp, r := Ticked(s.clocks[node], now), s.replicas[Key(node, subject)];
      Put(Written(s, node, stamp, Text(r.reason, r.evidence)), node, Extended(r, additionalMs, stamp))
    case Force(node, subject) => Put(s.(forced := s.forced + {subject}), node, Forced(s.replicas[Key(node, subject)]))
    case Receive(node, record) => Put(s, node, Stored(s, node, record))
    case Hear(node, now, remote) => s.(clocks := s.clocks[node := Updated(s.clocks[node], now, remote)])
  }

  /** The first `n` steps can be taken one after another. */
  predicate Possible(run: seq<Step>, n: nat)
    requires n <= |run|
    decreases n, 0
  {
    n > 0 ==> Possible(run, n - 1) && Enabled(After(run, n - 1), run[n - 1])
  }

  function After(run: seq<Step>, n: nat): (s: State)
    requires n <= |run| && Possible(run, n)
    decreases n, 1
  {
    if n == 0 then INITIAL else Next(After(run, n - 1), run[n - 1])
  }

  lemma {:induction false} SameStart(run: seq<Step>, other: seq<Step>, m: nat)
    requires m <= |run| && m <= |other| && Possible(run, m)
    requires forall i :: 0 <= i < m ==> run[i] == other[i]
    ensures Possible(other, m) && After(other, m) == After(run, m)
  {
    hide Next, Enabled;
    if m > 0 {
      SameStart(run, other, m - 1);
    }
  }

  // ----- records and votes --------------------------------------------------------------

  /** A record is honest about its votes: every voter voted on its subject, a quorum shows in the flag, and the
      flag shows nothing else unless it was forced. */
  predicate Honest(s: State, r: Record) {
    && (forall v :: v in r.tombstoneReporters ==> Ballot(r.subject, v) in s.voted)
    && (Quorum(r.tombstoneReporters) ==> r.tombstone)
    && (r.subject !in s.forced ==> HonestFlag(r))
  }

  ghost predicate VotesInv(s: State) {
    && (forall r :: r in s.history ==> Honest(s, r))
    && (forall k :: k in s.replicas ==> s.replicas[k] in s.history && s.replicas[k].subject == k.subject)
  }

  lemma StoredHonest(s: State, node: nat, r: Record)
    requires VotesInv(s) && Honest(s, r)
    ensures Honest(s, Stored(s, node, r)) && Stored(s, node, r).subject == r.subject
    ensures r.tombstoneReporters <= Stored(s, node, r).tombstoneReporters
    ensures var key := Key(node, r.subject);
      key in s.replicas ==> s.replicas[key].tombstoneReporters <= Stored(s, node, r).tombstoneReporters
  {
  }

  /** What one step does to the votes of a replica: nothing is ever taken back. */
  lemma VotesStep(s: State, step: Step)
    requires VotesInv(s) && Enabled(s, step)
    ensures VotesInv(Next(s, step)) && s.history <= Next(s, step).history
    ensures forall k :: k in s.replicas ==>
      k in Next(s, step).replicas && s.replicas[k].tombstoneReporters <= Next(s, step).replicas[k].tombstoneReporters
    ensures step.Receive? ==>
      var key := Key(step.node, step.record.subject);
      key in Next(s, step).replicas && step.record.tombstoneReporters <= Next(s, step).replicas[key].tombstoneReporters
  {
    hide Ticked, Updated, Merge, Quorum, Stored;
    match step
    case Join(node, now) =>
    case Create(node, now, subject, severity, text, reporter) =>
      NewHonest(s, step);
      StoredHonest(s, node, Created(s, step));
      PutVotes(s, Next(s, step), node, Stored(s, node, Created(s, step)));
    case Vote(node, now, subject, voter) =>
      var r := s.replicas[Key(node, subject)];
      VoteHonest(s, r, voter, Ticked(s.clocks[node], now));
      PutVotes(s, Next(s, step), node, Tombstoned(r, voter, Ticked(s.clocks[node], now)));
    case Extend(node, now, subject, additionalMs) =>
      var r := s.replicas[Key(node, subject)];
      PutVotes(s, Next(s, step), node, Extended(r, additionalMs, Ticked(s.clocks[node], now)));
    case Force(node, subject) =>
      PutVotes(s, Next(s, step), node, Forced(s.replicas[Key(node, subject)]));
    case Receive(node, record) =>
      StoredHonest(s, node, record);
      PutVotes(s, Next(s, step), node, Stored(s, node, record));
    case Hear(node, now, remote) =>
  }

  /** Putting an honest record with at least the votes that were there keeps everything. */
  lemma PutVotes(s: State, s': State, node: nat, r: Record)
    requires VotesInv(s) && s.voted <= s'.voted && s.forced <= s'.forced
    requires s'.replicas == s.replicas[Key(node, r.subject) := r]
    requires s.history + {r} <= s'.history
    requires forall x :: x in s'.history ==> x in s.history || Honest(s', x)
    requires Key(node, r.subject) in s.replicas ==>
      s.replicas[Key(node, r.subject)].tombstoneReporters <= r.tombstoneReporters
    ensures VotesInv(s')
    ensures forall k :: k in s.replicas ==>
      k in s'.replicas && s.replicas[k].tombstoneReporters <= s'.replicas[k].tombstoneReporters
  {
    hide Quorum;
  }

  lemma NewHonest(s: State, step: Step)
    requires step.Create? && Enabled(s, step)
    ensures Honest(s, Created(s, step))
  {
  }

  lemma VoteHonest(s: State, r: Record, voter: NodeId, stamp: Stamp)
    requires Honest(s, r)
    ensures Honest(s.(voted := s.voted + {Ballot(r.subject, voter)}), Tombstoned(r, voter, stamp))
  {
  }

  /** In every run every voter of every record is a node that really called for the tombstone, a
      quorum of them shows in the flag, and nothing else does unless a flag was forced. */
  lemma {:induction false} VotesAreReal(run: seq<Step>, n: nat)
    requires n <= |run| && Possible(run, n)
    ensures VotesInv(After(run, n))
  {
    hide Next, Enabled;
    if n == 0 {
      NoVotes();
    } else {
      VotesAreReal(run, n - 1);
      VotesStep(After(run, n - 1), run[n - 1]);
    }
  }

  lemma NoVotes()
    ensures VotesInv(INITIAL)
  {
  }

  lemma MoreVotes(few: set<NodeId>, many: set<NodeId>)
    requires few <= many && Quorum(few)
    ensures Quorum(many)
  {
    assert many == few + (many - few);
  }

  lemma {:induction false} VotesOnlyGrow(run: seq<Step>, m: nat, n: nat, k: Key)
    requires m <= n <= |run| && Possible(run, n) && Possible(run, m) && k in After(run, m).replicas
    ensures k in After(run, n).replicas
    ensures After(run, m).replicas[k].tombstoneReporters <= After(run, n).replicas[k].tombstoneReporters
  {
    hide Next, Enabled;
    if m < n {
      VotesOnlyGrow(run, m, n - 1, k);
      VotesAreReal(run, n - 1);
      VotesStep(After(run, n - 1), run[n - 1]);
    }
  }

  // ----- every vote counts, and nothing else does -----------------------------------------

  /** The voters of a replica after a step, given those before: a vote on it adds the voter, a record
      that arrives adds its voters. */
  function BallotsNext(step: Step, k: Key, before: set<NodeId>): (r: set<NodeId>) {
    if !About(step, k) then before
    else if step.Vote? then before + {step.voter}
    else if step.Receive? then before + step.record.tombstoneReporters
    else before
  }

  function Ballots(run: seq<Step>, k: Key, n: nat): (r: set<NodeId>)
    requires n <= |run|
  {
    if n == 0 then {} else BallotsNext(run[n - 1], k, Ballots(run, k, n - 1))
  }

  lemma BallotsStep(s: State, step: Step, k: Key, before: set<NodeId>)
    requires VotesInv(s) && Enabled(s, step)
    requires before == if k in s.replicas then s.replicas[k].tombstoneReporters else {}
    ensures var s' := Next(s, step);
      BallotsNext(step, k, before) == if k in s'.replicas then s'.replicas[k].tombstoneReporters else {}
  {
    if !About(step, k) {
      hide Next, VotesInv;
      NotAbout(s, step, k);
    } else {
      hide Ticked, Quorum, Less, MinStamp, MaxStamp;
    }
  }

  /** In every run, the voters of every replica are exactly those who voted on it here and those
      that came with the records that arrived. */
  lemma {:induction false} VotersExactly(run: seq<Step>, k: Key, n: nat)
    requires n <= |run| && Possible(run, n)
    ensures var s := After(run, n);
      Ballots(run, k, n) == if k in s.replicas then s.replicas[k].tombstoneReporters else {}
  {
    hide Next, Enabled, BallotsNext;
    if n > 0 {
      VotersExactly(run, k, n - 1);
      VotesAreReal(run, n - 1);
      BallotsStep(After(run, n - 1), run[n - 1], k, Ballots(run, k, n - 1));
    }
  }

  /** A step that is a vote on a subject by a voter. */
  predicate IsVote(step: Step, subject: IpNet, voter: NodeId) {
    step.Vote? && step.subject == subject && step.voter == voter
  }

  lemma {:induction false} VotedMeans(run: seq<Step>, n: nat, subject: IpNet, voter: NodeId)
    requires n <= |run| && Possible(run, n)
    ensures Ballot(subject, voter) in After(run, n).voted <==> exists i :: 0 <= i < n && IsVote(run[i], subject, voter)
  {
    hide Ticked, Updated, Merge, Stored, Tombstoned, Extended, Fresh;
    if n > 0 {
      VotedMeans(run, n - 1, subject, voter);
      assert run[n - 1].Vote? ==> IsVote(run[n - 1], run[n - 1].subject, run[n - 1].voter);
    }
  }

  /** Every voter on every record there ever was voted on its subject, in some earlier step. */
  lemma VotersVoted(run: seq<Step>, n: nat, r: Record, voter: NodeId)
    requires n <= |run| && Possible(run, n) && r in After(run, n).history && voter in r.tombstoneReporters
    ensures exists i :: 0 <= i < n && IsVote(run[i], r.subject, voter)
  {
    hide After, Possible, IsVote;
    VotesAreReal(run, n);
    VotedMeans(run, n, r.subject, voter);
  }

  lemma {:induction false} BallotsGrow(run: seq<Step>, k: Key, m: nat, n: nat)
    requires m <= n <= |run|
    ensures Ballots(run, k, m) <= Ballots(run, k, n)
  {
    if m < n {
      BallotsGrow(run, k, m, n - 1);
    }
  }

  /** Two votes by different nodes at a replica keep it inactive at all later times. */
  lemma TwoVotesEndIt(run: seq<Step>, i: nat, j: nat, n: nat, k: Key, time: nat)
    requires i < j < n <= |run| && Possible(run, n)
    requires run[i].Vote? && run[j].Vote? && About(run[i], k) && About(run[j], k) && run[i].voter != run[j].voter
    ensures k in After(run, n).replicas && !IsActive(After(run, n).replicas[k], time)
  {
    hide After, Possible;
    VotersExactly(run, k, n);
    VotesAreReal(run, n);
    BallotsGrow(run, k, i + 1, n);
    BallotsGrow(run, k, j + 1, n);
    MoreVotes({run[i].voter, run[j].voter}, Ballots(run, k, n));
  }

  // ----- how long a tombstone lasts -----------------------------------------------------

  /** A tombstone that was voted, not only forced. */
  predicate Voted(s: State, k: Key)
    requires k in s.replicas
  {
    s.replicas[k].tombstone && (k.subject !in s.forced || Quorum(s.replicas[k].tombstoneReporters))
  }

  /** A voted tombstone is for good: no later merge, vote or extension makes the replica active
      at any time. */
  lemma TombstoneIsForGood(run: seq<Step>, m: nat, n: nat, k: Key, time: nat)
    requires m <= n <= |run| && Possible(run, n) && Possible(run, m)
    requires k in After(run, m).replicas && Voted(After(run, m), k)
    ensures k in After(run, n).replicas && !IsActive(After(run, n).replicas[k], time)
  {
    hide After, Possible;
    VotesAreReal(run, m);
    VotesAreReal(run, n);
    VotesOnlyGrow(run, m, n, k);
    MoreVotes(After(run, m).replicas[k].tombstoneReporters, After(run, n).replicas[k].tombstoneReporters);
  }

  /** And it spreads: a replica that received a record with a voted tombstone is inactive ever
      after. */
  lemma TombstoneSpreads(run: seq<Step>, m: nat, n: nat, time: nat)
    requires m < n <= |run| && Possible(run, n) && Possible(run, m + 1) && run[m].Receive?
    requires var r := run[m].record;
      r.tombstone && (r.subject !in After(run, m).forced || Quorum(r.tombstoneReporters))
    ensures var k := Key(run[m].node, run[m].record.subject);
      k in After(run, n).replicas && !IsActive(After(run, n).replicas[k], time)
  {
    hide Next, IsActive, Quorum;
    var before, step := After(run, m), run[m];
    var k := Key(step.node, step.record.subject);
    VotesAreReal(run, m);
    VotesAreReal(run, m + 1);
    VotesStep(before, step);
    HistoryOf(before, step);
    assert After(run, m + 1) == Next(before, step);
    MoreVotes(step.record.tombstoneReporters, After(run, m + 1).replicas[k].tombstoneReporters);
    TombstoneIsForGood(run, m + 1, n, k, time);
  }

  lemma HistoryOf(s: State, step: Step)
    requires step.Receive? && Enabled(s, step)
    ensures step.record in s.history
  {
  }

  /** The step is about this replica. */
  predicate About(step: Step, k: Key) {
    match step
    case Create(node, now, subject, severity, text, reporter) => k == Key(node, subject)
    case Vote(node, now, subject, voter) => k == Key(node, subject)
    case Extend(node, now, subject, additionalMs) => k == Key(node, subject)
    case Force(node, subject) => k == Key(node, subject)
    case Receive(node, record) => k == Key(node, record.subject)
    case _ => false
  }

  lemma NotAbout(s: State, step: Step, k: Key)
    requires VotesInv(s) && Enabled(s, step) && !About(step, k)
    ensures k in Next(s, step).replicas <==> k in s.replicas
    ensures k in s.replicas ==> Next(s, step).replicas[k] == s.replicas[k]
  {
    hide Ticked, Updated, Merge, Stored, Quorum;
    if step.Create? {
      StoredSubject(s, step.node, Created(s, step));
    } else if step.Receive? {
      StoredSubject(s, step.node, step.record);
    }
  }

  lemma StoredSubject(s: State, node: nat, r: Record)
    requires VotesInv(s)
    ensures Stored(s, node, r).subject == r.subject
  {
  }

  /** Whether a forced flag is still what shows after a step, if it was before. */
  predicate StillForced(s: State, step: Step, k: Key, was: bool) {
    if !About(step, k) || step.Extend? then was
    else if step.Receive? then k !in s.replicas && step.record.tombstone && !Quorum(step.record.tombstoneReporters)
    else step.Force?
  }

  lemma FlagStep(s: State, step: Step, k: Key, was: bool)
    requires VotesInv(s) && Enabled(s, step) && k in Next(s, step).replicas
    requires k in s.replicas ==>
      (s.replicas[k].tombstone <==> Quorum(s.replicas[k].tombstoneReporters) || was)
    ensures var r := Next(s, step).replicas[k];
      r.tombstone <==> Quorum(r.tombstoneReporters) || StillForced(s, step, k, was)
  {
    if !About(step, k) {
      hide Next, StillForced, VotesInv;
      NotAbout(s, step, k);
      NotAboutFlag(s, step, k, was);
    } else if step.Receive? || step.Create? {
      hide Ticked, Less, MinStamp, MaxStamp, Quorum;
      if step.Create? {
        NewHonest(s, step);
      }
    } else {
      hide Ticked, Less, Quorum, Merge, Stored;
    }
  }

  lemma NotAboutFlag(s: State, step: Step, k: Key, was: bool)
    requires !About(step, k)
    ensures StillForced(s, step, k, was) == was
  {
  }

  /** The replica's flag is one that was forced, at this node or, before the record came here,
      at another; and nothing has been merged or voted since. */
  predicate ForcedSince(run: seq<Step>, k: Key, n: nat)
    requires n <= |run| && Possible(run, n)
  {
    n > 0 && StillForced(After(run, n - 1), run[n - 1], k, ForcedSince(run, k, n - 1))
  }

  /** In every run, at every replica, the flag is set exactly when the voters are a quorum or the
      flag was forced and nothing was merged or voted since. */
  lemma {:induction false} FlagExactly(run: seq<Step>, k: Key, n: nat)
    requires n <= |run| && Possible(run, n) && k in After(run, n).replicas
    ensures var r := After(run, n).replicas[k];
      r.tombstone <==> |r.tombstoneReporters| >= 2 || ForcedSince(run, k, n)
  {
    hide Next, Enabled, StillForced;
    VotesAreReal(run, n - 1);
    if k in After(run, n - 1).replicas {
      FlagExactly(run, k, n - 1);
    }
    FlagStep(After(run, n - 1), run[n - 1], k, ForcedSince(run, k, n - 1));
  }

  /** Whatever happens next, the replica's flag stays set. */
  ghost predicate KeptForever(run: seq<Step>, m: nat, k: Key)
    requires m <= |run|
  {
    forall more: seq<Step> :: Possible(run[..m] + more, m + |more|) ==>
      var s := After(run[..m] + more, m + |more|);
      k in s.replicas && s.replicas[k].tombstone
  }

  /** The flag stays whatever happens next if and only if the voters are a quorum. */
  lemma KeptForeverIff(run: seq<Step>, m: nat, k: Key)
    requires m <= |run| && Possible(run, m) && k in After(run, m).replicas
    ensures KeptForever(run, m, k) <==> Quorum(After(run, m).replicas[k].tombstoneReporters)
  {
    hide After, Possible, Quorum, Merge;
    var r := After(run, m).replicas[k];
    if Quorum(r.tombstoneReporters) {
      forall more: seq<Step> | Possible(run[..m] + more, m + |more|)
        ensures var s := After(run[..m] + more, m + |more|);
          k in s.replicas && s.replicas[k].tombstone
      {
        Kept(run, m, k, more);
      }
    } else {
      Cleared(run, m, k);
    }
  }

  lemma Kept(run: seq<Step>, m: nat, k: Key, more: seq<Step>)
    requires m <= |run| && Possible(run, m) && k in After(run, m).replicas
    requires Quorum(After(run, m).replicas[k].tombstoneReporters) && Possible(run[..m] + more, m + |more|)
    ensures var s := After(run[..m] + more, m + |more|);
      k in s.replicas && s.replicas[k].tombstone
  {
    hide After, Possible, Quorum;
    var all, n := run[..m] + more, m + |more|;
    SameStart(run, all, m);
    VotesAreReal(all, n);
    VotesOnlyGrow(all, m, n, k);
    MoreVotes(After(all, m).replicas[k].tombstoneReporters, After(all, n).replicas[k].tombstoneReporters);
  }

  /** Getting its own record back is enough to clear a flag without a quorum. */
  lemma Cleared(run: seq<Step>, m: nat, k: Key)
    requires m <= |run| && Possible(run, m) && k in After(run, m).replicas
    requires !Quorum(After(run, m).replicas[k].tombstoneReporters)
    ensures !KeptForever(run, m, k)
  {
    hide Quorum, Less, MinStamp, MaxStamp;
    var s := After(run, m);
    var r := s.replicas[k];
    var echo := Receive(k.node, r);
    var all := run[..m] + [echo];
    VotesAreReal(run, m);
    SameStart(run, all, m);
    assert r.tombstoneReporters + r.tombstoneReporters == r.tombstoneReporters;
    assert Possible(all, m + 1) && !After(all, m + 1).replicas[k].tombstone;
    assert all == run[..m] + [echo] && m + |[echo]| == m + 1;
  }

  // ----- stamps and texts ---------------------------------------------------------------

  /** The clock of the node that takes the step moves forward. */
  predicate Advances(s: State, step: Step)
    requires Enabled(s, step)
  {
    match step
    case Create(node, now, subject, severity, text, reporter) => TickForward(s.clocks[node], now)
    case Vote(node, now, subject, voter) => TickForward(s.clocks[node], now)
    case Extend(node, now, subject, additionalMs) => TickForward(s.clocks[node], now)
    case Hear(node, now, remote) => UpdateForward(s.clocks[node], now, remote)
    case _ => true
  }

  /** No clock ever wraps in the first `n` steps. */
  predicate NeverWraps(run: seq<Step>, n: nat)
    requires n <= |run| && Possible(run, n)
  {
    n > 0 ==> NeverWraps(run, n - 1) && Advances(After(run, n - 1), run[n - 1])
  }

  /** Clocks carry their node's hash. */
  predicate ClocksInv(s: State) {
    forall node :: node in s.clocks ==> s.clocks[node].node == node
  }

  /** Every stamp written under is one its node's clock has reached. */
  predicate AuthoredInv(s: State) {
    forall st :: st in s.authored ==> st.node in s.clocks && !Less(s.clocks[st.node], st)
  }

  predicate Authentic(s: State, r: Record) {
    r.lastModified in s.authored && s.authored[r.lastModified] == Text(r.reason, r.evidence)
  }

  /** Every record carries the text written under its stamp. */
  predicate TextsInv(s: State) {
    forall r :: r in s.history ==> Authentic(s, r)
  }

  ghost predicate StampsInv(s: State) {
    ClocksInv(s) && AuthoredInv(s) && TextsInv(s)
  }

  /** A tick gives a stamp nobody has written under, and keeps the clocks in order. */
  lemma WriteStep(s: State, node: nat, now: nat, text: Text)
    requires ClocksInv(s) && AuthoredInv(s) && node in s.clocks && TickForward(s.clocks[node], now)
    ensures var stamp := Ticked(s.clocks[node], now);
      && stamp !in s.authored
      && ClocksInv(Written(s, node, stamp, text)) && AuthoredInv(Written(s, node, stamp, text))
  {
    hide Ticked;
    var clock := s.clocks[node];
    var stamp := Ticked(clock, now);
    TickAdvances(clock, now);
    assert Less(clock, stamp);
    forall st | st in s.authored && st.node == node ensures !Less(stamp, st) && st != stamp {
      LessIsTotalOrder(clock, stamp, st);
    }
  }

  lemma HearStep(s: State, node: nat, now: nat, remote: Stamp)
    requires ClocksInv(s) && AuthoredInv(s) && node in s.clocks && UpdateForward(s.clocks[node], now, remote)
    ensures var s' := s.(clocks := s.clocks[node := Updated(s.clocks[node], now, remote)]);
      ClocksInv(s') && AuthoredInv(s')
  {
    hide Updated, Clamped;
    var clock := s.clocks[node];
    var heard := Updated(clock, now, remote);
    UpdateAdvances(clock, now, remote);
    assert Less(clock, heard);
    forall st | st in s.authored && st.node == node ensures !Less(heard, st) {
      LessIsTotalOrder(clock, heard, st);
    }
  }

  /** Old texts stay where they are when a new stamp is written under. */
  lemma TextsKept(s: State, node: nat, stamp: Stamp, text: Text, r: Record)
    requires stamp !in s.authored && Authentic(s, r)
    ensures Authentic(Written(s, node, stamp, text), r)
  {
  }

  lemma StoredAuthentic(s: State, at: State, node: nat, r: Record)
    requires Authentic(at, r)
    requires forall k :: k in s.replicas ==> Authentic(at, s.replicas[k])
    ensures Authentic(at, Stored(s, node, r))
  {
  }

  /** After a write, every old record and any new one with the written text is authentic. */
  lemma WriteKeepsTexts(s: State, node: nat, now: nat, text: Text)
    requires StampsInv(s) && node in s.clocks && TickForward(s.clocks[node], now)
    ensures StampsInv(Written(s, node, Ticked(s.clocks[node], now), text))
  {
    hide Ticked, TickForward;
    WriteStep(s, node, now, text);
    var stamp := Ticked(s.clocks[node], now);
    forall r | r in s.history ensures Authentic(Written(s, node, stamp, text), r) {
      TextsKept(s, node, stamp, text, r);
    }
  }

  lemma PutKeepsInv(s: State, node: nat, r: Record)
    requires StampsInv(s) && Authentic(s, r)
    ensures StampsInv(Put(s, node, r))
  {
  }

  lemma StampsStep(s: State, step: Step)
    requires VotesInv(s) && StampsInv(s) && Enabled(s, step) && Advances(s, step)
    ensures StampsInv(Next(s, step))
  {
    match step
    case Create(node, now, subject, severity, text, reporter) =>
      CreateStep(s, step);
    case Vote(node, now, subject, voter) =>
      ChangeStep(s, step);
    case Extend(node, now, subject, additionalMs) =>
      ChangeStep(s, step);
    case Force(node, subject) =>
      hide Less, Quorum;
    case Receive(node, record) =>
      hide Merge, Stored, Less;
      StoredAuthentic(s, s, node, record);
    case Join(node, now) =>
      hide Less;
    case Hear(node, now, remote) =>
      hide Updated, Less;
      HearStep(s, node, now, remote);
  }

  lemma CreateStep(s: State, step: Step)
    requires VotesInv(s) && StampsInv(s) && step.Create? && Enabled(s, step) && Advances(s, step)
    ensures StampsInv(Next(s, step))
  {
    hide Ticked, TickForward, Merge, Less, Stored, Honest, StampsInv;
    var stamp := Ticked(s.clocks[step.node], step.now);
    var written := Written(s, step.node, stamp, step.text);
    var r := Created(s, step);
    WriteKeepsTexts(s, step.node, step.now, step.text);
    ReplicasAuthentic(s, written);
    StoredAuthentic(s, written, step.node, r);
    RememberOne(written, r);
    PutKeepsInv(written.(history := s.history + {r}), step.node, Stored(s, step.node, r));
  }

  lemma ReplicasAuthentic(s: State, at: State)
    requires VotesInv(s) && StampsInv(at) && at.history == s.history
    ensures forall k :: k in s.replicas ==> Authentic(at, s.replicas[k])
  {
  }

  lemma RememberOne(s: State, r: Record)
    requires StampsInv(s) && Authentic(s, r)
    ensures StampsInv(s.(history := s.history + {r}))
  {
  }

  lemma ChangeStep(s: State, step: Step)
    requires VotesInv(s) && StampsInv(s) && (step.Vote? || step.Extend?) && Enabled(s, step) && Advances(s, step)
    ensures StampsInv(Next(s, step))
  {
    hide Ticked, TickForward, Less, Honest, StampsInv, Quorum;
    var r := s.replicas[Key(step.node, step.subject)];
    var stamp := Ticked(s.clocks[step.node], step.now);
    var written := Written(s, step.node, stamp, Text(r.reason, r.evidence));
    WriteKeepsTexts(s, step.node, step.now, Text(r.reason, r.evidence));
    if step.Vote? {
      var voted := s.voted + {Ballot(step.subject, step.voter)};
      OtherVotes(written, voted);
      PutKeepsInv(written.(voted := voted), step.node, Tombstoned(r, step.voter, stamp));
    } else {
      PutKeepsInv(written, step.node, Extended(r, step.additionalMs, stamp));
    }
  }

  lemma OtherVotes(s: State, voted: set<Ballot>)
    requires StampsInv(s)
    ensures StampsInv(s.(voted := voted))
  {
  }

  /** In every run, however long, in which no clock wraps: each stamp is written under once, and
      every record carries the text written under its stamp. */
  lemma {:induction false} StampsAreUnique(run: seq<Step>, n: nat)
    requires n <= |run| && Possible(run, n) && NeverWraps(run, n)
    ensures StampsInv(After(run, n))
  {
    hide Next, Enabled, Advances, StampsInv;
    if n == 0 {
      NothingWritten();
    } else {
      StampsAreUnique(run, n - 1);
      VotesAreReal(run, n - 1);
      StampsStep(After(run, n - 1), run[n - 1]);
    }
  }

  lemma NothingWritten()
    ensures StampsInv(INITIAL)
  {
  }

  /** Clocks and stamps have counted no further than `n`. */
  predicate CountersInv(s: State, n: nat) {
    && (forall node :: node in s.clocks ==> s.clocks[node].counter <= n)
    && (forall st :: st in s.authored ==> st.counter <= n)
  }

  lemma CountersStep(s: State, step: Step, n: nat)
    requires CountersInv(s, n) && Enabled(s, step) && n + 1 < COUNTERS
    ensures Advances(s, step) && CountersInv(Next(s, step), n + 1)
  {
    hide Ticked, Updated, Merge, Stored, Quorum;
    if step.Create? || step.Vote? || step.Extend? {
      CounterGrowth(s.clocks[step.node], step.now, s.clocks[step.node]);
    } else if step.Hear? {
      CounterGrowth(s.clocks[step.node], step.now, step.remote);
    }
  }

  /** A run of fewer than 2^32 steps is such a run. */
  lemma {:induction false} ShortRunsNeverWrap(run: seq<Step>, n: nat)
    requires n <= |run| && n < COUNTERS && Possible(run, n)
    ensures NeverWraps(run, n) && CountersInv(After(run, n), n)
  {
    hide Next, Enabled, Advances;
    if n > 0 {
      ShortRunsNeverWrap(run, n - 1);
      CountersStep(After(run, n - 1), run[n - 1], n - 1);
    }
  }

  /** One node, one clock reading, and a new record of the same subject 2^32 + 1 times: the last one
      differs from the first in its reason. */
  function Endless(): (run: seq<Step>)
    ensures |run| == COUNTERS + 2
    ensures forall i :: 0 <= i < |run| ==> run[i] == EndlessStep(i)
  {
    seq(COUNTERS + 2, i requires 0 <= i < COUNTERS + 2 => EndlessStep(i))
  }

  function EndlessStep(i: nat): (step: Step) {
    if i == 0 then Join(0, 0) else Create(0, 0, Net(V4, 0, 0), 1, Text(if i == 1 then "ssh" else "web", []), "node")
  }

  /** Another record at the same clock reading moves the counter on, around the end. */
  lemma EndlessNext(s: State, i: nat)
    requires 0 < i && 0 in s.clocks && s.clocks[0].wall == 0 && s.clocks[0].node == 0
    ensures Enabled(s, EndlessStep(i))
    ensures var s', stamp := Next(s, EndlessStep(i)), Stamp(0, Hlc.Next(s.clocks[0].counter), 0);
      && 0 in s'.clocks && s'.clocks[0] == stamp && s.history <= s'.history
      && Fresh(Net(V4, 0, 0), 1, if i == 1 then "ssh" else "web", [], "node", stamp) in s'.history
  {
    hide Merge, Stored, Fresh;
    assert Ticked(s.clocks[0], 0) == Stamp(0, Hlc.Next(s.clocks[0].counter), 0);
  }

  lemma {:induction false} EndlessRun(n: nat)
    requires 0 < n <= COUNTERS + 2
    ensures Possible(Endless(), n)
    ensures var s := After(Endless(), n);
      && 0 in s.clocks && s.clocks[0] == Stamp(0, (n - 1) % COUNTERS, 0)
      && (n > 1 ==> Fresh(Net(V4, 0, 0), 1, "ssh", [], "node", Stamp(0, 1, 0)) in s.history)
      && (n > 2 ==> Fresh(Net(V4, 0, 0), 1, "web", [], "node", Stamp(0, (n - 1) % COUNTERS, 0)) in s.history)
  {
    if n == 1 {
      EndlessStart();
    } else {
      hide Endless, EndlessStep, Fresh, After, Possible, Next, Enabled;
      EndlessRun(n - 1);
      EndlessNext(After(Endless(), n - 1), n - 1);
      OneStep(Endless(), n);
      CountOn(n - 2);
    }
  }

  lemma EndlessStart()
    ensures Possible(Endless(), 1) && After(Endless(), 1) == INITIAL.(clocks := map[0 := Stamp(0, 0, 0)])
  {
    hide Endless;
    assert Endless()[0] == Join(0, 0);
    OneStep(Endless(), 1);
  }

  lemma OneStep(run: seq<Step>, n: nat)
    requires 0 < n <= |run| && Possible(run, n - 1) && Enabled(After(run, n - 1), run[n - 1])
    ensures Possible(run, n) && After(run, n) == Next(After(run, n - 1), run[n - 1])
  {
    hide Next, Enabled;
  }

  lemma CountOn(n: nat)
    ensures Hlc.Next(n % COUNTERS) == (n + 1) % COUNTERS
  {
  }

  /** A wrap is enough to break what follows: in this run two records have the same last-modified
      stamp and different reasons. */
  lemma WrapBreaksAgreement()
    ensures var n := COUNTERS + 2;
      && Possible(Endless(), n)
      && exists a, b :: a in After(Endless(), n).history && b in After(Endless(), n).history && !Agree(a, b)
  {
    hide Endless, After, Possible;
    EndlessRun(COUNTERS + 2);
    var a := Fresh(Net(V4, 0, 0), 1, "ssh", [], "node", Stamp(0, 1, 0));
    var b := Fresh(Net(V4, 0, 0), 1, "web", [], "node", Stamp(0, 1, 0));
    assert a.reason == "ssh" && b.reason == "web" && a.reason[0] != b.reason[0];
    assert !Agree(a, b);
  }

  /** Where no clock wraps, any two records there ever were that have the same last-modified stamp
      carry the same reason and evidence. */
  lemma RecordsAgree(run: seq<Step>, n: nat, a: Record, b: Record)
    requires n <= |run| && Possible(run, n) && NeverWraps(run, n)
    requires a in After(run, n).history && b in After(run, n).history
    ensures Agree(a, b)
  {
    hide After, Possible;
    StampsAreUnique(run, n);
  }

  /** Merging the records of such a run commutes; and it is idempotent for every subject on
      which no flag was forced. */
  lemma RunMergesCommute(run: seq<Step>, n: nat, a: Record, b: Record)
    requires n <= |run| && Possible(run, n) && NeverWraps(run, n)
    requires a in After(run, n).history && b in After(run, n).history && a.subject == b.subject
    ensures Merge(a, b) == Merge(b, a)
    ensures a.subject !in After(run, n).forced ==> Merge(a, a) == Some(a)
  {
    hide After, Possible;
    RecordsAgree(run, n, a, b);
    VotesAreReal(run, n);
    MergeCommutesIff(a, b);
    MergeIdempotentIff(a);
  }

  // ----- what a replica holds -------------------------------------------------------------

  /** What a replica is made of after a step, given what it was made of before. */
  function ArrivalsNext(s: State, step: Step, k: Key, before: seq<Record>): (r: seq<Record>)
    requires Enabled(s, step)
  {
    if !About(step, k) then before
    else if step.Create? then before + [Created(s, step)]
    else if step.Receive? then before + [step.record]
    else if k in Next(s, step).replicas then [Next(s, step).replicas[k]] else []
  }

  /** The records a replica is made of: those that came in since its last local change, after
      what that change left. */
  function Arrivals(run: seq<Step>, k: Key, n: nat): (r: seq<Record>)
    requires n <= |run| && Possible(run, n)
  {
    if n == 0 then [] else ArrivalsNext(After(run, n - 1), run[n - 1], k, Arrivals(run, k, n - 1))
  }

  lemma AbsorbSnoc(states: seq<Record>, r: Record)
    requires states != [] && Absorb(states).Some?
    ensures Absorb(states + [r]) == Merge(Absorb(states).value, r)
  {
    assert (states + [r])[..|states|] == states;
  }

  lemma AbsorbOne(r: Record)
    ensures Absorb([r]) == Some(r)
  {
  }

  /** The replica is the merge of the records, all of them records of the run about its subject. */
  ghost predicate MadeOf(s: State, k: Key, arrivals: seq<Record>) {
    && (k in s.replicas <==> arrivals != [])
    && (k in s.replicas ==> Absorb(arrivals) == Some(s.replicas[k]))
    && (forall r :: r in arrivals ==> r in s.history && r.subject == k.subject)
  }

  lemma MadeOfStep(s: State, step: Step, k: Key, arrivals: seq<Record>)
    requires VotesInv(s) && Enabled(s, step) && MadeOf(s, k, arrivals)
    ensures MadeOf(Next(s, step), k, ArrivalsNext(s, step, k, arrivals))
  {
    hide Absorb, Merge, Ticked, Quorum;
    if !About(step, k) {
      NotAbout(s, step, k);
      VotesStep(s, step);
    } else if step.Receive? {
      hide Stored;
      ArrivalAbsorbed(s, k, arrivals, step.record);
      StoredSubject(s, step.node, step.record);
    } else if step.Create? {
      hide Stored;
      ArrivalAbsorbed(s, k, arrivals, Created(s, step));
      StoredSubject(s, step.node, Created(s, step));
    } else {
      hide Stored;
      AbsorbOne(Next(s, step).replicas[k]);
    }
  }

  /** In every run, every replica is the merge, in order of arrival, of the records it is made
      of, all of them records of the run about its subject. */
  lemma {:induction false} ReplicaIsAbsorbed(run: seq<Step>, k: Key, n: nat)
    requires n <= |run| && Possible(run, n)
    ensures MadeOf(After(run, n), k, Arrivals(run, k, n))
  {
    hide Next, Enabled, ArrivalsNext, Absorb;
    if n > 0 {
      ReplicaIsAbsorbed(run, k, n - 1);
      VotesAreReal(run, n - 1);
      MadeOfStep(After(run, n - 1), run[n - 1], k, Arrivals(run, k, n - 1));
    }
  }

  lemma ArrivalAbsorbed(s: State, k: Key, arrivals: seq<Record>, r: Record)
    requires VotesInv(s) && r.subject == k.subject && (k in s.replicas <==> arrivals != [])
    requires k in s.replicas ==> Absorb(arrivals) == Some(s.replicas[k])
    ensures Absorb(arrivals + [r]) == Some(Stored(s, k.node, r))
  {
    hide Absorb, Merge;
    if k in s.replicas {
      AbsorbSnoc(arrivals, r);
      MergeSome(s.replicas[k], r);
    } else {
      AbsorbOne(r);
      assert arrivals + [r] == [r];
    }
  }

  /** So replicas converge: in every run in which no clock wraps, two nodes whose replicas of a
      subject are made of the same records, however ordered or repeated, hold the same record up
      to the tombstone flag; and the same flag except exactly when one of them holds a single
      record whose flag was forced and the other has merged it. */
  lemma ReplicasConverge(run: seq<Step>, n: nat, a: Key, b: Key)
    requires n <= |run| && Possible(run, n) && NeverWraps(run, n)
    requires a.subject == b.subject && a in After(run, n).replicas && b in After(run, n).replicas
    requires Elements(Arrivals(run, a, n)) == Elements(Arrivals(run, b, n))
    ensures SameButFlag(After(run, n).replicas[a], After(run, n).replicas[b])
    ensures Arrivals(run, a, n) != []
    ensures After(run, n).replicas[a] == After(run, n).replicas[b] <==>
      (|Arrivals(run, a, n)| == 1 <==> |Arrivals(run, b, n)| == 1) || HonestFlag(Arrivals(run, a, n)[0])
    ensures a.subject !in After(run, n).forced ==> After(run, n).replicas[a] == After(run, n).replicas[b]
  {
    hide After, Possible, Arrivals, Absorb, Agree, Quorum, SameButFlag;
    VotesAreReal(run, n);
    ReplicaIsAbsorbed(run, a, n);
    ReplicaIsAbsorbed(run, b, n);
    var first := Arrivals(run, a, n);
    forall x, y | x in Elements(first) && y in Elements(first) ensures x.subject == y.subject && Agree(x, y) {
      RecordsAgree(run, n, x, y);
    }
    Convergence(first, Arrivals(run, b, n));
    assert first[0] in first;
  }
}
