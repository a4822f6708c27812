/**
 What a node does with bans its peers send: which ones change its store, and what the
 store holds after any sequence of deliveries. The store is its map of bans, with
 canonical subjects; the recovery and revocation layer is an arbitrary accept predicate.
 */
module Replication {
  import opened Options
  import opened Cidr
  import opened Bans
  import opened BanStore
  import Announce
  import Whitelist

  /** Records are compared by creation time, then by expiry, absent before present. */
  predicate KeyLess(a: BanRecord, b: BanRecord) {
    || a.createdAt < b.createdAt
    || (a.createdAt == b.createdAt && b.expiresAt.Some? && (a.expiresAt.None? || a.expiresAt.value < b.expiresAt.value))
  }

  predicate SameKey(a: BanRecord, b: BanRecord) {
    a.createdAt == b.createdAt && a.expiresAt == b.expiresAt
  }

  /** Any two keys compare: the later start is greater; with the same start the later end; and a
      ban without an end is less than one with. */
  lemma KeyOrder(a: BanRecord, b: BanRecord, c: BanRecord)
    ensures KeyLess(a, b) || KeyLess(b, a) || SameKey(a, b)
    ensures !(KeyLess(a, b) && (KeyLess(b, a) || SameKey(a, b)))
    ensures KeyLess(a, b) && KeyLess(b, c) ==> KeyLess(a, c)
    ensures a.createdAt < b.createdAt ==> KeyLess(a, b)
    ensures a.createdAt == b.createdAt && b.expiresAt.Some? ==>
      (KeyLess(a, b) <==> a.expiresAt.None? || a.expiresAt.value < b.expiresAt.value)
  {
  }

  /** The most specific ban on a subject's own address. */
  function Answer(bans: BanMap, subject: IpNet): (r: Option<BanRecord>) {
    Lookup(bans, subject.Addr(), Bits(subject.family))
  }

  predicate RemoteChangesState(bans: BanMap, record: BanRecord) {
    var existing := Answer(bans, record.subject);
    existing.None?
    || (existing.value.subject == record.subject && existing.value.source.ClusterPeer?
        && KeyLess(existing.value, record))
  }

  /** What the store layer keeps: bans under their own, canonical subjects. */
  predicate Canonical(bans: BanMap) {
    forall n :: n in bans ==> bans[n].subject == n && n.Canonical()
  }

  /** Provenance: a record that does not name its signer is attributed to the sender. */
  function Attributed(record: BanRecord, from: string): (r: BanRecord) {
    if record.source.ClusterPeer? then record else record.(source := ClusterPeer(from))
  }

  /** The record as the store layer writes it, with host bits cleared. */
  function Kept(record: BanRecord, from: string): (r: BanRecord) {
    Attributed(record, from).(subject := record.subject.Trunc())
  }

  // ----- one admitted record -------------------------------------------------------------------

  lemma TruncIsCanonical(n: IpNet)
    ensures n.Trunc().Valid() && n.Trunc().Canonical() && n.Trunc().Contains(n.Addr())
    ensures n.Canonical() ==> n.Trunc() == n
  {
    hide Net.Contains, Net.Canonical, Net.Network;
    AroundCanonical(n.Addr(), n.prefix);
    TruncIsAround(n);
    if n.Canonical() {
      CanonicalTrunc(n);
    }
  }

  lemma TruncIsAround(n: IpNet)
    ensures n.Trunc() == Around(n.Addr(), n.prefix)
  {
  }

  lemma CanonicalTrunc(n: IpNet)
    requires n.Canonical()
    ensures n.Trunc() == n
  {
  }

  /** The network behind an answer: the longest stored one that holds the address. */
  lemma AnswerNet(bans: BanMap, subject: IpNet) returns (n: IpNet)
    requires Canonical(bans) && Answer(bans, subject).Some?
    ensures n in bans && n.Contains(subject.Addr()) && Answer(bans, subject) == Some(bans[n])
    ensures forall m :: m in bans && m.Contains(subject.Addr()) ==> m.prefix <= n.prefix
  {
    hide Net.Contains, Net.Canonical, Lookup;
    var a := subject.Addr();
    LookupIsLongest(bans, a, Bits(a.family));
    n :| Holds(bans, n, a) && bans[n] == Answer(bans, subject).value
      && forall m: IpNet :: Holds(bans, m, a) && m.prefix <= Bits(a.family) ==> m.prefix <= n.prefix;
    forall m | m in bans && m.Contains(a) ensures m.prefix <= n.prefix {
      HeldIsAround(bans, m, a);
    }
  }

  lemma NoAnswer(bans: BanMap, subject: IpNet, n: IpNet)
    requires Canonical(bans) && n in bans && n.Contains(subject.Addr())
    ensures Answer(bans, subject).Some?
  {
    hide Net.Contains, Net.Canonical, Lookup;
    LookupIsLongest(bans, subject.Addr(), Bits(subject.family));
    HeldIsAround(bans, n, subject.Addr());
    assert Holds(bans, n, subject.Addr());
  }

  /** An admitted record never replaces a ban of the node itself or its administrator: if
      its network is stored at all, then under a peer's name and with a smaller key. */
  lemma NeverOverwritesLocal(bans: BanMap, record: BanRecord)
    requires Canonical(bans) && RemoteChangesState(bans, record) && record.subject.Trunc() in bans
    ensures bans[record.subject.Trunc()].source.ClusterPeer? && KeyLess(bans[record.subject.Trunc()], record)
    ensures record.subject.Canonical()
  {
    hide Net.Contains, Net.Canonical, Answer, Net.Network;
    TruncIsCanonical(record.subject);
    NoAnswer(bans, record.subject, record.subject.Trunc());
    var n := AnswerNet(bans, record.subject);
    assert n == record.subject;
    TruncIsCanonical(n);
  }

  /** After it is stored, an admitted record is the answer for its own address. */
  lemma AdmittedIsAnswer(bans: BanMap, record: BanRecord, from: string)
    requires Canonical(bans) && RemoteChangesState(bans, record)
    ensures var kept := Kept(record, from);
      && Canonical(bans[kept.subject := kept])
      && Answer(bans[kept.subject := kept], record.subject) == Some(kept)
  {
    hide Net.Contains, Net.Canonical, Answer, Net.Network;
    var kept, a := Kept(record, from), record.subject.Addr();
    var after := bans[kept.subject := kept];
    TruncIsCanonical(record.subject);
    NoAnswer(after, record.subject, kept.subject);
    var n := AnswerNet(after, record.subject);
    if n != kept.subject {
      NoAnswer(bans, record.subject, n);
      var m := AnswerNet(bans, record.subject);
      SameLength(n, kept.subject, a);
    }
  }

  /** Two canonical blocks of one length around an address are the same block. */
  lemma SameLength(n: IpNet, m: IpNet, a: Address)
    requires n.Canonical() && m.Canonical() && n.Contains(a) && m.Contains(a)
    ensures n.prefix == m.prefix ==> n == m
  {
    if n.prefix == m.prefix {
      AroundIsTheOne(n, a);
      AroundIsTheOne(m, a);
    }
  }

  // ----- applying what peers send -------------------------------------------------------------

  /** The filters a record passes before it can change the store. */
  datatype Gate = Gate(policy: Announce.Policy, whitelist: set<IpNet>, accepts: BanRecord -> bool)

  predicate Passes(gate: Gate, record: BanRecord, now: Time) {
    && Announce.RemotePolicyAllows(gate.policy, record, now)
    && !Whitelist.Overlaps(gate.whitelist, record.subject)
    && gate.accepts(record)
    && !Whitelist.Overlaps(gate.whitelist, record.subject.Trunc())
  }

  lemma TruncSame(n: IpNet, a: Address)
    ensures n.Trunc().Contains(a) <==> n.Contains(a)
  {
    TruncIsCanonical(n);
  }

  /** Clearing host bits changes nothing about overlap, so the second test of the whitelist never
      decides anything. */
  lemma TruncKeepsOverlap(whitelist: set<IpNet>, n: IpNet)
    ensures Whitelist.Overlaps(whitelist, n.Trunc()) <==> Whitelist.Overlaps(whitelist, n)
  {
    hide Net.Contains, Net.Trunc, Whitelist.Overlaps, Whitelist.IsWhitelisted;
    Whitelist.OverlapsIffSharedAddress(whitelist, n);
    Whitelist.OverlapsIffSharedAddress(whitelist, n.Trunc());
    forall a: Address ensures n.Trunc().Contains(a) <==> n.Contains(a) {
      TruncSame(n, a);
    }
  }

  /** A record from a peer, at the time it is applied, with the filters of that time. */
  datatype Delivery = Delivery(record: BanRecord, from: string, now: Time, gate: Gate)

  predicate Passing(d: Delivery) {
    Passes(d.gate, d.record, d.now)
  }

  function KeptOf(d: Delivery): (r: BanRecord) {
    Kept(d.record, d.from)
  }

  predicate Admits(bans: BanMap, d: Delivery) {
    Passing(d) && RemoteChangesState(bans, d.record)
  }

  function Apply(bans: BanMap, d: Delivery): (r: BanMap) {
    if Admits(bans, d) then bans[KeptOf(d).subject := KeptOf(d)] else bans
  }

  /** Any number of deliveries, from any peers at any times. */
  function ApplyAll(bans: BanMap, ds: seq<Delivery>): (r: BanMap) {
    if ds == [] then bans else Apply(ApplyAll(bans, ds[..|ds| - 1]), ds[|ds| - 1])
  }

  /** The networks handed to the enforcer, one for each record admitted. */
  function Enforced(bans: BanMap, ds: seq<Delivery>): (r: seq<IpNet>) {
    if ds == [] then []
    else
      var init, last := ds[..|ds| - 1], ds[|ds| - 1];
      Enforced(bans, init) + if Admits(ApplyAll(bans, init), last) then [last.record.subject] else []
  }

  /** The deliveries of one message. */
  function Batch(records: seq<BanRecord>, gate: Gate, from: string, now: Time): (ds: seq<Delivery>)
    ensures |ds| == |records|
    ensures forall i :: 0 <= i < |ds| ==> ds[i] == Delivery(records[i], from, now, gate)
  {
    seq(|records|, i requires 0 <= i < |records| => Delivery(records[i], from, now, gate))
  }

  /** Store the records that pass, in the order they arrive, and list what to enforce. */
  method ApplyBans(store: InMemoryBanStore, gate: Gate, records: seq<BanRecord>, from: string, now: Time)
      returns (toEnforce: seq<IpNet>)
    requires store.Valid()
    modifies store, store.v4PrefixCounts, store.v6PrefixCounts
    ensures store.Valid() && store.bans == ApplyAll(old(store.bans), Batch(records, gate, from, now))
    ensures toEnforce == Enforced(old(store.bans), Batch(records, gate, from, now))
  {
    hide Passes, Batch;
    toEnforce := [];
    ghost var ds := Batch(records, gate, from, now);
    for i := 0 to |records|
      invariant store.Valid() && store.bans == ApplyAll(old(store.bans), ds[..i])
      invariant toEnforce == Enforced(old(store.bans), ds[..i])
    {
      var record := records[i];
      assert ds[..i + 1][..i] == ds[..i];
      if Passes(gate, record, now) {
        var existing := store.IsBanned(record.subject.Addr());
        if existing.None? || (existing.value.subject == record.subject && existing.value.source.ClusterPeer?
                              && KeyLess(existing.value, record)) {
          store.AddBan(Kept(record, from));
          toEnforce := toEnforce + [record.subject];
        }
      }
    }
    assert ds[..|ds|] == ds;
  }

  /** Whatever peers send, in any number and order, at any times and under any filters: the store
      stays canonical, and every ban of the node's own detectors and administrator is still
      there, unchanged. */
  lemma {:induction false} LocalBansSurvive(bans: BanMap, ds: seq<Delivery>)
    requires Canonical(bans)
    ensures Canonical(ApplyAll(bans, ds))
    ensures forall n :: n in bans && !bans[n].source.ClusterPeer? ==>
      n in ApplyAll(bans, ds) && ApplyAll(bans, ds)[n] == bans[n]
  {
    hide Canonical, Passes, RemoteChangesState, Net.Network;
    if ds != [] {
      var init, last := ds[..|ds| - 1], ds[|ds| - 1];
      LocalBansSurvive(bans, init);
      var before := ApplyAll(bans, init);
      if RemoteChangesState(before, last.record) {
        AdmittedIsAnswer(before, last.record, last.from);
        if last.record.subject.Trunc() in before {
          NeverOverwritesLocal(before, last.record);
        }
      }
    }
  }

  ghost predicate Changed(bans: BanMap, after: BanMap, n: IpNet) {
    n in after && (n !in bans || after[n] != bans[n])
  }

  /** The enforcer hears of every network whose ban is new or replaced, and only of networks
      that are stored, with their host bits cleared. */
  lemma {:induction false} EnforcedIsStored(bans: BanMap, ds: seq<Delivery>)
    ensures var after, told := ApplyAll(bans, ds), Enforced(bans, ds);
      && bans.Keys <= after.Keys
      && (forall n :: n in told ==> n.Trunc() in after)
      && (forall n :: Changed(bans, after, n) ==> exists e :: e in told && e.Trunc() == n)
  {
    hide Admits, Net.Trunc;
    if ds != [] {
      var init, last := ds[..|ds| - 1], ds[|ds| - 1];
      EnforcedIsStored(bans, init);
      var before, after, told := ApplyAll(bans, init), ApplyAll(bans, ds), Enforced(bans, ds);
      forall n | Changed(bans, after, n) ensures exists e :: e in told && e.Trunc() == n {
        if n == last.record.subject.Trunc() && Admits(before, last) {
          assert last.record.subject in told;
        } else {
          assert Changed(bans, before, n);
        }
      }
    }
  }

  /** Where a ban that peers changed comes from: a record that was delivered and let pass by every
      filter of its time, stored with its host bits cleared and under the name of its signer, or of
      the sender if it names none. */
  ghost predicate ComesFrom(ban: BanRecord, n: IpNet, d: Delivery) {
    var r, gate := d.record, d.gate;
    && n == r.subject.Trunc()
    && ban == r.(subject := n, source := if r.source.ClusterPeer? then r.source else ClusterPeer(d.from))
    && gate.accepts(r) && Announce.RemotePolicyAllows(gate.policy, r, d.now)
  }

  /** The blast radius: over any deliveries, every network that is new or replaced came from a
      record that was let pass, ends, and is no wider than the limit of the filters of its time. */
  lemma {:induction false} BlastRadius(bans: BanMap, ds: seq<Delivery>, n: IpNet)
    requires Changed(bans, ApplyAll(bans, ds), n)
    ensures var ban := ApplyAll(bans, ds)[n];
      && ban.expiresAt.Some?
      && exists d :: d in ds && ComesFrom(ban, n, d) && d.now < ban.expiresAt.value
           && n.prefix >= if n.family.V4? then d.gate.policy.minPrefixV4 else d.gate.policy.minPrefixV6
  {
    hide RemoteChangesState, Net.Network, Announce.RemotePolicyAllows, Whitelist.Overlaps;
    var init, last := ds[..|ds| - 1], ds[|ds| - 1];
    var before := ApplyAll(bans, init);
    if Admits(before, last) && n == last.record.subject.Trunc() {
      Announce.AcceptedInstants(last.gate.policy, last.record, last.now);
      assert ComesFrom(ApplyAll(bans, ds)[n], n, last);
    } else {
      BlastRadius(bans, init, n);
    }
  }

  /** No stored network holds an address that is whitelisted by `entries` or immutably. */
  ghost predicate Spares(bans: BanMap, entries: set<IpNet>) {
    forall n: IpNet, a: Address :: n in bans && n.Contains(a) ==> !Whitelist.IsWhitelisted(entries, a)
  }

  /** Entries that were whitelisted all along, and the immutable ranges, are spared address by
      address, whatever peers send. */
  lemma {:induction false} NothingProtectedIsBanned(bans: BanMap, entries: set<IpNet>, ds: seq<Delivery>)
    requires Spares(bans, entries) && forall d :: d in ds ==> entries <= d.gate.whitelist
    ensures Spares(ApplyAll(bans, ds), entries)
  {
    hide RemoteChangesState, Passes, Whitelist.IsWhitelisted, Net.Contains, Net.Trunc;
    if ds != [] {
      var init, last := ds[..|ds| - 1], ds[|ds| - 1];
      NothingProtectedIsBanned(bans, entries, init);
      if Passing(last) {
        forall a: Address | KeptOf(last).subject.Contains(a) ensures !Whitelist.IsWhitelisted(entries, a) {
          PassedIsSpared(last, entries, a);
        }
      }
    }
  }

  lemma PassedIsSpared(d: Delivery, entries: set<IpNet>, a: Address)
    requires Passing(d) && entries <= d.gate.whitelist && KeptOf(d).subject.Contains(a)
    ensures !Whitelist.IsWhitelisted(entries, a)
  {
    hide Net.Contains, Net.Trunc, Announce.RemotePolicyAllows, Whitelist.Overlaps;
    Whitelist.OverlapsIffSharedAddress(d.gate.whitelist, d.record.subject.Trunc());
    assert Whitelist.IsWhitelisted(entries, a) ==> Whitelist.IsWhitelisted(d.gate.whitelist, a);
  }

  // ----- delivery order does not matter ----------------------------------------------------------

  /** No other stored network holds the subject's address. */
  predicate Alone(bans: BanMap, subject: IpNet) {
    forall n :: n in bans && n.Contains(subject.Addr()) ==> n == subject
  }

  /** With nothing else around the address, admission is a comparison with what is stored. */
  lemma AloneAnswer(bans: BanMap, subject: IpNet)
    requires Canonical(bans) && Alone(bans, subject) && subject.Canonical()
    ensures Answer(bans, subject) == if subject in bans then Some(bans[subject]) else None
  {
    hide Net.Contains, Net.Canonical, Answer, Net.Network;
    if Answer(bans, subject).Some? {
      var n := AnswerNet(bans, subject);
    }
    if subject in bans {
      TruncIsCanonical(subject);
      NoAnswer(bans, subject, subject);
    }
  }

  /** `r` has the greatest key of `records`. */
  ghost predicate HasGreatestKey(r: BanRecord, records: set<BanRecord>) {
    && (exists x :: x in records && SameKey(r, x))
    && (forall x :: x in records ==> !KeyLess(r, x))
  }

  function StoredAs(bans: BanMap, subject: IpNet): (r: set<BanRecord>) {
    if subject in bans then {bans[subject]} else {}
  }

  /** The records among deliveries that pass and are about a subject. */
  ghost function Offers(ds: seq<Delivery>, subject: IpNet): (r: set<BanRecord>) {
    set d | d in ds && Passing(d) && d.record.subject == subject :: d.record
  }

  /** No other network that passes holds the subject's address. */
  ghost predicate OnlyThis(ds: seq<Delivery>, subject: IpNet) {
    forall d :: d in ds && Passing(d) && KeptOf(d).subject.Contains(subject.Addr()) ==> d.record.subject == subject
  }

  /** However the deliveries are ordered or repeated, whoever sent them whenever, and whatever
      else is delivered in between: if no other network stored or accepted holds the subject's
      address, the store ends with the greatest key among what it held about the subject and what
      it was offered and its filters let pass. */
  lemma {:induction false} GreatestKeyWins(bans: BanMap, ds: seq<Delivery>, subject: IpNet)
    requires Canonical(bans) && Alone(bans, subject) && subject.Canonical() && OnlyThis(ds, subject)
    requires subject in bans ==> bans[subject].source.ClusterPeer?
    ensures var after, candidates := ApplyAll(bans, ds), Offers(ds, subject) + StoredAs(bans, subject);
      && Canonical(after) && Alone(after, subject)
      && (subject in after <==> candidates != {})
      && (subject in after ==> after[subject].source.ClusterPeer? && HasGreatestKey(after[subject], candidates))
  {
    if ds == [] {
      hide Net.Contains, Net.Canonical, Alone, Canonical, Passing;
      assert Offers(ds, subject) == {};
    } else {
      hide Passing, Offers, StoredAs, HasGreatestKey, Alone, Canonical, Apply, Net.Contains, Net.Canonical, KeptOf;
      var init, last := ds[..|ds| - 1], ds[|ds| - 1];
      OffersMore(init, last, subject);
      assert ds == init + [last];
      GreatestKeyWins(bans, init, subject);
      var earlier, more := Offers(init, subject) + StoredAs(bans, subject), OfferOf(last, subject);
      OneMoreDelivery(ApplyAll(bans, init), last, subject, earlier);
      Swap(Offers(init, subject), more, StoredAs(bans, subject));
    }
  }

  lemma Swap<T>(a: set<T>, b: set<T>, c: set<T>)
    ensures a + b + c == a + c + b
  {
  }

  /** What one delivery offers about a subject. */
  function OfferOf(d: Delivery, subject: IpNet): (r: set<BanRecord>) {
    if Passing(d) && d.record.subject == subject then {d.record} else {}
  }

  lemma OneMoreDelivery(before: BanMap, d: Delivery, subject: IpNet, earlier: set<BanRecord>)
    requires Canonical(before) && Alone(before, subject) && subject.Canonical()
    requires Passing(d) && KeptOf(d).subject.Contains(subject.Addr()) ==> d.record.subject == subject
    requires subject in before <==> earlier != {}
    requires subject in before ==> before[subject].source.ClusterPeer? && HasGreatestKey(before[subject], earlier)
    ensures var after, candidates := Apply(before, d), earlier + OfferOf(d, subject);
      && Canonical(after) && Alone(after, subject)
      && (subject in after <==> candidates != {})
      && (subject in after ==> after[subject].source.ClusterPeer? && HasGreatestKey(after[subject], candidates))
  {
    hide Net.Contains, Net.Canonical, Answer, Net.Network, Passes, RemoteChangesState, Net.Trunc, HasGreatestKey;
    if Passing(d) && d.record.subject == subject {
      AloneAnswer(before, subject);
      TruncIsCanonical(subject);
      OneMoreKey(before, d.record, d.from, subject, earlier);
    } else {
      assert earlier + OfferOf(d, subject) == earlier;
      AnotherNet(before, d, subject);
    }
  }

  lemma OffersMore(init: seq<Delivery>, last: Delivery, subject: IpNet)
    ensures Offers(init + [last], subject) == Offers(init, subject) + OfferOf(last, subject)
  {
    hide Passes;
    assert forall d :: d in init + [last] <==> d in init || d == last;
  }

  /** A delivery that does not pass or is stored elsewhere leaves the subject as it is. */
  lemma AnotherNet(before: BanMap, d: Delivery, subject: IpNet)
    requires Canonical(before) && Alone(before, subject) && subject.Canonical()
    requires Passing(d) ==> !KeptOf(d).subject.Contains(subject.Addr())
    ensures var after := Apply(before, d);
      && Canonical(after) && Alone(after, subject) && (subject in after <==> subject in before)
      && (subject in before ==> after[subject] == before[subject])
  {
    hide Net.Contains, Net.Canonical, Answer, Net.Network, Passes, RemoteChangesState, Net.Trunc;
    TruncIsCanonical(subject);
    TruncIsCanonical(d.record.subject);
  }

  lemma OneMoreKey(before: BanMap, last: BanRecord, from: string, subject: IpNet, earlier: set<BanRecord>)
    requires last.subject == subject && subject.Trunc() == subject && subject.Canonical() && Canonical(before) && Alone(before, subject)
    requires Answer(before, subject) == if subject in before then Some(before[subject]) else None
    requires subject in before <==> earlier != {}
    requires subject in before ==> before[subject].source.ClusterPeer? && HasGreatestKey(before[subject], earlier)
    ensures var after := if RemoteChangesState(before, last) then before[subject := Kept(last, from)] else before;
      && Canonical(after) && Alone(after, subject) && subject in after && after[subject].source.ClusterPeer?
      && HasGreatestKey(after[subject], earlier + {last})
  {
    hide Net.Contains, Net.Canonical, Answer, Net.Network, Net.Trunc;
    if subject in before && !KeyLess(before[subject], last) {
      var x :| x in earlier && SameKey(before[subject], x);
      assert x in earlier + {last};
    } else {
      assert last in earlier + {last} && SameKey(Kept(last, from), last);
    }
  }

  /** With a wider network around the address, the order does matter: a narrow ban that comes
      first is stored, and the same ban after the wide one is not. */
  lemma OrderMatters(wide: Delivery, narrow: Delivery)
    requires Passing(wide) && Passing(narrow) && wide.record.subject.Canonical() && narrow.record.subject.Canonical()
    requires wide.record.subject.Contains(narrow.record.subject.Addr())
    requires !narrow.record.subject.Contains(wide.record.subject.Addr())
    ensures narrow.record.subject in ApplyAll(map[], [narrow, wide])
    ensures narrow.record.subject !in ApplyAll(map[], [wide, narrow])
  {
    hide Net.Contains, Net.Canonical, Net.Network, Net.Trunc, Passes, Lookup;
    TruncIsCanonical(narrow.record.subject);
    TruncIsCanonical(wide.record.subject);
    NothingStored(narrow);
    NothingStored(wide);
    Twice(map[], narrow, wide);
    Twice(map[], wide, narrow);
    var one := Apply(map[], wide);
    NoAnswer(one, narrow.record.subject, wide.record.subject);
    var n := AnswerNet(one, narrow.record.subject);
  }

  lemma Twice(bans: BanMap, first: Delivery, second: Delivery)
    ensures ApplyAll(bans, [first, second]) == Apply(Apply(bans, first), second)
  {
    hide Apply;
    assert [first, second][..1] == [first] && [first][..0] == [];
    assert ApplyAll(bans, [first]) == Apply(ApplyAll(bans, []), first);
  }

  /** An empty store admits whatever passes. */
  lemma NothingStored(d: Delivery)
    requires Passing(d)
    ensures Apply(map[], d) == map[KeptOf(d).subject := KeptOf(d)]
  {
    hide Lookup, Passes, Net.Contains, Net.Canonical;
    if Answer(map[], d.record.subject).Some? {
      var n := AnswerNet(map[], d.record.subject);
    }
  }

  /** A ban that is in force is not cleaned up. */
  lemma InForceSurvives(before: BanMap, after: BanMap, now: Time, n: IpNet)
    requires IsCleaned(before, after, now) && n in before && Announce.InForce(before[n], now)
    ensures n in after && after[n] == before[n]
  {
  }

  // ----- the next window of a long ban ----------------------------------------------------------------

  /** A peer that holds one window of a long ban, and nothing else around its address, takes a later
      announcement exactly when it is of another window. */
  lemma NextWindowIff(bans: BanMap, record: BanRecord, maxSecs: int, now: Time, later: Time, from: string)
    requires Canonical(bans) && Alone(bans, record.subject) && record.subject.Canonical()
    requires Announce.Running(record, maxSecs, now) && Announce.Running(record, maxSecs, later) && now <= later
    requires Announce.Long(record, maxSecs)
    requires var held := Announce.AnnouncedForm(record, maxSecs, now);
      held.Announced? && record.subject in bans && bans[record.subject] == Kept(held.record, from)
    ensures var next := Announce.AnnouncedForm(record, maxSecs, later);
      && next.Announced? && next.record.subject == record.subject
      && (RemoteChangesState(bans, next.record) <==>
            Announce.Slice(record, maxSecs, now) != Announce.Slice(record, maxSecs, later))
  {
    hide Announce.Slice, Announce.StartOf, Announce.AnnouncedForm, Net.Contains, Net.Canonical, Net.Network, Answer;
    Announce.AnnouncedIsWindow(record, maxSecs, later);
    Announce.AnnouncedIsWindow(record, maxSecs, now);
    Announce.AnnouncementsOverTime(record, maxSecs, now, later);
    AloneAnswer(bans, record.subject);
  }

  /** And it stores it, if its own limit is no shorter and its filters let the ban's network pass:
      when one window ends, the next takes its place. */
  lemma NextWindowStored(bans: BanMap, record: BanRecord, maxSecs: int, now: Time, later: Time, from: string, d: Delivery)
    requires Canonical(bans) && Alone(bans, record.subject) && record.subject.Canonical()
    requires Announce.Running(record, maxSecs, now) && Announce.Running(record, maxSecs, later) && now <= later
    requires Announce.Long(record, maxSecs) && Announce.Slice(record, maxSecs, now) != Announce.Slice(record, maxSecs, later)
    requires var held := Announce.AnnouncedForm(record, maxSecs, now);
      held.Announced? && record.subject in bans && bans[record.subject] == Kept(held.record, from)
    requires var next := Announce.AnnouncedForm(record, maxSecs, later);
      next.Announced? && d.record == next.record && next.record.expiresAt.Some? && later <= d.now < next.record.expiresAt.value
    requires maxSecs <= d.gate.policy.maxTtlSecs <= Announce.I64_MAX && Announce.PrefixAllowed(d.gate.policy, record.subject)
    requires !Whitelist.Overlaps(d.gate.whitelist, record.subject) && d.gate.accepts(d.record)
    ensures record.subject in Apply(bans, d) && Apply(bans, d)[record.subject] == KeptOf(d)
    ensures Announce.InForce(KeptOf(d), later)
  {
    hide Announce.Slice, Announce.StartOf, Announce.AnnouncedForm, Announce.RemotePolicyAllows, Net.Contains, Net.Canonical,
         Net.Network, Answer, RemoteChangesState, Whitelist.Overlaps;
    NextWindowIff(bans, record, maxSecs, now, later, from);
    Announce.AnnouncedIsAccepted(record, maxSecs, later, d.gate.policy, d.now);
    TruncKeepsOverlap(d.gate.whitelist, record.subject);
    TruncIsCanonical(record.subject);
    Announce.AnnouncedIsWindow(record, maxSecs, later);
    Announce.SliceHoldsNow(record, maxSecs, later);
    Announce.SlicesApart(record, maxSecs, Announce.Slice(record, maxSecs, later), 0);
  }
}
