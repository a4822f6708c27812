/**
 The in-memory ban store: a map from networks to bans, with a count of stored networks
 per prefix length that lets a lookup skip the lengths nobody uses.

 Lookups build their keys with host bits cleared, so they see exactly the stored
 networks that are canonical; the contracts say so for every store.
 */
module BanStore {
  import opened Options
  import opened Arith
  import opened Cidr
  import opened Bans

  type BanMap = map<IpNet, BanRecord>

  /** The plain lookup: try every prefix length from `len` down. */
  function Lookup(bans: BanMap, a: Address, len: nat): (r: Option<BanRecord>)
    requires len <= Bits(a.family)
  {
    if Around(a, len) in bans then Some(bans[Around(a, len)])
    else if len == 0 then None
    else Lookup(bans, a, len - 1)
  }

  /** A stored network that a lookup of `a` can see. */
  predicate Holds(bans: BanMap, n: IpNet, a: Address) {
    n in bans && n.Canonical() && n.Contains(a)
  }

  /** `r` is the ban on the longest stored network that holds `a`. */
  ghost predicate IsLongest(bans: BanMap, a: Address, len: nat, r: Option<BanRecord>) {
    match r
    case None => forall n: IpNet :: n.prefix <= len ==> !Holds(bans, n, a)
    case Some(ban) =>
      exists n: IpNet :: Holds(bans, n, a) && bans[n] == ban && n.prefix <= len
        && forall m: IpNet :: Holds(bans, m, a) && m.prefix <= len ==> m.prefix <= n.prefix
  }

  /** A network that holds `a` is the one around `a`. */
  lemma HeldIsAround(bans: BanMap, n: IpNet, a: Address)
    ensures n.prefix <= Bits(a.family) ==> (Holds(bans, n, a) <==> n in bans && n == Around(a, n.prefix))
    ensures Holds(bans, n, a) ==> n.prefix <= Bits(a.family)
  {
    if n.prefix <= Bits(a.family) {
      AroundIsTheOne(n, a);
    }
  }

  /** The lookup finds what a linear scan for the longest match would find. */
  lemma {:induction false} LookupIsLongest(bans: BanMap, a: Address, len: nat)
    requires len <= Bits(a.family)
    ensures IsLongest(bans, a, len, Lookup(bans, a, len))
  {
    hide Holds, Around;
    var here := Around(a, len);
    HeldIsAround(bans, here, a);
    forall n: IpNet ensures Holds(bans, n, a) && n.prefix == len ==> n == here {
      HeldIsAround(bans, n, a);
    }
    if here in bans {
      assert Holds(bans, here, a);
    } else if len > 0 {
      LookupIsLongest(bans, a, len - 1);
      assert forall n: IpNet :: Holds(bans, n, a) && n.prefix <= len ==> n.prefix <= len - 1;
    }
  }

  /** A ban on a network with a host bit set is never found, not even for its own address. */
  lemma HostBitHidesBan(ban: BanRecord)
    ensures var n, a := Net(V4, 1, 31), IpAddr(V4, 1);
      n.Contains(a) && Lookup(map[n := ban], a, 32).None?
  {
    hide Lookup, Pow2;
    var n: IpNet, a: Address := Net(V4, 1, 31), IpAddr(V4, 1);
    var bans: BanMap := map[n := ban];
    LookupIsLongest(bans, a, 32);
    OwnAddress(n);
    OddIsNotCanonical(n);
  }

  lemma OddIsNotCanonical(n: IpNet)
    requires n == Net(V4, 1, 31)
    ensures !n.Canonical()
  {
    assert Pow2(1) == 2;
  }

  // ----- counting ---------------------------------------------------------------

  function OfLength(nets: set<IpNet>, family: Family, len: nat): (r: set<IpNet>) {
    set n | n in nets && n.family == family && n.prefix == len
  }

  ghost predicate Counted(counts: seq<nat>, nets: set<IpNet>, family: Family) {
    |counts| == Bits(family) + 1
    && forall len :: 0 <= len <= Bits(family) ==> counts[len] == |OfLength(nets, family, len)|
  }

  lemma CountAdd(nets: set<IpNet>, net: IpNet, family: Family, len: nat)
    requires net !in nets
    ensures |OfLength(nets + {net}, family, len)|
         == |OfLength(nets, family, len)| + if net.family == family && net.prefix == len then 1 else 0
  {
    var before, after := OfLength(nets, family, len), OfLength(nets + {net}, family, len);
    if net.family == family && net.prefix == len {
      assert after == before + {net};
    } else {
      assert after == before;
    }
  }

  lemma CountedAdd(counts: seq<nat>, nets: set<IpNet>, net: IpNet, family: Family)
    requires Counted(counts, nets, family) && net !in nets
    ensures Counted(if net.family == family then counts[net.prefix := counts[net.prefix] + 1] else counts,
                    nets + {net}, family)
  {
    forall len | 0 <= len <= Bits(family) {
      CountAdd(nets, net, family, len);
    }
  }

  lemma CountedRemove(counts: seq<nat>, nets: set<IpNet>, net: IpNet, family: Family)
    requires Counted(counts, nets, family) && net in nets
    ensures net.family == family ==> counts[net.prefix] > 0
    ensures Counted(if net.family == family then counts[net.prefix := counts[net.prefix] - 1] else counts,
                    nets - {net}, family)
  {
    assert nets - {net} + {net} == nets;
    if net.family == family {
      CountAdd(nets - {net}, net, family, net.prefix);
    }
    forall len | 0 <= len <= Bits(family) {
      CountAdd(nets - {net}, net, family, len);
    }
  }

  /** A zero count means there is nothing to find at that length. */
  lemma ZeroMeansNone(counts: seq<nat>, nets: set<IpNet>, net: IpNet)
    requires Counted(counts, nets, net.family) && counts[net.prefix] == 0
    ensures net !in nets
  {
    assert OfLength(nets, net.family, net.prefix) == {};
    assert net in nets ==> net in OfLength(nets, net.family, net.prefix);
  }

  lemma NothingCounted(counts: seq<nat>, family: Family)
    requires |counts| == Bits(family) + 1 && forall i :: 0 <= i < |counts| ==> counts[i] == 0
    ensures Counted(counts, {}, family)
  {
    assert forall len :: OfLength({}, family, len) == {};
  }

  lemma Subset<T>(a: set<T>, b: set<T>)
    requires a <= b
    ensures |a| <= |b| && (|a| == |b| ==> a == b)
  {
    assert b == a + (b - a);
  }

  // ----- covering bans ------------------------------------------------------------

  /** A stored ban whose network is the one of its length around the subject. */
  predicate Covering(bans: BanMap, subject: IpNet, ban: BanRecord) {
    var n := ban.subject;
    n in bans && bans[n] == ban && n.prefix <= subject.prefix && n.family == subject.family
    && n == Around(subject.Addr(), n.prefix)
  }

  lemma CoveringAt(bans: BanMap, subject: IpNet, len: nat)
    requires len <= subject.prefix
    requires forall n :: n in bans ==> bans[n].subject == n
    ensures var net: IpNet := Around(subject.Addr(), len);
      forall ban :: Covering(bans, subject, ban) && ban.subject.prefix == len <==> net in bans && ban == bans[net]
  {
  }

  lemma CoveringMeans(bans: BanMap, subject: IpNet, ban: BanRecord)
    ensures Covering(bans, subject, ban) <==>
      ban.subject in bans && bans[ban.subject] == ban && ban.subject.Canonical() && Within(subject, ban.subject)
  {
    hide Within, Around, Net.Contains, Net.Canonical;
    var n := ban.subject;
    CoverIsExact(n, subject);
    if n.family == subject.family {
      AroundIsTheOne(n, subject.Addr());
    } else {
      OtherFamily(n, subject.Addr());
    }
  }

  lemma OtherFamily(n: IpNet, a: Address)
    requires n.family != a.family
    ensures !n.Contains(a)
  {
  }

  // ----- cleaning up ----------------------------------------------------------------

  /** The bans that are left at `now`: those without an end, and those that end later. */
  ghost predicate IsCleaned(before: BanMap, after: BanMap, now: Time) {
    && (forall n :: n in after <==> n in before && (before[n].expiresAt.None? || now < before[n].expiresAt.value))
    && (forall n :: n in after ==> after[n] == before[n])
  }

  /** An address whose most specific ban has not ended gets the same answer before and after. */
  lemma {:induction false} CleanupKeepsAnswer(before: BanMap, after: BanMap, now: Time, a: Address, len: nat)
    requires len <= Bits(a.family) && IsCleaned(before, after, now)
    ensures var was := Lookup(before, a, len);
      was.Some? && (was.value.expiresAt.None? || now < was.value.expiresAt.value) ==> Lookup(after, a, len) == was
  {
    hide Around;
    if Around(a, len) !in before && len > 0 {
      CleanupKeepsAnswer(before, after, now, a, len - 1);
    }
  }

  /** After it, no answer is a ban that has ended, and an address that gets none is on no stored
      network that a ban that has not ended was on. */
  lemma CleanupAnswers(before: BanMap, after: BanMap, now: Time, a: Address)
    requires IsCleaned(before, after, now)
    ensures var got := Lookup(after, a, Bits(a.family));
      && (got.Some? ==> got.value.expiresAt.None? || now < got.value.expiresAt.value)
      && (got.None? ==> forall n :: Holds(before, n, a) ==> before[n].expiresAt.Some? && before[n].expiresAt.value <= now)
  {
    hide Lookup, Net.Contains, Net.Canonical;
    LookupIsLongest(after, a, Bits(a.family));
    forall n | Holds(before, n, a) && n in after ensures Holds(after, n, a) && n.prefix <= Bits(a.family) {
      HeldIsAround(after, n, a);
    }
  }

  // ----- the store ----------------------------------------------------------------

  class InMemoryBanStore {
    var bans: BanMap
    const v4PrefixCounts: array<nat>
    const v6PrefixCounts: array<nat>

    ghost predicate Valid()
      reads this, v4PrefixCounts, v6PrefixCounts
    {
      && v4PrefixCounts != v6PrefixCounts
      && Counted(v4PrefixCounts[..], bans.Keys, V4)
      && Counted(v6PrefixCounts[..], bans.Keys, V6)
      && forall n :: n in bans ==> bans[n].subject == n
    }

    constructor ()
      ensures Valid() && bans == map[] && fresh(v4PrefixCounts) && fresh(v6PrefixCounts)
    {
      bans := map[];
      v4PrefixCounts := new nat[33](_ => 0);
      v6PrefixCounts := new nat[129](_ => 0);
    }

    function Counts(family: Family): (a: array<nat>) {
      if family.V4? then v4PrefixCounts else v6PrefixCounts
    }

    method AddBan(record: BanRecord)
      requires Valid()
      modifies this, v4PrefixCounts, v6PrefixCounts
      ensures Valid() && bans == old(bans)[record.subject := record]
    {
      var net := record.subject;
      if net !in bans {
        IncPrefix(net);
      } else {
        assert bans.Keys + {net} == bans.Keys;
      }
      bans := bans[net := record];
      assert bans.Keys == old(bans).Keys + {net};
    }

    method IncPrefix(net: IpNet)
      requires Valid() && net !in bans
      modifies v4PrefixCounts, v6PrefixCounts
      ensures Counted(v4PrefixCounts[..], bans.Keys + {net}, V4)
      ensures Counted(v6PrefixCounts[..], bans.Keys + {net}, V6)
    {
      CountOne(net, bans.Keys);
    }

    method RemoveBan(subject: IpNet) returns (removed: bool)
      requires Valid()
      modifies this, v4PrefixCounts, v6PrefixCounts
      ensures Valid() && bans == old(bans) - {subject}
      ensures removed <==> subject in old(bans)
    {
      removed := subject in bans;
      if removed {
        DecPrefix(subject);
      } else {
        assert bans.Keys - {subject} == bans.Keys;
      }
      bans := bans - {subject};
      assert bans.Keys == old(bans).Keys - {subject};
    }

    method DecPrefix(net: IpNet)
      requires Valid() && net in bans
      modifies v4PrefixCounts, v6PrefixCounts
      ensures Counted(v4PrefixCounts[..], bans.Keys - {net}, V4)
      ensures Counted(v6PrefixCounts[..], bans.Keys - {net}, V6)
    {
      CountedRemove(v4PrefixCounts[..], bans.Keys, net, V4);
      CountedRemove(v6PrefixCounts[..], bans.Keys, net, V6);
      var counts := Counts(net.family);
      ghost var was4, was6 := v4PrefixCounts[..], v6PrefixCounts[..];
      counts[net.prefix] := if counts[net.prefix] > 0 then counts[net.prefix] - 1 else 0;
      assert v4PrefixCounts[..] == if net.family.V4? then was4[net.prefix := was4[net.prefix] - 1] else was4;
      assert v6PrefixCounts[..] == if net.family.V6? then was6[net.prefix := was6[net.prefix] - 1] else was6;
    }

    /** The most specific ban on an address, skipping lengths with a zero count. */
    method IsBanned(ip: Address) returns (r: Option<BanRecord>)
      requires Valid()
      ensures r == Lookup(bans, ip, Bits(ip.family))
      ensures IsLongest(bans, ip, Bits(ip.family), r)
    {
      LookupIsLongest(bans, ip, Bits(ip.family));
      var counts := Counts(ip.family);
      for len := Bits(ip.family) + 1 downto 0
        invariant len <= Bits(ip.family) ==>
          Lookup(bans, ip, Bits(ip.family)) == if len == 0 then None else Lookup(bans, ip, len - 1)
      {
        var net: IpNet := Around(ip, len);
        if counts[len] == 0 {
          ZeroMeansNone(counts[..], bans.Keys, net);
        } else if net in bans {
          return Some(bans[net]);
        }
      }
      return None;
    }

    /** Every ban on a network that contains the subject, widest first. */
    method CoveringBans(subject: IpNet) returns (r: seq<BanRecord>)
      requires Valid()
      ensures forall i, j :: 0 <= i < j < |r| ==> r[i].subject.prefix < r[j].subject.prefix
      ensures forall ban :: ban in r <==>
        ban.subject in bans && bans[ban.subject] == ban && ban.subject.Canonical() && Within(subject, ban.subject)
    {
      r := [];
      var counts := Counts(subject.family);
      for len := 0 to subject.prefix + 1
        invariant forall i, j :: 0 <= i < j < |r| ==> r[i].subject.prefix < r[j].subject.prefix
        invariant forall ban :: ban in r <==> Covering(bans, subject, ban) && ban.subject.prefix < len
      {
        var net: IpNet := Around(subject.Addr(), len);
        CoveringAt(bans, subject, len);
        if counts[len] == 0 {
          ZeroMeansNone(counts[..], bans.Keys, net);
        } else if net in bans {
          assert Covering(bans, subject, bans[net]);
          r := r + [bans[net]];
        }
      }
      forall ban ensures Covering(bans, subject, ban) <==>
        ban.subject in bans && bans[ban.subject] == ban && ban.subject.Canonical() && Within(subject, ban.subject)
      {
        CoveringMeans(bans, subject, ban);
      }
    }

    /** Drop expired bans; permanent ones stay. */
    method CleanupExpired(now: Time) returns (removed: nat)
      requires Valid()
      modifies this, v4PrefixCounts, v6PrefixCounts
      ensures Valid() && IsCleaned(old(bans), bans, now)
      ensures removed == |old(bans)| - |bans|
    {
      var before := |bans|;
      var kept := map n | n in bans && (bans[n].expiresAt.Some? ==> bans[n].expiresAt.value > now) :: bans[n];
      assert kept.Keys <= bans.Keys;
      Subset(kept.Keys, bans.Keys);
      ghost var all := bans;
      bans := kept;
      removed := before - |bans|;
      if removed > 0 {
        RebuildPrefixCounts();
      } else {
        assert kept.Keys == all.Keys;
      }
    }

    /** Count the stored networks afresh. */
    method RebuildPrefixCounts()
      requires v4PrefixCounts.Length == 33 && v6PrefixCounts.Length == 129 && v4PrefixCounts != v6PrefixCounts
      requires forall n :: n in bans ==> bans[n].subject == n
      modifies v4PrefixCounts, v6PrefixCounts
      ensures Valid()
    {
      forall i | 0 <= i < 33 {
        v4PrefixCounts[i] := 0;
      }
      forall i | 0 <= i < 129 {
        v6PrefixCounts[i] := 0;
      }
      NothingCounted(v4PrefixCounts[..], V4);
      NothingCounted(v6PrefixCounts[..], V6);
      var todo := bans.Keys;
      ghost var done: set<IpNet> := {};
      while todo != {}
        invariant done !! todo && done + todo == bans.Keys
        invariant Counted(v4PrefixCounts[..], done, V4) && Counted(v6PrefixCounts[..], done, V6)
        decreases |todo|
      {
        var net :| net in todo;
        CountOne(net, done);
        todo, done := todo - {net}, done + {net};
      }
      assert done == bans.Keys;
    }

    method CountOne(net: IpNet, ghost done: set<IpNet>)
      requires v4PrefixCounts != v6PrefixCounts && net !in done
      requires Counted(v4PrefixCounts[..], done, V4) && Counted(v6PrefixCounts[..], done, V6)
      modifies v4PrefixCounts, v6PrefixCounts
      ensures Counted(v4PrefixCounts[..], done + {net}, V4) && Counted(v6PrefixCounts[..], done + {net}, V6)
    {
      CountedAdd(v4PrefixCounts[..], done, net, V4);
      CountedAdd(v6PrefixCounts[..], done, net, V6);
      var counts := Counts(net.family);
      ghost var was4, was6 := v4PrefixCounts[..], v6PrefixCounts[..];
      counts[net.prefix] := counts[net.prefix] + 1;
      assert v4PrefixCounts[..] == if net.family.V4? then was4[net.prefix := was4[net.prefix] + 1] else was4;
      assert v6PrefixCounts[..] == if net.family.V6? then was6[net.prefix := was6[net.prefix] + 1] else was6;
    }
  }
}
