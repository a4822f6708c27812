/**
 How long local bans are offered to peers: a ban longer than the accepted lifetime is
 cut into consecutive windows, and the one containing the present is announced. Peers
 decide with a policy of their own. Times are in nanoseconds, limits in seconds.
 */
module Announce {
  import opened Options
  import opened Cidr
  import opened Bans

  const SECOND: int := 1_000_000_000
  const FIVE_MINUTES: int := 300 * SECOND
  const I64_MAX: int := 0x7fff_ffff_ffff_ffff
  /** The longest span of seconds a duration can hold; asking for more panics. */
  const MAX_DURATION_SECS: int := I64_MAX / 1000

  /** Whole seconds of a duration, rounded toward zero. */
  function NumSeconds(ns: int): (s: int) {
    if ns >= 0 then ns / SECOND else -(-ns / SECOND)
  }

  function CheckedMul(a: int, b: int): (r: Option<int>) {
    if -I64_MAX - 1 <= a * b <= I64_MAX then Some(a * b) else None
  }

  function Min(a: int, b: int): (r: int) {
    if a <= b then a else b
  }

  datatype Announcement = Announced(record: BanRecord) | Withheld | Panics

  /** The form in which a ban is offered at `now`, if at all. */
  function AnnouncedForm(record: BanRecord, maxSecs: int, now: Time): (r: Announcement) {
    if record.expiresAt.None? then Withheld
    else
      var expiry := record.expiresAt.value;
      if expiry <= now || expiry <= record.createdAt || maxSecs <= 0 then Withheld
      else if maxSecs > MAX_DURATION_SECS then Panics
      else if expiry - record.createdAt <= maxSecs * SECOND then Announced(record)
      else
        var seconds := NumSeconds(now - record.createdAt);
        var elapsed := if seconds >= 0 then seconds else 0;
        var offset := CheckedMul(elapsed / maxSecs, maxSecs);
        if offset.None? then Withheld
        else if offset.value > MAX_DURATION_SECS then Panics
        else
          var createdAt := record.createdAt + offset.value * SECOND;
          Announced(record.(createdAt := createdAt, expiresAt := Some(Min(expiry, createdAt + maxSecs * SECOND))))
  }

  /** The age of a record is a duration: no more seconds than one can hold. */
  predicate Representable(record: BanRecord, now: Time) {
    NumSeconds(now - record.createdAt) <= MAX_DURATION_SECS
  }

  datatype Policy = Policy(minPrefixV4: nat, minPrefixV6: nat, maxTtlSecs: nat)

  predicate PrefixAllowed(policy: Policy, subject: IpNet) {
    subject.prefix >= if subject.family.V4? then policy.minPrefixV4 else policy.minPrefixV6
  }

  /** What a peer accepts at `now`. */
  predicate RemotePolicyAllows(policy: Policy, record: BanRecord, now: Time) {
    && record.expiresAt.Some?
    && policy.maxTtlSecs <= I64_MAX
    && PrefixAllowed(policy, record.subject)
    && record.createdAt <= now + FIVE_MINUTES
    && record.expiresAt.value > now
    && record.expiresAt.value > record.createdAt
    && NumSeconds(record.expiresAt.value - record.createdAt) <= policy.maxTtlSecs
    && NumSeconds(record.expiresAt.value - now) <= policy.maxTtlSecs
  }

  // ----- the windows -----------------------------------------------------------------------

  /** Where the `k`-th slice of a ban's lifetime starts. */
  function StartOf(record: BanRecord, maxSecs: int, k: int): (t: Time) {
    record.createdAt + k * maxSecs * SECOND
  }

  /** The `k`-th slice as announced: cut off at the ban's own expiry. */
  function Window(record: BanRecord, maxSecs: int, k: nat): (r: BanRecord)
    requires record.expiresAt.Some?
  {
    var start := StartOf(record, maxSecs, k);
    record.(createdAt := start, expiresAt := Some(Min(record.expiresAt.value, start + maxSecs * SECOND)))
  }

  predicate InForce(w: BanRecord, now: Time) {
    w.createdAt <= now && w.expiresAt.Some? && now < w.expiresAt.value
  }

  /** The slice the present is in. */
  function Slice(record: BanRecord, maxSecs: int, now: Time): (k: nat)
    requires record.createdAt <= now && maxSecs > 0
  {
    var seconds := (now - record.createdAt) / SECOND;
    DivNonNegative(seconds, maxSecs);
    seconds / maxSecs
  }

  /** A finite ban that is running now, a limit a duration can hold, and a representable age. */
  predicate Running(record: BanRecord, maxSecs: int, now: Time) {
    && InForce(record, now)
    && 0 < maxSecs <= MAX_DURATION_SECS
    && Representable(record, now)
  }

  predicate Long(record: BanRecord, maxSecs: int)
    requires record.expiresAt.Some?
  {
    record.expiresAt.value - record.createdAt > maxSecs * SECOND
  }

  lemma DivNonNegative(a: int, b: int)
    requires a >= 0 && b > 0
    ensures a / b >= 0
  {
  }

  lemma DivBounds(a: int, b: int)
    requires b > 0
    ensures a / b * b <= a < a / b * b + b
  {
  }

  lemma SlicesApart(record: BanRecord, maxSecs: int, j: int, k: int)
    requires maxSecs > 0
    ensures StartOf(record, maxSecs, j + 1) == StartOf(record, maxSecs, j) + maxSecs * SECOND
    ensures j < k ==> StartOf(record, maxSecs, j + 1) <= StartOf(record, maxSecs, k)
  {
    assert (j + 1) * maxSecs == j * maxSecs + maxSecs;
    if j < k {
      assert (j + 1) * maxSecs <= k * maxSecs;
    }
  }

  /** The present lies in its slice. */
  lemma SliceHoldsNow(record: BanRecord, maxSecs: int, now: Time)
    requires record.createdAt <= now && maxSecs > 0
    ensures var k := Slice(record, maxSecs, now);
      StartOf(record, maxSecs, k) <= now < StartOf(record, maxSecs, k + 1)
  {
    var seconds := (now - record.createdAt) / SECOND;
    var k := Slice(record, maxSecs, now);
    DivBounds(now - record.createdAt, SECOND);
    DivBounds(seconds, maxSecs);
    assert (k + 1) * maxSecs == k * maxSecs + maxSecs;
    assert seconds + 1 <= (k + 1) * maxSecs;
  }

  /** What is announced is never lost to the overflow check: it is the ban itself when short,
      and otherwise exactly the window of the present slice, with all else unchanged. */
  lemma AnnouncedIsWindow(record: BanRecord, maxSecs: int, now: Time)
    requires Running(record, maxSecs, now)
    ensures AnnouncedForm(record, maxSecs, now) ==
      Announced(if Long(record, maxSecs) then Window(record, maxSecs, Slice(record, maxSecs, now)) else record)
  {
    var seconds := NumSeconds(now - record.createdAt);
    DivBounds(seconds, maxSecs);
    DivNonNegative(seconds, maxSecs);
    assert 0 <= seconds / maxSecs * maxSecs <= seconds;
  }

  predicate Announceable(record: BanRecord, maxSecs: int, now: Time) {
    record.expiresAt.Some? && record.expiresAt.value > now && record.expiresAt.value > record.createdAt && maxSecs > 0
  }

  /** For every limit: a ban is announced exactly when it expires in the future and after it began
      and a duration can hold the limit; with a greater limit the same bans make it panic, and all
      others are withheld. One that has not begun is announced by its first window. */
  lemma AnnouncedIff(record: BanRecord, maxSecs: int, now: Time)
    requires Representable(record, now)
    ensures AnnouncedForm(record, maxSecs, now).Announced? <==>
      Announceable(record, maxSecs, now) && maxSecs <= MAX_DURATION_SECS
    ensures AnnouncedForm(record, maxSecs, now).Panics? <==>
      Announceable(record, maxSecs, now) && maxSecs > MAX_DURATION_SECS
    ensures AnnouncedForm(record, maxSecs, now).Announced? && now < record.createdAt ==>
      AnnouncedForm(record, maxSecs, now) == Announced(if Long(record, maxSecs) then Window(record, maxSecs, 0) else record)
  {
    if Announceable(record, maxSecs, now) && maxSecs <= MAX_DURATION_SECS {
      if now >= record.createdAt {
        AnnouncedIsWindow(record, maxSecs, now);
      } else {
        assert 0 / maxSecs * maxSecs == 0;
      }
    }
  }

  /** The greatest limit that passes validation is such a limit: an hour's ban panics at once. */
  lemma GreatestLimitPanics(record: BanRecord)
    requires record.expiresAt == Some(record.createdAt + 3600 * SECOND)
    ensures AnnouncedForm(record, I64_MAX, record.createdAt) == Panics
  {
  }

  /** The windows tile the lifetime: at every instant of it exactly one window is in force,
      the one announced at that instant; each starts where the one before ends, the first
      with the ban, and none outlasts it. */
  lemma WindowsTile(record: BanRecord, maxSecs: int, now: Time, k: nat)
    requires Running(record, maxSecs, now)
    ensures InForce(Window(record, maxSecs, k), now) <==> k == Slice(record, maxSecs, now)
    ensures Window(record, maxSecs, 0).createdAt == record.createdAt
    ensures Window(record, maxSecs, k).expiresAt.value <= record.expiresAt.value
    ensures Window(record, maxSecs, k).expiresAt.value < record.expiresAt.value ==>
      Window(record, maxSecs, k).expiresAt.value == Window(record, maxSecs, k + 1).createdAt
  {
    hide Slice, StartOf;
    var s := Slice(record, maxSecs, now);
    SliceHoldsNow(record, maxSecs, now);
    SlicesApart(record, maxSecs, s, k);
    SlicesApart(record, maxSecs, k, s);
    StartsWithBan(record, maxSecs);
  }

  lemma StartsWithBan(record: BanRecord, maxSecs: int)
    ensures StartOf(record, maxSecs, 0) == record.createdAt
  {
  }

  /** Over time, two announcements of a long ban are identical within a slice, and across
      slices the later one starts strictly later, not before the earlier one ends. */
  lemma AnnouncementsOverTime(record: BanRecord, maxSecs: int, now: Time, later: Time)
    requires Running(record, maxSecs, now) && Running(record, maxSecs, later) && now <= later && Long(record, maxSecs)
    ensures var first, second := AnnouncedForm(record, maxSecs, now), AnnouncedForm(record, maxSecs, later);
      && first.Announced? && second.Announced? && first.record.expiresAt.Some?
      && if Slice(record, maxSecs, now) == Slice(record, maxSecs, later) then first == second
         else first.record.createdAt < second.record.createdAt && first.record.expiresAt.value <= second.record.createdAt
  {
    hide Slice, StartOf, AnnouncedForm;
    AnnouncedIsWindow(record, maxSecs, now);
    AnnouncedIsWindow(record, maxSecs, later);
    var j, k := Slice(record, maxSecs, now), Slice(record, maxSecs, later);
    SliceHoldsNow(record, maxSecs, now);
    SliceHoldsNow(record, maxSecs, later);
    SlicesApart(record, maxSecs, j, k);
    SlicesApart(record, maxSecs, k, j);
  }

  // ----- what peers make of it ----------------------------------------------------------------

  lemma SecondsOf(ns: int, limit: int)
    requires 0 <= ns && 0 <= limit
    ensures NumSeconds(ns) <= limit <==> ns < (limit + 1) * SECOND
  {
    DivBounds(ns, SECOND);
  }

  /** Whatever is announced passes the policy of a peer with the same or a longer limit, at
      every instant from the announcement until the announced window ends. */
  lemma AnnouncedIsAccepted(record: BanRecord, maxSecs: int, now: Time, policy: Policy, at: Time)
    requires Running(record, maxSecs, now) && maxSecs <= policy.maxTtlSecs <= I64_MAX
    requires PrefixAllowed(policy, record.subject)
    requires var sent := AnnouncedForm(record, maxSecs, now);
      sent.Announced? && sent.record.expiresAt.Some? && now <= at < sent.record.expiresAt.value
    ensures RemotePolicyAllows(policy, AnnouncedForm(record, maxSecs, now).record, at)
  {
    hide AnnouncedForm, Slice, StartOf, NumSeconds;
    AnnouncedIsWindow(record, maxSecs, now);
    SliceHoldsNow(record, maxSecs, now);
    var sent := AnnouncedForm(record, maxSecs, now).record;
    SecondsOf(sent.expiresAt.value - sent.createdAt, policy.maxTtlSecs);
    SecondsOf(sent.expiresAt.value - at, policy.maxTtlSecs);
  }

  /** Exactly when a record is accepted, for every policy and record: it ends, its network is not
      wider than the limit of its family, the limit is one the code can represent, it starts at
      most 300 seconds later and has not ended, and neither its lifetime nor what is left of it
      exceeds the limit by a whole second. */
  lemma AcceptedInstants(policy: Policy, record: BanRecord, at: Time)
    ensures RemotePolicyAllows(policy, record, at) <==>
      && record.expiresAt.Some?
      && (record.subject.family.V4? ==> record.subject.prefix >= policy.minPrefixV4)
      && (record.subject.family.V6? ==> record.subject.prefix >= policy.minPrefixV6)
      && policy.maxTtlSecs <= 0x7fff_ffff_ffff_ffff
      && record.createdAt < record.expiresAt.value
      && record.createdAt - 300 * SECOND <= at < record.expiresAt.value
      && record.expiresAt.value - record.createdAt < (policy.maxTtlSecs + 1) * SECOND
      && record.expiresAt.value - at < (policy.maxTtlSecs + 1) * SECOND
  {
    hide NumSeconds;
    if record.expiresAt.Some? && record.createdAt < record.expiresAt.value {
      SecondsOf(record.expiresAt.value - record.createdAt, policy.maxTtlSecs);
      if at < record.expiresAt.value {
        SecondsOf(record.expiresAt.value - at, policy.maxTtlSecs);
      }
    }
  }

  /** A ban on every address is refused by a peer that takes nothing wider than a /24. */
  lemma TooWideIsRefused(record: BanRecord, at: Time)
    requires record.subject == Net(V4, 0, 0)
    ensures !RemotePolicyAllows(Policy(24, 48, 86400), record, at)
  {
    hide RemotePolicyAllows;
    AcceptedInstants(Policy(24, 48, 86400), record, at);
  }

  /** Every clock up to five minutes behind accepts the record until it ends. */
  ghost predicate Tolerated(policy: Policy, record: BanRecord)
    requires record.expiresAt.Some?
  {
    forall at :: record.createdAt - FIVE_MINUTES <= at < record.expiresAt.value ==> RemotePolicyAllows(policy, record, at)
  }

  /** The five-minute allowance works exactly for records that are shorter than the limit by it. */
  lemma ToleratedIff(policy: Policy, record: BanRecord)
    requires policy.maxTtlSecs <= I64_MAX && PrefixAllowed(policy, record.subject)
    requires record.expiresAt.Some? && record.createdAt < record.expiresAt.value
    ensures Tolerated(policy, record) <==>
      record.expiresAt.value - record.createdAt + FIVE_MINUTES < (policy.maxTtlSecs + 1) * SECOND
  {
    hide RemotePolicyAllows;
    AcceptedInstants(policy, record, record.createdAt - FIVE_MINUTES);
    forall at ensures RemotePolicyAllows(policy, record, at) <==>
      && record.createdAt - FIVE_MINUTES <= at < record.expiresAt.value
      && record.expiresAt.value - record.createdAt < (policy.maxTtlSecs + 1) * SECOND
      && record.expiresAt.value - at < (policy.maxTtlSecs + 1) * SECOND
    {
      AcceptedInstants(policy, record, at);
    }
  }

  /** A window of full length is accepted from less than one second before it starts. */
  lemma FullWindowInstants(policy: Policy, record: BanRecord, at: Time)
    requires 0 < policy.maxTtlSecs <= I64_MAX && PrefixAllowed(policy, record.subject)
    requires record.expiresAt == Some(record.createdAt + policy.maxTtlSecs * SECOND)
    ensures RemotePolicyAllows(policy, record, at)
      <==> record.createdAt - SECOND < at < record.expiresAt.value
  {
    hide RemotePolicyAllows;
    AcceptedInstants(policy, record, at);
  }

  /** So a clock that is one second behind refuses it, five minutes or not. */
  lemma OneSecondBehind(policy: Policy, record: BanRecord)
    requires 0 < policy.maxTtlSecs <= I64_MAX && PrefixAllowed(policy, record.subject)
    requires record.expiresAt == Some(record.createdAt + policy.maxTtlSecs * SECOND)
    ensures !RemotePolicyAllows(policy, record, record.createdAt - SECOND)
    ensures record.createdAt < record.createdAt - SECOND + FIVE_MINUTES
  {
    hide RemotePolicyAllows;
    FullWindowInstants(policy, record, record.createdAt - SECOND);
  }

  /** And at a limit of a day, a clock two minutes behind refuses a ban a minute shorter. */
  lemma TwoMinutesBehind(policy: Policy, record: BanRecord)
    requires policy.maxTtlSecs == 86400 && PrefixAllowed(policy, record.subject)
    requires record.expiresAt == Some(record.createdAt + 86340 * SECOND)
    ensures !RemotePolicyAllows(policy, record, record.createdAt - 120 * SECOND)
    ensures record.createdAt < record.createdAt - 120 * SECOND + FIVE_MINUTES
  {
    hide RemotePolicyAllows;
    AcceptedInstants(policy, record, record.createdAt - 120 * SECOND);
  }
}
