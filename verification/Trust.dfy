/**
 Trust in reporting nodes. Reports about an address are weighed by the trust in who made
 them; nodes whose reports nobody corroborates lose trust in a periodic sweep. Hash maps
 are iterated in no particular order, so nothing here may depend on one. Scores are real
 numbers.
 */
module Trust {

  type Time = int
  type NodeId = string

  const DAY: Time := 86_400_000_000_000
  const U32_MAX: nat := 0xffff_ffff

  datatype TrustScore = TrustScore(score: real, truePositives: nat, falsePositives: nat, joinedAt: Time, penalties: nat)
  datatype Report = Report(reporter: NodeId, weight: real)

  type Scores = map<NodeId, TrustScore>
  type Reports = map<string, seq<Report>>

  predicate InRange(scores: Scores) {
    forall n :: n in scores ==> 0.0 <= scores[n].score <= 1.0
  }

  // ----- scores ---------------------------------------------------------------------------

  /** Confirmed reports over all, plus a bonus for seniority, at most one. */
  function CalculateScore(tp: nat, fp: nat, joinedAt: Time, now: Time): (s: real)
    ensures 0.0 <= s <= 1.0
  {
    var base := tp as real / (tp as real + fp as real + 1.0);
    BaseInRange(tp, fp);
    var bonus := if now - joinedAt >= 7 * DAY then 0.2 else if now - joinedAt >= DAY then 0.1 else 0.0;
    if base + bonus <= 1.0 then base + bonus else 1.0
  }

  lemma BaseInRange(tp: nat, fp: nat)
    ensures 0.0 <= tp as real / (tp as real + fp as real + 1.0) < 1.0
  {
    var t, d := tp as real, tp as real + fp as real + 1.0;
    assert t / d * d == t;
  }

  /** What is added for seniority: a tenth after a day, two tenths after a week. */
  function Bonus(age: Time): (b: real) {
    if age >= 604_800_000_000_000 then 0.2 else if age >= 86_400_000_000_000 then 0.1 else 0.0
  }

  /** The score, without division: the part of the reports that was confirmed, counting one more
      than there are, plus the bonus; never more than one. */
  lemma ScoreIs(tp: nat, fp: nat, joinedAt: Time, now: Time)
    ensures var s, bonus, all := CalculateScore(tp, fp, joinedAt, now), Bonus(now - joinedAt), tp as real + fp as real + 1.0;
      if tp as real + bonus * all <= all then (s - bonus) * all == tp as real else s == 1.0
  {
    Capped(tp as real, tp as real + fp as real + 1.0, Bonus(now - joinedAt));
  }

  lemma Capped(t: real, d: real, bonus: real)
    requires d > 0.0
    ensures var s := if t / d + bonus <= 1.0 then t / d + bonus else 1.0;
      if t + bonus * d <= d then (s - bonus) * d == t else s == 1.0
  {
    var base := t / d;
    assert base * d == t;
    assert (base + bonus) * d == t + bonus * d;
    AtMostOne(base + bonus, d);
  }

  lemma AtMostOne(x: real, d: real)
    requires d > 0.0
    ensures x * d <= d <==> x <= 1.0
  {
    if x <= 1.0 {
      assert (1.0 - x) * d >= 0.0;
    } else {
      assert (x - 1.0) * d > 0.0;
    }
  }

  lemma FractionLess(a: real, b: real, c: real, d: real)
    requires b > 0.0 && d > 0.0 && a * d < c * b
    ensures a / b < c / d
  {
    var x, y := a / b, c / d;
    assert x * b == a && y * d == c;
    assert (y - x) * (b * d) == y * d * b - x * b * d;
    Positive(y - x, b * d);
  }

  lemma Positive(x: real, k: real)
    requires x * k > 0.0 && k > 0.0
    ensures x > 0.0
  {
  }

  lemma ConfirmedBase(tp: nat, fp: nat)
    ensures tp as real / (tp as real + fp as real + 1.0)
          < (tp + 1) as real / ((tp + 1) as real + fp as real + 1.0)
  {
    var t, f := tp as real, fp as real;
    assert t * (t + 1.0 + f + 1.0) < (t + 1.0) * (t + f + 1.0);
    FractionLess(t, t + f + 1.0, t + 1.0, t + 1.0 + f + 1.0);
  }

  lemma RefutedBase(tp: nat, fp: nat)
    requires tp > 0
    ensures tp as real / (tp as real + (fp + 1) as real + 1.0) < tp as real / (tp as real + fp as real + 1.0)
  {
    var t, f := tp as real, fp as real;
    assert t * (t + f + 1.0) < t * (t + f + 1.0 + 1.0);
    FractionLess(t, t + f + 1.0 + 1.0, t, t + f + 1.0);
  }

  /** A confirmed report raises the score exactly unless it is full already; a refuted one lowers
      it exactly when some report was confirmed and the result is not capped; and time alone
      never lowers it. */
  lemma ReportsMoveScore(tp: nat, fp: nat, joinedAt: Time, now: Time, later: Time)
    requires now <= later
    ensures CalculateScore(tp, fp, joinedAt, now) <= CalculateScore(tp + 1, fp, joinedAt, now)
    ensures CalculateScore(tp, fp, joinedAt, now) < CalculateScore(tp + 1, fp, joinedAt, now)
      <==> CalculateScore(tp, fp, joinedAt, now) < 1.0
    ensures CalculateScore(tp, fp + 1, joinedAt, now) <= CalculateScore(tp, fp, joinedAt, now)
    ensures CalculateScore(tp, fp + 1, joinedAt, now) < CalculateScore(tp, fp, joinedAt, now)
      <==> tp > 0 && CalculateScore(tp, fp + 1, joinedAt, now) < 1.0
    ensures CalculateScore(tp, fp, joinedAt, now) <= CalculateScore(tp, fp, joinedAt, later)
  {
    ConfirmedBase(tp, fp);
    if tp > 0 {
      RefutedBase(tp, fp);
    } else {
      NothingConfirmed(fp);
      NothingConfirmed(fp + 1);
    }
  }

  lemma NothingConfirmed(fp: nat)
    ensures 0.0 / (0.0 + fp as real + 1.0) == 0.0
  {
    var q := 0.0 / (0.0 + fp as real + 1.0);
    assert q * (0.0 + fp as real + 1.0) == 0.0;
  }

  /** A score after more confirmed or refuted reports; earlier penalties do not count in it. */
  function Confirmed(ts: TrustScore, tp: nat, fp: nat, now: Time): (r: TrustScore) {
    ts.(truePositives := ts.truePositives + tp, falsePositives := ts.falsePositives + fp,
        score := CalculateScore(ts.truePositives + tp, ts.falsePositives + fp, ts.joinedAt, now))
  }

  /** One penalty: a tenth off, but never below the floor. */
  function Penalised(ts: TrustScore): (r: TrustScore) {
    var lower := ts.score * 0.9;
    ts.(score := if lower >= 0.1 then lower else 0.1,
        penalties := if ts.penalties < U32_MAX then ts.penalties + 1 else ts.penalties)
  }

  function PenalisedTimes(ts: TrustScore, k: nat): (r: TrustScore) {
    if k == 0 then ts else Penalised(PenalisedTimes(ts, k - 1))
  }

  /** A penalty lowers exactly the scores above the floor; below it, it raises them. */
  lemma PenaltyLowersIff(ts: TrustScore)
    ensures Penalised(ts).score < ts.score <==> ts.score > 0.1
    ensures Penalised(ts).score > ts.score <==> ts.score < 0.1
    ensures ts.score <= 1.0 ==> 0.1 <= Penalised(ts).score <= 0.9
  {
  }

  /** Nine tenths, so many times. */
  function NineTenths(k: nat): (r: real)
    ensures 0.0 < r <= 1.0
  {
    if k == 0 then 1.0 else NineTenths(k - 1) * 9.0 / 10.0
  }

  /** The score after any number of penalties: each takes a tenth off, down to the floor. */
  lemma {:induction false} PenalisedScore(ts: TrustScore, k: nat)
    requires k > 0 && ts.score >= 0.0
    ensures PenalisedTimes(ts, k).score
         == if ts.score * NineTenths(k) >= 0.1 then ts.score * NineTenths(k) else 0.1
  {
    if k > 1 {
      PenalisedScore(ts, k - 1);
      var before := ts.score * NineTenths(k - 1);
      assert ts.score * NineTenths(k) == before * 0.9;
    }
  }

  /** A penalty touches nothing but the score and the count of penalties. */
  lemma PenaltyTouches(ts: TrustScore)
    ensures Penalised(ts).(score := ts.score, penalties := ts.penalties) == ts
  {
  }

  /** A low score is doubled by a penalty. */
  lemma PenaltyCanRaise(ts: TrustScore)
    requires ts.score == 0.05
    ensures Penalised(ts).score == 0.1
  {
  }

  /** Any number of penalties keeps a score between the floor and where it started, or lifts
      it to the floor. */
  lemma {:induction false} PenaltiesStayInRange(ts: TrustScore, k: nat)
    requires 0.0 <= ts.score <= 1.0
    ensures 0.0 <= PenalisedTimes(ts, k).score <= 1.0
    ensures ts.score >= 0.1 ==> 0.1 <= PenalisedTimes(ts, k).score <= ts.score
    ensures ts.score < 0.1 && k > 0 ==> PenalisedTimes(ts, k).score == 0.1
  {
    if k > 0 {
      PenaltiesStayInRange(ts, k - 1);
    }
  }

  // ----- suspicion --------------------------------------------------------------------------

  function Reporters(reports: seq<Report>): (r: set<NodeId>) {
    set x | x in reports :: x.reporter
  }

  /** The heaviest report of a node, or zero. */
  function MaxWeight(reports: seq<Report>, node: NodeId): (w: real)
    ensures w >= 0.0
  {
    if reports == [] then 0.0
    else
      var before, last := MaxWeight(reports[..|reports| - 1], node), reports[|reports| - 1];
      if last.reporter == node && last.weight > before then last.weight else before
  }

  function TrustIn(scores: Scores, node: NodeId): (w: real) {
    if node in scores then scores[node].score else 0.0
  }

  function Term(scores: Scores, reports: seq<Report>, node: NodeId): (t: real) {
    TrustIn(scores, node) * MaxWeight(reports, node)
  }

  /** The sum of the terms of some reporters; the order does not matter. */
  ghost function SumOver(scores: Scores, reports: seq<Report>, nodes: set<NodeId>): (s: real) {
    if nodes == {} then 0.0
    else
      var x :| x in nodes;
      Term(scores, reports, x) + SumOver(scores, reports, nodes - {x})
  }

  lemma {:induction false} SumPick(scores: Scores, reports: seq<Report>, nodes: set<NodeId>, y: NodeId)
    requires y in nodes
    ensures SumOver(scores, reports, nodes) == Term(scores, reports, y) + SumOver(scores, reports, nodes - {y})
    decreases |nodes|
  {
    hide Term;
    var x :| x in nodes && SumOver(scores, reports, nodes) == Term(scores, reports, x) + SumOver(scores, reports, nodes - {x});
    if x != y {
      SumPick(scores, reports, nodes - {x}, y);
      SumPick(scores, reports, nodes - {y}, x);
      assert nodes - {x} - {y} == nodes - {y} - {x};
    }
  }

  lemma SumNothing(scores: Scores, reports: seq<Report>)
    ensures SumOver(scores, reports, {}) == 0.0
  {
  }

  /** The weighted suspicion about an address. */
  ghost function Suspicion(scores: Scores, reports: seq<Report>): (s: real) {
    SumOver(scores, reports, Reporters(reports))
  }

  lemma {:induction false} SumSame(scores: Scores, a: seq<Report>, b: seq<Report>, nodes: set<NodeId>)
    requires forall n :: n in nodes ==> MaxWeight(a, n) == MaxWeight(b, n)
    ensures SumOver(scores, a, nodes) == SumOver(scores, b, nodes)
    decreases |nodes|
  {
    hide MaxWeight, SumOver;
    if nodes == {} {
      SumNothing(scores, a);
      SumNothing(scores, b);
    } else {
      var x :| x in nodes;
      SumSame(scores, a, b, nodes - {x});
      SumPick(scores, a, nodes, x);
      SumPick(scores, b, nodes, x);
    }
  }

  /** Repeating oneself does not help: a further report no heavier than an earlier one of the
      same node leaves the suspicion as it is. */
  lemma RepeatsDoNotAmplify(scores: Scores, reports: seq<Report>, again: Report)
    requires again.reporter in Reporters(reports) && again.weight <= MaxWeight(reports, again.reporter)
    ensures Suspicion(scores, reports + [again]) == Suspicion(scores, reports)
  {
    var more := reports + [again];
    assert more[..|reports|] == reports;
    assert Reporters(more) == Reporters(reports) by {
      assert forall x :: x in more <==> x in reports || x == again;
    }
    SumSame(scores, more, reports, Reporters(reports));
  }

  /** The heaviest weight is at least every weight of the node, and is one of them or zero. */
  lemma {:induction false} MaxWeightIs(reports: seq<Report>, node: NodeId)
    ensures forall i :: 0 <= i < |reports| && reports[i].reporter == node ==> reports[i].weight <= MaxWeight(reports, node)
    ensures MaxWeight(reports, node) == 0.0
      || exists i :: 0 <= i < |reports| && reports[i].reporter == node && reports[i].weight == MaxWeight(reports, node)
  {
    if reports != [] {
      var init := reports[..|reports| - 1];
      MaxWeightIs(init, node);
      assert forall i :: 0 <= i < |init| ==> init[i] == reports[i];
    }
  }

  /** What one more report adds: the trust in its node times how much it is heavier than what the
      node reported before, and nothing from a node that is not registered. With the empty list at
      zero this determines the suspicion. */
  lemma ReportAdds(scores: Scores, reports: seq<Report>, r: Report)
    ensures Suspicion(scores, []) == 0.0
    ensures var trust := if r.reporter in scores then scores[r.reporter].score else 0.0;
      var more := if r.weight > MaxWeight(reports, r.reporter) then r.weight - MaxWeight(reports, r.reporter) else 0.0;
      Suspicion(scores, reports + [r]) == Suspicion(scores, reports) + trust * more
  {
    hide SumOver, MaxWeight;
    var longer, node := reports + [r], r.reporter;
    SumNothing(scores, []);
    assert Reporters([]) == {};
    ReportersMore(reports, r);
    forall n ensures MaxWeight(longer, n) == if n == node && r.weight > MaxWeight(reports, n) then r.weight else MaxWeight(reports, n) {
      MaxWeightMore(reports, r, n);
    }
    var others := Reporters(reports) - {node};
    SumSame(scores, longer, reports, others);
    SumPick(scores, longer, Reporters(longer), node);
    assert Reporters(longer) - {node} == others;
    if node in Reporters(reports) {
      SumPick(scores, reports, Reporters(reports), node);
    } else {
      NoReports(reports, node);
      assert others == Reporters(reports);
    }
    TermDiffers(scores, reports, longer, node);
  }

  lemma TermDiffers(scores: Scores, reports: seq<Report>, longer: seq<Report>, node: NodeId)
    ensures Term(scores, longer, node) - Term(scores, reports, node)
         == TrustIn(scores, node) * (MaxWeight(longer, node) - MaxWeight(reports, node))
    ensures MaxWeight(reports, node) == 0.0 ==> Term(scores, reports, node) == 0.0
  {
    hide MaxWeight, TrustIn;
  }

  lemma ReportersMore(reports: seq<Report>, r: Report)
    ensures Reporters(reports + [r]) == Reporters(reports) + {r.reporter}
  {
    assert forall x :: x in reports + [r] <==> x in reports || x == r;
  }

  lemma MaxWeightMore(reports: seq<Report>, r: Report, n: NodeId)
    ensures MaxWeight(reports + [r], n)
         == if n == r.reporter && r.weight > MaxWeight(reports, n) then r.weight else MaxWeight(reports, n)
  {
    assert (reports + [r])[..|reports|] == reports;
  }

  lemma NoReports(reports: seq<Report>, node: NodeId)
    requires node !in Reporters(reports)
    ensures MaxWeight(reports, node) == 0.0
  {
    hide MaxWeight;
    MaxWeightIs(reports, node);
    assert forall i :: 0 <= i < |reports| ==> reports[i] in reports;
  }

  lemma TermBound(scores: Scores, reports: seq<Report>, node: NodeId, heaviest: real)
    requires InRange(scores) && MaxWeight(reports, node) <= heaviest
    ensures 0.0 <= Term(scores, reports, node) <= heaviest
  {
    TrustInRange(scores, node);
    hide *;
    PartOf(TrustIn(scores, node), MaxWeight(reports, node), heaviest);
    TermIs(scores, reports, node);
  }

  lemma TrustInRange(scores: Scores, node: NodeId)
    requires InRange(scores)
    ensures 0.0 <= TrustIn(scores, node) <= 1.0
  {
  }

  lemma TermIs(scores: Scores, reports: seq<Report>, node: NodeId)
    ensures Term(scores, reports, node) == TrustIn(scores, node) * MaxWeight(reports, node)
  {
    hide TrustIn, MaxWeight;
  }

  lemma PartOf(t: real, m: real, heaviest: real)
    requires 0.0 <= t <= 1.0 && 0.0 <= m <= heaviest
    ensures 0.0 <= t * m <= heaviest
  {
    assert m - t * m == (1.0 - t) * m;
  }

  lemma {:induction false} SumBound(scores: Scores, reports: seq<Report>, nodes: set<NodeId>, heaviest: real)
    requires InRange(scores) && forall n :: n in nodes ==> MaxWeight(reports, n) <= heaviest
    ensures 0.0 <= SumOver(scores, reports, nodes) <= |nodes| as real * heaviest
    decreases |nodes|
  {
    hide MaxWeight, SumOver, Term, InRange;
    if nodes == {} {
      SumNothing(scores, reports);
    } else {
      var x :| x in nodes;
      SumBound(scores, reports, nodes - {x}, heaviest);
      SumPick(scores, reports, nodes, x);
      TermBound(scores, reports, x, heaviest);
      assert |nodes| as real * heaviest == (|nodes| - 1) as real * heaviest + heaviest;
    }
  }

  lemma {:induction false} MaxWeightBound(reports: seq<Report>, node: NodeId, heaviest: real)
    requires heaviest >= 0.0 && forall i :: 0 <= i < |reports| ==> reports[i].weight <= heaviest
    ensures MaxWeight(reports, node) <= heaviest
  {
    if reports != [] {
      MaxWeightBound(reports[..|reports| - 1], node, heaviest);
    }
  }

  /** However many reports there are, suspicion is bounded by who made them: at most the
      heaviest weight for each distinct node. */
  lemma SuspicionBound(scores: Scores, reports: seq<Report>, heaviest: real)
    requires InRange(scores) && heaviest >= 0.0
    requires forall i :: 0 <= i < |reports| ==> reports[i].weight <= heaviest
    ensures 0.0 <= Suspicion(scores, reports) <= |Reporters(reports)| as real * heaviest
  {
    forall n | n in Reporters(reports) {
      MaxWeightBound(reports, n, heaviest);
    }
    SumBound(scores, reports, Reporters(reports), heaviest);
  }

  /** Add up the terms of a map of weights, in whatever order it is iterated. */
  method AddTerms(scores: Scores, reports: seq<Report>, weights: map<NodeId, real>) returns (sum: real)
    requires forall n :: n in weights ==> weights[n] == MaxWeight(reports, n)
    ensures sum == SumOver(scores, reports, weights.Keys)
  {
    hide MaxWeight, SumOver;
    SumNothing(scores, reports);
    var todo := weights.Keys;
    sum := 0.0;
    while todo != {}
      invariant todo <= weights.Keys
      invariant sum + SumOver(scores, reports, todo) == SumOver(scores, reports, weights.Keys)
      decreases |todo|
    {
      var node :| node in todo;
      SumPick(scores, reports, todo, node);
      var w := if node in scores then scores[node].score else 0.0;
      sum := sum + w * weights[node];
      todo := todo - {node};
    }
  }

  method WeightedSuspicionScore(scores: Scores, reports: seq<Report>) returns (sum: real)
    ensures sum == Suspicion(scores, reports)
  {
    var weights: map<NodeId, real> := map[];
    for i := 0 to |reports|
      invariant weights.Keys == Reporters(reports[..i])
      invariant forall n :: n in weights ==> weights[n] == MaxWeight(reports[..i], n)
      invariant forall n :: n !in weights ==> MaxWeight(reports[..i], n) == 0.0
    {
      var report := reports[i];
      assert reports[..i + 1][..i] == reports[..i];
      assert reports[..i + 1] == reports[..i] + [report];
      var entry := if report.reporter in weights then weights[report.reporter] else 0.0;
      weights := weights[report.reporter := if report.weight > entry then report.weight else entry];
    }
    assert reports[..|reports|] == reports;
    sum := AddTerms(scores, reports, weights);
  }

  // ----- the sweep -----------------------------------------------------------------------------

  /** An address nobody is suspicious enough about, reported by too few. */
  ghost predicate Isolated(scores: Scores, threshold: real, minCorroboration: nat, reports: seq<Report>) {
    Suspicion(scores, reports) < threshold && |Reporters(reports)| < minCorroboration
  }

  /** The addresses to drain, judged by the scores before the sweep. */
  ghost function ToDrain(scores: Scores, threshold: real, minCorroboration: nat, all: Reports): (ips: set<string>) {
    set ip | ip in all && Isolated(scores, threshold, minCorroboration, all[ip])
  }

  /** An address is drained exactly if the weight of its reports is below the threshold and fewer
      different nodes than required have reported it: one at the threshold, or reported by enough,
      is left alone. */
  lemma DrainedIff(scores: Scores, threshold: real, minCorroboration: nat, all: Reports, ip: string)
    ensures ip in ToDrain(scores, threshold, minCorroboration, all) <==>
      ip in all && Suspicion(scores, all[ip]) < threshold && |set r | r in all[ip] :: r.reporter| < minCorroboration
  {
  }

  /** Which of some addresses a node has reported. */
  function Hits(all: Reports, ips: set<string>, node: NodeId): (r: set<string>) {
    set ip | ip in ips && ip in all && node in Reporters(all[ip])
  }

  /** The scores after draining `ips`: one penalty per registered node and address. */
  function Swept(scores: Scores, all: Reports, ips: set<string>): (r: Scores) {
    map n | n in scores :: PenalisedTimes(scores[n], |Hits(all, ips, n)|)
  }

  lemma HitsMore(all: Reports, done: set<string>, ip: string, node: NodeId)
    requires ip in all && ip !in done
    ensures |Hits(all, done + {ip}, node)| == |Hits(all, done, node)| + if node in Reporters(all[ip]) then 1 else 0
  {
    var before, after := Hits(all, done, node), Hits(all, done + {ip}, node);
    if node in Reporters(all[ip]) {
      assert after == before + {ip};
    } else {
      assert after == before;
    }
  }

  function PenaliseSome(scores: Scores, nodes: set<NodeId>): (r: Scores) {
    map n | n in scores :: if n in nodes then Penalised(scores[n]) else scores[n]
  }

  lemma SweptMore(scores: Scores, all: Reports, done: set<string>, ip: string)
    requires ip in all && ip !in done
    ensures Swept(scores, all, done + {ip}) == PenaliseSome(Swept(scores, all, done), Reporters(all[ip]))
  {
    hide Hits, Penalised, Reporters;
    forall n | n in scores {
      HitsMore(all, done, ip, n);
    }
  }

  lemma SweptNothing(scores: Scores, all: Reports)
    ensures Swept(scores, all, {}) == scores
    ensures forall n :: Hits(all, {}, n) == {}
  {
    assert forall n :: Hits(all, {}, n) == {};
  }

  class TrustManager {
    var trustScores: Scores
    var banThreshold: real
    var ipReports: Reports

    constructor (banThreshold: real)
      ensures trustScores == map[] && this.banThreshold == banThreshold && ipReports == map[]
    {
      this.trustScores, this.banThreshold, this.ipReports := map[], banThreshold, map[];
    }

    method RecordTruePositive(node: NodeId, now: Time)
      modifies this`trustScores
      ensures trustScores == if node in old(trustScores)
                             then old(trustScores)[node := Confirmed(old(trustScores)[node], 1, 0, now)]
                             else old(trustScores)
      ensures node in old(trustScores) ==>
        var was := old(trustScores)[node];
        trustScores[node] == was.(truePositives := was.truePositives + 1,
                                  score := CalculateScore(was.truePositives + 1, was.falsePositives, was.joinedAt, now))
      ensures InRange(old(trustScores)) ==> InRange(trustScores)
    {
      if node in trustScores {
        trustScores := trustScores[node := Confirmed(trustScores[node], 1, 0, now)];
      }
    }

    method RecordFalsePositive(node: NodeId, now: Time)
      modifies this`trustScores
      ensures trustScores == if node in old(trustScores)
                             then old(trustScores)[node := Confirmed(old(trustScores)[node], 0, 1, now)]
                             else old(trustScores)
      ensures node in old(trustScores) ==>
        var was := old(trustScores)[node];
        trustScores[node] == was.(falsePositives := was.falsePositives + 1,
                                  score := CalculateScore(was.truePositives, was.falsePositives + 1, was.joinedAt, now))
      ensures InRange(old(trustScores)) ==> InRange(trustScores)
    {
      if node in trustScores {
        trustScores := trustScores[node := Confirmed(trustScores[node], 0, 1, now)];
      }
    }

    method PenalizeMinorityReporter(node: NodeId)
      modifies this`trustScores
      ensures trustScores == PenaliseSome(old(trustScores), {node})
    {
      if node in trustScores {
        trustScores := trustScores[node := Penalised(trustScores[node])];
      }
      assert trustScores == PenaliseSome(old(trustScores), {node});
    }

    /** The reporters of one drained address, each penalised once. */
    method PenalizeAll(reporters: set<NodeId>, penalized0: seq<NodeId>) returns (penalized: seq<NodeId>)
      modifies this`trustScores
      ensures trustScores == PenaliseSome(old(trustScores), reporters)
      ensures multiset(penalized) == multiset(penalized0) + multiset(reporters)
    {
      penalized := penalized0;
      var todo := reporters;
      ghost var done: set<NodeId> := {};
      PenaliseNone(trustScores);
      while todo != {}
        invariant done !! todo && done + todo == reporters
        invariant trustScores == PenaliseSome(old(trustScores), done)
        invariant multiset(penalized) == multiset(penalized0) + multiset(done)
        decreases |todo|
      {
        var node :| node in todo;
        PenaliseOneMore(old(trustScores), done, node);
        PenalizeMinorityReporter(node);
        penalized := penalized + [node];
        todo, done := todo - {node}, done + {node};
      }
      assert done == reporters;
    }

    /** The addresses to drain, found by looking at every one, in any order. */
    method FindIsolated(minCorroboration: nat) returns (ips: set<string>)
      ensures ips == ToDrain(trustScores, banThreshold, minCorroboration, ipReports)
    {
      hide Suspicion, Reporters;
      ips := {};
      var todo := ipReports.Keys;
      while todo != {}
        invariant todo <= ipReports.Keys
        invariant ips == ToDrain(trustScores, banThreshold, minCorroboration, ipReports) - todo
        decreases |todo|
      {
        var ip :| ip in todo;
        var score := WeightedSuspicionScore(trustScores, ipReports[ip]);
        if score < banThreshold && |Reporters(ipReports[ip])| < minCorroboration {
          ips := ips + {ip};
        }
        todo := todo - {ip};
      }
    }

    /** The sweep. It ends the same for every order of iteration: exactly the isolated
        addresses are gone, each registered node has one penalty per drained address it
        reported, and each reporter is listed once per such address. */
    method DrainIsolatedReports(minCorroboration: nat) returns (penalized: seq<NodeId>)
      modifies this`trustScores, this`ipReports
      ensures var ips := ToDrain(old(trustScores), banThreshold, minCorroboration, old(ipReports));
        && ipReports == old(ipReports) - ips
        && trustScores == Swept(old(trustScores), old(ipReports), ips)
        && forall node :: multiset(penalized)[node] == |Hits(old(ipReports), ips, node)|
    {
      hide Penalised, PenalisedTimes, PenaliseSome, Reporters, ToDrain, Hits, Swept;
      penalized := [];
      var ips := FindIsolated(minCorroboration);
      ghost var all := ipReports;
      DrainedAreReported(trustScores, banThreshold, minCorroboration, all);
      SweptNothing(trustScores, all);
      var todo := ips;
      ghost var done: set<string> := {};
      while todo != {}
        invariant done !! todo && done + todo == ips
        invariant ipReports == all - done
        invariant trustScores == Swept(old(trustScores), all, done)
        invariant forall node :: multiset(penalized)[node] == |Hits(all, done, node)|
        decreases |todo|
      {
        var ip :| ip in todo;
        SweptMore(old(trustScores), all, done, ip);
        forall node {
          HitsMore(all, done, ip, node);
        }
        var reports := ipReports[ip];
        MinusMore(all, done, ip);
        ipReports := ipReports - {ip};
        penalized := PenalizeAll(Reporters(reports), penalized);
        todo, done := todo - {ip}, done + {ip};
      }
      assert done == ips;
    }
  }

  lemma MinusMore(all: Reports, done: set<string>, ip: string)
    ensures all - done - {ip} == all - (done + {ip})
  {
  }

  lemma PenaliseNone(scores: Scores)
    ensures PenaliseSome(scores, {}) == scores
  {
  }

  lemma PenaliseOneMore(scores: Scores, done: set<NodeId>, node: NodeId)
    requires node !in done
    ensures PenaliseSome(PenaliseSome(scores, done), {node}) == PenaliseSome(scores, done + {node})
  {
  }

  lemma DrainedAreReported(scores: Scores, threshold: real, minCorroboration: nat, all: Reports)
    ensures ToDrain(scores, threshold, minCorroboration, all) <= all.Keys
  {
  }

  /** The sweep keeps every score in range. */
  lemma SweepInRange(scores: Scores, all: Reports, ips: set<string>)
    requires InRange(scores)
    ensures InRange(Swept(scores, all, ips))
  {
    forall n | n in scores {
      PenaltiesStayInRange(scores[n], |Hits(all, ips, n)|);
    }
  }

  lemma {:induction false} PenaltyCount(ts: TrustScore, k: nat)
    requires ts.penalties <= U32_MAX
    ensures PenalisedTimes(ts, k).penalties == if ts.penalties + k <= U32_MAX then ts.penalties + k else U32_MAX
  {
    if k > 0 {
      PenaltyCount(ts, k - 1);
    }
  }
}
