/**
 The query over the scanner's visits: keep the newest `limit` matching lines, over
 segments that arrive newest first when plain and oldest first when compressed.
 */
module LogQuery {
  import opened Options
  import opened LogLines
  import opened LogWalk

  /** A stretch of lines from one file, in the order the scanner visits them. */
  datatype Segment = Plain(newestFirst: seq<Item>) | Gzip(oldestFirst: seq<Item>)

  function SegmentVisits(s: Segment): (r: seq<Visit>) {
    match s
    case Plain(items) => LineVisits(items)
    case Gzip(items) => [ForwardStart] + LineVisits(items) + [ForwardEnd]
  }

  /** What the visitor is called with, segment by segment. */
  function Visits(segments: seq<Segment>): (r: seq<Visit>) {
    if segments == [] then []
    else Visits(segments[..|segments| - 1]) + SegmentVisits(segments[|segments| - 1])
  }

  function Chronological(s: Segment): (r: seq<Item>) {
    match s
    case Plain(items) => Reverse(items)
    case Gzip(items) => items
  }

  /** All lines in the order they were logged: each segment is older than the one before. */
  function Log(segments: seq<Segment>): (r: seq<Item>) {
    if segments == [] then []
    else Chronological(segments[|segments| - 1]) + Log(segments[..|segments| - 1])
  }

  function Filter(p: Bytes -> bool, items: seq<Item>): (r: seq<Item>)
    ensures |r| <= |items|
  {
    if items == [] then []
    else Filter(p, items[..|items| - 1]) + if p(items[|items| - 1].text) then [items[|items| - 1]] else []
  }

  function First<T>(n: nat, s: seq<T>): (r: seq<T>) {
    if |s| <= n then s else s[..n]
  }

  function Last<T>(n: nat, s: seq<T>): (r: seq<T>)
    ensures |r| == (if |s| <= n then |s| else n) && r == s[|s| - |r|..]
  {
    if |s| <= n then s else s[|s| - n..]
  }

  lemma {:induction false} FilterAppend(p: Bytes -> bool, a: seq<Item>, b: seq<Item>)
    ensures Filter(p, a + b) == Filter(p, a) + Filter(p, b)
  {
    if b == [] {
      assert a + b == a;
    } else {
      FilterAppend(p, a, b[..|b| - 1]);
      assert (a + b)[..|a + b| - 1] == a + b[..|b| - 1];
    }
  }

  lemma {:induction false} FilterReverse(p: Bytes -> bool, s: seq<Item>)
    ensures Filter(p, Reverse(s)) == Reverse(Filter(p, s))
  {
    if s != [] {
      var init, last := s[..|s| - 1], [s[|s| - 1]];
      FilterReverse(p, init);
      FilterAppend(p, last, Reverse(init));
      assert Filter(p, s) == Filter(p, init) + Filter(p, last) by {
        assert s == init + last;
        FilterAppend(p, init, last);
      }
      ReverseAppend(Filter(p, init), Filter(p, last));
      assert Filter(p, []) == [];
    }
  }

  lemma {:induction false} ReverseTwice<T>(s: seq<T>)
    ensures Reverse(Reverse(s)) == s
  {
    if s != [] {
      var init, last := s[..|s| - 1], [s[|s| - 1]];
      ReverseTwice(init);
      ReverseAppend(last, Reverse(init));
      ReverseOne(s[|s| - 1]);
      assert s == init + last;
    }
  }

  lemma ReverseFirst<T>(n: nat, s: seq<T>)
    ensures Reverse(First(n, Reverse(s))) == Last(n, s)
  {
    if |s| <= n {
      ReverseTwice(s);
    } else {
      var older, newer := s[..|s| - n], s[|s| - n..];
      assert s == older + newer;
      ReverseAppend(older, newer);
      assert First(n, Reverse(s)) == Reverse(newer);
      ReverseTwice(newer);
    }
  }

  // ----- the accumulator ----------------------------------------------------

  datatype Acc = Acc(matched: nat, items: seq<Item>, forward: Option<seq<Item>>)

  /** One call of the visitor. */
  function Take(limit: nat, p: Bytes -> bool, acc: Acc, v: Visit): (r: Acc) {
    match v
    case ForwardStart => acc.(forward := Some([]))
    case ForwardEnd =>
      if acc.forward.None? then acc
      else acc.(items := acc.items + Reverse(acc.forward.value), forward := None)
    case Line(item) =>
      if !p(item.text) then acc
      else if acc.forward.Some? then
        var free := if |acc.items| <= limit then limit - |acc.items| else 0;
        if free == 0 then acc.(matched := acc.matched + 1)
        else
          var seg := acc.forward.value + [item];
          acc.(matched := acc.matched + 1, forward := Some(if |seg| > free then seg[1..] else seg))
      else if |acc.items| < limit then
        acc.(matched := acc.matched + 1, items := acc.items + [item])
      else acc.(matched := acc.matched + 1)
  }

  function TakeAll(limit: nat, p: Bytes -> bool, acc: Acc, visits: seq<Visit>): (r: Acc) {
    if visits == [] then acc
    else Take(limit, p, TakeAll(limit, p, acc, visits[..|visits| - 1]), visits[|visits| - 1])
  }

  lemma {:induction false} TakeAppend(limit: nat, p: Bytes -> bool, acc: Acc, a: seq<Visit>, b: seq<Visit>)
    ensures TakeAll(limit, p, acc, a + b) == TakeAll(limit, p, TakeAll(limit, p, acc, a), b)
  {
    hide Take;
    if b == [] {
      assert a + b == a;
    } else {
      TakeAppend(limit, p, acc, a, b[..|b| - 1]);
      assert (a + b)[..|a + b| - 1] == a + b[..|b| - 1];
    }
  }

  class Query {
    const limit: nat
    const matches: Bytes -> bool
    var matched: nat
    var items: seq<Item>
    var forward: Option<seq<Item>>

    constructor (limit: nat, matches: Bytes -> bool)
      ensures this.limit == limit && this.matches == matches && State() == Acc(0, [], None)
    {
      this.limit, this.matches, matched, items, forward := limit, matches, 0, [], None;
    }

    ghost function State(): (acc: Acc)
      reads this
    {
      Acc(matched, items, forward)
    }

    /** The visitor. */
    method Accept(v: Visit)
      modifies this
      ensures State() == Take(limit, matches, old(State()), v)
    {
      match v
      case ForwardStart =>
        forward := Some([]);
      case ForwardEnd =>
        if forward.Some? {
          items := items + Reverse(forward.value);
          forward := None;
        }
      case Line(item) =>
        if !matches(item.text) {
          return;
        }
        matched := matched + 1;
        if forward.Some? {
          var free := if |items| <= limit then limit - |items| else 0;
          if free > 0 {
            var seg := forward.value + [item];
            if |seg| > free {
              seg := seg[1..];
            }
            forward := Some(seg);
          }
          return;
        }
        if |items| < limit {
          items := items + [item];
        }
    }
  }

  // ----- plain segments -----------------------------------------------------

  lemma LineVisitsInit(items: seq<Item>)
    requires items != []
    ensures var init, last := items[..|items| - 1], items[|items| - 1];
      && LineVisits(items)[..|items| - 1] == LineVisits(init)
      && LineVisits(items)[|items| - 1] == Line(last)
  {
  }

  /** `best` are all matches before this segment, newest first. */
  lemma {:induction false} TakePlain(limit: nat, p: Bytes -> bool, m: nat, best: seq<Item>, items: seq<Item>)
    ensures TakeAll(limit, p, Acc(m, First(limit, best), None), LineVisits(items))
         == Acc(m + |Filter(p, items)|, First(limit, best + Filter(p, items)), None)
  {
    hide LineVisits, First;
    if items == [] {
      NoVisits();
      assert best + Filter(p, items) == best;
    } else {
      LineVisitsInit(items);
      var init, last := items[..|items| - 1], items[|items| - 1];
      TakePlain(limit, p, m, best, init);
      FirstSnoc(limit, best + Filter(p, init), last);
      Regroup(best, Filter(p, init), [last]);
      Regroup(best, Filter(p, init), []);
      assert best + Filter(p, init) + [] == best + Filter(p, init);
    }
  }

  lemma Regroup<T>(a: seq<T>, b: seq<T>, c: seq<T>)
    ensures a + (b + c) == a + b + c
  {
  }

  lemma FirstSnoc<T>(n: nat, s: seq<T>, x: T)
    ensures First(n, s + [x]) == if |First(n, s)| < n then First(n, s) + [x] else First(n, s)
  {
  }

  // ----- compressed segments --------------------------------------------------

  lemma LastSnoc<T>(n: nat, s: seq<T>, x: T)
    ensures n > 0 ==> var seg := Last(n, s) + [x];
      Last(n, s + [x]) == if |seg| > n then seg[1..] else seg
    ensures n == 0 ==> Last(n, s + [x]) == Last(n, s)
  {
    if |s| < n {
      assert Last(n, s + [x]) == s + [x];
    } else {
      var i := |s| - n;
      assert Last(n, s) == s[i..];
      assert Last(n, s + [x]) == (s + [x])[i + 1..];
    }
  }

  lemma {:induction false} TakeForward(limit: nat, p: Bytes -> bool, m: nat, kept: seq<Item>, items: seq<Item>)
    requires |kept| <= limit
    ensures TakeAll(limit, p, Acc(m, kept, Some([])), LineVisits(items))
         == Acc(m + |Filter(p, items)|, kept, Some(Last(limit - |kept|, Filter(p, items))))
  {
    hide Last, LineVisits;
    LastNothing<Item>(limit - |kept|);
    NoVisits();
    if items != [] {
      LineVisitsInit(items);
      var init, last := items[..|items| - 1], items[|items| - 1];
      TakeForward(limit, p, m, kept, init);
      LastSnoc(limit - |kept|, Filter(p, init), last);
      assert Filter(p, init) + [] == Filter(p, init);
    }
  }

  lemma LastNothing<T>(n: nat)
    ensures Last<T>(n, []) == []
  {
  }

  /** Closing the segment: the kept tail, reversed, fills the free places. */
  lemma FirstFill(n: nat, best: seq<Item>, seg: seq<Item>)
    ensures |First(n, best)| <= n
    ensures First(n, best + Reverse(seg)) == First(n, best) + Reverse(Last(n - |First(n, best)|, seg))
  {
    var free := n - |First(n, best)|;
    if |best| < n && |seg| > free {
      var older, newer := seg[..|seg| - free], seg[|seg| - free..];
      assert seg == older + newer;
      ReverseAppend(older, newer);
    } else if |best| >= n {
      assert Last(free, seg) == [];
    }
  }

  lemma TakeGzip(limit: nat, p: Bytes -> bool, m: nat, best: seq<Item>, items: seq<Item>)
    ensures TakeAll(limit, p, Acc(m, First(limit, best), None), SegmentVisits(Gzip(items)))
         == Acc(m + |Filter(p, items)|, First(limit, best + Reverse(Filter(p, items))), None)
  {
    hide First, Last, Filter, Reverse, LineVisits;
    var acc := Acc(m, First(limit, best), None);
    FirstFill(limit, best, Filter(p, items));
    var lines := LineVisits(items);
    TakeForward(limit, p, m, First(limit, best), items);
    TakeAppend(limit, p, acc, [ForwardStart], lines);
    TakeAppend(limit, p, acc, [ForwardStart] + lines, [ForwardEnd]);
    TakeOne(limit, p, acc, ForwardStart);
    TakeOne(limit, p, TakeAll(limit, p, acc, [ForwardStart] + lines), ForwardEnd);
  }

  lemma TakeOne(limit: nat, p: Bytes -> bool, acc: Acc, v: Visit)
    ensures TakeAll(limit, p, acc, [v]) == Take(limit, p, acc, v)
  {
  }

  // ----- the whole query --------------------------------------------------------

  lemma {:induction false} TakeSegments(limit: nat, p: Bytes -> bool, segments: seq<Segment>)
    ensures TakeAll(limit, p, Acc(0, [], None), Visits(segments))
         == Acc(|Filter(p, Log(segments))|, First(limit, Reverse(Filter(p, Log(segments)))), None)
  {
    if segments == [] {
      assert Filter(p, []) == [];
    } else {
      var init, last := segments[..|segments| - 1], segments[|segments| - 1];
      var before := Filter(p, Log(init));
      TakeSegments(limit, p, init);
      TakeAppend(limit, p, Acc(0, [], None), Visits(init), SegmentVisits(last));
      TakeSegment(limit, p, |before|, before, last);
      FilterAppend(p, Chronological(last), Log(init));
    }
  }

  /** One more, older segment in front of the matches `newer`. */
  lemma TakeSegment(limit: nat, p: Bytes -> bool, m: nat, newer: seq<Item>, s: Segment)
    ensures var matches := Filter(p, Chronological(s));
      TakeAll(limit, p, Acc(m, First(limit, Reverse(newer)), None), SegmentVisits(s))
      == Acc(m + |matches|, First(limit, Reverse(matches + newer)), None)
  {
    hide Filter, Reverse, First, TakeAll, LineVisits;
    var matches := Filter(p, Chronological(s));
    ReverseAppend(matches, newer);
    match s
    case Plain(items) =>
      TakePlain(limit, p, m, Reverse(newer), items);
      FilterReverse(p, items);
      ReverseTwice(Filter(p, items));
    case Gzip(items) =>
      TakeGzip(limit, p, m, Reverse(newer), items);
  }

  /** For every run of plain and compressed segments and every limit: the items kept are, in
      chronological order, the last `limit` matching lines of the log, and `matched` counts
      all of them. */
  lemma QueryKeepsLast(segments: seq<Segment>, limit: nat, p: Bytes -> bool)
    ensures var acc := TakeAll(limit, p, Acc(0, [], None), Visits(segments));
      && acc.matched == |Filter(p, Log(segments))|
      && Reverse(acc.items) == Last(limit, Filter(p, Log(segments)))
  {
    hide TakeAll, Filter, Log;
    TakeSegments(limit, p, segments);
    ReverseFirst(limit, Filter(p, Log(segments)));
  }

  /** Feed visits to a query, one by one. */
  method Collect(visits: seq<Visit>, limit: nat, matches: Bytes -> bool) returns (matched: nat, items: seq<Item>)
    ensures var acc := TakeAll(limit, matches, Acc(0, [], None), visits);
      matched == acc.matched && items == Reverse(acc.items)
  {
    hide Take;
    var query := new Query(limit, matches);
    for i := 0 to |visits|
      invariant query.limit == limit && query.matches == matches
      invariant query.State() == TakeAll(limit, matches, Acc(0, [], None), visits[..i])
    {
      query.Accept(visits[i]);
      assert visits[..i + 1][..i] == visits[..i];
    }
    assert visits[..|visits|] == visits;
    matched, items := query.matched, Reverse(query.items);
  }
}
