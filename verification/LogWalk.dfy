/**
 What the scanner does with the lines it reads, newest first: stamp each line
 with its own or an inherited time, hand over those inside the window, and stop
 once 200 stamped lines older than the window have gone by.

 `Step` and `Run` say what the code does line by line. `WindowItems` is the
 plain filter a reader would expect, and `OlderStretch` the plain description of
 where the scan gives up; the theorems at the end relate the three.
 */
module LogWalk {
  import opened Options
  import opened LogLines

  type Time = int

  /** `detect` stands for timestamp detection and is any function of the text. */
  datatype ScanWindow = ScanWindow(since: Time, until: Time, budget: nat,
                                   includeRotated: bool, detect: Bytes -> Option<Time>)

  /** A line as it is handed over: its text, and its own or inherited time. */
  datatype Item = Item(text: Bytes, ts: Option<Time>)

  /** What the scanner hands to its visitor. */
  datatype Visit = Line(item: Item) | ForwardStart | ForwardEnd

  const OLDER_STREAK_STOP: nat := 200

  /** The part of the scan's state that lines change, with the visits made so far. */
  datatype Walk = Walk(lines: nat, oldest: Option<Time>, newest: Option<Time>, reachedSince: bool,
                       inherited: Option<Time>, olderStreak: nat, visits: seq<Visit>)

  /** The walk after some lines, and whether the scan goes on. */
  datatype Progress = Progress(walk: Walk, more: bool)

  function Text(line: Bytes): (r: Bytes) {
    if line != [] && line[|line| - 1] == CARRIAGE_RETURN then line[..|line| - 1] else line
  }

  function Own(w: ScanWindow, line: Bytes): (r: Option<Time>) {
    if Text(line) == [] then None else w.detect(Text(line))
  }

  function Else(own: Option<Time>, inherited: Option<Time>): (r: Option<Time>) {
    if own.Some? then own else inherited
  }

  predicate InWindow(w: ScanWindow, eff: Option<Time>) {
    eff.Some? ==> w.since <= eff.value <= w.until
  }

  /** A line stamped inside the window: it resets the streak. */
  predicate Inside(w: ScanWindow, line: Bytes) {
    Own(w, line).Some? && w.since <= Own(w, line).value <= w.until
  }

  /** A line stamped before the window: it lengthens the streak. */
  predicate Older(w: ScanWindow, line: Bytes) {
    Own(w, line).Some? && Own(w, line).value < w.since && Own(w, line).value <= w.until
  }

  function Earliest(own: Option<Time>, oldest: Option<Time>): (r: Option<Time>) {
    if own.Some? && (oldest.None? || own.value < oldest.value) then own else oldest
  }

  function Latest(own: Option<Time>, newest: Option<Time>): (r: Option<Time>) {
    if own.Some? && (newest.None? || own.value > newest.value) then own else newest
  }

  /** One line. */
  function Step(w: ScanWindow, s: Walk, line: Bytes): (r: Progress) {
    if Text(line) == [] then Progress(s, true)
    else
      var own := Own(w, line);
      var eff := Else(own, s.inherited);
      var seen := s.(lines := s.lines + 1, inherited := eff,
                     oldest := Earliest(own, s.oldest), newest := Latest(own, s.newest));
      if eff.Some? && eff.value > w.until then Progress(seen, true)
      else if eff.Some? && eff.value < w.since then
        if own.None? then Progress(seen, true)
        else if s.olderStreak + 1 >= OLDER_STREAK_STOP then
          Progress(seen.(olderStreak := s.olderStreak + 1, reachedSince := true), false)
        else Progress(seen.(olderStreak := s.olderStreak + 1), true)
      else
        var streak := if own.Some? then 0 else s.olderStreak;
        Progress(seen.(olderStreak := streak, visits := s.visits + [Line(Item(Text(line), eff))]), true)
  }

  /** The first `n` lines, or fewer if the scan stops. */
  function Run(w: ScanWindow, s: Walk, lines: seq<Bytes>, n: nat): (r: Progress)
    requires n <= |lines|
  {
    if n == 0 then Progress(s, true)
    else
      var before := Run(w, s, lines, n - 1);
      if before.more then Step(w, before.walk, lines[n - 1]) else before
  }

  lemma {:induction false} RunSame(w: ScanWindow, s: Walk, a: seq<Bytes>, b: seq<Bytes>, n: nat)
    requires n <= |a| && n <= |b|
    requires forall i :: 0 <= i < n ==> a[i] == b[i]
    ensures Run(w, s, a, n) == Run(w, s, b, n)
  {
    if n > 0 {
      RunSame(w, s, a, b, n - 1);
    }
  }

  lemma {:induction false} RunStopped(w: ScanWindow, s: Walk, lines: seq<Bytes>, m: nat, n: nat)
    requires m <= n <= |lines| && !Run(w, s, lines, m).more
    ensures Run(w, s, lines, n) == Run(w, s, lines, m)
  {
    if m < n {
      RunStopped(w, s, lines, m, n - 1);
    }
  }

  // ----- the plain window filter ------------------------------------------

  /** The time a line after the first `n` inherits: that of the last stamped one. */
  function Inherited(w: ScanWindow, start: Option<Time>, lines: seq<Bytes>, n: nat): (r: Option<Time>)
    requires n <= |lines|
  {
    if n == 0 then start else Else(Own(w, lines[n - 1]), Inherited(w, start, lines, n - 1))
  }

  /** What one more line adds. */
  function NextItem(w: ScanWindow, eff: Option<Time>, line: Bytes): (r: seq<Item>) {
    if Text(line) != [] && InWindow(w, eff) then [Item(Text(line), eff)] else []
  }

  /** Every non-blank line of the first `n` whose own or inherited time is in the window. */
  function WindowItems(w: ScanWindow, start: Option<Time>, lines: seq<Bytes>, n: nat): (r: seq<Item>)
    requires n <= |lines|
  {
    if n == 0 then []
    else WindowItems(w, start, lines, n - 1) + NextItem(w, Inherited(w, start, lines, n), lines[n - 1])
  }

  function LineVisits(items: seq<Item>): (r: seq<Visit>)
    ensures |r| == |items|
    ensures forall i :: 0 <= i < |items| ==> r[i] == Line(items[i])
  {
    seq(|items|, i requires 0 <= i < |items| => Line(items[i]))
  }

  lemma LineVisitsAppend(a: seq<Item>, b: seq<Item>)
    ensures LineVisits(a + b) == LineVisits(a) + LineVisits(b)
  {
  }

  lemma NoVisits()
    ensures LineVisits([]) == []
  {
  }

  lemma ItemsNext(w: ScanWindow, start: Option<Time>, lines: seq<Bytes>, n: nat)
    requires 0 < n <= |lines|
    ensures WindowItems(w, start, lines, n)
         == WindowItems(w, start, lines, n - 1) + NextItem(w, Inherited(w, start, lines, n), lines[n - 1])
  {
  }

  // ----- what a line says ---------------------------------------------------

  /** One carriage return at the end is not part of the text; nothing else is left out. */
  lemma TextIs(line: Bytes)
    ensures Text(line + [CARRIAGE_RETURN]) == line
    ensures line == [] || line[|line| - 1] != CARRIAGE_RETURN ==> Text(line) == line
  {
    var longer := line + [CARRIAGE_RETURN];
    assert longer[..|longer| - 1] == line;
  }

  /** The time inherited is that of the last line with one of its own. */
  lemma {:induction false} InheritedIs(w: ScanWindow, start: Option<Time>, lines: seq<Bytes>, n: nat)
    requires n <= |lines|
    ensures
      || (Inherited(w, start, lines, n) == start && forall i :: 0 <= i < n ==> Own(w, lines[i]).None?)
      || (exists k :: 0 <= k < n && Own(w, lines[k]).Some? && Inherited(w, start, lines, n) == Own(w, lines[k])
            && forall i :: k < i < n ==> Own(w, lines[i]).None?)
  {
    hide Own;
    if n > 0 {
      InheritedIs(w, start, lines, n - 1);
    }
  }

  /** How many of the first `n` lines are not blank. */
  function Lines(lines: seq<Bytes>, n: nat): (r: nat)
    requires n <= |lines|
  {
    if n == 0 then 0 else Lines(lines, n - 1) + if Text(lines[n - 1]) == [] then 0 else 1
  }

  /** `t` is the latest, or else the earliest, of the times in `before` and of the first `n` lines. */
  ghost predicate Extreme(w: ScanWindow, t: Option<Time>, before: Option<Time>, lines: seq<Bytes>, n: nat, latest: bool)
    requires n <= |lines|
  {
    && (t.None? ==> before.None? && forall i :: 0 <= i < n ==> Own(w, lines[i]).None?)
    && (t.Some? ==>
          && (before == t || exists i :: 0 <= i < n && Own(w, lines[i]) == t)
          && (before.Some? ==> InOrder(before.value, t.value, latest))
          && (forall i :: 0 <= i < n && Own(w, lines[i]).Some? ==> InOrder(Own(w, lines[i]).value, t.value, latest)))
  }

  predicate InOrder(a: Time, b: Time, latest: bool) {
    if latest then a <= b else b <= a
  }

  lemma ExtremeMore(w: ScanWindow, t: Option<Time>, t': Option<Time>, before: Option<Time>, lines: seq<Bytes>, n: nat, latest: bool)
    requires 0 < n <= |lines| && Extreme(w, t, before, lines, n - 1, latest)
    requires t' == if latest then Latest(Own(w, lines[n - 1]), t) else Earliest(Own(w, lines[n - 1]), t)
    ensures Extreme(w, t', before, lines, n, latest)
  {
    hide Own;
  }

  /** Up to and including the line it stops at, the walk has counted the lines that are not blank,
      and the span of times it reports is from the earliest to the latest stamp it has met. */
  lemma {:induction false} RunReports(w: ScanWindow, s: Walk, lines: seq<Bytes>, n: nat)
    requires n <= |lines| && (n > 0 ==> Run(w, s, lines, n - 1).more)
    ensures var walk := Run(w, s, lines, n).walk;
      && walk.lines == s.lines + Lines(lines, n)
      && Extreme(w, walk.oldest, s.oldest, lines, n, false) && Extreme(w, walk.newest, s.newest, lines, n, true)
  {
    hide Extreme, Earliest, Latest, Text, Own;
    if n == 0 {
      NoExtreme(w, s.oldest, lines, false);
      NoExtreme(w, s.newest, lines, true);
    } else {
      RunReports(w, s, lines, n - 1);
      var before, after := Run(w, s, lines, n - 1).walk, Run(w, s, lines, n).walk;
      StepReports(w, before, lines[n - 1]);
      ExtremeMore(w, before.oldest, after.oldest, s.oldest, lines, n, false);
      ExtremeMore(w, before.newest, after.newest, s.newest, lines, n, true);
    }
  }

  lemma NoExtreme(w: ScanWindow, t: Option<Time>, lines: seq<Bytes>, latest: bool)
    ensures Extreme(w, t, t, lines, 0, latest)
  {
  }

  lemma StepReports(w: ScanWindow, s: Walk, line: Bytes)
    ensures var walk := Step(w, s, line).walk;
      && walk.lines == s.lines + (if Text(line) == [] then 0 else 1)
      && walk.oldest == Earliest(Own(w, line), s.oldest) && walk.newest == Latest(Own(w, line), s.newest)
  {
  }

  // ----- where the scan gives up ------------------------------------------

  /** How many of the lines `j..i` are stamped before the window. */
  function CountOlder(w: ScanWindow, lines: seq<Bytes>, j: nat, i: nat): (r: nat)
    requires j <= i <= |lines|
    ensures r <= i - j
  {
    if i == j then 0
    else CountOlder(w, lines, j, i - 1) + if Older(w, lines[i - 1]) then 1 else 0
  }

  /** The older lines of a stretch; one that starts with the log goes on with the streak the walk
      began with. */
  function StretchCount(w: ScanWindow, carried: nat, lines: seq<Bytes>, j: nat, i: nat): (r: nat)
    requires j <= i <= |lines|
  {
    CountOlder(w, lines, j, i) + if j == 0 then carried else 0
  }

  /** Lines `j..i` end in an older one, count 200 of them, and have no stamp inside the window. */
  predicate OlderStretch(w: ScanWindow, carried: nat, lines: seq<Bytes>, j: nat, i: nat) {
    && j < i <= |lines| && Older(w, lines[i - 1])
    && (forall k :: j <= k < i ==> !Inside(w, lines[k]))
    && StretchCount(w, carried, lines, j, i) >= OLDER_STREAK_STOP
  }

  /** The start of the current stretch: just after the last line stamped inside. */
  function StretchStart(w: ScanWindow, lines: seq<Bytes>, n: nat): (j: nat)
    requires n <= |lines|
    ensures j <= n
    ensures forall k :: j <= k < n ==> !Inside(w, lines[k])
    ensures j > 0 ==> Inside(w, lines[j - 1])
  {
    if n == 0 || Inside(w, lines[n - 1]) then n else StretchStart(w, lines, n - 1)
  }

  lemma {:induction false} CountOlderGrows(w: ScanWindow, lines: seq<Bytes>, j: nat, k: nat, i: nat)
    requires j <= k <= i <= |lines|
    ensures CountOlder(w, lines, k, i) <= CountOlder(w, lines, j, i)
    ensures CountOlder(w, lines, j, k) <= CountOlder(w, lines, j, i)
  {
    if k < i {
      CountOlderGrows(w, lines, j, k, i - 1);
    } else if j < i {
      CountOlderGrows(w, lines, j, j, i - 1);
    }
  }

  /** While the scan goes on, it has filtered every line so far. */
  lemma {:induction false} RunIsFilter(w: ScanWindow, s: Walk, lines: seq<Bytes>, n: nat)
    requires n <= |lines| && Run(w, s, lines, n).more
    ensures Run(w, s, lines, n).walk.visits == s.visits + LineVisits(WindowItems(w, s.inherited, lines, n))
    ensures Run(w, s, lines, n).walk.inherited == Inherited(w, s.inherited, lines, n)
    ensures Run(w, s, lines, n).walk.reachedSince == s.reachedSince
  {
    hide Step, LineVisits, WindowItems, NextItem;
    if n == 0 {
      assert WindowItems(w, s.inherited, lines, 0) == [] by {
        NoItems(w, s.inherited, lines);
      }
      NoVisits();
    } else {
      RunIsFilter(w, s, lines, n - 1);
      var before, line := Run(w, s, lines, n - 1).walk, lines[n - 1];
      StepVisits(w, before, line);
      ItemsNext(w, s.inherited, lines, n);
      LineVisitsAppend(WindowItems(w, s.inherited, lines, n - 1), NextItem(w, Inherited(w, s.inherited, lines, n), line));
    }
  }

  lemma NoItems(w: ScanWindow, start: Option<Time>, lines: seq<Bytes>)
    ensures WindowItems(w, start, lines, 0) == []
  {
  }

  /** What a line does to the visits. */
  lemma StepVisits(w: ScanWindow, s: Walk, line: Bytes)
    ensures var eff := Else(Own(w, line), s.inherited);
      && Step(w, s, line).walk.inherited == eff
      && Step(w, s, line).walk.visits == s.visits + LineVisits(NextItem(w, eff, line))
    ensures Step(w, s, line).more ==> Step(w, s, line).walk.reachedSince == s.reachedSince
  {
    hide Earliest, Latest;
    NoVisits();
    assert s.visits + [] == s.visits;
    var item := Item(Text(line), Else(Own(w, line), s.inherited));
    assert LineVisits([item]) == [Line(item)];
  }

  /** What a line does to the streak. */
  lemma StepStreak(w: ScanWindow, s: Walk, line: Bytes)
    ensures Step(w, s, line).walk.olderStreak
         == if Inside(w, line) then 0 else if Older(w, line) then s.olderStreak + 1 else s.olderStreak
    ensures Step(w, s, line).more <==> !(Older(w, line) && s.olderStreak + 1 >= OLDER_STREAK_STOP)
  {
  }

  /** The streak is the number of older lines in the current stretch. */
  lemma {:induction false} StreakCounts(w: ScanWindow, s: Walk, lines: seq<Bytes>, n: nat)
    requires n <= |lines| && Run(w, s, lines, n).more
    ensures Run(w, s, lines, n).walk.olderStreak == StretchCount(w, s.olderStreak, lines, StretchStart(w, lines, n), n)
    ensures s.olderStreak < OLDER_STREAK_STOP ==> Run(w, s, lines, n).walk.olderStreak < OLDER_STREAK_STOP
  {
    hide Step;
    if n > 0 {
      StreakCounts(w, s, lines, n - 1);
      StepStreak(w, Run(w, s, lines, n - 1).walk, lines[n - 1]);
    }
  }

  /** A stretch that ends at `n` shows in the streak: it lies in the current one. */
  lemma StretchIsCurrent(w: ScanWindow, carried: nat, lines: seq<Bytes>, j: nat, n: nat)
    requires OlderStretch(w, carried, lines, j, n)
    ensures StretchCount(w, carried, lines, StretchStart(w, lines, n - 1), n - 1) + 1 >= OLDER_STREAK_STOP
  {
    hide Older, Inside;
    CountOlderGrows(w, lines, StretchStart(w, lines, n - 1), j, n - 1);
  }

  /** The line the scan stops at is stamped before the window, and nothing after it was seen. */
  lemma {:induction false} StopLine(w: ScanWindow, s: Walk, lines: seq<Bytes>, n: nat) returns (stop: nat)
    requires n <= |lines| && !Run(w, s, lines, n).more
    ensures 0 < stop <= n && Older(w, lines[stop - 1]) && Run(w, s, lines, stop - 1).more
    ensures Run(w, s, lines, n) == Run(w, s, lines, stop)
    ensures Run(w, s, lines, n).walk.visits == s.visits + LineVisits(WindowItems(w, s.inherited, lines, stop - 1))
    ensures Run(w, s, lines, n).walk.reachedSince
    ensures Run(w, s, lines, stop - 1).walk.olderStreak + 1 >= OLDER_STREAK_STOP
  {
    hide Earliest, Latest, WindowItems, LineVisits;
    if !Run(w, s, lines, n - 1).more {
      stop := StopLine(w, s, lines, n - 1);
    } else {
      RunIsFilter(w, s, lines, n - 1);
      stop := n;
    }
  }

  /** The scan stops at the first line that completes an older stretch. */
  lemma StopPoint(w: ScanWindow, s: Walk, lines: seq<Bytes>, n: nat) returns (stop: nat, j: nat)
    requires n <= |lines| && !Run(w, s, lines, n).more
    ensures j < stop <= n && OlderStretch(w, s.olderStreak, lines, j, stop)
    ensures s.olderStreak < OLDER_STREAK_STOP ==> StretchCount(w, s.olderStreak, lines, j, stop) == OLDER_STREAK_STOP
    ensures Run(w, s, lines, n).walk.visits == s.visits + LineVisits(WindowItems(w, s.inherited, lines, stop - 1))
  {
    hide Run, WindowItems, LineVisits;
    stop := StopLine(w, s, lines, n);
    StreakCounts(w, s, lines, stop - 1);
    j := StretchStart(w, lines, stop - 1);
  }

  /** The early stop, for every log and every state it is entered in: the scan stops if and only
      if some stretch of lines counts 200 older stamps and has none inside the window. */
  lemma StopsIffOlderStretch(w: ScanWindow, s: Walk, lines: seq<Bytes>, n: nat)
    requires n <= |lines|
    ensures !Run(w, s, lines, n).more <==> exists j, i :: 0 <= j <= i <= n && OlderStretch(w, s.olderStreak, lines, j, i)
  {
    hide OlderStretch;
    if !Run(w, s, lines, n).more {
      var stop, j := StopPoint(w, s, lines, n);
    } else {
      forall j, i | 0 <= j <= i <= n ensures !OlderStretch(w, s.olderStreak, lines, j, i) {
        if OlderStretch(w, s.olderStreak, lines, j, i) {
          StretchStops(w, s, lines, j, i);
          RunStopped(w, s, lines, i, n);
        }
      }
    }
  }

  lemma StretchStops(w: ScanWindow, s: Walk, lines: seq<Bytes>, j: nat, i: nat)
    requires OlderStretch(w, s.olderStreak, lines, j, i)
    ensures !Run(w, s, lines, i).more
  {
    hide Step;
    if Run(w, s, lines, i - 1).more {
      StretchIsCurrent(w, s.olderStreak, lines, j, i);
      StreakCounts(w, s, lines, i - 1);
      StepStreak(w, Run(w, s, lines, i - 1).walk, lines[i - 1]);
    }
  }

  /** A walk entered with a streak of 199 stops at its first older line. */
  lemma CarriedStreakStops(s: Walk)
    requires s.olderStreak == OLDER_STREAK_STOP - 1
    ensures !Run(EXAMPLE, s, [[0]], 1).more
  {
    var lines: seq<Bytes> := [[0]];
    assert Text(lines[0]) == [0];
    assert CountOlder(EXAMPLE, lines, 0, 1) == 1;
    StretchStops(EXAMPLE, s, lines, 0, 1);
  }

  // ----- consecutive lines -----------------------------------------------------

  /** 200 lines in a row that are stamped before the window. */
  predicate InARow(w: ScanWindow, lines: seq<Bytes>, i: nat) {
    200 <= i <= |lines| && forall k :: i - 200 <= k < i ==> Older(w, lines[k])
  }

  lemma {:induction false} AllOlderCount(w: ScanWindow, lines: seq<Bytes>, j: nat, i: nat)
    requires j <= i <= |lines| && forall k :: j <= k < i ==> Older(w, lines[k])
    ensures CountOlder(w, lines, j, i) == i - j
  {
    if j < i {
      AllOlderCount(w, lines, j, i - 1);
    }
  }

  /** Older lines in a row always stop the scan. And in a log in which every line is stamped, and
      none after the window, nothing else does. */
  lemma ConsecutiveStops(w: ScanWindow, s: Walk, lines: seq<Bytes>, n: nat)
    requires n <= |lines|
    ensures (exists i :: 0 <= i <= n && InARow(w, lines, i)) ==> !Run(w, s, lines, n).more
    ensures s.olderStreak == 0 && (forall k :: 0 <= k < n ==> Inside(w, lines[k]) || Older(w, lines[k])) ==>
      (!Run(w, s, lines, n).more <==> exists i :: 0 <= i <= n && InARow(w, lines, i))
  {
    hide Run, Older, Inside;
    if i :| 0 <= i <= n && InARow(w, lines, i) {
      RowIsStretch(w, s.olderStreak, lines, i);
      StopsIffOlderStretch(w, s, lines, n);
    }
    if s.olderStreak == 0 && (forall k :: 0 <= k < n ==> Inside(w, lines[k]) || Older(w, lines[k])) && !Run(w, s, lines, n).more {
      var stop, j := StopPoint(w, s, lines, n);
      AllOlderCount(w, lines, j, stop);
      assert InARow(w, lines, stop);
    }
  }

  lemma RowIsStretch(w: ScanWindow, carried: nat, lines: seq<Bytes>, i: nat)
    requires InARow(w, lines, i)
    ensures OlderStretch(w, carried, lines, i - 200, i)
  {
    AllOlderCount(w, lines, i - 200, i);
  }

  // ----- the streak is not of consecutive lines ------------------------------

  function ExampleTime(text: Bytes): (t: Option<Time>) {
    if text == [0] then Some(0) else if text == [1] then Some(20) else None
  }

  const EXAMPLE: ScanWindow := ScanWindow(10, 15, 0, false, ExampleTime)

  /** A line before the window, one after it, one without a time, and so on. */
  function Mixed(): (lines: seq<Bytes>)
    ensures |lines| == 600 && forall i :: 0 <= i < 600 ==> lines[i] == [(i % 3) as Byte]
  {
    seq(600, i requires 0 <= i < 600 => [(i % 3) as Byte])
  }

  lemma MixedLine(i: nat)
    requires i < 600
    ensures Older(EXAMPLE, Mixed()[i]) <==> i % 3 == 0
    ensures !Inside(EXAMPLE, Mixed()[i])
  {
    hide Mixed;
    assert Text([(i % 3) as Byte]) == [(i % 3) as Byte];
  }

  lemma {:induction false} MixedCount(k: nat)
    requires k <= 200
    ensures CountOlder(EXAMPLE, Mixed(), 0, 3 * k) == k
  {
    hide Older, Mixed;
    if k > 0 {
      MixedCount(k - 1);
      MixedLine(3 * k - 3);
      MixedLine(3 * k - 2);
      MixedLine(3 * k - 1);
      assert CountOlder(EXAMPLE, Mixed(), 0, 3 * k - 2) == k;
      assert CountOlder(EXAMPLE, Mixed(), 0, 3 * k - 1) == k;
    }
  }

  lemma CountOne(w: ScanWindow, lines: seq<Bytes>, i: nat)
    requires 0 < i <= |lines| && Older(w, lines[i - 1])
    ensures CountOlder(w, lines, 0, i) == CountOlder(w, lines, 0, i - 1) + 1
  {
  }

  /** The scan gives up on a log in which no two older lines follow one another: lines after the
      window and lines without a time do not interrupt the streak. */
  lemma StreakNotInterrupted(s: Walk)
    ensures !Run(EXAMPLE, s, Mixed(), 600).more
    ensures forall i :: 0 <= i < 599 ==> !(Older(EXAMPLE, Mixed()[i]) && Older(EXAMPLE, Mixed()[i + 1]))
  {
    hide Run, Mixed, Older, Inside, CountOlder;
    forall i | 0 <= i < 600 ensures (Older(EXAMPLE, Mixed()[i]) <==> i % 3 == 0) && !Inside(EXAMPLE, Mixed()[i]) {
      MixedLine(i);
    }
    MixedCount(199);
    CountOne(EXAMPLE, Mixed(), 598);
    assert OlderStretch(EXAMPLE, s.olderStreak, Mixed(), 0, 598);
    StopsIffOlderStretch(EXAMPLE, s, Mixed(), 600);
  }

  // ----- ordered logs lose nothing ----------------------------------------

  /** Newest first, stamps never increase: the log itself never goes back in time. */
  predicate Ordered(w: ScanWindow, lines: seq<Bytes>) {
    forall i, j :: 0 <= i < j < |lines| && Own(w, lines[i]).Some? && Own(w, lines[j]).Some?
      ==> Own(w, lines[j]).value <= Own(w, lines[i]).value
  }

  /** In an ordered log, everything after an older line is older too. */
  lemma {:induction false} OlderForGood(w: ScanWindow, start: Option<Time>, lines: seq<Bytes>, m: nat, n: nat)
    requires 0 < m <= n <= |lines| && Ordered(w, lines) && Older(w, lines[m - 1])
    ensures Inherited(w, start, lines, n).Some? && Inherited(w, start, lines, n).value < w.since
    ensures WindowItems(w, start, lines, n) == WindowItems(w, start, lines, m - 1)
  {
    hide WindowItems, Text, Own;
    ItemsNext(w, start, lines, n);
    if m < n {
      OlderForGood(w, start, lines, m, n - 1);
    }
  }

  /** For every log in time order, stopping early loses nothing: the visits are those of the
      full window filter, unstamped lines included. */
  lemma OrderedLogsLoseNothing(w: ScanWindow, s: Walk, lines: seq<Bytes>)
    requires Ordered(w, lines)
    ensures Run(w, s, lines, |lines|).walk.visits
         == s.visits + LineVisits(WindowItems(w, s.inherited, lines, |lines|))
  {
    hide Run, WindowItems, LineVisits;
    if Run(w, s, lines, |lines|).more {
      RunIsFilter(w, s, lines, |lines|);
    } else {
      var stop := StopLine(w, s, lines, |lines|);
      OlderForGood(w, s.inherited, lines, stop, |lines|);
    }
  }

  /** For any log and any state it is entered in, what is lost lies after 200 older stamps with
      none inside the window among them: the lines handed over are those of the filter up to such
      a stretch. */
  lemma LostOnlyAfterStretch(w: ScanWindow, s: Walk, lines: seq<Bytes>)
    ensures
      || Run(w, s, lines, |lines|).walk.visits == s.visits + LineVisits(WindowItems(w, s.inherited, lines, |lines|))
      || exists j, i :: 0 <= j <= i <= |lines| && OlderStretch(w, s.olderStreak, lines, j, i) && i > 0
           && Run(w, s, lines, |lines|).walk.visits == s.visits + LineVisits(WindowItems(w, s.inherited, lines, i - 1))
  {
    hide Run, WindowItems, LineVisits, OlderStretch;
    if Run(w, s, lines, |lines|).more {
      RunIsFilter(w, s, lines, |lines|);
    } else {
      var stop, j := StopPoint(w, s, lines, |lines|);
    }
  }
}
