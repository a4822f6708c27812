/**
 The forward scan of a compressed file: it cannot be read from its end, so its lines are
 read oldest first, from the point where the remaining budget would be enough.

 `ForwardRun` says what is done line by line; the theorem at the end says that for a file
 in time order, giving up after 200 lines newer than the window loses nothing.
 */
module LogGzip {
  import opened Options
  import opened LogLines
  import opened LogWalk
  import opened LogScan

  /** The part of the scan's state that the lines of one compressed file change. */
  datatype Forward = Forward(lines: nat, oldest: Option<Time>, newest: Option<Time>,
                             inherited: Option<Time>, newerStreak: nat, sawOlder: bool, visits: seq<Visit>)

  datatype ForwardProgress = ForwardProgress(walk: Forward, more: bool)

  /** One line, oldest first. */
  function ForwardStep(w: ScanWindow, s: Forward, line: Bytes): (r: ForwardProgress) {
    if Text(line) == [] then ForwardProgress(s, true)
    else
      var own := Own(w, line);
      var eff := Else(own, s.inherited);
      var seen := s.(lines := s.lines + 1, inherited := eff,
                     oldest := Earliest(own, s.oldest), newest := Latest(own, s.newest));
      if eff.None? then ForwardProgress(seen.(visits := s.visits + [Line(Item(Text(line), None))]), true)
      else if eff.value < w.since then ForwardProgress(seen.(sawOlder := true), true)
      else if eff.value > w.until then
        if own.None? then ForwardProgress(seen, true)
        else ForwardProgress(seen.(newerStreak := s.newerStreak + 1), s.newerStreak + 1 < OLDER_STREAK_STOP)
      else ForwardProgress(seen.(newerStreak := 0, visits := s.visits + [Line(Item(Text(line), eff))]), true)
  }

  function ForwardRun(w: ScanWindow, s: Forward, lines: seq<Bytes>, n: nat): (r: ForwardProgress)
    requires n <= |lines|
  {
    if n == 0 then ForwardProgress(s, true)
    else
      var before := ForwardRun(w, s, lines, n - 1);
      if before.more then ForwardStep(w, before.walk, lines[n - 1]) else before
  }

  // ----- giving up early ----------------------------------------------------------------------

  /** Oldest first, stamps never decrease. */
  predicate OrderedForward(w: ScanWindow, lines: seq<Bytes>) {
    forall i, j :: 0 <= i < j < |lines| && Own(w, lines[i]).Some? && Own(w, lines[j]).Some?
      ==> Own(w, lines[i]).value <= Own(w, lines[j]).value
  }

  /** What a line does to the visits. */
  lemma ForwardVisits(w: ScanWindow, s: Forward, line: Bytes)
    ensures var eff := Else(Own(w, line), s.inherited);
      && ForwardStep(w, s, line).walk.inherited == eff
      && ForwardStep(w, s, line).walk.visits == s.visits + LineVisits(NextItem(w, eff, line))
  {
    hide Earliest, Latest;
    NoVisits();
    assert s.visits + [] == s.visits;
    var item := Item(Text(line), Else(Own(w, line), s.inherited));
    assert LineVisits([item]) == [Line(item)];
  }

  /** While the scan goes on, its visits are those of the plain window filter. */
  lemma {:induction false} ForwardIsFilter(w: ScanWindow, s: Forward, lines: seq<Bytes>, n: nat)
    requires n <= |lines| && ForwardRun(w, s, lines, n).more
    ensures ForwardRun(w, s, lines, n).walk.visits == s.visits + LineVisits(WindowItems(w, s.inherited, lines, n))
    ensures ForwardRun(w, s, lines, n).walk.inherited == Inherited(w, s.inherited, lines, n)
  {
    hide ForwardStep, LineVisits, WindowItems, NextItem;
    if n == 0 {
      NoItems(w, s.inherited, lines);
      NoVisits();
    } else {
      ForwardIsFilter(w, s, lines, n - 1);
      ForwardVisits(w, ForwardRun(w, s, lines, n - 1).walk, lines[n - 1]);
      ItemsNext(w, s.inherited, lines, n);
      LineVisitsAppend(WindowItems(w, s.inherited, lines, n - 1),
                       NextItem(w, Inherited(w, s.inherited, lines, n), lines[n - 1]));
    }
  }

  /** In a file in time order, everything after a newer line is newer too. */
  lemma {:induction false} NewerForGood(w: ScanWindow, start: Option<Time>, lines: seq<Bytes>, m: nat, n: nat)
    requires 0 < m <= n <= |lines| && OrderedForward(w, lines)
    requires Own(w, lines[m - 1]).Some? && Own(w, lines[m - 1]).value > w.until
    ensures Inherited(w, start, lines, n).Some? && Inherited(w, start, lines, n).value > w.until
    ensures WindowItems(w, start, lines, n) == WindowItems(w, start, lines, m - 1)
  {
    hide WindowItems, Text, Own;
    ItemsNext(w, start, lines, n);
    if m < n {
      NewerForGood(w, start, lines, m, n - 1);
    }
  }

  /** The line at which the scan gives up is stamped after the window. */
  lemma {:induction false} ForwardStop(w: ScanWindow, s: Forward, lines: seq<Bytes>, n: nat) returns (stop: nat)
    requires n <= |lines| && !ForwardRun(w, s, lines, n).more
    ensures 0 < stop <= n && ForwardRun(w, s, lines, stop - 1).more
    ensures ForwardRun(w, s, lines, n).walk.visits == ForwardRun(w, s, lines, stop - 1).walk.visits
    ensures ForwardRun(w, s, lines, n).walk.sawOlder == ForwardRun(w, s, lines, stop - 1).walk.sawOlder
    ensures Own(w, lines[stop - 1]).Some? && Own(w, lines[stop - 1]).value > w.until && Own(w, lines[stop - 1]).value >= w.since
  {
    if ForwardRun(w, s, lines, n - 1).more {
      stop := n;
    } else {
      stop := ForwardStop(w, s, lines, n - 1);
    }
  }

  /** For every file in time order, giving up early loses nothing. */
  lemma OrderedFilesLoseNothing(w: ScanWindow, s: Forward, lines: seq<Bytes>)
    requires OrderedForward(w, lines)
    ensures ForwardRun(w, s, lines, |lines|).walk.visits
         == s.visits + LineVisits(WindowItems(w, s.inherited, lines, |lines|))
  {
    hide ForwardRun, WindowItems, LineVisits;
    if ForwardRun(w, s, lines, |lines|).more {
      ForwardIsFilter(w, s, lines, |lines|);
    } else {
      var stop := ForwardStop(w, s, lines, |lines|);
      ForwardIsFilter(w, s, lines, stop - 1);
      NewerForGood(w, s.inherited, lines, stop, |lines|);
    }
  }

  lemma ForwardStepReports(w: ScanWindow, s: Forward, line: Bytes)
    ensures var walk := ForwardStep(w, s, line).walk;
      && walk.lines == s.lines + (if Text(line) == [] then 0 else 1)
      && walk.oldest == Earliest(Own(w, line), s.oldest) && walk.newest == Latest(Own(w, line), s.newest)
  {
  }

  /** Up to and including the line it gives up at, the scan has counted the lines that are not
      blank, and the span of times it reports is from the earliest to the latest stamp it has met. */
  lemma {:induction false} ForwardReports(w: ScanWindow, s: Forward, lines: seq<Bytes>, n: nat)
    requires n <= |lines| && (n > 0 ==> ForwardRun(w, s, lines, n - 1).more)
    ensures var walk := ForwardRun(w, s, lines, n).walk;
      && walk.lines == s.lines + Lines(lines, n)
      && Extreme(w, walk.oldest, s.oldest, lines, n, false) && Extreme(w, walk.newest, s.newest, lines, n, true)
  {
    hide Extreme, Earliest, Latest, Text, Own, ForwardStep;
    if n == 0 {
      NoExtreme(w, s.oldest, lines, false);
      NoExtreme(w, s.newest, lines, true);
    } else {
      ForwardReports(w, s, lines, n - 1);
      var before, after := ForwardRun(w, s, lines, n - 1).walk, ForwardRun(w, s, lines, n).walk;
      ForwardStepReports(w, before, lines[n - 1]);
      ExtremeMore(w, before.oldest, after.oldest, s.oldest, lines, n, false);
      ExtremeMore(w, before.newest, after.newest, s.newest, lines, n, true);
    }
  }

  // ----- how many newer lines make it give up ----------------------------------------------------

  /** A line stamped after the window. */
  predicate Newer(w: ScanWindow, line: Bytes) {
    Own(w, line).Some? && Own(w, line).value > w.until && Own(w, line).value >= w.since
  }

  function CountNewer(w: ScanWindow, lines: seq<Bytes>, j: nat, i: nat): (r: nat)
    requires j <= i <= |lines|
  {
    if i == j then 0 else CountNewer(w, lines, j, i - 1) + if Newer(w, lines[i - 1]) then 1 else 0
  }

  /** A forward scan of a file begins with nothing inherited and no streak. */
  predicate Starting(s: Forward) {
    s.inherited.None? && s.newerStreak == 0
  }

  /** What a line does to the streak. */
  lemma ForwardStreakStep(w: ScanWindow, s: Forward, line: Bytes)
    requires s.inherited.Some? && w.since <= s.inherited.value <= w.until ==> s.newerStreak == 0
    ensures var p := ForwardStep(w, s, line);
      && p.walk.newerStreak == (if Inside(w, line) then 0 else if Newer(w, line) then s.newerStreak + 1 else s.newerStreak)
      && (p.more <==> !(Newer(w, line) && s.newerStreak + 1 >= 200))
      && (p.walk.inherited.Some? && w.since <= p.walk.inherited.value <= w.until ==> p.walk.newerStreak == 0)
  {
    hide Earliest, Latest;
  }

  /** The streak is the number of newer stamps since the last one inside the window. */
  lemma {:induction false} ForwardStreak(w: ScanWindow, s: Forward, lines: seq<Bytes>, n: nat)
    requires n <= |lines| && Starting(s) && ForwardRun(w, s, lines, n).more
    ensures var walk := ForwardRun(w, s, lines, n).walk;
      && walk.newerStreak == CountNewer(w, lines, StretchStart(w, lines, n), n) < 200
      && (walk.inherited.Some? && w.since <= walk.inherited.value <= w.until ==> walk.newerStreak == 0)
  {
    hide ForwardStep, Inside, Newer;
    if n > 0 {
      ForwardStreak(w, s, lines, n - 1);
      ForwardStreakStep(w, ForwardRun(w, s, lines, n - 1).walk, lines[n - 1]);
      NotBoth(w, lines[n - 1]);
    }
  }

  lemma NotBoth(w: ScanWindow, line: Bytes)
    ensures !(Inside(w, line) && Newer(w, line))
  {
  }

  /** 200 newer stamps among `j..i`, the last line one of them, and no stamp inside the window. */
  predicate NewerStretch(w: ScanWindow, lines: seq<Bytes>, j: nat, i: nat) {
    && j < i <= |lines| && Newer(w, lines[i - 1])
    && (forall k :: j <= k < i ==> !Inside(w, lines[k]))
    && CountNewer(w, lines, j, i) >= 200
  }

  lemma {:induction false} CountNewerGrows(w: ScanWindow, lines: seq<Bytes>, j: nat, k: nat, i: nat)
    requires j <= k <= i <= |lines|
    ensures CountNewer(w, lines, k, i) <= CountNewer(w, lines, j, i)
  {
    if k < i {
      CountNewerGrows(w, lines, j, k, i - 1);
    }
  }

  lemma {:induction false} ForwardStopped(w: ScanWindow, s: Forward, lines: seq<Bytes>, m: nat, n: nat)
    requires m <= n <= |lines| && !ForwardRun(w, s, lines, m).more
    ensures ForwardRun(w, s, lines, n) == ForwardRun(w, s, lines, m)
  {
    if m < n {
      ForwardStopped(w, s, lines, m, n - 1);
    }
  }

  lemma NewerStretchStops(w: ScanWindow, s: Forward, lines: seq<Bytes>, j: nat, i: nat)
    requires Starting(s) && NewerStretch(w, lines, j, i)
    ensures !ForwardRun(w, s, lines, i).more
  {
    hide ForwardStep, Inside, Newer;
    if ForwardRun(w, s, lines, i - 1).more {
      ForwardStreak(w, s, lines, i - 1);
      ForwardStreakStep(w, ForwardRun(w, s, lines, i - 1).walk, lines[i - 1]);
      CountNewerGrows(w, lines, StretchStart(w, lines, i - 1), j, i - 1);
    }
  }

  /** The forward scan gives up exactly when some stretch of lines has 200 stamps after the window
      and none inside it. */
  lemma {:induction false} GivesUpIff(w: ScanWindow, s: Forward, lines: seq<Bytes>, n: nat)
    requires n <= |lines| && Starting(s)
    ensures !ForwardRun(w, s, lines, n).more <==> exists j, i :: 0 <= j <= i <= n && NewerStretch(w, lines, j, i)
  {
    hide NewerStretch, ForwardStep;
    if !ForwardRun(w, s, lines, n).more {
      if !ForwardRun(w, s, lines, n - 1).more {
        GivesUpIff(w, s, lines, n - 1);
      } else {
        StretchEnds(w, s, lines, n);
      }
    } else {
      forall j, i | 0 <= j <= i <= n ensures !NewerStretch(w, lines, j, i) {
        if NewerStretch(w, lines, j, i) {
          NewerStretchStops(w, s, lines, j, i);
          ForwardStopped(w, s, lines, i, n);
        }
      }
    }
  }

  lemma StretchEnds(w: ScanWindow, s: Forward, lines: seq<Bytes>, n: nat)
    requires 0 < n <= |lines| && Starting(s) && ForwardRun(w, s, lines, n - 1).more && !ForwardRun(w, s, lines, n).more
    ensures NewerStretch(w, lines, StretchStart(w, lines, n - 1), n)
  {
    hide ForwardStep, Inside, Newer;
    ForwardStreak(w, s, lines, n - 1);
    ForwardStreakStep(w, ForwardRun(w, s, lines, n - 1).walk, lines[n - 1]);
    NotBoth(w, lines[n - 1]);
  }

  /** A line stamped before the window start. */
  predicate Before(w: ScanWindow, line: Bytes) {
    Own(w, line).Some? && Own(w, line).value < w.since
  }

  /** An older line was seen exactly if one of the lines walked is stamped so. */
  lemma {:induction false} SawOlderMeans(w: ScanWindow, s: Forward, lines: seq<Bytes>, n: nat)
    requires n <= |lines| && s.inherited.None? && !s.sawOlder
    ensures var p := ForwardRun(w, s, lines, n);
      && (p.walk.sawOlder ==> exists i :: 0 <= i < n && Before(w, lines[i]))
      && (p.more && (exists i :: 0 <= i < n && Before(w, lines[i])) ==> p.walk.sawOlder)
      && (p.walk.inherited.Some? ==> exists i :: 0 <= i < n && Own(w, lines[i]) == p.walk.inherited)
  {
    hide Earliest, Latest;
    if n > 0 {
      SawOlderMeans(w, s, lines, n - 1);
      assert Own(w, lines[n - 1]).Some? && Own(w, lines[n - 1]).value < w.since ==> Before(w, lines[n - 1]);
    }
  }

  // ----- reading the lines ---------------------------------------------------------------------

  /** The position after the next newline, or the end. */
  function LineEnd(f: Bytes, pos: nat): (e: nat)
    requires pos <= |f|
    ensures pos <= e <= |f| && NoNewline(f, pos, e) && (e < |f| ==> f[e] == NEWLINE)
    decreases |f| - pos
  {
    if pos == |f| || f[pos] == NEWLINE then pos else LineEnd(f, pos + 1)
  }

  function WithoutEmptyEnd(pieces: seq<Bytes>): (r: seq<Bytes>)
    requires pieces != []
  {
    if pieces[|pieces| - 1] == [] then pieces[..|pieces| - 1] else pieces
  }

  /** The lines from `pos` on, oldest first; a final newline ends the last one. */
  function LinesFrom(f: Bytes, pos: nat): (r: seq<Bytes>)
    requires pos <= |f|
  {
    WithoutEmptyEnd(Split(f, pos, |f|))
  }

  lemma WithoutEmptyEndCons(first: Bytes, rest: seq<Bytes>)
    requires rest != []
    ensures WithoutEmptyEnd([first] + rest) == [first] + WithoutEmptyEnd(rest)
  {
  }

  function After(f: Bytes, e: nat): (pos: nat) {
    if e < |f| then e + 1 else e
  }

  lemma FirstLine(f: Bytes, pos: nat)
    requires pos < |f|
    ensures var e := LineEnd(f, pos);
      LinesFrom(f, pos) == [f[pos..e]] + LinesFrom(f, After(f, e))
  {
    hide Split, NoNewline, WithoutEmptyEnd;
    var e := LineEnd(f, pos);
    SplitNoNewline(f, pos, e);
    if e < |f| {
      SplitAtNewline(f, pos, e + 1, |f|);
      WithoutEmptyEndCons(f[pos..e], Split(f, e + 1, |f|));
    } else {
      OnlyLine(f[pos..e]);
      NoLines(f);
    }
  }

  lemma OnlyLine(line: Bytes)
    requires line != []
    ensures WithoutEmptyEnd([line]) == [line]
  {
  }

  lemma NoLines(f: Bytes)
    ensures LinesFrom(f, |f|) == []
  {
  }

  /** The lines shorter than the carry limit: longer ones are dropped whole. */
  function Short(lines: seq<Bytes>, maxCarry: nat): (r: seq<Bytes>) {
    if lines == [] then []
    else (if |lines[0]| < maxCarry then [lines[0]] else []) + Short(lines[1..], maxCarry)
  }

  lemma ShortCons(first: Bytes, rest: seq<Bytes>, maxCarry: nat)
    ensures Short([first] + rest, maxCarry) == (if |first| < maxCarry then [first] else []) + Short(rest, maxCarry)
  {
    assert ([first] + rest)[1..] == rest;
  }

  /** Nothing is dropped exactly when every line is short. */
  lemma {:induction false} ShortIsAllIff(lines: seq<Bytes>, maxCarry: nat)
    ensures |Short(lines, maxCarry)| <= |lines|
    ensures Short(lines, maxCarry) == lines <==> forall i :: 0 <= i < |lines| ==> |lines[i]| < maxCarry
  {
    if lines != [] {
      ShortIsAllIff(lines[1..], maxCarry);
      assert lines == [lines[0]] + lines[1..];
    }
  }

  /** The lines a forward scan from `pos` goes through. */
  function ForwardLines(f: Bytes, pos: nat, maxCarry: nat): (r: seq<Bytes>)
    requires pos <= |f|
  {
    Short(LinesFrom(f, pos), maxCarry)
  }

  lemma FirstForward(f: Bytes, pos: nat, maxCarry: nat)
    requires pos < |f|
    ensures var e := LineEnd(f, pos);
      ForwardLines(f, pos, maxCarry)
      == (if e - pos < maxCarry then [f[pos..e]] else []) + ForwardLines(f, After(f, e), maxCarry)
  {
    hide LinesFrom, Short;
    FirstLine(f, pos);
    ShortCons(f[pos..LineEnd(f, pos)], LinesFrom(f, After(f, LineEnd(f, pos))), maxCarry);
  }

  const GZ_SKIP_FACTOR: nat := 16

  /** How much of the head is skipped when `remaining` bytes may still be read; `total` is the
      uncompressed size as the file's trailer has it. */
  function Skip(total: nat, remaining: nat): (n: nat)
    ensures n <= total
  {
    if total > remaining then total - remaining else 0
  }

  /** Where one read of at most `maxCarry` bytes ends: after the next newline at the latest. */
  function ReadEnd(f: Bytes, pos: nat, maxCarry: nat): (r: nat)
    requires pos <= |f|
    ensures pos <= r <= |f|
  {
    Min(After(f, LineEnd(f, pos)), pos + maxCarry)
  }

  /** Where the lines start: after the skipped head and one read of the line it cuts. */
  function StartAt(f: Bytes, skip: nat, maxCarry: nat): (pos: nat)
    requires skip <= |f|
    ensures pos <= |f|
  {
    if skip == 0 then 0 else ReadEnd(f, skip, maxCarry)
  }

  lemma {:induction false} LineEndWithin(f: Bytes, pos: nat, mid: nat)
    requires pos <= |f| && pos <= mid <= LineEnd(f, pos)
    ensures LineEnd(f, mid) == LineEnd(f, pos)
    decreases mid - pos
  {
    if pos < mid {
      LineEndWithin(f, pos + 1, mid);
    }
  }

  /** Skip what is left of an overlong line, read by read. */
  method SkipRest(f: Bytes, start: nat, maxCarry: nat) returns (pos: nat)
    requires start <= |f| && maxCarry > 0
    ensures start <= pos <= |f| && pos == After(f, LineEnd(f, start))
  {
    hide LineEnd;
    pos := start;
    while true
      invariant start <= pos <= LineEnd(f, start)
      decreases |f| - pos
    {
      LineEndWithin(f, start, pos);
      var end := ReadEnd(f, pos, maxCarry);
      if end == pos || f[end - 1] == NEWLINE {
        EndsThere(f, pos, maxCarry);
        pos := end;
        return;
      }
      NotThere(f, pos, maxCarry);
      pos := end;
    }
  }

  lemma EndsThere(f: Bytes, pos: nat, maxCarry: nat)
    requires pos <= |f| && maxCarry > 0
    requires var end := ReadEnd(f, pos, maxCarry); end == pos || f[end - 1] == NEWLINE
    ensures ReadEnd(f, pos, maxCarry) == After(f, LineEnd(f, pos))
  {
  }

  lemma NotThere(f: Bytes, pos: nat, maxCarry: nat)
    requires pos <= |f| && maxCarry > 0
    requires var end := ReadEnd(f, pos, maxCarry); end > pos && f[end - 1] != NEWLINE
    ensures ReadEnd(f, pos, maxCarry) <= LineEnd(f, pos)
  {
  }

  ghost function ForwardWalked(out: ScanOutcome, inherited: Option<Time>, streak: nat, sawOlder: bool, visits: seq<Visit>): (s: Forward)
    reads out
  {
    Forward(out.lines, out.oldest, out.newest, inherited, streak, sawOlder, visits)
  }

  /** One line of the loop. */
  method HandleForward(line: Bytes, w: ScanWindow, out: ScanOutcome, log: VisitLog,
                       inherited0: Option<Time>, streak0: nat, sawOlder0: bool)
      returns (inherited: Option<Time>, streak: nat, sawOlder: bool, more: bool)
    modifies out, log
    ensures ForwardProgress(ForwardWalked(out, inherited, streak, sawOlder, log.visits), more)
         == ForwardStep(w, old(ForwardWalked(out, inherited0, streak0, sawOlder0, log.visits)), line)
    ensures out.bytes == old(out.bytes) && out.budgetHit == old(out.budgetHit) && out.reachedSince == old(out.reachedSince)
  {
    hide Earliest, Latest;
    inherited, streak, sawOlder, more := inherited0, streak0, sawOlder0, true;
    var text := Text(line);
    if text == [] {
      return;
    }
    out.lines := out.lines + 1;
    var own := w.detect(text);
    if own.Some? {
      inherited := own;
    }
    NoteTime(own, out);
    if inherited.None? {
      log.visits := log.visits + [Line(Item(text, None))];
      return;
    }
    if inherited.value < w.since {
      sawOlder := true;
      return;
    }
    if inherited.value > w.until {
      if own.Some? {
        streak := streak + 1;
        more := streak < OLDER_STREAK_STOP;
      }
      return;
    }
    streak := 0;
    log.visits := log.visits + [Line(Item(text, inherited))];
  }

  lemma ForwardSnoc(w: ScanWindow, s: Forward, lines: seq<Bytes>, n: nat, line: Bytes)
    requires n < |lines| && lines[n] == line && ForwardRun(w, s, lines, n).more
    ensures ForwardRun(w, s, lines, n + 1) == ForwardStep(w, ForwardRun(w, s, lines, n).walk, line)
  {
  }

  predicate Overlong(f: Bytes, pos: nat, end: nat, maxCarry: nat)
    requires pos < end <= |f|
  {
    f[end - 1] != NEWLINE && end - pos >= maxCarry
  }

  /** The scan stands at `pos`, with `done` of the lines behind it. */
  ghost predicate Stands(f: Bytes, pos: nat, maxCarry: nat, lines: seq<Bytes>, done: nat) {
    pos <= |f| && done <= |lines| && lines[done..] == ForwardLines(f, pos, maxCarry)
  }

  /** What one read finds: the next line, or the head of one that is dropped. */
  lemma ForwardNext(f: Bytes, pos: nat, maxCarry: nat, lines: seq<Bytes>, done: nat)
    requires pos < |f| && maxCarry > 0 && Stands(f, pos, maxCarry, lines, done)
    ensures pos < ReadEnd(f, pos, maxCarry)
    ensures var e, end := LineEnd(f, pos), ReadEnd(f, pos, maxCarry);
      if Overlong(f, pos, end, maxCarry) then
        Stands(f, After(f, LineEnd(f, end)), maxCarry, lines, done)
      else
        done < |lines| && lines[done] == f[pos..e] && Stands(f, end, maxCarry, lines, done + 1)
  {
    hide ForwardLines;
    var e, end := LineEnd(f, pos), ReadEnd(f, pos, maxCarry);
    FirstForward(f, pos, maxCarry);
    if Overlong(f, pos, end, maxCarry) {
      NotThere(f, pos, maxCarry);
      LineEndWithin(f, pos, end);
      assert [] + ForwardLines(f, After(f, e), maxCarry) == ForwardLines(f, After(f, e), maxCarry);
    } else {
      ShortLine(f, pos, maxCarry);
      NextLine(lines, done, f[pos..e], ForwardLines(f, end, maxCarry));
    }
  }

  /** One read of the loop: handle the line, or skip the rest of it if it is overlong. */
  method HandleRead(f: Bytes, pos: nat, maxCarry: nat, w: ScanWindow, out: ScanOutcome, log: VisitLog,
                    inherited0: Option<Time>, streak0: nat, sawOlder0: bool,
                    ghost lines: seq<Bytes>, ghost before: Forward, ghost done0: nat)
      returns (next: nat, inherited: Option<Time>, streak: nat, sawOlder: bool, more: bool, ghost done: nat)
    requires pos < |f| && maxCarry > 0 && Stands(f, pos, maxCarry, lines, done0) && done0 <= |lines|
    requires ForwardProgress(ForwardWalked(out, inherited0, streak0, sawOlder0, log.visits), true)
          == ForwardRun(w, before, lines, done0)
    modifies out, log
    ensures pos < next <= |f| && done <= |lines| && Stands(f, next, maxCarry, lines, done)
    ensures ForwardProgress(ForwardWalked(out, inherited, streak, sawOlder, log.visits), more)
         == ForwardRun(w, before, lines, done)
    ensures out.bytes == old(out.bytes) + next - pos
    ensures out.budgetHit == old(out.budgetHit) && out.reachedSince == old(out.reachedSince)
  {
    hide Stands, ForwardRun, ForwardStep, LineEnd, NoNewline, After, ReadEnd, Overlong;
    inherited, streak, sawOlder, more, done := inherited0, streak0, sawOlder0, true, done0;
    var e := LineEnd(f, pos);
    var end := ReadEnd(f, pos, maxCarry);
    ForwardNext(f, pos, maxCarry, lines, done);
    out.bytes := out.bytes + (end - pos);
    if Overlong(f, pos, end, maxCarry) {
      next := SkipRest(f, end, maxCarry);
      out.bytes := out.bytes + (next - end);
      return;
    }
    next := end;
    ForwardSnoc(w, before, lines, done, f[pos..e]);
    inherited, streak, sawOlder, more := HandleForward(f[pos..e], w, out, log, inherited, streak, sawOlder);
    done := done + 1;
  }

  /** The loop over the lines: in order, as far as the budget goes, until the streak stops it. */
  method ScanLines(f: Bytes, start: nat, maxCarry: nat, w: ScanWindow, out: ScanOutcome, log: VisitLog)
      returns (sawOlder: bool, ghost at: nat, ghost done: nat, ghost walk: ForwardProgress)
    requires start <= |f| && maxCarry > 0
    modifies out, log
    ensures var lines := ForwardLines(f, start, maxCarry);
      var before := old(ForwardWalked(out, None, 0, false, log.visits));
      && done <= |lines| && walk == ForwardRun(w, before, lines, done)
      && Stands(f, at, maxCarry, lines, done) && start <= at && out.bytes == old(out.bytes) + at - start
      && (walk.more && at < |f| ==> out.bytes + ReadEnd(f, at, maxCarry) - at > w.budget)
      && out.budgetHit == (old(out.budgetHit) || (walk.more && at < |f|))
    ensures walk.more && at == |f| ==> done == |ForwardLines(f, start, maxCarry)|
    ensures walk.walk == ForwardWalked(out, walk.walk.inherited, walk.walk.newerStreak, sawOlder, log.visits)
    ensures out.reachedSince == old(out.reachedSince)
  {
    ghost var lines := ForwardLines(f, start, maxCarry);
    ghost var before := ForwardWalked(out, None, 0, false, log.visits);
    var inherited: Option<Time>, streak: nat, more := None, 0, true;
    var pos := start;
    sawOlder, done := false, 0;
    ForwardNone(w, before, lines);
    walk := ForwardRun(w, before, lines, 0);
    assert Stands(f, start, maxCarry, lines, 0) by {
      assert lines[0..] == lines;
    }
    hide Stands, ForwardRun, LineEnd, NoNewline, After, ReadEnd;
    while pos < |f| && more
      invariant start <= pos <= |f| && done <= |lines| && Stands(f, pos, maxCarry, lines, done)
      invariant ForwardRun(w, before, lines, done)
             == ForwardProgress(ForwardWalked(out, inherited, streak, sawOlder, log.visits), more)
      invariant out.reachedSince == old(out.reachedSince) && out.budgetHit == old(out.budgetHit)
      invariant out.bytes == old(out.bytes) + pos - start
      decreases |f| - pos
    {
      var end := ReadEnd(f, pos, maxCarry);
      if out.bytes + (end - pos) > w.budget {
        out.budgetHit := true;
        break;
      }
      pos, inherited, streak, sawOlder, more, done :=
        HandleRead(f, pos, maxCarry, w, out, log, inherited, streak, sawOlder, lines, before, done);
    }
    at, walk := pos, ForwardRun(w, before, lines, done);
    if pos == |f| {
      NoForward(f, maxCarry, lines, done);
    }
    AtMost(f, pos, maxCarry, lines, done);
  }

  lemma AtMost(f: Bytes, pos: nat, maxCarry: nat, lines: seq<Bytes>, done: nat)
    requires Stands(f, pos, maxCarry, lines, done)
    ensures pos <= |f|
  {
  }

  /** A read that ends in a newline, or early, has read the line. */
  lemma ShortLine(f: Bytes, pos: nat, maxCarry: nat)
    requires pos < |f| && maxCarry > 0
    requires var end := ReadEnd(f, pos, maxCarry); f[end - 1] == NEWLINE || end - pos < maxCarry
    ensures LineEnd(f, pos) - pos < maxCarry && ReadEnd(f, pos, maxCarry) == After(f, LineEnd(f, pos))
  {
  }

  lemma NoForward(f: Bytes, maxCarry: nat, lines: seq<Bytes>, done: nat)
    requires Stands(f, |f|, maxCarry, lines, done)
    ensures done == |lines|
  {
    NoLines(f);
  }

  lemma ForwardNone(w: ScanWindow, s: Forward, lines: seq<Bytes>)
    ensures ForwardRun(w, s, lines, 0) == ForwardProgress(s, true)
  {
  }

  lemma NextLine(lines: seq<Bytes>, n: nat, first: Bytes, rest: seq<Bytes>)
    requires n <= |lines| && lines[n..] == [first] + rest
    ensures n < |lines| && lines[n] == first && lines[n + 1..] == rest
  {
    assert |lines[n..]| > 0;
    assert lines[n] == lines[n..][0];
    assert lines[n + 1..] == lines[n..][1..];
  }

  // ----- starting in the middle -----------------------------------------------------------------

  /** The lines after the one that `skip` is in are the last lines of the file. */
  lemma {:induction false} LinesAfter(f: Bytes, pos: nat, skip: nat) returns (k: nat)
    requires pos <= skip <= |f|
    ensures var rest := LinesFrom(f, After(f, LineEnd(f, skip)));
      k <= |LinesFrom(f, pos)| && LinesFrom(f, pos)[k..] == rest
    decreases |f| - pos
  {
    hide LinesFrom, NoNewline;
    if pos == |f| {
      k := 0;
    } else {
      var e := LineEnd(f, pos);
      FirstLine(f, pos);
      if skip <= e {
        LineEndWithin(f, pos, skip);
        k := 1;
      } else {
        var j := LinesAfter(f, After(f, e), skip);
        k := j + 1;
        Drop(f[pos..e], LinesFrom(f, After(f, e)), j);
      }
    }
  }

  lemma Drop<T>(first: T, rest: seq<T>, j: nat)
    requires j <= |rest|
    ensures ([first] + rest)[j + 1..] == rest[j..]
  {
  }

  /** Dropping overlong lines from the last lines gives last lines of what is left. */
  lemma {:induction false} ShortTail(lines: seq<Bytes>, k: nat, maxCarry: nat) returns (j: nat)
    requires k <= |lines|
    ensures j <= |Short(lines, maxCarry)| && Short(lines, maxCarry)[j..] == Short(lines[k..], maxCarry)
  {
    if k == 0 {
      j := 0;
      assert lines[0..] == lines && Short(lines, maxCarry)[0..] == Short(lines, maxCarry);
    } else {
      j := ShortTail(lines[1..], k - 1, maxCarry);
      assert lines[1..][k - 1..] == lines[k..];
      if |lines[0]| < maxCarry {
        Drop(lines[0], Short(lines[1..], maxCarry), j);
        j := j + 1;
      } else {
        assert [] + Short(lines[1..], maxCarry) == Short(lines[1..], maxCarry);
      }
    }
  }

  /** A scan that skips a head begins at a line exactly when what is left of the line it landed in
      is no longer than one read. */
  lemma StartsAtLineIff(f: Bytes, skip: nat, maxCarry: nat)
    requires 0 < skip <= |f|
    ensures StartAt(f, skip, maxCarry) == After(f, LineEnd(f, skip)) <==> After(f, LineEnd(f, skip)) - skip <= maxCarry
  {
  }

  /** Otherwise the rest of that line is walked as if it were one. */
  lemma FragmentIsWalked()
    ensures ForwardLines(FOUR, StartAt(FOUR, 1, 2), 2) == [[100]]
  {
    assert LineEnd(FOUR, 3) == 4 && LineEnd(FOUR, 2) == 4 && LineEnd(FOUR, 1) == 4;
    assert StartAt(FOUR, 1, 2) == 3;
    FirstForward(FOUR, 3, 2);
    NoLines(FOUR);
    assert FOUR[3..4] == [100];
  }

  /** A line of exactly the limit is dropped, although it is not longer. */
  lemma LimitIsDropped()
    ensures ForwardLines(FOUR, 0, 4) == [] && LinesFrom(FOUR, 0) == [FOUR]
  {
    assert LineEnd(FOUR, 4) == 4 && LineEnd(FOUR, 3) == 4;
    assert LineEnd(FOUR, 2) == 4 && LineEnd(FOUR, 1) == 4;
    assert LineEnd(FOUR, 0) == 4;
    FirstForward(FOUR, 0, 4);
    FirstLine(FOUR, 0);
    NoLines(FOUR);
    assert FOUR[0..4] == FOUR;
  }

  /** Where what is left of the line that `skip` is in ends within one read, a scan that starts
      there goes through the last lines of the file. */
  lemma TailLines(f: Bytes, skip: nat, maxCarry: nat) returns (k: nat)
    requires skip <= |f| && (skip == 0 || After(f, LineEnd(f, skip)) - skip <= maxCarry)
    ensures var all, tail := ForwardLines(f, 0, maxCarry), ForwardLines(f, StartAt(f, skip, maxCarry), maxCarry);
      k <= |all| && all[k..] == tail
  {
    hide LinesFrom, Short, LineEnd, NoNewline;
    if skip == 0 {
      k := 0;
      assert ForwardLines(f, 0, maxCarry)[0..] == ForwardLines(f, 0, maxCarry);
    } else {
      var n := LinesAfter(f, 0, skip);
      k := ShortTail(LinesFrom(f, 0), n, maxCarry);
    }
  }

  lemma {:induction false} ShortLineAt(f: Bytes, pos: nat, skip: nat, maxCarry: nat)
    requires pos <= skip <= |f| && maxCarry > 0
    requires forall i :: 0 <= i < |LinesFrom(f, pos)| ==> |LinesFrom(f, pos)[i]| < maxCarry
    ensures LineEnd(f, skip) - skip < maxCarry
    decreases |f| - pos
  {
    hide LinesFrom, NoNewline;
    if pos < |f| {
      var e := LineEnd(f, pos);
      FirstLine(f, pos);
      var rest := LinesFrom(f, After(f, e));
      assert LinesFrom(f, pos)[0] == f[pos..e];
      if skip <= e {
        LineEndWithin(f, pos, skip);
      } else {
        assert forall i :: 0 <= i < |rest| ==> rest[i] == LinesFrom(f, pos)[i + 1];
        ShortLineAt(f, After(f, e), skip, maxCarry);
      }
    }
  }
}
