/**
 A log source: the current file and its rotated copies, newest first, plain or compressed.
 The scan goes back through them until the window start or the budget is reached; the query
 runs over everything the scan visits.
 */
module LogSource {
  import opened Options
  import opened LogLines
  import opened LogWalk
  import opened LogScan
  import opened LogGzip
  import opened LogQuery

  const CHUNK: nat := 0x10_0000
  const MAX_CARRY: nat := 0x80_0000

  /** A file of the source; a compressed one by what it decompresses to, and by the size in its
      trailer, which is that of its last member modulo 2^32 and so at most the whole. */
  datatype LogFile = LogFile(gzip: bool, bytes: Bytes, trailer: nat, modified: Option<Time>)
  type File = f: LogFile | f.trailer <= |f.bytes| witness LogFile(false, [], 0, None)

  // ----- what a scan of one file goes through -------------------------------------------------

  /** The texts a scan of the file from `lo` on goes through, in its order. */
  function LinesAt(file: File, lo: nat): (r: seq<Bytes>)
    requires lo <= |file.bytes|
  {
    if file.gzip then ForwardLines(file.bytes, lo, MAX_CARRY) else HandedTexts(file.bytes, lo, CHUNK, MAX_CARRY)
  }

  function LinesOf(file: File): (r: seq<Bytes>) {
    LinesAt(file, 0)
  }

  function Left(w: ScanWindow, used: nat): (n: nat) {
    if used <= w.budget then w.budget - used else 0
  }

  /** From where on a file is scanned when `used` bytes have been read before. */
  function From(w: ScanWindow, file: File, used: nat): (lo: nat)
    ensures lo <= |file.bytes|
  {
    if file.gzip then StartAt(file.bytes, Skip(file.trailer, Left(w, used)), MAX_CARRY)
    else Reach(|file.bytes|, w.budget, used)
  }

  /** The window lines among the first `n`, as the segment they make. */
  function SegmentOf(w: ScanWindow, gzip: bool, start: Option<Time>, lines: seq<Bytes>, n: nat): (s: Segment)
    requires n <= |lines|
  {
    var items := WindowItems(w, start, lines, n);
    if gzip then Gzip(items) else Plain(items)
  }

  /** All window lines from `lo` on; unstamped ones before any stamp inherit `start`. */
  function AllFrom(w: ScanWindow, file: File, lo: nat, start: Option<Time>): (s: Segment)
    requires lo <= |file.bytes|
  {
    SegmentOf(w, file.gzip, start, LinesAt(file, lo), |LinesAt(file, lo)|)
  }

  /** All window lines of a file. */
  function Whole(w: ScanWindow, file: File, start: Option<Time>): (s: Segment) {
    AllFrom(w, file, 0, start)
  }

  /** The time a file leaves to the next: that of its oldest stamped line. */
  function LeftOver(w: ScanWindow, file: File, start: Option<Time>): (r: Option<Time>) {
    Inherited(w, start, LinesOf(file), |LinesOf(file)|)
  }

  /** The timestamps from `lo` on never go back. */
  predicate SoundAt(w: ScanWindow, file: File, lo: nat)
    requires lo <= |file.bytes|
  {
    if file.gzip then OrderedForward(w, LinesAt(file, lo)) else Ordered(w, LinesAt(file, lo))
  }

  predicate Sound(w: ScanWindow, file: File) {
    SoundAt(w, file, 0)
  }

  /** A plain file in time order is so from wherever it is read. */
  lemma SoundFurther(w: ScanWindow, file: File, lo: nat)
    requires !file.gzip && lo <= |file.bytes| && Sound(w, file)
    ensures SoundAt(w, file, lo)
  {
    hide HandedTexts, Own;
    var some, all := LinesAt(file, lo), LinesOf(file);
    HandedFurther(file.bytes, lo, CHUNK, MAX_CARRY);
    assert forall i :: 0 <= i < |some| ==> some[i] == all[i];
  }

  /** Every line that is not blank has a timestamp, and none is overlong. */
  predicate Regular(w: ScanWindow, file: File) {
    && (forall i :: 0 <= i < |LinesOf(file)| ==> Text(LinesOf(file)[i]) == [] || Own(w, LinesOf(file)[i]).Some?)
    && (forall i :: 0 <= i < |LinesFrom(file.bytes, 0)| ==> |LinesFrom(file.bytes, 0)[i]| < MAX_CARRY)
  }

  /** A line stamped before the window start. */
  predicate OlderIn(w: ScanWindow, lines: seq<Bytes>) {
    exists i :: 0 <= i < |lines| && Before(w, lines[i])
  }

  /** The walk stops among the lines if it is entered with this streak. */
  ghost predicate StretchIn(w: ScanWindow, carried: nat, lines: seq<Bytes>) {
    exists j, i :: OlderStretch(w, carried, lines, j, i)
  }

  /** The streak a walk leaves that was entered with one and did not stop. */
  function Carry(w: ScanWindow, carried: nat, lines: seq<Bytes>): (r: nat) {
    StretchCount(w, carried, lines, StretchStart(w, lines, |lines|), |lines|)
  }

  /** The size a file is taken to have before it is read. */
  function Size(file: File): (n: nat) {
    if file.gzip then file.trailer else |file.bytes|
  }

  /** A compressed file is read unless nothing is left of the budget or it is said to be more than
      17 times what is left. */
  predicate Opens(w: ScanWindow, file: File, used: nat) {
    file.gzip ==> 0 < Left(w, used) && file.trailer <= 17 * Left(w, used)
  }

  /** The window start is met in the file: in a plain one if the walk stops, in a compressed one if
      a line is older. */
  ghost predicate ReachedIn(w: ScanWindow, file: File, used: nat, carried: nat) {
    var lines := LinesAt(file, From(w, file, used));
    if file.gzip then OlderIn(w, lines) else StretchIn(w, carried, lines)
  }

  /** The scan can be predicted from the lines: a plain file, or one in time order whose trailer has
      its size. */
  predicate Exact(w: ScanWindow, file: File, used: nat) {
    file.gzip ==> file.trailer == |file.bytes| && SoundAt(w, file, From(w, file, used))
  }

  // ----- what a scan of one file visits ------------------------------------------------------------

  /** The scan stopped at this line. */
  predicate StopsAt(w: ScanWindow, gzip: bool, line: Bytes) {
    if gzip then Own(w, line).Some? && Own(w, line).value > w.until else Older(w, line)
  }

  /** Reading on in a compressed file after `n` lines would exceed the budget. */
  ghost predicate BudgetEnds(w: ScanWindow, file: File, used: nat, lo: nat, n: nat)
    requires lo <= |file.bytes|
  {
    file.gzip && exists at ::
      && lo <= at <= |file.bytes| && Stands(file.bytes, at, MAX_CARRY, LinesAt(file, lo), n)
      && used + ReadEnd(file.bytes, at, MAX_CARRY) - lo > w.budget
  }

  /** `seg` are the window lines among the first `n`; and where these are not all, the scan stopped
      at the next line or the budget ended there. */
  ghost predicate IsPart(w: ScanWindow, file: File, used: nat, start: Option<Time>, seg: Segment, n: nat) {
    var lo := From(w, file, used);
    var lines := LinesAt(file, lo);
    && n <= |lines| && seg == SegmentOf(w, file.gzip, start, lines, n)
    && (n < |lines| ==> StopsAt(w, file.gzip, lines[n]) || BudgetEnds(w, file, used, lo, n))
  }

  /** What is visited of a file, for any file and any budget. `hit` says that the budget ended in
      this file. In time order it is every window line from where the scan began, unless the
      trailer was wrong about the size; and every window line of the file if the budget did not
      end and the scan began at the start or the file is regular. */
  ghost predicate FileSegment(w: ScanWindow, file: File, used: nat, start: Option<Time>, seg: Segment, hit: bool) {
    var lo := From(w, file, used);
    && (exists n :: IsPart(w, file, used, start, seg, n))
    && (SoundAt(w, file, lo) && (!hit || !file.gzip || file.trailer == |file.bytes|) ==>
          seg == AllFrom(w, file, lo, start))
    && (!hit && Sound(w, file) && (!file.gzip || lo == 0 || Regular(w, file)) ==> seg == Whole(w, file, start))
  }

  /** Where a walk ended among the lines. */
  lemma RunIsPart(w: ScanWindow, s: Walk, lines: seq<Bytes>) returns (n: nat)
    ensures n <= |lines|
    ensures var p := Run(w, s, lines, |lines|);
      && p.walk.visits == s.visits + LineVisits(WindowItems(w, s.inherited, lines, n))
      && (p.more ==> n == |lines| && p.walk.reachedSince == s.reachedSince && p.walk.inherited == Inherited(w, s.inherited, lines, n))
      && (!p.more ==> n < |lines| && Older(w, lines[n]) && p.walk.reachedSince)
    ensures Ordered(w, lines) ==> WindowItems(w, s.inherited, lines, n) == WindowItems(w, s.inherited, lines, |lines|)
  {
    hide Run, LineVisits, WindowItems, Ordered;
    n := |lines|;
    if Run(w, s, lines, |lines|).more {
      RunIsFilter(w, s, lines, |lines|);
    } else {
      var stop := StopLine(w, s, lines, |lines|);
      n := stop - 1;
      if Ordered(w, lines) {
        OlderForGood(w, s.inherited, lines, stop, |lines|);
      }
    }
  }

  /** Where a forward scan ended among the lines. */
  lemma ForwardIsPart(w: ScanWindow, s: Forward, lines: seq<Bytes>, done: nat) returns (n: nat)
    requires done <= |lines|
    ensures n <= done
    ensures var p := ForwardRun(w, s, lines, done);
      && p.walk.visits == s.visits + LineVisits(WindowItems(w, s.inherited, lines, n))
      && (p.more ==> n == done)
      && (!p.more ==> n < |lines| && StopsAt(w, true, lines[n]))
      && (!p.more && OrderedForward(w, lines) ==>
            WindowItems(w, s.inherited, lines, n) == WindowItems(w, s.inherited, lines, |lines|))
  {
    hide ForwardRun, LineVisits, WindowItems, OrderedForward;
    n := done;
    if ForwardRun(w, s, lines, done).more {
      ForwardIsFilter(w, s, lines, done);
    } else {
      var stop := ForwardStop(w, s, lines, done);
      n := stop - 1;
      ForwardIsFilter(w, s, lines, n);
      if OrderedForward(w, lines) {
        NewerForGood(w, s.inherited, lines, stop, |lines|);
      }
    }
  }

  lemma PlainVisits(w: ScanWindow, start: Option<Time>, lines: seq<Bytes>, n: nat)
    requires n <= |lines|
    ensures SegmentVisits(SegmentOf(w, false, start, lines, n)) == LineVisits(WindowItems(w, start, lines, n))
  {
  }

  /** What a plain scan visited, as a segment. */
  lemma PlainSegment(w: ScanWindow, file: File, used: nat, s: Walk) returns (seg: Segment)
    requires !file.gzip
    ensures var lo := From(w, file, used);
      var lines := LinesAt(file, lo);
      var p := Run(w, s, lines, |lines|);
      && p.walk.visits == s.visits + SegmentVisits(seg)
      && FileSegment(w, file, used, s.inherited, seg, p.more && lo > 0)
      && (if p.more then p.walk.reachedSince == s.reachedSince else p.walk.reachedSince && OlderIn(w, lines))
      && (!p.more <==> StretchIn(w, s.olderStreak, lines))
      && (p.more && lo == 0 ==>
            p.walk.inherited == LeftOver(w, file, s.inherited) && p.walk.olderStreak == Carry(w, s.olderStreak, lines))
  {
    hide Run, HandedTexts, SegmentVisits, WindowItems, Inherited, Ordered, From, BudgetEnds;
    var lo := From(w, file, used);
    var lines := LinesAt(file, lo);
    var n := RunIsPart(w, s, lines);
    PlainVisits(w, s.inherited, lines, n);
    StopsIfStretch(w, s, lines);
    seg := SegmentOf(w, false, s.inherited, lines, n);
    assert IsPart(w, file, used, s.inherited, seg, n);
    if !Run(w, s, lines, |lines|).more {
      assert Before(w, lines[n]);
      PlainWhole(w, file, lo, s, n);
    }
  }

  lemma StopsIfStretch(w: ScanWindow, s: Walk, lines: seq<Bytes>)
    ensures var p := Run(w, s, lines, |lines|);
      (!p.more <==> StretchIn(w, s.olderStreak, lines)) && (p.more ==> p.walk.olderStreak == Carry(w, s.olderStreak, lines))
  {
    hide Run, Older, Inside, StretchCount;
    StopsIffOlderStretch(w, s, lines, |lines|);
    if Run(w, s, lines, |lines|).more {
      StreakCounts(w, s, lines, |lines|);
    }
  }

  /** A plain scan that stopped has all window lines of a file in time order. */
  lemma PlainWhole(w: ScanWindow, file: File, lo: nat, s: Walk, n: nat)
    requires !file.gzip && lo <= |file.bytes| && n < |LinesAt(file, lo)| && Older(w, LinesAt(file, lo)[n])
    ensures Sound(w, file) ==>
      SegmentOf(w, false, s.inherited, LinesAt(file, lo), n) == Whole(w, file, s.inherited)
  {
    hide HandedTexts, WindowItems, Ordered, Older;
    var some, all := LinesAt(file, lo), LinesOf(file);
    HandedFurther(file.bytes, lo, CHUNK, MAX_CARRY);
    assert forall i :: 0 <= i < |some| ==> some[i] == all[i];
    ItemsSame(w, s.inherited, some, all, n);
    if Sound(w, file) {
      OlderForGood(w, s.inherited, all, n + 1, |all|);
    }
  }

  lemma {:induction false} ItemsSame(w: ScanWindow, start: Option<Time>, a: seq<Bytes>, b: seq<Bytes>, n: nat)
    requires n <= |a| && n <= |b| && forall i :: 0 <= i < n ==> a[i] == b[i]
    ensures WindowItems(w, start, a, n) == WindowItems(w, start, b, n)
    ensures Inherited(w, start, a, n) == Inherited(w, start, b, n)
  {
    hide Own, NextItem;
    if n > 0 {
      ItemsSame(w, start, a, b, n - 1);
    }
  }

  /** What a forward scan visited, as a segment. `at` is how far it read. */
  lemma GzipSegment(w: ScanWindow, file: File, used: nat, s: Forward, at: nat, done: nat) returns (seg: Segment)
    requires file.gzip && s.inherited.None? && !s.sawOlder && done <= |LinesAt(file, From(w, file, used))|
    requires var lo := From(w, file, used);
      var lines := LinesAt(file, lo);
      var p := ForwardRun(w, s, lines, done);
      && lo <= at <= |file.bytes| && Stands(file.bytes, at, MAX_CARRY, lines, done)
      && (p.more && at < |file.bytes| ==> used + ReadEnd(file.bytes, at, MAX_CARRY) - lo > w.budget)
      && (p.more && at == |file.bytes| ==> done == |lines|)
    ensures seg.Gzip?
    ensures var lo := From(w, file, used);
      var lines := LinesAt(file, lo);
      var p := ForwardRun(w, s, lines, done);
      && p.walk.visits == s.visits + LineVisits(seg.oldestFirst)
      && (exists n :: IsPart(w, file, used, None, seg, n))
      && (SoundAt(w, file, lo) && (!p.more || at == |file.bytes|) ==> seg == AllFrom(w, file, lo, None))
      && (p.walk.sawOlder ==> OlderIn(w, lines))
      && (SoundAt(w, file, lo) && (!p.more || at == |file.bytes|) && OlderIn(w, lines) ==> p.walk.sawOlder)
  {
    hide ForwardRun, ForwardLines, WindowItems, LineVisits, OrderedForward, From, Stands, ReadEnd;
    var lo := From(w, file, used);
    var lines := LinesAt(file, lo);
    var n := ForwardIsPart(w, s, lines, done);
    SawOlderMeans(w, s, lines, done);
    if !ForwardRun(w, s, lines, done).more && SoundAt(w, file, lo) {
      OlderIsSeen(w, s, lines, done);
    }
    seg := SegmentOf(w, true, None, lines, n);
    assert IsPart(w, file, used, None, seg, n);
  }

  /** In time order, a scan that gave up had met the older lines before. */
  lemma OlderIsSeen(w: ScanWindow, s: Forward, lines: seq<Bytes>, done: nat)
    requires done <= |lines| && s.inherited.None? && !s.sawOlder && !ForwardRun(w, s, lines, done).more
    requires OrderedForward(w, lines)
    ensures OlderIn(w, lines) ==> ForwardRun(w, s, lines, done).walk.sawOlder
  {
    hide ForwardRun, Own;
    var stop := ForwardStop(w, s, lines, done);
    SawOlderMeans(w, s, lines, stop - 1);
  }

  // ----- a compressed file that was skipped into -------------------------------------------------

  /** In a regular file in time order, a tail with an older line in it has all the window lines. */
  lemma TailIsWhole(w: ScanWindow, file: File, used: nat)
    requires file.gzip && Sound(w, file) && Regular(w, file)
    requires OlderIn(w, LinesAt(file, From(w, file, used)))
    ensures AllFrom(w, file, From(w, file, used), None) == Whole(w, file, None)
    ensures SoundAt(w, file, From(w, file, used)) && OlderIn(w, LinesOf(file))
  {
    hide ForwardLines, WindowItems, Text, Own, LinesFrom;
    var skip := Skip(file.trailer, Left(w, used));
    var all, tail := LinesOf(file), LinesAt(file, From(w, file, used));
    if skip > 0 {
      ShortLineAt(file.bytes, 0, skip, MAX_CARRY);
    }
    var k := TailLines(file.bytes, skip, MAX_CARRY);
    assert forall i :: 0 <= i < |tail| ==> tail[i] == all[k + i];
    var i :| 0 <= i < |tail| && Before(w, tail[i]);
    assert Before(w, all[k + i]);
    HeadIsOlder(w, all, k, k + i, k);
    TailItems(w, all, k, tail, |all|);
  }

  lemma {:induction false} HeadIsOlder(w: ScanWindow, all: seq<Bytes>, k: nat, older: nat, n: nat)
    requires n <= k <= older < |all| && OrderedForward(w, all) && Before(w, all[older])
    requires forall i :: 0 <= i < |all| ==> Text(all[i]) == [] || Own(w, all[i]).Some?
    ensures WindowItems(w, None, all, n) == []
  {
    hide WindowItems, Text, Own;
    if n == 0 {
      NoItems(w, None, all);
    } else {
      HeadIsOlder(w, all, k, older, n - 1);
      ItemsNext(w, None, all, n);
    }
  }

  lemma {:induction false} TailItems(w: ScanWindow, all: seq<Bytes>, k: nat, tail: seq<Bytes>, n: nat)
    requires k <= n <= |all| && tail == all[k..] && WindowItems(w, None, all, k) == []
    requires forall i :: 0 <= i < |all| ==> Text(all[i]) == [] || Own(w, all[i]).Some?
    ensures WindowItems(w, None, all, n) == WindowItems(w, None, tail, n - k)
  {
    hide WindowItems, Text, Own;
    if n == k {
      NoItems(w, None, tail);
    } else {
      TailItems(w, all, k, tail, n - 1);
      ItemsNext(w, None, all, n);
      ItemsNext(w, None, tail, n - k);
      assert tail[n - k - 1] == all[n - 1];
    }
  }

  // ----- scanning one file ----------------------------------------------------------------------------

  /** The file fits what is left of the budget. */
  predicate Fitting(w: ScanWindow, file: File, used: nat) {
    used + |file.bytes| <= w.budget && (file.gzip ==> used < w.budget)
  }

  /** What one scan does: one segment if the file is opened, and none if it is not, and then for the
      budget. It goes on to older files only if it read the file from its start. It ends for the
      budget if the file is said to be larger than what is left and the window start was not met;
      and otherwise only if the trailer was wrong. */
  ghost predicate Scanned(w: ScanWindow, file: File, used: nat, start: Option<Time>, carried: nat, segs: seq<Segment>,
                          before: seq<Visit>, after: seq<Visit>, hit: bool, reached: bool) {
    && |segs| <= 1 && (segs != [] <==> Opens(w, file, used))
    && (if segs == [] then hit && !reached else FileSegment(w, file, used, start, segs[0], hit))
    && after == before + Visits(segs)
    && (Fitting(w, file, used) ==> !hit)
    && (!hit && !reached ==> From(w, file, used) == 0)
    && (reached ==> ReachedIn(w, file, used, carried) && OlderIn(w, LinesAt(file, From(w, file, used))))
    && (segs != [] && Exact(w, file, used) && ReachedIn(w, file, used, carried) ==> reached)
    && (Size(file) > Left(w, used) && !reached ==> hit)
    && (segs != [] && hit ==> (Size(file) > Left(w, used) && !reached) || (file.gzip && file.trailer != |file.bytes|))
  }

  lemma OneSegment(s: Segment)
    ensures Visits([s]) == SegmentVisits(s)
  {
    assert [s][..0] == [];
    assert Visits([]) + SegmentVisits(s) == SegmentVisits(s);
  }

  lemma NoSegments()
    ensures Visits([]) == []
  {
  }

  /** The lines of a compressed file, between two marks. */
  method ForwardSegment(file: File, w: ScanWindow, out: ScanOutcome, log: VisitLog)
      returns (sawOlder: bool, ghost seg: Segment)
    requires file.gzip && !out.budgetHit
    modifies out, log
    ensures log.visits == old(log.visits) + SegmentVisits(seg)
    ensures var used := old(out.bytes);
      var lo := From(w, file, used);
      && (exists n :: IsPart(w, file, used, None, seg, n))
      && (SoundAt(w, file, lo) && !out.budgetHit ==>
            seg == AllFrom(w, file, lo, None) && (OlderIn(w, LinesAt(file, lo)) ==> sawOlder))
      && (sawOlder ==> OlderIn(w, LinesAt(file, lo)))
      && (out.budgetHit ==> used + |file.bytes| - lo > w.budget)
    ensures old(out.bytes) <= out.bytes <= old(out.bytes) + |file.bytes| && out.reachedSince == old(out.reachedSince)
  {
    hide SoundAt, AllFrom, ForwardLines, ForwardRun, LineVisits, IsPart, OlderIn, Stands, ReadEnd, From;
    log.visits := log.visits + [ForwardStart];
    ghost var before := ForwardWalked(out, None, 0, false, log.visits);
    ghost var used := out.bytes;
    var lo := From(w, file, out.bytes);
    ghost var at, done, walk;
    sawOlder, at, done, walk := ScanLines(file.bytes, lo, MAX_CARRY, w, out, log);
    AtMost(file.bytes, at, MAX_CARRY, ForwardLines(file.bytes, lo, MAX_CARRY), done);
    seg := GzipSegment(w, file, used, before, at, done);
    log.visits := log.visits + [ForwardEnd];
  }

  /** A compressed file: nothing of it if too much would have to be skipped. */
  method ScanGz(file: File, w: ScanWindow, out: ScanOutcome, log: VisitLog) returns (read: bool, ghost segs: seq<Segment>)
    requires file.gzip && !out.budgetHit && !out.reachedSince
    modifies out, log
    ensures |segs| == if read then 1 else 0
    ensures read <==> 0 < Left(w, old(out.bytes)) && file.trailer <= 17 * Left(w, old(out.bytes))
    ensures Scanned(w, file, old(out.bytes), None, 0, segs, old(log.visits), log.visits, out.budgetHit, out.reachedSince)
    ensures old(out.bytes) <= out.bytes <= old(out.bytes) + |file.bytes| && (!read ==> out.bytes == old(out.bytes))
  {
    hide SoundAt, Sound, Regular, AllFrom, Whole, Visits, SegmentVisits, IsPart, OlderIn, StartAt, LinesAt, FileSegment;
    read, segs := false, [];
    NoSegments();
    ghost var used := out.bytes;
    var remaining := if out.bytes <= w.budget then w.budget - out.bytes else 0;
    if remaining == 0 {
      out.budgetHit := true;
      return;
    }
    var skip := Skip(file.trailer, remaining);
    if skip > remaining * GZ_SKIP_FACTOR {
      out.budgetHit := true;
      return;
    }
    var sawOlder; ghost var seg;
    sawOlder, seg := ForwardSegment(file, w, out, log);
    ghost var cut := out.budgetHit;
    if sawOlder {
      out.reachedSince := true;
    } else if skip > 0 {
      out.budgetHit := true;
    }
    read, segs := true, [seg];
    OneSegment(seg);
    ExactTrailer(w, file, used, seg, cut, out.budgetHit, sawOlder);
  }

  lemma StartsLater(f: Bytes, skip: nat, maxCarry: nat)
    requires skip <= |f| && maxCarry > 0
    ensures skip <= StartAt(f, skip, maxCarry) && (StartAt(f, skip, maxCarry) == 0 <==> skip == 0)
  {
  }

  /** Where a compressed file is begun whose trailer has its size: at its start if it fits what is
      left, and otherwise at the first line that begins where no more than that follows, or within
      the line that is cut if that is overlong. So no more than fits is read, and no line is skipped
      that would have fitted. */
  lemma SkipsAsLittle(w: ScanWindow, file: File, used: nat)
    requires file.gzip && file.trailer == |file.bytes|
    ensures var lo, left := From(w, file, used), Left(w, used);
      if |file.bytes| <= left then lo == 0
      else
        && |file.bytes| - lo <= left && |file.bytes| - left <= lo <= |file.bytes| - left + MAX_CARRY
        && (forall i :: |file.bytes| - left <= i < lo - 1 ==> file.bytes[i] != NEWLINE)
        && (lo < |file.bytes| - left + MAX_CARRY && lo < |file.bytes| ==> lo > 0 && file.bytes[lo - 1] == NEWLINE)
  {
  }

  /** From what the loop promises to what the scan of the file does. */
  lemma ExactTrailer(w: ScanWindow, file: File, used: nat, seg: Segment, cut: bool, hit: bool, sawOlder: bool)
    requires var skip, lo := Skip(file.trailer, Left(w, used)), From(w, file, used);
      && file.gzip && Left(w, used) > 0
      && (exists n :: IsPart(w, file, used, None, seg, n))
      && (SoundAt(w, file, lo) && !cut ==>
            seg == AllFrom(w, file, lo, None) && (OlderIn(w, LinesAt(file, lo)) ==> sawOlder))
      && (sawOlder ==> OlderIn(w, LinesAt(file, lo)))
      && (cut ==> used + |file.bytes| - lo > w.budget)
      && hit == (cut || (!sawOlder && skip > 0))
    ensures FileSegment(w, file, used, None, seg, hit)
    ensures Fitting(w, file, used) ==> !hit
    ensures !hit && !sawOlder ==> From(w, file, used) == 0
    ensures Exact(w, file, used) && OlderIn(w, LinesAt(file, From(w, file, used))) ==> sawOlder
    ensures hit ==> (file.trailer > Left(w, used) && !sawOlder) || file.trailer != |file.bytes|
  {
    hide SoundAt, Regular, AllFrom, IsPart, OlderIn, StartAt, LinesAt;
    var lo := From(w, file, used);
    StartsLater(file.bytes, Skip(file.trailer, Left(w, used)), MAX_CARRY);
    if !hit && Sound(w, file) && lo > 0 && Regular(w, file) {
      TailIsWhole(w, file, used);
    }
  }

  /** A plain file. */
  method ScanPlain(file: File, w: ScanWindow, out: ScanOutcome, state: WalkState, log: VisitLog) returns (ghost segs: seq<Segment>)
    requires !file.gzip && !out.budgetHit && !out.reachedSince
    modifies out, state, log
    ensures |segs| == 1
    ensures Scanned(w, file, old(out.bytes), old(state.inherited), old(state.olderStreak), segs,
                    old(log.visits), log.visits, out.budgetHit, out.reachedSince)
    ensures old(out.bytes) <= out.bytes <= old(out.bytes) + |file.bytes|
    ensures !out.budgetHit && !out.reachedSince ==>
      && state.inherited == LeftOver(w, file, old(state.inherited))
      && state.olderStreak == Carry(w, old(state.olderStreak), LinesOf(file))
      && out.bytes == old(out.bytes) + |file.bytes|
  {
    hide FileSegment, LeftOver, Carry, HandedTexts, Run, Step, OlderIn, StretchIn;
    ghost var before := Walked(out, state, log);
    ghost var used := out.bytes;
    ghost var more := ScanFile(file.bytes, CHUNK, MAX_CARRY, w, out, state, log);
    ghost var seg := PlainSegment(w, file, used, before);
    segs := [seg];
    OneSegment(seg);
  }

  // ----- the whole source ---------------------------------------------------------------------------

  function Total(files: seq<File>, n: nat): (t: nat)
    requires n <= |files|
  {
    if n == 0 then 0 else Total(files, n - 1) + |files[n - 1].bytes|
  }

  lemma {:induction false} TotalGrows(files: seq<File>, m: nat, n: nat)
    requires m <= n <= |files|
    ensures Total(files, m) <= Total(files, n)
  {
    if m < n {
      TotalGrows(files, m, n - 1);
    }
  }

  /** The files together fit the budget, and none that is compressed finds it used up. */
  predicate Roomy(w: ScanWindow, files: seq<File>) {
    && Total(files, |files|) <= w.budget
    && forall k :: 0 <= k < |files| && files[k].gzip ==> Total(files, k) < w.budget
  }

  lemma RoomyFits(w: ScanWindow, files: seq<File>, k: nat, used: nat)
    requires Roomy(w, files) && k < |files| && used <= Total(files, k)
    ensures Fitting(w, files[k], used) && From(w, files[k], used) == 0
  {
    TotalGrows(files, k + 1, |files|);
  }

  lemma {:induction false} VisitsAppend(a: seq<Segment>, b: seq<Segment>)
    ensures Visits(a + b) == Visits(a) + Visits(b)
  {
    hide SegmentVisits;
    if b == [] {
      assert a + b == a;
      assert Visits(a) + [] == Visits(a);
    } else {
      VisitsAppend(a, b[..|b| - 1]);
      assert (a + b)[..|a + b| - 1] == a + b[..|b| - 1];
    }
  }

  /** What unstamped lines of file `i` inherit at first. The walk state is cleared after each
      rotated file, and not after the current one: the first rotated file, if plain, goes on with
      the time inherited so far. */
  function InheritedBy(w: ScanWindow, files: seq<File>, i: nat): (r: Option<Time>)
    requires i < |files|
  {
    if i == 1 && !files[1].gzip then LeftOver(w, files[0], None) else None
  }

  /** Likewise the streak. */
  function CarriedBy(w: ScanWindow, files: seq<File>, i: nat): (r: nat)
    requires i < |files|
  {
    if i == 1 && !files[1].gzip then Carry(w, 0, LinesOf(files[0])) else 0
  }

  /** The scan of this file left nothing of it and went on to the next. */
  ghost predicate WentOn(w: ScanWindow, files: seq<File>, used: seq<nat>, k: nat)
    requires k < |files| && k < |used|
  {
    && From(w, files[k], used[k]) == 0 && Size(files[k]) <= Left(w, used[k])
    && (Exact(w, files[k], used[k]) ==> !ReachedIn(w, files[k], used[k], CarriedBy(w, files, k)))
  }

  /** One segment for each of the first files. `used` are the bytes read before each of them, and
      `hit` says that the budget ended; if so, in or after the last one. Every file but the last
      was read from its start, and opened. */
  ghost predicate SegmentsOf(w: ScanWindow, files: seq<File>, segments: seq<Segment>, used: seq<nat>, hit: bool) {
    && |segments| == |used| <= |files|
    && (forall k :: 0 <= k < |used| ==> used[k] <= Total(files, k) && Opens(w, files[k], used[k]))
    && (forall k :: 0 <= k < |segments| ==>
          FileSegment(w, files[k], used[k], InheritedBy(w, files, k), segments[k], hit && k == |segments| - 1))
    && (forall k :: 0 <= k < |segments| - 1 ==> WentOn(w, files, used, k))
    && (forall k :: 0 <= k < |used| - 1 && !files[k].gzip ==> used[k + 1] == used[k] + |files[k].bytes|)
  }

  /** Last written before the window start. */
  predicate Stale(w: ScanWindow, file: File) {
    file.modified.Some? && file.modified.value < w.since
  }

  /** The window start was reached in the last file visited, or that one was read from its start and
      the next one was last written before the window start. */
  ghost predicate Reached(w: ScanWindow, files: seq<File>, used: seq<nat>) {
    var n := |used|;
    || (0 < n <= |files| && ReachedIn(w, files[n - 1], used[n - 1], CarriedBy(w, files, n - 1))
        && OlderIn(w, LinesAt(files[n - 1], From(w, files[n - 1], used[n - 1]))))
    || (0 < n < |files| && w.includeRotated && Stale(w, files[n]) && Size(files[n - 1]) <= Left(w, used[n - 1]))
  }

  /** How the last file visited ended the scan. */
  ghost predicate LastFile(w: ScanWindow, files: seq<File>, used: seq<nat>, hit: bool, reached: bool)
    requires |used| <= |files|
  {
    0 < |used| ==>
      var k := |used| - 1;
      && (Exact(w, files[k], used[k]) && ReachedIn(w, files[k], used[k], CarriedBy(w, files, k)) ==> reached)
      && (Size(files[k]) > Left(w, used[k]) && !reached ==> hit)
      && (!hit && !reached ==> From(w, files[k], used[k]) == 0)
  }

  /** Why the budget ended the scan: the last file visited is larger than what was left for it, its
      trailer was wrong, or the next one was not opened. */
  ghost predicate BudgetCause(w: ScanWindow, files: seq<File>, used: seq<nat>, bytes: nat, reached: bool) {
    var n := |used|;
    || (0 < n <= |files| && ((Size(files[n - 1]) > Left(w, used[n - 1]) && !reached)
                             || (files[n - 1].gzip && files[n - 1].trailer != |files[n - 1].bytes|)))
    || (n < |files| && w.includeRotated && !Opens(w, files[n], bytes) && !Stale(w, files[n]) && !reached)
  }

  /** Where the scan is after the first `i` files. */
  ghost predicate Along(w: ScanWindow, files: seq<File>, i: nat, segments: seq<Segment>, used: seq<nat>,
                        visits: seq<Visit>, bytes: nat, hit: bool, reached: bool) {
    && |segments| == |used| <= i <= |files| && (|segments| == i || hit)
    && SegmentsOf(w, files, segments, used, hit)
    && visits == Visits(segments)
    && bytes <= Total(files, i)
    && (Roomy(w, files) ==> !hit)
    && (reached ==> Reached(w, files, used))
    && LastFile(w, files, used, hit, reached)
    && (hit ==> BudgetCause(w, files, used, bytes, reached))
    && (!hit && !reached && 0 < |used| && !files[|used| - 1].gzip ==> bytes == used[|used| - 1] + |files[|used| - 1].bytes|)
  }

  lemma AlongNext(w: ScanWindow, files: seq<File>, i: nat, segments: seq<Segment>, used: seq<nat>,
                  visits: seq<Visit>, bytes: nat, segs: seq<Segment>, visits': seq<Visit>, bytes': nat, hit: bool, reached: bool)
    requires i < |files| && Along(w, files, i, segments, used, visits, bytes, false, false)
    requires Scanned(w, files[i], bytes, InheritedBy(w, files, i), CarriedBy(w, files, i), segs, visits, visits', hit, reached)
    requires bytes' <= bytes + |files[i].bytes| && (segs == [] ==> bytes' == bytes && w.includeRotated && !Stale(w, files[i]))
    requires !hit && !reached && !files[i].gzip ==> bytes' == bytes + |files[i].bytes|
    ensures Along(w, files, i + 1, segments + segs, used + if segs == [] then [] else [bytes], visits', bytes', hit, reached)
  {
    hide FileSegment, SegmentsOf, ReachedIn, Visits, From, InheritedBy, CarriedBy, OlderIn, LinesAt, Fitting, Roomy, Size,
         Opens, Exact, Left;
    VisitsAppend(segments, segs);
    if Roomy(w, files) {
      RoomyFits(w, files, i, bytes);
    }
    if segs == [] {
      HitAfter(w, files, segments, used);
      assert segments + [] == segments && used + [] == used;
    } else {
      assert segs == [segs[0]];
      SegmentsMore(w, files, segments, used, segs[0], bytes, hit);
    }
  }

  lemma SegmentsMore(w: ScanWindow, files: seq<File>, segments: seq<Segment>, used: seq<nat>, seg: Segment, bytes: nat, hit: bool)
    requires SegmentsOf(w, files, segments, used, false) && |segments| < |files|
    requires bytes <= Total(files, |segments|) && Opens(w, files[|segments|], bytes)
    requires FileSegment(w, files[|segments|], bytes, InheritedBy(w, files, |segments|), seg, hit)
    requires LastFile(w, files, used, false, false)
    requires 0 < |used| && !files[|used| - 1].gzip ==> bytes == used[|used| - 1] + |files[|used| - 1].bytes|
    ensures SegmentsOf(w, files, segments + [seg], used + [bytes], hit)
  {
    hide FileSegment, From, InheritedBy, CarriedBy, Total, ReachedIn, Exact, Opens, Left, Size;
    var segments', used' := segments + [seg], used + [bytes];
    forall k | 0 <= k < |segments'|
      ensures used'[k] <= Total(files, k) && Opens(w, files[k], used'[k])
      ensures FileSegment(w, files[k], used'[k], InheritedBy(w, files, k), segments'[k], hit && k == |segments'| - 1)
      ensures k < |segments'| - 1 ==> WentOn(w, files, used', k)
      ensures k < |used'| - 1 && !files[k].gzip ==> used'[k + 1] == used'[k] + |files[k].bytes|
    {
      if k < |segments| {
        assert segments'[k] == segments[k] && used'[k] == used[k];
        assert k < |segments| - 1 ==> WentOn(w, files, used, k) && used'[k + 1] == used[k + 1];
      }
    }
  }

  /** A segment of a scan that did not hit the budget is one of a scan that may have. */
  lemma HitAfter(w: ScanWindow, files: seq<File>, segments: seq<Segment>, used: seq<nat>)
    requires SegmentsOf(w, files, segments, used, false)
    ensures SegmentsOf(w, files, segments, used, true)
  {
    hide From, InheritedBy, Total, AllFrom, Whole, SoundAt, Regular, IsPart, WentOn, Opens;
  }

  lemma AlongNothing(w: ScanWindow, files: seq<File>)
    ensures Along(w, files, 0, [], [], [], 0, false, false)
  {
  }

  lemma AlongReached(w: ScanWindow, files: seq<File>, i: nat, segments: seq<Segment>, used: seq<nat>, visits: seq<Visit>, bytes: nat)
    requires 0 < i < |files| && Along(w, files, i, segments, used, visits, bytes, false, false)
    requires w.includeRotated && Stale(w, files[i])
    ensures Along(w, files, i, segments, used, visits, bytes, false, true)
  {
    hide SegmentsOf, Visits, From, ReachedIn, OlderIn, LinesAt, Roomy, Size, Left, Exact, CarriedBy, Stale;
  }

  lemma SameLength(w: ScanWindow, files: seq<File>, segments: seq<Segment>, used: seq<nat>, hit: bool)
    requires SegmentsOf(w, files, segments, used, hit)
    ensures |segments| == |used| <= |files|
  {
  }

  lemma AlongEnd(w: ScanWindow, files: seq<File>, i: nat, segments: seq<Segment>, used: seq<nat>,
                 visits: seq<Visit>, bytes: nat, hit: bool, reached: bool)
    requires Along(w, files, i, segments, used, visits, bytes, hit, reached)
    ensures visits == Visits(segments) && |segments| == |used| <= i <= |files| && (|segments| == i || hit)
    ensures SegmentsOf(w, files, segments, used, hit)
    ensures Roomy(w, files) ==> !hit
    ensures reached ==> Reached(w, files, used)
    ensures LastFile(w, files, used, hit, reached)
    ensures hit ==> BudgetCause(w, files, used, bytes, reached)
  {
    hide SegmentsOf, Reached, LastFile, BudgetCause, Visits, Roomy;
  }

  /** Scan the current file and then its rotated copies. */
  method ScanSource(files: seq<File>, w: ScanWindow, out: ScanOutcome, log: VisitLog)
      returns (visited: nat, ghost segments: seq<Segment>, ghost used: seq<nat>)
    requires files != [] && !files[0].gzip
    requires out.bytes == 0 && !out.budgetHit && !out.reachedSince && log.visits == []
    modifies out, log
    ensures log.visits == Visits(segments) && 0 < |segments| == |used| == visited <= |files| && used[0] == 0
    ensures SegmentsOf(w, files, segments, used, out.budgetHit)
    ensures Roomy(w, files) ==> !out.budgetHit
    ensures out.reachedSince ==> Reached(w, files, used)
    ensures LastFile(w, files, used, out.budgetHit, out.reachedSince)
    ensures out.budgetHit ==> BudgetCause(w, files, used, out.bytes, out.reachedSince)
    ensures visited < |files| ==> !w.includeRotated || out.reachedSince || out.budgetHit
    ensures !w.includeRotated ==> visited == 1
  {
    hide Along, Scanned, SegmentsOf, Reached, LastFile, BudgetCause, Visits, Total, LeftOver, Carry, Roomy;
    var state := new WalkState();
    AlongNothing(w, files);
    segments := ScanPlain(files[0], w, out, state, log);
    AlongNext(w, files, 0, [], [], [], 0, segments, log.visits, out.bytes, out.budgetHit, out.reachedSince);
    used, visited := [0], 1;
    assert [] + segments == segments && [] + [0] == [0];
    var i := 1;
    while w.includeRotated && i < |files|
      invariant 1 <= i <= |files| && |segments| == visited > 0 && (!w.includeRotated ==> i == visited == 1)
      invariant |used| > 0 && used[0] == 0
      invariant Along(w, files, i, segments, used, log.visits, out.bytes, out.budgetHit, out.reachedSince)
      invariant fresh(state)
      invariant !out.budgetHit && !out.reachedSince ==>
        && state.inherited == (if i == 1 then LeftOver(w, files[0], None) else None)
        && state.olderStreak == (if i == 1 then Carry(w, 0, LinesOf(files[0])) else 0)
      decreases |files| - i
    {
      if out.reachedSince || out.budgetHit {
        break;
      }
      if Stale(w, files[i]) {
        AlongReached(w, files, i, segments, used, log.visits, out.bytes);
        out.reachedSince := true;
        break;
      }
      ghost var visits, bytes := log.visits, out.bytes;
      ghost var segs;
      var read := true;
      if files[i].gzip {
        read, segs := ScanGz(files[i], w, out, log);
      } else {
        segs := ScanPlain(files[i], w, out, state, log);
      }
      AlongNext(w, files, i, segments, used, visits, bytes, segs, log.visits, out.bytes, out.budgetHit, out.reachedSince);
      segments, used := segments + segs, used + if segs == [] then [] else [bytes];
      visited := visited + if read then 1 else 0;
      state := new WalkState();
      i := i + 1;
    }
    AlongEnd(w, files, i, segments, used, log.visits, out.bytes, out.budgetHit, out.reachedSince);
  }

  // ----- what leaks into the first rotated file -----------------------------------------------------

  /** How many lines come before the first stamped one. */
  function Unstamped(w: ScanWindow, lines: seq<Bytes>, n: nat): (k: nat)
    requires n <= |lines|
    ensures k <= n && (forall i :: 0 <= i < k ==> Own(w, lines[i]).None?) && (k < n ==> Own(w, lines[k]).Some?)
  {
    if n == 0 then 0
    else
      var k := Unstamped(w, lines, n - 1);
      if k == n - 1 && Own(w, lines[n - 1]).None? then n else k
  }

  predicate Blank(lines: seq<Bytes>, n: nat)
    requires n <= |lines|
  {
    forall i :: 0 <= i < n ==> Text(lines[i]) == []
  }

  /** Before any stamp, items have the time the file began with. */
  lemma {:induction false} ItemsBeforeStamp(w: ScanWindow, start: Option<Time>, lines: seq<Bytes>, n: nat)
    requires n <= |lines| && forall i :: 0 <= i < n ==> Own(w, lines[i]).None?
    ensures Inherited(w, start, lines, n) == start
    ensures var items := WindowItems(w, start, lines, n);
      (items != [] ==> items[0].ts == start) && (Blank(lines, n) ==> items == [])
    ensures start.None? && WindowItems(w, start, lines, n) == [] ==> Blank(lines, n)
  {
    hide WindowItems, Own, Text;
    if n == 0 {
      NoItems(w, start, lines);
    } else {
      ItemsBeforeStamp(w, start, lines, n - 1);
      ItemsNext(w, start, lines, n);
    }
  }

  /** From the first stamp on, it makes no difference. */
  lemma {:induction false} ItemsAfterStamp(w: ScanWindow, a: Option<Time>, b: Option<Time>, lines: seq<Bytes>, k: nat, n: nat)
      returns (tail: seq<Item>)
    requires k <= n <= |lines| && (k < n ==> Own(w, lines[k]).Some?)
    ensures WindowItems(w, a, lines, n) == WindowItems(w, a, lines, k) + tail
    ensures WindowItems(w, b, lines, n) == WindowItems(w, b, lines, k) + tail
    ensures k < n ==> Inherited(w, a, lines, n) == Inherited(w, b, lines, n)
  {
    hide WindowItems, Own, Text, NextItem;
    if n == k {
      tail := [];
    } else {
      var before := ItemsAfterStamp(w, a, b, lines, k, n - 1);
      tail := before + NextItem(w, Inherited(w, a, lines, n), lines[n - 1]);
      ItemsNext(w, a, lines, n);
      ItemsNext(w, b, lines, n);
    }
  }

  /** A time inherited from the current file changes what is found in the first rotated one
      exactly when that file ends in lines that carry no timestamp and are not all blank. */
  lemma LeakShowsIff(w: ScanWindow, file: File, t: Time)
    requires !file.gzip
    ensures var lines := LinesOf(file);
      Whole(w, file, Some(t)) != Whole(w, file, None) <==> !Blank(lines, Unstamped(w, lines, |lines|))
  {
    hide WindowItems, LinesAt, Unstamped, Own, Blank;
    var lines := LinesOf(file);
    var k := Unstamped(w, lines, |lines|);
    var tail := ItemsAfterStamp(w, Some(t), None, lines, k, |lines|);
    ItemsBeforeStamp(w, Some(t), lines, k);
    ItemsBeforeStamp(w, None, lines, k);
    var leaked, clean := WindowItems(w, Some(t), lines, k), WindowItems(w, None, lines, k);
    if leaked + tail == clean + tail {
      SameHead(leaked, clean, tail);
    }
  }

  lemma SameHead<T>(a: seq<T>, b: seq<T>, tail: seq<T>)
    requires a + tail == b + tail
    ensures a == b
  {
    assert |a| + |tail| == |b| + |tail|;
    assert a == (a + tail)[..|a|];
    assert b == (b + tail)[..|b|];
  }

  /** A current file with one line from before the window, and a rotated one with a line that has
      no time: the second inherits from the first, and is not found, although on its own it is. */
  lemma LeakExample()
    ensures var files := [LogFile(false, [0], 0, None), LogFile(false, [2], 0, None)];
      && InheritedBy(EXAMPLE, files, 1) == Some(0)
      && Whole(EXAMPLE, files[1], InheritedBy(EXAMPLE, files, 1)) == Plain([])
      && Whole(EXAMPLE, files[1], None) == Plain([Item([2], None)])
  {
    hide HandedTexts;
    var files: seq<File> := [LogFile(false, [0], 0, None), LogFile(false, [2], 0, None)];
    OneByte(0);
    OneByte(2);
    var first, lines := LinesOf(files[0]), LinesOf(files[1]);
    assert first == [[0]] && first[0] == [0] && Text(first[0]) == [0] && Own(EXAMPLE, first[0]) == Some(0);
    assert Inherited(EXAMPLE, None, first, 1) == Some(0);
    assert lines == [[2]] && lines[0] == [2] && Text(lines[0]) == [2] && Own(EXAMPLE, lines[0]) == None;
    NoItems(EXAMPLE, None, lines);
    NoItems(EXAMPLE, Some(0), lines);
    ItemsNext(EXAMPLE, None, lines, 1);
    ItemsNext(EXAMPLE, Some(0), lines, 1);
    assert Inherited(EXAMPLE, None, lines, 1) == None && Inherited(EXAMPLE, Some(0), lines, 1) == Some(0);
  }

  lemma OneByte(b: Byte)
    requires b != NEWLINE
    ensures HandedTexts([b], 0, CHUNK, MAX_CARRY) == [[b]]
  {
    hide HandedTexts;
    var f: Bytes := [b];
    LineStartUnique(f, 0, 1, 0);
    assert Due(f, 0) == [Span(0, 1)];
    var all := HandedTexts(f, 0, CHUNK, MAX_CARRY);
    assert HandedAs(f, CHUNK, MAX_CARRY, Due(f, 0)[0], all[0]);
    assert Border(1, CHUNK, 0) == 1 && Held(1, CHUNK, MAX_CARRY, 1, 1) == 1;
    assert f[0..1] == f;
  }

  // ----- sources in time order ------------------------------------------------------------------------

  /** The files a query is about. */
  function Scope(w: ScanWindow, files: seq<File>): (r: seq<File>)
    requires files != []
  {
    if w.includeRotated then files else files[..1]
  }

  /** No stamp in `lines` is after `t`. */
  predicate StampedBy(w: ScanWindow, lines: seq<Bytes>, t: Time) {
    forall i :: 0 <= i < |lines| && Own(w, lines[i]).Some? ==> Own(w, lines[i]).value <= t
  }

  /** Time never goes back: not within a file, not from an older file to a newer one, and no file
      has a stamp from after it, or a newer rotated one, was last written. A rotated file does not
      begin, as it is read, with lines that have no time. */
  ghost predicate InTimeOrder(w: ScanWindow, files: seq<File>) {
    && (forall k :: 0 <= k < |files| ==> Sound(w, files[k]))
    && (forall j, k, i :: 0 <= j < k < |files| && 0 <= i < |LinesOf(files[j])| && Own(w, LinesOf(files[j])[i]).Some? ==>
          StampedBy(w, LinesOf(files[k]), Own(w, LinesOf(files[j])[i]).value))
    && (forall j, k :: 0 < j <= k < |files| && files[j].modified.Some? ==>
          StampedBy(w, LinesOf(files[k]), files[j].modified.value))
    && (forall k :: 0 < k < |files| ==> Blank(LinesOf(files[k]), Unstamped(w, LinesOf(files[k]), |LinesOf(files[k])|)))
  }

  /** Compressed files are read from their start, or can be read from the middle. */
  ghost predicate Readable(w: ScanWindow, files: seq<File>) {
    Roomy(w, files) || forall k :: 0 <= k < |files| && files[k].gzip ==> Regular(w, files[k])
  }

  /** A file with no stamp in or after the window, and no line before its first stamp, has no
      window lines. */
  lemma {:induction false} NoWindowItems(w: ScanWindow, start: Option<Time>, lines: seq<Bytes>, t: Time, n: nat)
    requires n <= |lines| && t < w.since && StampedBy(w, lines, t)
    requires Blank(lines, Unstamped(w, lines, |lines|))
    ensures WindowItems(w, start, lines, n) == []
    ensures n > Unstamped(w, lines, |lines|) ==>
      Inherited(w, start, lines, n).Some? && Inherited(w, start, lines, n).value < w.since
  {
    hide WindowItems, Own, Text, Unstamped;
    if n == 0 {
      NoItems(w, start, lines);
    } else {
      NoWindowItems(w, start, lines, t, n - 1);
      ItemsNext(w, start, lines, n);
    }
  }

  /** Where the window start was reached, the files not visited have no window lines. */
  lemma NothingMore(w: ScanWindow, files: seq<File>, segments: seq<Segment>, used: seq<nat>, k: nat)
    requires InTimeOrder(w, files) && Readable(w, files) && SegmentsOf(w, files, segments, used, false)
    requires Reached(w, files, used) && 0 < |used| <= k < |files|
    ensures Chronological(Whole(w, files[k], InheritedBy(w, files, k))) == []
  {
    hide WindowItems, LinesAt, Unstamped, Own, Blank, SegmentsOf, Roomy, InheritedBy, Regular;
    var t := OlderStamp(w, files, segments, used, k);
    var lines, start := LinesOf(files[k]), InheritedBy(w, files, k);
    NoWindowItems(w, start, lines, t, |lines|);
  }

  lemma OlderStamp(w: ScanWindow, files: seq<File>, segments: seq<Segment>, used: seq<nat>, k: nat) returns (t: Time)
    requires InTimeOrder(w, files) && Readable(w, files) && SegmentsOf(w, files, segments, used, false)
    requires Reached(w, files, used) && 0 < |used| <= k < |files|
    ensures t < w.since && StampedBy(w, LinesOf(files[k]), t)
  {
    hide WindowItems, Unstamped, Own, Blank, LinesAt, InheritedBy, StampedBy;
    var n := |used|;
    if Stale(w, files[n]) {
      t := files[n].modified.value;
    } else {
      OlderInFile(w, files, segments, used);
      var lines := LinesOf(files[n - 1]);
      var i :| 0 <= i < |lines| && Before(w, lines[i]);
      t := Own(w, lines[i]).value;
    }
  }

  /** The older line that was read is one of the file, wherever the scan began. */
  lemma OlderInFile(w: ScanWindow, files: seq<File>, segments: seq<Segment>, used: seq<nat>)
    requires Readable(w, files) && SegmentsOf(w, files, segments, used, false) && 0 < |used|
    requires var k := |used| - 1;
      Sound(w, files[k]) && OlderIn(w, LinesAt(files[k], From(w, files[k], used[k])))
    ensures OlderIn(w, LinesOf(files[|used| - 1]))
  {
    hide Own, ForwardLines, HandedTexts, FileSegment, Regular, InheritedBy;
    var k := |used| - 1;
    var file, lo := files[k], From(w, files[k], used[k]);
    if Roomy(w, files) {
      RoomyFits(w, files, k, used[k]);
    } else if file.gzip {
      TailIsWhole(w, file, used[k]);
    } else {
      var some, all := LinesAt(file, lo), LinesOf(file);
      HandedFurther(file.bytes, lo, CHUNK, MAX_CARRY);
      var i :| 0 <= i < |some| && Before(w, some[i]);
      assert all[i] == some[i];
    }
  }

  // ----- the query ------------------------------------------------------------------------------------

  /** Every window line of the first `n` files, file by file. */
  function WholeFiles(w: ScanWindow, files: seq<File>, n: nat): (r: seq<Segment>)
    requires n <= |files|
  {
    if n == 0 then [] else WholeFiles(w, files, n - 1) + [Whole(w, files[n - 1], InheritedBy(w, files, n - 1))]
  }

  /** Where the budget did not end and the files are in time order, they were visited whole. */
  lemma {:induction false} VisitedWhole(w: ScanWindow, files: seq<File>, segments: seq<Segment>, used: seq<nat>, n: nat)
    requires n <= |segments| && SegmentsOf(w, files, segments, used, false) && Readable(w, files)
    requires forall k :: 0 <= k < n ==> Sound(w, files[k])
    ensures segments[..n] == WholeFiles(w, files, n)
  {
    hide Whole, InheritedBy, IsPart, AllFrom, SoundAt, Roomy, From, Total;
    if n > 0 {
      VisitedWhole(w, files, segments, used, n - 1);
      assert segments[..n] == segments[..n - 1] + [segments[n - 1]];
      if Roomy(w, files) {
        RoomyFits(w, files, n - 1, used[n - 1]);
      }
      assert FileSegment(w, files[n - 1], used[n - 1], InheritedBy(w, files, n - 1), segments[n - 1], false);
    }
  }

  /** And every file but the last was visited whole in any case. */
  lemma EarlierWhole(w: ScanWindow, files: seq<File>, segments: seq<Segment>, used: seq<nat>, hit: bool, k: nat)
    requires SegmentsOf(w, files, segments, used, hit) && k < |segments| - 1 && Sound(w, files[k])
    ensures segments[k] == Whole(w, files[k], InheritedBy(w, files, k))
  {
    hide Whole, InheritedBy, IsPart, AllFrom, SoundAt, From, Total;
    assert WentOn(w, files, used, k);
    assert FileSegment(w, files[k], used[k], InheritedBy(w, files, k), segments[k], false);
  }

  /** The last file visited, for any budget: if it is plain and in time order, or compressed, in time
      order from where the scan began and with a trailer that has its size, every window line from
      there on was visited. */
  lemma LastTail(w: ScanWindow, files: seq<File>, segments: seq<Segment>, used: seq<nat>, hit: bool)
    requires SegmentsOf(w, files, segments, used, hit) && 0 < |segments|
    ensures var k := |segments| - 1;
      var file, lo := files[k], From(w, files[k], used[k]);
      (if file.gzip then SoundAt(w, file, lo) && file.trailer == |file.bytes| else Sound(w, file)) ==>
        segments[k] == AllFrom(w, file, lo, InheritedBy(w, files, k))
  {
    hide InheritedBy, IsPart, AllFrom, SoundAt, From, Total;
    var k := |segments| - 1;
    assert FileSegment(w, files[k], used[k], InheritedBy(w, files, k), segments[k], hit);
    if !files[k].gzip && Sound(w, files[k]) {
      SoundFurther(w, files[k], From(w, files[k], used[k]));
    }
  }

  /** Segments without lines add nothing to the log. */
  lemma {:induction false} LogNoMore(w: ScanWindow, files: seq<File>, m: nat, n: nat)
    requires m <= n <= |files|
    requires forall k :: m <= k < n ==> Chronological(Whole(w, files[k], InheritedBy(w, files, k))) == []
    ensures Log(WholeFiles(w, files, n)) == Log(WholeFiles(w, files, m))
  {
    hide Whole, InheritedBy, Chronological;
    if m < n {
      LogNoMore(w, files, m, n - 1);
      var all, init := WholeFiles(w, files, n), WholeFiles(w, files, n - 1);
      assert all[..|all| - 1] == init;
      assert [] + Log(init) == Log(init);
    }
  }

  /** What was visited of a source in time order is everything in it. */
  lemma NothingMissed(w: ScanWindow, files: seq<File>, segments: seq<Segment>, used: seq<nat>)
    requires SegmentsOf(w, files, segments, used, false) && Readable(w, files) && InTimeOrder(w, files)
    requires 0 < |segments| && (|segments| < |files| ==> Reached(w, files, used))
    ensures Log(segments) == Log(WholeFiles(w, files, |files|))
  {
    hide WholeFiles, Whole, InheritedBy, SegmentsOf, Log, Chronological, Reached, Readable;
    SameLength(w, files, segments, used, false);
    VisitedWhole(w, files, segments, used, |segments|);
    assert segments[..|segments|] == segments;
    forall k | |segments| <= k < |files| ensures Chronological(Whole(w, files[k], InheritedBy(w, files, k))) == [] {
      NothingMore(w, files, segments, used, k);
    }
    LogNoMore(w, files, |segments|, |files|);
  }

  /** The trailer has the size of the whole. */
  predicate TrueTrailer(file: File) {
    file.gzip ==> file.trailer == |file.bytes|
  }

  /** How a scan ends. Where the trailer of the last file visited is right, the budget ended the scan
      exactly if the window start was not reached and that file is larger than what was left for
      it or a file was left out; and if it is not larger, the one left out finds nothing left or is
      said to be more than 17 times what is. Where that file can be predicted, the window start
      was reached exactly if it is met in the lines from where its scan began, or the file was read
      from its start and the next one was last written before the window. */
  ghost predicate Explained(w: ScanWindow, files: seq<File>, used: seq<nat>, bytes: nat, hit: bool, reached: bool)
    requires 0 < |used| <= |files|
  {
    var n := |used|;
    var last, left := files[n - 1], Left(w, used[n - 1]);
    && (hit ==> BudgetCause(w, files, used, bytes, reached))
    && (TrueTrailer(last) ==> (hit <==> !reached && (Size(last) > left || (w.includeRotated && n < |files|))))
    && (TrueTrailer(last) && Size(last) <= left && w.includeRotated && n < |files| && !reached ==>
          files[n].gzip && (Left(w, bytes) == 0 || files[n].trailer > 17 * Left(w, bytes)))
    && (Exact(w, last, used[n - 1]) ==>
          (reached <==>
            || ReachedIn(w, last, used[n - 1], CarriedBy(w, files, n - 1))
            || (w.includeRotated && n < |files| && Stale(w, files[n]) && Size(last) <= left)))
  }

  lemma WhyEnded(w: ScanWindow, files: seq<File>, used: seq<nat>, bytes: nat, hit: bool, reached: bool)
    requires 0 < |used| <= |files| && LastFile(w, files, used, hit, reached)
    requires reached ==> Reached(w, files, used)
    requires hit ==> BudgetCause(w, files, used, bytes, reached)
    requires |used| < |files| ==> !w.includeRotated || reached || hit
    ensures Explained(w, files, used, bytes, hit, reached)
  {
    hide From, ReachedIn, CarriedBy, SoundAt, OlderIn, LinesAt;
  }

  /** The query over a source: the last `limit` matching lines of what was visited, in the order
      they were logged, and the number of all matches. What was visited is one segment for each of
      the first files, for any budget; a source that fits the budget is never capped; and in a
      source in time order, a scan that was not capped has found every match there is. */
  method RunQuery(files: seq<File>, w: ScanWindow, limit: nat, matches: Bytes -> bool)
      returns (matched: nat, items: seq<Item>, truncated: bool, scanCapped: bool, coverageComplete: bool, visited: nat,
               scannedBytes: nat, ghost segments: seq<Segment>, ghost used: seq<nat>)
    requires files != [] && !files[0].gzip
    ensures 0 < |segments| == |used| == visited <= |files| && SegmentsOf(w, files, segments, used, scanCapped)
    ensures matched == |Filter(matches, Log(segments))|
    ensures items == Last(limit, Filter(matches, Log(segments)))
    ensures truncated <==> scanCapped || matched > limit
    ensures Roomy(w, files) ==> !scanCapped
    ensures coverageComplete ==> Reached(w, files, used)
    ensures visited < |Scope(w, files)| ==> coverageComplete || scanCapped
    ensures Explained(w, files, used, scannedBytes, scanCapped, coverageComplete)
    ensures
      && !scanCapped && Readable(w, Scope(w, files)) && InTimeOrder(w, Scope(w, files)) ==>
        var all := Filter(matches, Log(WholeFiles(w, Scope(w, files), |Scope(w, files)|)));
        matched == |all| && items == Last(limit, all)
  {
    hide SegmentsOf, Reached, LastFile, BudgetCause, Explained, Readable, InTimeOrder, Roomy, WholeFiles, Filter, Log, TakeAll;
    var out := new ScanOutcome();
    var log := new VisitLog();
    visited, segments, used := ScanSource(files, w, out, log);
    matched, items := Collect(log.visits, limit, matches);
    QueryKeepsLast(segments, limit, matches);
    WhyEnded(w, files, used, out.bytes, out.budgetHit, out.reachedSince);
    scanCapped, coverageComplete, scannedBytes := out.budgetHit, out.reachedSince, out.bytes;
    truncated := out.budgetHit || matched > |items|;
    var scope := Scope(w, files);
    if !scanCapped && Readable(w, scope) && InTimeOrder(w, scope) {
      InScope(w, files, segments, used);
      NothingMissed(w, scope, segments, used);
    }
  }

  /** Without rotated files the scan is one of the current file alone. */
  lemma InScope(w: ScanWindow, files: seq<File>, segments: seq<Segment>, used: seq<nat>)
    requires files != [] && SegmentsOf(w, files, segments, used, false) && (!w.includeRotated ==> |segments| == 1)
    ensures SegmentsOf(w, Scope(w, files), segments, used, false)
  {
    hide FileSegment, From, LeftOver;
  }
}
