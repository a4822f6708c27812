/**
 The backward scan of one file: read it from its end in chunks, stitch lines
 that cross a chunk border, and hand them on newest first, within a byte budget.
 */
module LogScan {
  import opened Options
  import opened LogLines
  import opened LogWalk

  class ScanOutcome {
    var lines: nat
    var bytes: nat
    var budgetHit: bool
    var reachedSince: bool
    var oldest: Option<Time>
    var newest: Option<Time>

    constructor ()
      ensures lines == 0 && bytes == 0 && !budgetHit && !reachedSince && oldest.None? && newest.None?
    {
      lines, bytes, budgetHit, reachedSince, oldest, newest := 0, 0, false, false, None, None;
    }
  }

  class WalkState {
    var inherited: Option<Time>
    var olderStreak: nat

    constructor ()
      ensures inherited.None? && olderStreak == 0
    {
      inherited, olderStreak := None, 0;
    }
  }

  /** The calls made to the visitor, in order. */
  class VisitLog {
    var visits: seq<Visit>

    constructor ()
      ensures visits == []
    {
      visits := [];
    }
  }

  ghost function Walked(out: ScanOutcome, state: WalkState, log: VisitLog): (s: Walk)
    reads out, state, log
  {
    Walk(out.lines, out.oldest, out.newest, out.reachedSince, state.inherited, state.olderStreak, log.visits)
  }

  /** Widen the span of times seen. */
  method NoteTime(own: Option<Time>, out: ScanOutcome)
    modifies out`oldest, out`newest
    ensures out.oldest == Earliest(own, old(out.oldest)) && out.newest == Latest(own, old(out.newest))
  {
    if own.Some? {
      if out.oldest.None? || own.value < out.oldest.value {
        out.oldest := own;
      }
      if out.newest.None? || own.value > out.newest.value {
        out.newest := own;
      }
    }
  }

  method HandleLine(line: Bytes, w: ScanWindow, out: ScanOutcome, state: WalkState, log: VisitLog)
      returns (more: bool)
    modifies out, state, log
    ensures Progress(Walked(out, state, log), more) == Step(w, old(Walked(out, state, log)), line)
    ensures out.bytes == old(out.bytes) && out.budgetHit == old(out.budgetHit)
  {
    hide Earliest, Latest;
    var text := Text(line);
    if text == [] {
      return true;
    }
    out.lines := out.lines + 1;
    var own := w.detect(text);
    if own.Some? {
      state.inherited := own;
    }
    NoteTime(own, out);
    var eff := if own.Some? then own else state.inherited;
    if eff.Some? {
      if eff.value > w.until {
        return true;
      }
      if eff.value < w.since {
        if own.Some? {
          state.olderStreak := state.olderStreak + 1;
          if state.olderStreak >= OLDER_STREAK_STOP {
            out.reachedSince := true;
            return false;
          }
        }
        return true;
      }
      if own.Some? {
        state.olderStreak := 0;
      }
    }
    log.visits := log.visits + [Line(Item(text, eff))];
    return true;
  }

  // ----- which lines reach HandleLine --------------------------------------

  /** How far back the budget lets a scan read. */
  function Reach(len: nat, budget: nat, used: nat): (lo: nat) {
    var left := if used <= budget then budget - used else 0;
    if left >= len then 0 else len - left
  }

  /** The lines a scan hands over: all of them if it reads the whole file, else
      those that start after a newline within reach. An empty file has none. */
  function Due(f: Bytes, lo: nat): (r: seq<Span>)
    requires lo <= |f|
    ensures forall i :: 0 <= i < |r| ==> r[i].start <= r[i].end <= |f|
  {
    var spans := Spans(f, lo, |f|);
    if |f| == 0 then [] else if lo == 0 then spans else spans[..|spans| - 1]
  }

  /** The last chunk border a line that starts at `s` is carried across: counting back
      from `p` in steps of `chunk`, the least border at or after `s` that is not 0. */
  function Border(p: nat, chunk: nat, s: nat): (r: nat)
    requires chunk > 0
    ensures r <= p && (s <= p ==> r >= s)
  {
    if p > chunk && p - chunk >= s then Border(p - chunk, chunk, s) else p
  }

  /** Of a line that ends at `e`, up to where its bytes are still held when the scan has come down
      to border `b`: at every border the carry is dropped if it is over the limit. */
  function Held(len: nat, chunk: nat, maxCarry: nat, e: nat, b: nat): (q: nat)
    requires chunk > 0
    ensures q <= e && (if b <= e then q >= b else q == e)
    decreases len - b
  {
    if b + chunk > len then e
    else
      var above := Held(len, chunk, maxCarry, e, b + chunk);
      if above > b + maxCarry then b else above
  }

  /** Where what is handed over of a line ends. */
  function CutAt(len: nat, chunk: nat, maxCarry: nat, line: Span): (q: nat)
    requires chunk > 0 && line.start <= line.end <= len
    ensures line.start <= q <= line.end
  {
    Held(len, chunk, maxCarry, line.end, Border(len, chunk, line.start))
  }

  /** What is handed over for a line: all of it, or a prefix if the carry was dropped. */
  function HandedText(f: Bytes, chunk: nat, maxCarry: nat, line: Span): (text: Bytes)
    requires chunk > 0 && line.start <= line.end <= |f|
  {
    f[line.start..CutAt(|f|, chunk, maxCarry, line)]
  }

  predicate HandedAs(f: Bytes, chunk: nat, maxCarry: nat, line: Span, text: Bytes)
    requires chunk > 0
  {
    line.start <= line.end <= |f| && text == HandedText(f, chunk, maxCarry, line)
  }

  /** The last newline among the first `end` bytes, or -1. */
  function LastNewline(s: Bytes, end: nat): (i: int)
    requires end <= |s|
    ensures -1 <= i < end
    ensures i >= 0 ==> s[i] == NEWLINE
    ensures NoNewline(s, i + 1, end)
  {
    if end == 0 then -1 else if s[end - 1] == NEWLINE then end - 1 else LastNewline(s, end - 1)
  }

  function Min(a: nat, b: nat): (r: nat) {
    if a <= b then a else b
  }

  lemma ReachIsLeft(len: nat, budget: nat, used: nat)
    ensures var left := if used <= budget then budget - used else 0;
      Reach(len, budget, used) <= len && len - Reach(len, budget, used) == Min(len, left)
  {
  }

  // ----- what the scan keeps ----------------------------------------------

  /** Where the next line ends once the newest `n` lines are behind. */
  function EndAfter(f: Bytes, lo: nat, n: nat): (e: nat)
    requires lo <= |f|
    ensures lo <= e <= |f|
  {
    if n == 0 then |f|
    else
      var s := LineStart(f, lo, EndAfter(f, lo, n - 1));
      if s == lo then lo else s - 1
  }

  /** The `n`-th line from the end. */
  function Nth(f: Bytes, lo: nat, n: nat): (line: Span)
    requires lo <= |f|
  {
    Span(LineStart(f, lo, EndAfter(f, lo, n)), EndAfter(f, lo, n))
  }

  /** The first `n` of `handed` are the newest lines, each whole if it fits the carry limit. */
  ghost predicate Handed(f: Bytes, lo: nat, chunk: nat, maxCarry: nat, handed: seq<Bytes>, n: nat)
    requires lo <= |f| && chunk > 0 && n <= |handed|
  {
    n > 0 ==>
      && Handed(f, lo, chunk, maxCarry, handed, n - 1)
      && Nth(f, lo, n - 1).start > lo
      && HandedAs(f, chunk, maxCarry, Nth(f, lo, n - 1), handed[n - 1])
  }

  lemma {:induction false} HandedSame(f: Bytes, lo: nat, chunk: nat, maxCarry: nat, a: seq<Bytes>, b: seq<Bytes>, n: nat)
    requires lo <= |f| && chunk > 0 && n <= |a| && n <= |b|
    requires forall i :: 0 <= i < n ==> a[i] == b[i]
    requires Handed(f, lo, chunk, maxCarry, a, n)
    ensures Handed(f, lo, chunk, maxCarry, b, n)
  {
    if n > 0 {
      HandedSame(f, lo, chunk, maxCarry, a, b, n - 1);
    }
  }

  lemma HandedSnoc(f: Bytes, lo: nat, chunk: nat, maxCarry: nat, handed: seq<Bytes>, text: Bytes)
    requires lo <= |f| && chunk > 0
    requires Handed(f, lo, chunk, maxCarry, handed, |handed|)
    requires Nth(f, lo, |handed|).start > lo
    requires HandedAs(f, chunk, maxCarry, Nth(f, lo, |handed|), text)
    ensures Handed(f, lo, chunk, maxCarry, handed + [text], |handed + [text]|)
  {
    HandedSame(f, lo, chunk, maxCarry, handed, handed + [text], |handed|);
  }

  /** The next line ends at `e`, and its bytes from `border` up to `q` are at hand. */
  ghost predicate Loose(f: Bytes, lo: nat, border: nat, q: nat, e: nat, n: nat)
    requires lo <= |f|
  {
    && e == EndAfter(f, lo, n)
    && q <= e && NoNewline(f, q, e)
    && (border <= e ==> NoNewline(f, border, e) && border <= q)
  }

  /** And no carry was dropped but at the borders where it was over the limit. */
  ghost predicate Stitched(f: Bytes, lo: nat, chunk: nat, maxCarry: nat, border: nat, q: nat, e: nat, n: nat)
    requires lo <= |f| && chunk > 0
  {
    Loose(f, lo, border, q, e, n) && q == Held(|f|, chunk, maxCarry, e, border)
  }

  /** `buf` holds the bytes of `f` from `pos` on. */
  ghost predicate Reads(buf: Bytes, f: Bytes, pos: nat) {
    pos + |buf| <= |f| && buf == f[pos..pos + |buf|]
  }

  lemma ReadsLine(buf: Bytes, f: Bytes, pos: nat, i: nat, end: nat)
    requires Reads(buf, f, pos) && i <= end <= |buf|
    ensures pos + end <= |f| && buf[i..end] == f[pos + i..pos + end]
    ensures i > 0 ==> f[pos + i - 1] == buf[i - 1]
    ensures NoNewline(buf, i, end) <==> NoNewline(f, pos + i, pos + end)
  {
    forall k | i <= k < end ensures buf[k] == f[pos + k] {
    }
    forall k | pos + i <= k < pos + end ensures f[k] == buf[k - pos] {
    }
  }

  /** Lines that start between two borders are last carried across the upper one. */
  ghost predicate OnGrid(len: nat, chunk: nat, pos: nat, border: nat)
    requires chunk > 0
  {
    forall s :: pos < s <= border ==> Border(len, chunk, s) == border
  }

  /** A newline in the buffer ends the search for the start of the next line. */
  lemma HandOne(f: Bytes, lo: nat, chunk: nat, maxCarry: nat, border: nat, q: nat, e: nat,
                handed: seq<Bytes>, buf: Bytes, pos: nat, i: nat)
    requires lo <= pos && chunk > 0 && i < q - pos <= |buf| && Reads(buf, f, pos)
    requires Stitched(f, lo, chunk, maxCarry, border, q, e, |handed|)
    requires Handed(f, lo, chunk, maxCarry, handed, |handed|)
    requires buf[i] == NEWLINE && NoNewline(buf, i + 1, q - pos)
    requires OnGrid(|f|, chunk, pos, border)
    ensures Stitched(f, lo, chunk, maxCarry, border, pos + i, pos + i, |handed| + 1)
    ensures var longer := handed + [buf[i + 1..q - pos]];
      Handed(f, lo, chunk, maxCarry, longer, |longer|)
  {
    hide *;
    ReadsLine(buf, f, pos, i + 1, q - pos);
    StartsHere(f, lo, chunk, maxCarry, border, q, e, |handed|, pos, pos + i + 1);
    HandedSnoc(f, lo, chunk, maxCarry, handed, buf[i + 1..q - pos]);
  }

  /** The next line starts at `s`, right after a newline. */
  lemma StartsHere(f: Bytes, lo: nat, chunk: nat, maxCarry: nat, border: nat, q: nat, e: nat, n: nat, pos: nat, s: nat)
    requires lo <= pos < s <= q <= |f| && chunk > 0 && OnGrid(|f|, chunk, pos, border)
    requires Stitched(f, lo, chunk, maxCarry, border, q, e, n)
    requires f[s - 1] == NEWLINE && NoNewline(f, s, q)
    ensures Stitched(f, lo, chunk, maxCarry, border, s - 1, s - 1, n + 1)
    ensures Nth(f, lo, n).start > lo && HandedAs(f, chunk, maxCarry, Nth(f, lo, n), f[s..q])
  {
    LineStartUnique(f, lo, e, s);
  }

  lemma RunSnoc(w: ScanWindow, s: Walk, handed: seq<Bytes>, text: Bytes)
    requires Run(w, s, handed, |handed|).more
    ensures Run(w, s, handed + [text], |handed + [text]|) == Step(w, Run(w, s, handed, |handed|).walk, text)
  {
    RunSame(w, s, handed, handed + [text], |handed|);
  }

  /** The inner loop: hand over every line that starts inside the buffer `f[pos..q]`. */
  method HandLines(buf: Bytes, w: ScanWindow, out: ScanOutcome, state: WalkState, log: VisitLog,
                   ghost f: Bytes, ghost lo: nat, ghost chunk: nat, ghost maxCarry: nat, ghost start: Walk,
                   ghost pos: nat, ghost border: nat, ghost e0: nat, ghost handed0: seq<Bytes>)
      returns (end: nat, more: bool, ghost e: nat, ghost handed: seq<Bytes>)
    requires lo <= pos && lo <= |f| && chunk > 0 && Reads(buf, f, pos)
    requires OnGrid(|f|, chunk, pos, border)
    requires Stitched(f, lo, chunk, maxCarry, border, pos + |buf|, e0, |handed0|)
    requires Handed(f, lo, chunk, maxCarry, handed0, |handed0|)
    requires Progress(Walked(out, state, log), true) == Run(w, start, handed0, |handed0|)
    modifies out, state, log
    ensures end <= |buf|
    ensures Progress(Walked(out, state, log), more) == Run(w, start, handed, |handed|)
    ensures Handed(f, lo, chunk, maxCarry, handed, |handed|)
    ensures more ==> NoNewline(buf, 0, end) && Stitched(f, lo, chunk, maxCarry, border, pos + end, e, |handed|)
    ensures out.bytes == old(out.bytes) && out.budgetHit == old(out.budgetHit)
  {
    hide *;
    end := |buf|;
    e, handed, more := e0, handed0, true;
    var i := LastNewline(buf, end);
    while i >= 0
      invariant -1 <= i < end <= |buf| || (i == -1 && end == 0)
      invariant i >= 0 ==> buf[i] == NEWLINE
      invariant NoNewline(buf, i + 1, end)
      invariant Stitched(f, lo, chunk, maxCarry, border, pos + end, e, |handed|)
      invariant Handed(f, lo, chunk, maxCarry, handed, |handed|)
      invariant Progress(Walked(out, state, log), true) == Run(w, start, handed, |handed|)
      invariant out.bytes == old(out.bytes) && out.budgetHit == old(out.budgetHit)
      decreases i
    {
      var text := buf[i + 1..end];
      RunSnoc(w, start, handed, text);
      HandOne(f, lo, chunk, maxCarry, border, pos + end, e, handed, buf, pos, i);
      handed := handed + [text];
      more := HandleLine(text, w, out, state, log);
      e := pos + i;
      end := i;
      if !more {
        return;
      }
      i := LastNewline(buf, end);
    }
  }

  // ----- the outer loop -----------------------------------------------------

  /** Below `pos`, chunk borders counted from the end are those counted from `pos`. */
  ghost predicate Grid(len: nat, chunk: nat, pos: nat)
    requires chunk > 0
  {
    forall s :: 0 <= s <= pos ==> Border(len, chunk, s) == Border(pos, chunk, s)
  }

  lemma NextBorder(len: nat, chunk: nat, prev: nat, pos: nat)
    requires chunk > 0 && pos < prev && prev - pos <= chunk && Grid(len, chunk, prev)
    ensures OnGrid(len, chunk, pos, prev)
    ensures prev - pos == chunk && pos > 0 ==> Grid(len, chunk, pos)
    ensures pos == 0 ==> Border(len, chunk, 0) == prev
  {
  }

  lemma ReadChunk(f: Bytes, pos: nat, prev: nat, carry: Bytes)
    requires pos <= prev && Reads(carry, f, prev)
    ensures Reads(f[pos..prev] + carry, f, pos)
  {
  }

  /** Keeping or dropping the carry at a new border. */
  lemma KeepCarry(f: Bytes, lo: nat, chunk: nat, maxCarry: nat, border: nat, buf: Bytes, pos: nat, end: nat, e: nat, n: nat)
    requires lo <= |f| && chunk > 0 && pos < border <= |f| && end <= |buf| && Reads(buf, f, pos) && NoNewline(buf, 0, end)
    requires Stitched(f, lo, chunk, maxCarry, border, pos + end, e, n)
    ensures Loose(f, lo, pos, if end > maxCarry then pos else pos + end, e, n)
    ensures border - pos == chunk ==> Stitched(f, lo, chunk, maxCarry, pos, if end > maxCarry then pos else pos + end, e, n)
    ensures Reads(if end > maxCarry then [] else buf[..end], f, pos)
  {
    ReadsLine(buf, f, pos, 0, end);
  }

  /** At the start of the file what is left of the buffer is the oldest line. */
  lemma HandLast(f: Bytes, chunk: nat, maxCarry: nat, border: nat, buf: Bytes, end: nat, e: nat, n: nat)
    requires chunk > 0 && end <= |buf| && Reads(buf, f, 0) && NoNewline(buf, 0, end)
    requires Stitched(f, 0, chunk, maxCarry, border, end, e, n) && Border(|f|, chunk, 0) == border
    ensures Nth(f, 0, n).start == 0 && HandedAs(f, chunk, maxCarry, Nth(f, 0, n), buf[..end])
  {
    ReadsLine(buf, f, 0, 0, end);
    LineStartUnique(f, 0, e, 0);
  }

  // ----- from what the scan keeps to what it delivers -----------------------

  /** `handed` are the newest of the lines that are due. */
  ghost predicate Delivered(f: Bytes, lo: nat, chunk: nat, maxCarry: nat, handed: seq<Bytes>)
    requires lo <= |f| && chunk > 0
  {
    && |handed| <= |Due(f, lo)|
    && forall i :: 0 <= i < |handed| ==> HandedAs(f, chunk, maxCarry, Due(f, lo)[i], handed[i])
  }

  lemma {:induction false} HandedSpans(f: Bytes, lo: nat, chunk: nat, maxCarry: nat, handed: seq<Bytes>, n: nat)
    requires lo <= |f| && chunk > 0 && n <= |handed| && Handed(f, lo, chunk, maxCarry, handed, n)
    ensures n < |Spans(f, lo, |f|)| && Spans(f, lo, |f|)[n..] == Spans(f, lo, EndAfter(f, lo, n))
    ensures forall i :: 0 <= i < n ==> HandedAs(f, chunk, maxCarry, Spans(f, lo, |f|)[i], handed[i])
  {
    hide LineStart, HandedAs;
    if n > 0 {
      HandedSpans(f, lo, chunk, maxCarry, handed, n - 1);
      OneMore(Spans(f, lo, |f|), n - 1, Nth(f, lo, n - 1), Spans(f, lo, EndAfter(f, lo, n)));
    }
  }

  lemma OneMore(spans: seq<Span>, n: nat, first: Span, rest: seq<Span>)
    requires n < |spans| && spans[n..] == [first] + rest
    ensures spans[n] == first && spans[n + 1..] == rest
  {
    assert spans[n..][1..] == spans[n + 1..];
    assert spans[n] == spans[n..][0];
  }

  lemma DeliveredSoFar(f: Bytes, lo: nat, chunk: nat, maxCarry: nat, handed: seq<Bytes>)
    requires lo <= |f| && |f| > 0 && chunk > 0 && Handed(f, lo, chunk, maxCarry, handed, |handed|)
    ensures Delivered(f, lo, chunk, maxCarry, handed)
  {
    HandedSpans(f, lo, chunk, maxCarry, handed, |handed|);
  }

  lemma DeliveredAll(f: Bytes, chunk: nat, maxCarry: nat, handed: seq<Bytes>, text: Bytes)
    requires |f| > 0 && chunk > 0 && Handed(f, 0, chunk, maxCarry, handed, |handed|)
    requires Nth(f, 0, |handed|).start == 0
    requires HandedAs(f, chunk, maxCarry, Nth(f, 0, |handed|), text)
    ensures Delivered(f, 0, chunk, maxCarry, handed + [text])
    ensures |handed| + 1 == |Due(f, 0)|
  {
    hide HandedAs;
    HandedSpans(f, 0, chunk, maxCarry, handed, |handed|);
    OneMore(Spans(f, 0, |f|), |handed|, Nth(f, 0, |handed|), []);
  }

  /** Between two reads: the next line ends at `e`, and the carry holds its bytes from `pos` on. */
  ghost predicate Between(f: Bytes, lo: nat, chunk: nat, maxCarry: nat, pos: nat, carry: Bytes, e: nat, handed: seq<Bytes>)
    requires lo <= |f| && chunk > 0
  {
    && Reads(carry, f, pos)
    && Loose(f, lo, pos, pos + |carry|, e, |handed|)
    && Handed(f, lo, chunk, maxCarry, handed, |handed|)
    && (pos > lo ==> Grid(|f|, chunk, pos) && Stitched(f, lo, chunk, maxCarry, pos, pos + |carry|, e, |handed|))
  }

  /** What is true before each read, and when the file has been read to its start. */
  ghost predicate Scanning(f: Bytes, lo: nat, chunk: nat, maxCarry: nat, pos: nat, carry: Bytes, e: nat, handed: seq<Bytes>)
    requires lo <= |f| && chunk > 0
  {
    if pos > 0 then Between(f, lo, chunk, maxCarry, pos, carry, e, handed)
    else Delivered(f, lo, chunk, maxCarry, handed) && |handed| == |Due(f, lo)|
  }

  /** A scan that has used up its budget has handed over all that was due. */
  lemma DeliveredToBudget(f: Bytes, lo: nat, chunk: nat, maxCarry: nat, handed: seq<Bytes>, carry: Bytes, e: nat)
    requires lo <= |f| && chunk > 0 && Scanning(f, lo, chunk, maxCarry, lo, carry, e, handed)
    ensures Delivered(f, lo, chunk, maxCarry, handed) && |handed| == |Due(f, lo)|
  {
    if lo == 0 {
      return;
    }
    hide HandedAs, Reads;
    DeliveredSoFar(f, lo, chunk, maxCarry, handed);
    HandedSpans(f, lo, chunk, maxCarry, handed, |handed|);
    LineStartUnique(f, lo, e, lo);
  }

  lemma NothingYet(f: Bytes, lo: nat, chunk: nat, maxCarry: nat)
    requires lo <= |f| && chunk > 0
    ensures Scanning(f, lo, chunk, maxCarry, |f|, [], |f|, [])
  {
  }

  /** One round of the outer loop: read `f[pos..border]`, hand over what it completes. */
  method ScanChunk(f: Bytes, chunk: nat, maxCarry: nat, w: ScanWindow, out: ScanOutcome, state: WalkState, log: VisitLog,
                   pos: nat, border: nat, carry0: Bytes,
                   ghost lo: nat, ghost start: Walk, ghost e0: nat, ghost handed0: seq<Bytes>)
      returns (carry: Bytes, goOn: bool, ghost e: nat, ghost handed: seq<Bytes>)
    requires chunk > 0 && lo <= pos < border <= |f| && border - pos <= chunk
    requires pos == lo || border - pos == chunk
    requires Scanning(f, lo, chunk, maxCarry, border, carry0, e0, handed0)
    requires Progress(Walked(out, state, log), true) == Run(w, start, handed0, |handed0|)
    modifies out, state, log
    ensures Progress(Walked(out, state, log), goOn) == Run(w, start, handed, |handed|)
    ensures Delivered(f, lo, chunk, maxCarry, handed)
    ensures goOn ==> Scanning(f, lo, chunk, maxCarry, pos, carry, e, handed)
    ensures out.bytes == old(out.bytes) && out.budgetHit == old(out.budgetHit)
  {
    hide Run, Step, Reads, Stitched, Loose, Handed, Grid, OnGrid, Delivered, Due, HandedAs, Nth, NoNewline;
    ReadChunk(f, pos, border, carry0);
    NextBorder(|f|, chunk, border, pos);
    var buf := f[pos..border] + carry0;
    var end;
    end, goOn, e, handed := HandLines(buf, w, out, state, log, f, lo, chunk, maxCarry, start, pos, border, e0, handed0);
    DeliveredSoFar(f, lo, chunk, maxCarry, handed);
    carry := [];
    if !goOn {
      return;
    }
    if pos == 0 {
      HandLast(f, chunk, maxCarry, border, buf, end, e, |handed|);
      DeliveredAll(f, chunk, maxCarry, handed, buf[..end]);
      RunSnoc(w, start, handed, buf[..end]);
      handed := handed + [buf[..end]];
      goOn := HandleLine(buf[..end], w, out, state, log);
    } else {
      KeepCarry(f, lo, chunk, maxCarry, border, buf, pos, end, e, |handed|);
      carry := if end > maxCarry then [] else buf[..end];
    }
  }

  predicate ReachIs(len: nat, budget: nat, used: nat, lo: nat) {
    lo == Reach(len, budget, used)
  }

  /** How many bytes the next read takes: none once the budget is used up. */
  method Want(len: nat, chunk: nat, budget: nat, bytes: nat, pos: nat, ghost used: nat, ghost lo: nat)
      returns (want: nat)
    requires chunk > 0 && ReachIs(len, budget, used, lo)
    requires 0 < pos && lo <= pos <= len && bytes == used + len - pos
    ensures want == 0 <==> pos == lo
    ensures want <= pos - lo && want <= chunk
    ensures want == chunk || want == pos - lo
  {
    var remaining := if bytes <= budget then budget - bytes else 0;
    want := Min(Min(chunk, pos), remaining);
  }

  // ----- the texts handed over, as a function of the file ---------------------

  /** What a scan hands over if nothing stops it, newest first. */
  function HandedTexts(f: Bytes, lo: nat, chunk: nat, maxCarry: nat): (r: seq<Bytes>)
    requires lo <= |f| && chunk > 0
    ensures |r| == |Due(f, lo)|
    ensures forall i :: 0 <= i < |r| ==> HandedAs(f, chunk, maxCarry, Due(f, lo)[i], r[i])
  {
    seq(|Due(f, lo)|, i requires 0 <= i < |Due(f, lo)| => HandedText(f, chunk, maxCarry, Due(f, lo)[i]))
  }

  lemma DeliveredIs(f: Bytes, lo: nat, chunk: nat, maxCarry: nat, handed: seq<Bytes>)
    requires lo <= |f| && chunk > 0 && Delivered(f, lo, chunk, maxCarry, handed)
    ensures |handed| <= |HandedTexts(f, lo, chunk, maxCarry)|
    ensures forall i :: 0 <= i < |handed| ==> handed[i] == HandedTexts(f, lo, chunk, maxCarry)[i]
  {
    hide Due, HandedTexts, HandedText;
    var all := HandedTexts(f, lo, chunk, maxCarry);
    forall i | 0 <= i < |handed| ensures handed[i] == all[i] {
      assert HandedAs(f, chunk, maxCarry, Due(f, lo)[i], handed[i]);
    }
  }

  /** A run over what was handed over is the run over all of it. */
  lemma DeliveredRun(f: Bytes, lo: nat, chunk: nat, maxCarry: nat, w: ScanWindow, start: Walk, handed: seq<Bytes>)
    requires lo <= |f| && chunk > 0 && Delivered(f, lo, chunk, maxCarry, handed)
    requires Run(w, start, handed, |handed|).more ==> |handed| == |Due(f, lo)|
    ensures var all := HandedTexts(f, lo, chunk, maxCarry);
      Run(w, start, handed, |handed|) == Run(w, start, all, |all|)
  {
    hide Due, HandedTexts, Step, Run, Delivered;
    var all := HandedTexts(f, lo, chunk, maxCarry);
    DeliveredIs(f, lo, chunk, maxCarry, handed);
    RunSame(w, start, handed, all, |handed|);
    if !Run(w, start, handed, |handed|).more {
      RunStopped(w, start, all, |handed|, |all|);
    }
  }

  /** Scan one file: walk the texts handed over until the walk stops or they end. */
  method ScanFile(f: Bytes, chunk: nat, maxCarry: nat, w: ScanWindow,
                  out: ScanOutcome, state: WalkState, log: VisitLog)
      returns (ghost more: bool)
    requires chunk > 0
    modifies out, state, log
    ensures var lo := Reach(|f|, w.budget, old(out.bytes));
      var all := HandedTexts(f, lo, chunk, maxCarry);
      && Progress(Walked(out, state, log), more) == Run(w, old(Walked(out, state, log)), all, |all|)
      && old(out.bytes) <= out.bytes <= old(out.bytes) + |f| - lo
      && (more ==> out.bytes == old(out.bytes) + |f| - lo)
      && out.budgetHit == (old(out.budgetHit) || (more && lo > 0))
    ensures var left := if old(out.bytes) <= w.budget then w.budget - old(out.bytes) else 0;
      && out.bytes <= old(out.bytes) + left
      && (more ==> out.bytes == old(out.bytes) + Min(|f|, left))
      && out.budgetHit == (old(out.budgetHit) || (more && |f| > left))
  {
    ReachIsLeft(|f|, w.budget, out.bytes);
    ghost var lo := Reach(|f|, w.budget, out.bytes);
    ghost var used := out.bytes;
    ghost var start := Walked(out, state, log);
    var pos: nat := |f|;
    var carry: Bytes := [];
    ghost var e: nat := |f|;
    ghost var handed: seq<Bytes> := [];
    more := true;
    NothingYet(f, lo, chunk, maxCarry);
    assert Run(w, start, [], 0) == Progress(start, true);
    assert ReachIs(|f|, w.budget, used, lo);
    hide *;
    while pos > 0
      invariant lo <= pos <= |f| && Scanning(f, lo, chunk, maxCarry, pos, carry, e, handed)
      invariant out.bytes == used + |f| - pos && out.budgetHit == old(out.budgetHit)
      invariant Progress(Walked(out, state, log), true) == Run(w, start, handed, |handed|)
    {
      var want := Want(|f|, chunk, w.budget, out.bytes, pos, used, lo);
      if want == 0 {
        DeliveredToBudget(f, lo, chunk, maxCarry, handed, carry, e);
        DeliveredRun(f, lo, chunk, maxCarry, w, start, handed);
        out.budgetHit := true;
        return;
      }
      var border := pos;
      pos := pos - want;
      out.bytes := out.bytes + want;
      var goOn;
      carry, goOn, e, handed := ScanChunk(f, chunk, maxCarry, w, out, state, log, pos, border, carry, lo, start, e, handed);
      if !goOn {
        more := false;
        DeliveredRun(f, lo, chunk, maxCarry, w, start, handed);
        return;
      }
    }
    DeliveredToBudget(f, lo, chunk, maxCarry, handed, carry, e);
    DeliveredRun(f, lo, chunk, maxCarry, w, start, handed);
  }

  // ----- what the scan means ------------------------------------------------

  /** The lines due, newest first, said with the forward split of the file. */
  function DueTexts(f: Bytes, lo: nat): (r: seq<Bytes>)
    requires lo <= |f|
  {
    var lines := Reverse(Split(f, lo, |f|));
    if |f| == 0 then [] else if lo == 0 then lines else lines[..|lines| - 1]
  }

  lemma {:induction false} TextAt(f: Bytes, spans: seq<Span>, i: nat)
    requires i < |spans| && forall k :: 0 <= k < |spans| ==> spans[k].start <= spans[k].end <= |f|
    ensures Texts(f, spans)[i] == f[spans[i].start..spans[i].end]
  {
    if i > 0 {
      TextAt(f, spans[1..], i - 1);
    }
  }

  lemma DueTextAt(f: Bytes, lo: nat, i: nat)
    requires lo <= |f| && i < |Due(f, lo)|
    ensures |DueTexts(f, lo)| == |Due(f, lo)|
    ensures DueTexts(f, lo)[i] == f[Due(f, lo)[i].start..Due(f, lo)[i].end]
  {
    SpansAreSplit(f, lo, |f|);
    TextAt(f, Spans(f, lo, |f|), i);
  }

  lemma DueLengths(f: Bytes, lo: nat)
    requires lo <= |f|
    ensures |DueTexts(f, lo)| == |Due(f, lo)|
  {
    SpansAreSplit(f, lo, |f|);
  }

  /** The part of the line above its last border is within the carry limit. */
  predicate Fits(len: nat, chunk: nat, maxCarry: nat, line: Span)
    requires chunk > 0
  {
    line.end - Border(len, chunk, line.start) <= maxCarry
  }

  /** A position at which a scan may stop to read the next chunk. */
  predicate IsBorder(len: nat, chunk: nat, b: nat)
    requires chunk > 0
    decreases len - b
  {
    b == len || (b + chunk <= len && IsBorder(len, chunk, b + chunk))
  }

  lemma {:induction false} BorderIsBorder(len: nat, p: nat, chunk: nat, s: nat)
    requires chunk > 0 && IsBorder(len, chunk, p)
    ensures IsBorder(len, chunk, Border(p, chunk, s))
  {
    if p > chunk && p - chunk >= s {
      BorderIsBorder(len, p - chunk, chunk, s);
    }
  }

  /** The bytes down to a border are all held exactly when they are within the limit. */
  lemma {:induction false} HeldWholeIff(len: nat, chunk: nat, maxCarry: nat, e: nat, b: nat)
    requires chunk > 0 && e <= len && IsBorder(len, chunk, b)
    ensures Held(len, chunk, maxCarry, e, b) == e <==> e - b <= maxCarry
    decreases len - b
  {
    if b < len {
      HeldWholeIff(len, chunk, maxCarry, e, b + chunk);
    }
  }

  /** A line is handed over whole exactly when it fits. */
  lemma CutNowhereIff(f: Bytes, chunk: nat, maxCarry: nat, line: Span)
    requires chunk > 0 && line.start <= line.end <= |f|
    ensures HandedText(f, chunk, maxCarry, line) == f[line.start..line.end] <==> Fits(|f|, chunk, maxCarry, line)
  {
    BorderIsBorder(|f|, |f|, chunk, line.start);
    HeldWholeIff(|f|, chunk, maxCarry, line.end, Border(|f|, chunk, line.start));
    var q := CutAt(|f|, chunk, maxCarry, line);
    assert |f[line.start..q]| == q - line.start && |f[line.start..line.end]| == line.end - line.start;
  }

  /** The carry was dropped at the very place the line starts, with nothing read below it. */
  predicate DroppedAt(len: nat, chunk: nat, maxCarry: nat, line: Span)
    requires chunk > 0
  {
    && 0 < line.start && Border(len, chunk, line.start) == line.start && line.start + chunk <= len
    && Held(len, chunk, maxCarry, line.end, line.start + chunk) > line.start + maxCarry
  }

  /** A line that is not empty is dropped, so that nothing of it is handed over, exactly when it
      starts right at a chunk border and was over the limit there. */
  lemma DroppedIff(f: Bytes, chunk: nat, maxCarry: nat, line: Span)
    requires chunk > 0 && line.start < line.end <= |f|
    ensures HandedText(f, chunk, maxCarry, line) == [] <==> DroppedAt(|f|, chunk, maxCarry, line)
  {
    var b, q := Border(|f|, chunk, line.start), CutAt(|f|, chunk, maxCarry, line);
    assert |HandedText(f, chunk, maxCarry, line)| == q - line.start;
    if b == line.start {
      BorderIsBorder(|f|, |f|, chunk, line.start);
      if b == 0 {
        ZeroIsNoBorder(|f|, chunk, 0);
      }
    }
  }

  lemma {:induction false} ZeroIsNoBorder(p: nat, chunk: nat, s: nat)
    requires chunk > 0 && p > 0
    ensures Border(p, chunk, s) > 0
  {
    if p > chunk && p - chunk >= s {
      ZeroIsNoBorder(p - chunk, chunk, s);
    }
  }

  /** So of a line that overran the carry, and only of such a line, less than all is handed over:
      nothing if it is dropped, and otherwise a part that is not empty. */
  lemma OverrunOutcome(f: Bytes, chunk: nat, maxCarry: nat, line: Span)
    requires chunk > 0 && line.start < line.end <= |f|
    ensures var text := HandedText(f, chunk, maxCarry, line);
      && text <= f[line.start..line.end]
      && (text != f[line.start..line.end] <==> !Fits(|f|, chunk, maxCarry, line))
      && (text == [] <==> DroppedAt(|f|, chunk, maxCarry, line))
      && (DroppedAt(|f|, chunk, maxCarry, line) ==> line.end - line.start > maxCarry)
  {
    CutNowhereIff(f, chunk, maxCarry, line);
    DroppedIff(f, chunk, maxCarry, line);
    var q := CutAt(|f|, chunk, maxCarry, line);
    assert f[line.start..q] == f[line.start..line.end][..q - line.start];
  }

  predicate AllFit(f: Bytes, lo: nat, chunk: nat, maxCarry: nat)
    requires lo <= |f| && chunk > 0
  {
    forall i :: 0 <= i < |Due(f, lo)| ==> Fits(|f|, chunk, maxCarry, Due(f, lo)[i])
  }

  /** Lines no longer than the carry limit always fit, whatever the chunk size. */
  lemma ShortLinesFit(f: Bytes, lo: nat, chunk: nat, maxCarry: nat)
    requires lo <= |f| && chunk > 0
    requires forall i :: 0 <= i < |DueTexts(f, lo)| ==> |DueTexts(f, lo)[i]| <= maxCarry
    ensures AllFit(f, lo, chunk, maxCarry)
  {
    hide Due, DueTexts;
    forall i | 0 <= i < |Due(f, lo)| ensures Fits(|f|, chunk, maxCarry, Due(f, lo)[i]) {
      DueTextAt(f, lo, i);
    }
  }

  /** Chunk borders never show, exactly as long as the lines fit: the texts handed over
      are the newest pieces of the split if and only if no line overran the carry. */
  lemma WholeIffFits(f: Bytes, lo: nat, chunk: nat, maxCarry: nat)
    requires lo <= |f| && chunk > 0
    ensures HandedTexts(f, lo, chunk, maxCarry) == DueTexts(f, lo) <==> AllFit(f, lo, chunk, maxCarry)
  {
    hide DueTexts, Due, Fits, HandedTexts, HandedText;
    DueLengths(f, lo);
    var all := HandedTexts(f, lo, chunk, maxCarry);
    forall i | 0 <= i < |all| ensures all[i] == DueTexts(f, lo)[i] <==> Fits(|f|, chunk, maxCarry, Due(f, lo)[i]) {
      DueTextAt(f, lo, i);
      assert HandedAs(f, chunk, maxCarry, Due(f, lo)[i], all[i]);
      CutNowhereIff(f, chunk, maxCarry, Due(f, lo)[i]);
    }
  }

  /** A line of four bytes, read two at a time with a carry of one: its first half is handed over
      as if it were a line. */
  lemma OverlongIsCut()
    ensures HandedTexts(FOUR, 0, 2, 1) == [[97, 98]] && DueTexts(FOUR, 0) == [FOUR]
  {
    hide DueTexts, Due, HandedTexts;
    OneLineDue();
    var all := HandedTexts(FOUR, 0, 2, 1);
    assert HandedAs(FOUR, 2, 1, Due(FOUR, 0)[0], all[0]);
    assert Border(4, 2, 0) == 2;
    assert Held(4, 2, 1, 4, 4) == 4 && Held(4, 2, 1, 4, 2) == 2;
    assert FOUR[0..2] == [97, 98];
  }

  const FOUR: Bytes := [97, 98, 99, 100]

  /** A line over the carry limit comes whole if it is read in one chunk. */
  lemma OverlongComesWhole()
    ensures HandedText([97, 98, 99], 4, 1, Span(0, 3)) == [97, 98, 99]
  {
    var f: Bytes := [97, 98, 99];
    assert Border(3, 4, 0) == 3 && Held(3, 4, 1, 3, 3) == 3;
    assert f[0..3] == f;
  }

  /** And one that starts at a chunk border is dropped, as documented. */
  lemma OverlongIsDropped()
    ensures HandedText([97, 10, 98, 99], 2, 1, Span(2, 4)) == []
  {
    assert Border(4, 2, 2) == 2 && Held(4, 2, 1, 4, 4) == 4 && Held(4, 2, 1, 4, 2) == 2;
  }

  lemma OneLineDue()
    ensures Due(FOUR, 0) == [Span(0, 4)] && DueTexts(FOUR, 0) == [FOUR]
  {
    hide Split, Reverse;
    LineStartUnique(FOUR, 0, 4, 0);
    SplitNoNewline(FOUR, 0, 4);
    assert FOUR[0..4] == FOUR;
    ReverseOne(FOUR);
  }

  // ----- reading less than the whole file --------------------------------------

  /** All lines but the oldest are the same lines when the scan could read further. */
  lemma {:induction false} SpansFurther(f: Bytes, lo: nat, e: nat)
    requires lo <= e <= |f|
    ensures |Spans(f, lo, e)| <= |Spans(f, 0, e)|
    ensures forall i :: 0 <= i < |Spans(f, lo, e)| - 1 ==> Spans(f, lo, e)[i] == Spans(f, 0, e)[i]
    decreases e
  {
    var s := LineStart(f, lo, e);
    if s > lo {
      LineStartUnique(f, 0, e, s);
      SpansFurther(f, lo, s - 1);
    }
  }

  /** The texts handed over within the budget are the first of those of the whole file. */
  lemma HandedFurther(f: Bytes, lo: nat, chunk: nat, maxCarry: nat)
    requires lo <= |f| && chunk > 0
    ensures var some, all := HandedTexts(f, lo, chunk, maxCarry), HandedTexts(f, 0, chunk, maxCarry);
      |some| <= |all| && some == all[..|some|]
  {
    hide Spans;
    SpansFurther(f, lo, |f|);
  }
}
