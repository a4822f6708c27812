/**
 The lines of a log file, described twice: as the forward split of its bytes on
 newline, and as the spans a reader meets when it walks the file from its end.
 The two descriptions are proved to agree, so that the backward scanner can be
 specified by spans and understood by splits.
 */
module LogLines {

  newtype Byte = b: int | 0 <= b < 256
  type Bytes = seq<Byte>

  const NEWLINE: Byte := 10
  const CARRIAGE_RETURN: Byte := 13

  function Reverse<T>(s: seq<T>): (r: seq<T>)
    ensures |r| == |s|
  {
    if s == [] then [] else [s[|s| - 1]] + Reverse(s[..|s| - 1])
  }

  lemma {:induction false} ReverseAppend<T>(a: seq<T>, b: seq<T>)
    ensures Reverse(a + b) == Reverse(b) + Reverse(a)
  {
    if b == [] {
      assert a + b == a;
    } else {
      ReverseAppend(a, b[..|b| - 1]);
      assert (a + b)[..|a + b| - 1] == a + b[..|b| - 1];
    }
  }

  lemma ReverseOne<T>(x: T)
    ensures Reverse([x]) == [x]
  {
  }

  predicate NoNewline(f: Bytes, a: nat, b: nat)
    requires a <= b <= |f|
  {
    forall k :: a <= k < b ==> f[k] != NEWLINE
  }

  /** The pieces of `f[lo..e]` between newlines, oldest first; the empty text is one empty piece. */
  function Split(f: Bytes, lo: nat, e: nat): (r: seq<Bytes>)
    requires lo <= e <= |f|
    ensures |r| >= 1
    decreases e
  {
    if e == lo then [[]] else Extend(Split(f, lo, e - 1), f[e - 1])
  }

  /** The pieces of a text with one more byte at its end. */
  function Extend(pieces: seq<Bytes>, b: Byte): (r: seq<Bytes>)
    requires |pieces| >= 1
    ensures |r| >= 1
  {
    if b == NEWLINE then pieces + [[]]
    else pieces[..|pieces| - 1] + [pieces[|pieces| - 1] + [b]]
  }

  /** The text whose pieces are `pieces`. */
  function Join(pieces: seq<Bytes>): (s: Bytes)
    requires |pieces| >= 1
  {
    if |pieces| == 1 then pieces[0]
    else Join(pieces[..|pieces| - 1]) + [NEWLINE] + pieces[|pieces| - 1]
  }

  predicate Clean(pieces: seq<Bytes>) {
    forall i :: 0 <= i < |pieces| ==> NoNewline(pieces[i], 0, |pieces[i]|)
  }

  /** The pieces are newline-free and join back to the text. */
  lemma {:induction false} SplitJoins(f: Bytes, lo: nat, e: nat)
    requires lo <= e <= |f|
    ensures Join(Split(f, lo, e)) == f[lo..e]
    ensures Clean(Split(f, lo, e))
    decreases e
  {
    hide Join, Extend, Clean;
    if e == lo {
      JoinNothing();
    } else {
      SplitJoins(f, lo, e - 1);
      ExtendJoins(Split(f, lo, e - 1), f[e - 1]);
      ExtendClean(Split(f, lo, e - 1), f[e - 1]);
      assert f[lo..e] == f[lo..e - 1] + [f[e - 1]];
    }
  }

  lemma JoinNothing()
    ensures Join([[]]) == [] && Clean([[]])
  {
  }

  lemma JoinSnoc(pieces: seq<Bytes>, last: Bytes)
    requires |pieces| >= 1
    ensures Join(pieces + [last]) == Join(pieces) + [NEWLINE] + last
  {
    var longer := pieces + [last];
    assert longer[..|longer| - 1] == pieces;
  }

  lemma JoinOne(piece: Bytes)
    ensures Join([piece]) == piece
  {
  }

  lemma JoinLonger(init: seq<Bytes>, last: Bytes, b: Byte)
    ensures Join(init + [last + [b]]) == Join(init + [last]) + [b]
  {
    hide Join;
    if init == [] {
      assert init + [last] == [last] && init + [last + [b]] == [last + [b]];
      JoinOne(last);
      JoinOne(last + [b]);
    } else {
      JoinSnoc(init, last);
      JoinSnoc(init, last + [b]);
      Regroup(Join(init) + [NEWLINE], last, b);
    }
  }

  lemma Regroup(a: Bytes, last: Bytes, b: Byte)
    ensures a + (last + [b]) == a + last + [b]
  {
  }

  lemma JoinEmpty(pieces: seq<Bytes>)
    requires |pieces| >= 1
    ensures Join(pieces + [[]]) == Join(pieces) + [NEWLINE]
  {
    JoinSnoc(pieces, []);
  }

  lemma ExtendJoins(pieces: seq<Bytes>, b: Byte)
    requires |pieces| >= 1
    ensures Join(Extend(pieces, b)) == Join(pieces) + [b]
  {
    hide Join;
    if b == NEWLINE {
      JoinEmpty(pieces);
    } else {
      JoinLonger(pieces[..|pieces| - 1], pieces[|pieces| - 1], b);
      InitLast(pieces);
    }
  }

  lemma InitLast<T>(s: seq<T>)
    requires s != []
    ensures s == s[..|s| - 1] + [s[|s| - 1]]
  {
  }

  lemma ExtendClean(pieces: seq<Bytes>, b: Byte)
    requires |pieces| >= 1 && Clean(pieces)
    ensures Clean(Extend(pieces, b))
  {
  }

  lemma ExtendAfter(before: seq<Bytes>, pieces: seq<Bytes>, b: Byte)
    requires |pieces| >= 1
    ensures Extend(before + pieces, b) == before + Extend(pieces, b)
  {
  }

  /** No other newline-free pieces join to the text: these two facts pin Split down. */
  lemma {:induction false} SplitUnique(pieces: seq<Bytes>)
    requires |pieces| >= 1
    requires Clean(pieces)
    ensures Split(Join(pieces), 0, |Join(pieces)|) == pieces
  {
    if |pieces| == 1 {
      SplitNoNewline(pieces[0], 0, |pieces[0]|);
      assert pieces[0][0..|pieces[0]|] == pieces[0];
    } else {
      var init, last := pieces[..|pieces| - 1], pieces[|pieces| - 1];
      SplitUnique(init);
      SplitLast(Join(init), last);
      assert pieces == init + [last];
    }
  }

  lemma SplitLast(head: Bytes, last: Bytes)
    requires NoNewline(last, 0, |last|)
    ensures var whole := head + [NEWLINE] + last;
      Split(whole, 0, |whole|) == Split(head, 0, |head|) + [last]
  {
    var whole := head + [NEWLINE] + last;
    SplitSame(whole, head, |head|);
    SplitAtNewline(whole, 0, |head| + 1, |whole|);
    assert whole[|head| + 1..|whole|] == last;
    SplitNoNewline(whole, |head| + 1, |whole|);
  }

  lemma {:induction false} SplitSame(f: Bytes, g: Bytes, e: nat)
    requires e <= |f| && e <= |g| && f[..e] == g[..e]
    ensures Split(f, 0, e) == Split(g, 0, e)
    decreases e
  {
    if e > 0 {
      assert f[..e - 1] == f[..e][..e - 1] == g[..e - 1];
      assert f[e - 1] == f[..e][e - 1];
      SplitSame(f, g, e - 1);
    }
  }

  lemma {:induction false} SplitNoNewline(f: Bytes, lo: nat, e: nat)
    requires lo <= e <= |f| && NoNewline(f, lo, e)
    ensures Split(f, lo, e) == [f[lo..e]]
    decreases e
  {
    if e == lo {
      assert f[lo..e] == [];
    } else {
      assert f[lo..e] == f[lo..e - 1] + [f[e - 1]];
      SplitNoNewline(f, lo, e - 1);
    }
  }

  lemma {:induction false} SplitAtNewline(f: Bytes, lo: nat, s: nat, e: nat)
    requires lo < s <= e <= |f| && f[s - 1] == NEWLINE
    ensures Split(f, lo, e) == Split(f, lo, s - 1) + Split(f, s, e)
    decreases e
  {
    if e > s {
      SplitAtNewline(f, lo, s, e - 1);
      ExtendAfter(Split(f, lo, s - 1), Split(f, s, e - 1), f[e - 1]);
    }
  }

  // ----- spans --------------------------------------------------------------

  /** A line as positions in the file: its bytes are `f[start..end]`. */
  datatype Span = Span(start: nat, end: nat)

  /** Where the line that ends at `e` begins, looking no further back than `lo`. */
  function LineStart(f: Bytes, lo: nat, e: nat): (s: nat)
    requires lo <= e <= |f|
    ensures lo <= s <= e
    ensures s > lo ==> f[s - 1] == NEWLINE
    ensures NoNewline(f, s, e)
  {
    if e == lo || f[e - 1] == NEWLINE then e else LineStart(f, lo, e - 1)
  }

  lemma LineStartUnique(f: Bytes, lo: nat, e: nat, s: nat)
    requires lo <= s <= e <= |f|
    requires s > lo ==> f[s - 1] == NEWLINE
    requires NoNewline(f, s, e)
    ensures LineStart(f, lo, e) == s
  {
  }

  /** The lines of `f[lo..e]`, newest first. */
  function Spans(f: Bytes, lo: nat, e: nat): (r: seq<Span>)
    requires lo <= e <= |f|
    ensures |r| >= 1
    ensures forall i :: 0 <= i < |r| ==> lo <= r[i].start <= r[i].end <= e
    decreases e
  {
    var s := LineStart(f, lo, e);
    if s == lo then [Span(s, e)] else [Span(s, e)] + Spans(f, lo, s - 1)
  }

  function Texts(f: Bytes, spans: seq<Span>): (r: seq<Bytes>)
    requires forall i :: 0 <= i < |spans| ==> spans[i].start <= spans[i].end <= |f|
    ensures |r| == |spans|
  {
    if spans == [] then [] else [f[spans[0].start..spans[0].end]] + Texts(f, spans[1..])
  }

  /** Read backwards, the spans are the forward split. */
  lemma {:induction false} SpansAreSplit(f: Bytes, lo: nat, e: nat)
    requires lo <= e <= |f|
    ensures Texts(f, Spans(f, lo, e)) == Reverse(Split(f, lo, e))
    decreases e
  {
    hide Split, Reverse, NoNewline;
    var s := LineStart(f, lo, e);
    if s == lo {
      SplitNoNewline(f, lo, e);
      ReverseOne(f[lo..e]);
    } else {
      SpansAreSplit(f, lo, s - 1);
      SplitLastLine(f, lo, s, e);
      TextsCons(f, Span(s, e), Spans(f, lo, s - 1));
    }
  }

  lemma TextsCons(f: Bytes, first: Span, rest: seq<Span>)
    requires first.start <= first.end <= |f|
    requires forall i :: 0 <= i < |rest| ==> rest[i].start <= rest[i].end <= |f|
    ensures Texts(f, [first] + rest) == [f[first.start..first.end]] + Texts(f, rest)
  {
    assert ([first] + rest)[1..] == rest;
  }

  lemma SplitLastLine(f: Bytes, lo: nat, s: nat, e: nat)
    requires lo < s <= e <= |f| && f[s - 1] == NEWLINE && NoNewline(f, s, e)
    ensures Reverse(Split(f, lo, e)) == [f[s..e]] + Reverse(Split(f, lo, s - 1))
  {
    SplitAtNewline(f, lo, s, e);
    SplitNoNewline(f, s, e);
    var older := Split(f, lo, s - 1);
    assert (older + [f[s..e]])[..|older|] == older;
  }
}
