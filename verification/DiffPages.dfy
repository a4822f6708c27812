/**
 Answering diff requests: each served request sends at most 256 of the candidate records,
 starting where the last one to that peer left off, round and round.
 */
module DiffPages {
  import opened Arith

  const PAGE: nat := 256

  function RotateLeft<T>(s: seq<T>, k: nat): (r: seq<T>)
    requires k <= |s|
  {
    s[k..] + s[..k]
  }

  /** The records one request selects, given the offset left by earlier ones. */
  function Page<T>(candidates: seq<T>, offset: nat): (r: seq<T>)
    requires candidates != []
  {
    var rotated := RotateLeft(candidates, offset % |candidates|);
    if |rotated| > PAGE then rotated[..PAGE] else rotated
  }

  function Taken(n: nat): (t: nat) {
    if n > PAGE then PAGE else n
  }

  function NextOffset(n: nat, offset: nat): (r: nat)
    requires n > 0
  {
    (offset + Taken(n)) % n
  }

  /** The offsets kept per peer, and the page served to one of them. */
  class DiffServer {
    var offsets: map<string, nat>

    constructor ()
      ensures offsets == map[]
    {
      offsets := map[];
    }

    function Offset(peer: string): (o: nat)
      reads this
    {
      if peer in offsets then offsets[peer] else 0
    }

    method Serve<T>(peer: string, candidates: seq<T>) returns (page: seq<T>)
      modifies this
      ensures candidates == [] ==> page == [] && Offset(peer) == old(Offset(peer))
      ensures candidates != [] ==>
        page == Page(candidates, old(Offset(peer))) && Offset(peer) == NextOffset(|candidates|, old(Offset(peer)))
      ensures forall other :: other != peer ==> Offset(other) == old(Offset(other))
    {
      var offset := if peer in offsets then offsets[peer] else 0;
      page := [];
      if candidates != [] {
        var len := |candidates|;
        page := RotateLeft(candidates, offset % len);
        if |page| > PAGE {
          page := page[..PAGE];
        }
        offset := (offset + |page|) % len;
      }
      offsets := offsets[peer := offset];
    }
  }

  // ----- every record is reached ------------------------------------------------------------

  /** The offset before the `j`-th of a row of requests. */
  function OffsetAt(n: nat, offset: nat, j: nat): (r: nat)
    requires n > 0
  {
    if j == 0 then offset else NextOffset(n, OffsetAt(n, offset, j - 1))
  }

  /** How many requests go once around. */
  function Rounds(n: nat): (m: nat) {
    (n + PAGE - 1) / PAGE
  }

  /** The pages start every 256 records, modulo the number of candidates. */
  lemma {:induction false} PageStarts(n: nat, offset: nat, j: nat)
    requires n > PAGE
    ensures OffsetAt(n, offset, j) % n == (offset + j * PAGE) % n
  {
    if j > 0 {
      PageStarts(n, offset, j - 1);
      var before := OffsetAt(n, offset, j - 1);
      ModAdd(before, PAGE, n);
      ModAdd(offset + (j - 1) * PAGE, PAGE, n);
      ModAdd(before + PAGE, 0, n);
    }
  }

  /** A page is the record at its start and those after it, around the end, each once: all of them
      if there are no more than 256, and otherwise 256. */
  lemma PageIs<T>(candidates: seq<T>, offset: nat)
    requires candidates != []
    ensures var page, n := Page(candidates, offset), |candidates|;
      && |page| == (if n <= 256 then n else 256)
      && forall d :: 0 <= d < |page| ==> page[d] == candidates[(offset + d) % n]
  {
    var n, page := |candidates|, Page(candidates, offset);
    var k := offset % n;
    forall d | 0 <= d < |page| ensures page[d] == candidates[(offset + d) % n] {
      ModAdd(offset, d, n);
      if k + d < n {
        ModSmall(k + d, n);
      } else {
        ModOnce(k + d - n, n);
        ModSmall(k + d - n, n);
      }
    }
  }

  lemma PageHolds<T>(candidates: seq<T>, offset: nat, d: nat)
    requires candidates != [] && d < Taken(|candidates|)
    ensures candidates[(offset + d) % |candidates|] in Page(candidates, offset)
  {
    hide Page;
    PageIs(candidates, offset);
    assert Page(candidates, offset)[d] == candidates[(offset + d) % |candidates|];
  }

  /** How far record `i` is from where a row of requests starts. */
  function Distance(n: nat, offset: nat, i: nat): (d: nat)
    requires i < n
  {
    var k := offset % n;
    if i >= k then i - k else i + n - k
  }

  lemma DistanceReaches(n: nat, offset: nat, i: nat)
    requires i < n
    ensures Distance(n, offset, i) < n && (offset + Distance(n, offset, i)) % n == i
  {
    var d := Distance(n, offset, i);
    ModAdd(offset, d, n);
    ModSmall(i, n);
    if i < offset % n {
      ModOnce(i, n);
    }
  }

  /** While the candidates stay the same, one round of consecutive requests selects every one
      of them, whatever offset earlier sets of other sizes have left behind. */
  lemma EveryRecordServed<T>(candidates: seq<T>, offset: nat, i: nat) returns (j: nat)
    requires i < |candidates|
    ensures j < Rounds(|candidates|)
    ensures candidates[i] in Page(candidates, OffsetAt(|candidates|, offset, j))
  {
    hide Page, Distance, OffsetAt;
    var n := |candidates|;
    var d := Distance(n, offset, i);
    DistanceReaches(n, offset, i);
    j := if n > PAGE then d / PAGE else 0;
    var within := d - j * PAGE;
    var at := OffsetAt(n, offset, j);
    assert (at + within) % n == i by {
      if n > PAGE {
        PageStarts(n, offset, j);
        ModAdd(at, within, n);
        ModAdd(offset + j * PAGE, within, n);
      } else {
        FirstOffset(n, offset);
      }
    }
    PageHolds(candidates, at, within);
  }

  lemma FirstOffset(n: nat, offset: nat)
    requires n > 0
    ensures OffsetAt(n, offset, 0) == offset
  {
  }
}
