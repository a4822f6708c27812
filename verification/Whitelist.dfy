/**
 Networks that must never be banned: a fixed list and the configured entries. Ban
 subjects are themselves networks, so the question is whether two blocks share an
 address, not whether one address is listed.
 */
module Whitelist {
  import opened Arith
  import opened Cidr

  function Dotted(a: nat, b: nat, c: nat, d: nat): (v: nat) {
    ((a * 256 + b) * 256 + c) * 256 + d
  }

  /** The ranges no message can override. */
  const IMMUTABLE_PROTECTED: seq<IpNet> := [
    Net(V4, Dotted(127, 0, 0, 0), 8),
    Net(V6, 1, 128),
    Net(V4, Dotted(10, 0, 0, 0), 8),
    Net(V4, Dotted(172, 16, 0, 0), 12),
    Net(V4, Dotted(192, 168, 0, 0), 16),
    Net(V4, Dotted(169, 254, 0, 0), 16),
    Net(V6, 0xfe80_0000_0000_0000_0000_0000_0000_0000, 10),
    Net(V4, Dotted(192, 0, 2, 0), 24),
    Net(V4, Dotted(198, 51, 100, 0), 24),
    Net(V4, Dotted(203, 0, 113, 0), 24),
    Net(V4, Dotted(0, 0, 0, 0), 8),
    Net(V6, 0, 128),
    Net(V4, Dotted(224, 0, 0, 0), 4),
    Net(V6, 0xff00_0000_0000_0000_0000_0000_0000_0000, 8),
    Net(V6, 0xfc00_0000_0000_0000_0000_0000_0000_0000, 7)
  ]

  /** The two layers together. */
  function Protected(entries: set<IpNet>): (nets: set<IpNet>) {
    (set n | n in IMMUTABLE_PROTECTED) + entries
  }

  predicate IsWhitelisted(entries: set<IpNet>, a: Address) {
    exists n :: n in Protected(entries) && n.Contains(a)
  }

  predicate Overlaps(entries: set<IpNet>, net: IpNet) {
    exists n :: n in Protected(entries) && NetsOverlap(n, net)
  }

  predicate Covers(entries: set<IpNet>, net: IpNet) {
    exists n :: n in Protected(entries) && n.Contains(net.Addr()) && n.prefix <= net.prefix
  }

  class WhitelistManager {
    var entries: set<IpNet>

    constructor ()
      ensures entries == {}
    {
      entries := {};
    }

    method Add(net: IpNet)
      modifies this
      ensures entries == old(entries) + {net}
    {
      entries := entries + {net};
    }

    method Remove(net: IpNet) returns (removed: bool)
      modifies this
      ensures entries == old(entries) - {net}
      ensures removed <==> net in old(entries)
    {
      removed := net in entries;
      entries := entries - {net};
    }
  }

  /** The overlap test holds exactly when the subject has a whitelisted address. */
  lemma OverlapsIffSharedAddress(entries: set<IpNet>, net: IpNet)
    ensures Overlaps(entries, net) <==> exists a :: net.Contains(a) && IsWhitelisted(entries, a)
  {
    hide Net.Contains, Protected, NetsOverlap;
    if Overlaps(entries, net) {
      var n :| n in Protected(entries) && NetsOverlap(n, net);
      OverlapIsExact(n, net);
      var a :| n.Contains(a) && net.Contains(a);
      assert IsWhitelisted(entries, a);
    }
    if a :| net.Contains(a) && IsWhitelisted(entries, a) {
      var n :| n in Protected(entries) && n.Contains(a);
      OverlapIsExact(n, net);
    }
  }

  /** The cover test holds exactly when one entry contains every address of the subject. */
  lemma CoversIffOneEntryContainsAll(entries: set<IpNet>, net: IpNet)
    ensures Covers(entries, net) <==> exists n :: n in Protected(entries) && Within(net, n)
  {
    hide Net.Contains, Protected, Within;
    if Covers(entries, net) {
      var n :| n in Protected(entries) && n.Contains(net.Addr()) && n.prefix <= net.prefix;
      CoverIsExact(n, net);
    }
    if n :| n in Protected(entries) && Within(net, n) {
      CoverIsExact(n, net);
    }
  }

  // ----- histories ------------------------------------------------------------

  datatype Change = Add(net: IpNet) | Remove(net: IpNet)

  function After(history: seq<Change>): (entries: set<IpNet>) {
    if history == [] then {}
    else
      var before := After(history[..|history| - 1]);
      match history[|history| - 1]
      case Add(net) => before + {net}
      case Remove(net) => before - {net}
  }

  /** No history of changes unprotects an immutable range: every subject that shares an
      address with one is refused, by the overlap test and address by address. */
  lemma ImmutableStaysProtected(history: seq<Change>, n: IpNet, net: IpNet, a: Address)
    requires n in IMMUTABLE_PROTECTED
    ensures n.Contains(a) ==> IsWhitelisted(After(history), a)
    ensures n.Contains(a) && net.Contains(a) ==> Overlaps(After(history), net)
  {
    hide Net.Contains, After;
    assert n in Protected(After(history));
    if n.Contains(a) && net.Contains(a) {
      OverlapsIffSharedAddress(After(history), net);
    }
  }

  // ----- the immutable ranges, address by address ----------------------------------------

  /** The leading bits of `v`, without the lower ones that number `size`, are `q`. */
  predicate Leads(v: nat, size: nat, q: nat)
    requires size > 0
  {
    v / size == q
  }

  /** By the first octet, the first twelve bits, the first two and three octets, and four bits. */
  predicate ProtectedV4(v: nat) {
    || Leads(v, 0x1000000, 127) || Leads(v, 0x1000000, 10) || Leads(v, 0x1000000, 0)
    || Leads(v, 0x100000, 172 * 16 + 1)
    || Leads(v, 0x10000, 192 * 256 + 168) || Leads(v, 0x10000, 169 * 256 + 254)
    || Leads(v, 0x100, (192 * 256 + 0) * 256 + 2)
    || Leads(v, 0x100, (198 * 256 + 51) * 256 + 100)
    || Leads(v, 0x100, (203 * 256 + 0) * 256 + 113)
    || Leads(v, 0x10000000, 14)
  }

  /** Unspecified and loopback; by the first ten, eight and seven bits. */
  predicate ProtectedV6(v: nat) {
    || v == 0 || v == 1
    || Leads(v, 0x40_0000_0000_0000_0000_0000_0000_0000, 0x3fa)
    || Leads(v, 0x100_0000_0000_0000_0000_0000_0000_0000, 0xff)
    || Leads(v, 0x200_0000_0000_0000_0000_0000_0000_0000, 0x7e)
  }

  /** With no entry configured, an address is whitelisted exactly if it is loopback, private,
      link-local, for documentation, unspecified, multicast or unique-local. */
  lemma ImmutableIs(a: Address)
    ensures IsWhitelisted({}, a) <==> if a.family.V4? then ProtectedV4(a.value) else ProtectedV6(a.value)
  {
    ImmutableBlocks(a);
    OneOfThem(a);
  }

  predicate Held(i: nat, a: Address)
    requires i < |IMMUTABLE_PROTECTED|
  {
    IMMUTABLE_PROTECTED[i].Contains(a)
  }

  lemma OneOfThem(a: Address)
    ensures IsWhitelisted({}, a) <==> exists i :: 0 <= i < 15 && Held(i, a)
  {
    hide Net.Contains;
    if i :| 0 <= i < 15 && Held(i, a) {
      assert IMMUTABLE_PROTECTED[i] in Protected({});
    }
    if n :| n in Protected({}) && n.Contains(a) {
      var i :| 0 <= i < 15 && IMMUTABLE_PROTECTED[i] == n;
      assert Held(i, a);
    }
  }

  lemma InBlock(n: IpNet, a: Address, size: nat, q: nat)
    requires Pow2(Bits(n.family) - n.prefix) == size && q * size <= n.addr < q * size + size
    ensures n.Contains(a) <==> a.family == n.family && Leads(a.value, size, q)
  {
    ContainsIsPrefix(n, a);
    QuotientUnique(n.addr, size, q);
  }

  lemma Sizes()
    ensures Pow2(0) == 1 && Pow2(8) == 0x100 && Pow2(16) == 0x10000 && Pow2(20) == 0x100000
    ensures Pow2(24) == 0x1000000 && Pow2(28) == 0x10000000
  {
    assert Pow2(4) == 16 && Pow2(0) == 1;
    hide Pow2;
    Pow2Twice(4, 16);
    Pow2Twice(8, 0x100);
    Pow2Sum(16, 4);
    Pow2Sum(16, 8);
    Pow2Sum(24, 4);
  }

  lemma LargeSizes()
    ensures Pow2(118) == 0x400000000000000000000000000000 && Pow2(120) == 0x1000000000000000000000000000000 && Pow2(121) == 0x2000000000000000000000000000000
  {
    assert Pow2(1) == 2 && Pow2(2) == 4 && Pow2(4) == 16;
    hide Pow2;
    Sizes();
    Pow2Twice(16, 0x10000);
    Pow2Twice(32, 0x100000000);
    Pow2Sum(64, 32);
    Pow2Sum(96, 16);
    Pow2Sum(112, 4);
    Pow2Sum(116, 2);
    Pow2Sum(116, 4);
    Pow2Sum(120, 1);
  }

  lemma WideBlocks(a: Address)
    ensures Held(0, a) <==> a.family.V4? && Leads(a.value, 0x1000000, 127)
    ensures Held(2, a) <==> a.family.V4? && Leads(a.value, 0x1000000, 10)
    ensures Held(3, a) <==> a.family.V4? && Leads(a.value, 0x100000, 172 * 16 + 1)
    ensures Held(4, a) <==> a.family.V4? && Leads(a.value, 0x10000, 192 * 256 + 168)
    ensures Held(5, a) <==> a.family.V4? && Leads(a.value, 0x10000, 169 * 256 + 254)
    ensures Held(10, a) <==> a.family.V4? && Leads(a.value, 0x1000000, 0)
    ensures Held(12, a) <==> a.family.V4? && Leads(a.value, 0x10000000, 14)
  {
    hide Net.Contains, Pow2, Leads;
    Sizes();
    LargeSizes();
    InBlock(IMMUTABLE_PROTECTED[0], a, 0x1000000, 127);
    InBlock(IMMUTABLE_PROTECTED[2], a, 0x1000000, 10);
    InBlock(IMMUTABLE_PROTECTED[3], a, 0x100000, 172 * 16 + 1);
    InBlock(IMMUTABLE_PROTECTED[4], a, 0x10000, 192 * 256 + 168);
    InBlock(IMMUTABLE_PROTECTED[5], a, 0x10000, 169 * 256 + 254);
    InBlock(IMMUTABLE_PROTECTED[10], a, 0x1000000, 0);
    InBlock(IMMUTABLE_PROTECTED[12], a, 0x10000000, 14);
  }

  lemma NarrowBlocks(a: Address)
    ensures Held(7, a) <==> a.family.V4? && Leads(a.value, 0x100, (192 * 256 + 0) * 256 + 2)
    ensures Held(8, a) <==> a.family.V4? && Leads(a.value, 0x100, (198 * 256 + 51) * 256 + 100)
    ensures Held(9, a) <==> a.family.V4? && Leads(a.value, 0x100, (203 * 256 + 0) * 256 + 113)
  {
    hide Net.Contains, Pow2, Leads;
    Sizes();
    LargeSizes();
    InBlock(IMMUTABLE_PROTECTED[7], a, 0x100, (192 * 256 + 0) * 256 + 2);
    InBlock(IMMUTABLE_PROTECTED[8], a, 0x100, (198 * 256 + 51) * 256 + 100);
    InBlock(IMMUTABLE_PROTECTED[9], a, 0x100, (203 * 256 + 0) * 256 + 113);
  }

  lemma V6Blocks(a: Address)
    ensures Held(1, a) <==> a.family.V6? && Leads(a.value, 1, 1)
    ensures Held(6, a) <==> a.family.V6? && Leads(a.value, 0x400000000000000000000000000000, 0x3fa)
    ensures Held(11, a) <==> a.family.V6? && Leads(a.value, 1, 0)
    ensures Held(13, a) <==> a.family.V6? && Leads(a.value, 0x1000000000000000000000000000000, 0xff)
    ensures Held(14, a) <==> a.family.V6? && Leads(a.value, 0x2000000000000000000000000000000, 0x7e)
  {
    hide Net.Contains, Pow2, Leads;
    Sizes();
    LargeSizes();
    InBlock(IMMUTABLE_PROTECTED[1], a, 1, 1);
    InBlock(IMMUTABLE_PROTECTED[6], a, 0x400000000000000000000000000000, 0x3fa);
    InBlock(IMMUTABLE_PROTECTED[11], a, 1, 0);
    InBlock(IMMUTABLE_PROTECTED[13], a, 0x1000000000000000000000000000000, 0xff);
    InBlock(IMMUTABLE_PROTECTED[14], a, 0x2000000000000000000000000000000, 0x7e);
  }

  lemma Itself(v: nat)
    ensures forall q: nat :: Leads(v, 1, q) <==> v == q
  {
  }

  lemma ImmutableBlocks(a: Address)
    ensures (exists i :: 0 <= i < 15 && Held(i, a)) <==>
      if a.family.V4? then ProtectedV4(a.value) else ProtectedV6(a.value)
  {
    hide Held, Leads;
    WideBlocks(a);
    NarrowBlocks(a);
    V6Blocks(a);
    Itself(a.value);
    var any := exists i :: 0 <= i < 15 && Held(i, a);
    assert any <==>
      || Held(0, a) || Held(1, a) || Held(2, a) || Held(3, a) || Held(4, a) || Held(5, a) || Held(6, a)
      || Held(7, a) || Held(8, a) || Held(9, a) || Held(10, a) || Held(11, a) || Held(12, a) || Held(13, a) || Held(14, a);
  }
}
