/**
 CIDR blocks over IPv4 and IPv6 addresses, with the fact everything about them rests
 on: two blocks nest or are disjoint. Addresses are numbers, and masking off host bits
 is rounding down to a multiple of the block size.
 */
module Cidr {
  import opened Arith

  datatype Family = V4 | V6

  function Bits(family: Family): (b: nat) {
    if family.V4? then 32 else 128
  }

  /** How many addresses there are. */
  function Limit(family: Family): (n: nat) {
    if family.V4? then 0x1_0000_0000 else 0x1_0000_0000_0000_0000_0000_0000_0000_0000
  }

  datatype IpAddr = IpAddr(family: Family, value: nat)

  /** An address: below 2^32 or 2^128. */
  type Address = a: IpAddr | a.value < Limit(a.family) witness IpAddr(V4, 0)

  /** A network as written: the address may have host bits set. */
  datatype Net = Net(family: Family, addr: nat, prefix: nat) {
    predicate Valid() {
      prefix <= Bits(family) && addr < Limit(family)
    }

    /** How many addresses the block holds. */
    function Size(): (s: nat)
      requires Valid()
      ensures s > 0
    {
      Pow2(Bits(family) - prefix)
    }

    /** The lowest address of the block. */
    function Network(): (a: nat)
      requires Valid()
    {
      RoundDown(addr, Size())
    }

    predicate Contains(a: Address)
      requires Valid()
    {
      family == a.family && Network() <= a.value < Network() + Size()
    }

    function Addr(): (a: Address)
      requires Valid()
    {
      IpAddr(family, addr)
    }

    /** The same block with its host bits cleared. */
    function Trunc(): (n: Net)
      requires Valid()
      ensures n.Valid()
    {
      Net(family, Network(), prefix)
    }

    predicate Canonical()
      requires Valid()
    {
      addr == Network()
    }
  }

  /** A network of the `IpNet` type: its prefix length and its address fit its family. */
  type IpNet = n: Net | n.Valid() witness Net(V4, 0, 0)

  /** Every address of `inner` is one of `outer`. */
  ghost predicate Within(inner: Net, outer: Net)
    requires inner.Valid() && outer.Valid()
  {
    forall a :: inner.Contains(a) ==> outer.Contains(a)
  }

  ghost predicate Disjoint(a: Net, b: Net)
    requires a.Valid() && b.Valid()
  {
    forall x :: !(a.Contains(x) && b.Contains(x))
  }

  // ----- arithmetic -----------------------------------------------------------

  /** Membership is agreement on the leading bits. */
  lemma ContainsIsPrefix(n: Net, a: Address)
    requires n.Valid()
    ensures n.Contains(a) <==> n.family == a.family && a.value / n.Size() == n.addr / n.Size()
  {
    if n.Contains(a) {
      QuotientUnique(a.value, n.Size(), n.addr / n.Size());
    }
    QuotientBounds(a.value, n.Size());
  }

  /** A block of full length holds its one address, and one of length zero all of its family. */
  lemma WidestAndNarrowest(n: Net, a: Address)
    requires n.Valid()
    ensures n.prefix == Bits(n.family) ==> (n.Contains(a) <==> a == n.Addr())
    ensures n.prefix == 0 ==> (n.Contains(a) <==> a.family == n.family)
  {
    ContainsIsPrefix(n, a);
    if n.prefix == Bits(n.family) {
      assert Pow2(0) == 1;
    }
    if n.prefix == 0 {
      LimitIsPow2(n.family);
      hide Pow2;
      SmallQuotient(n.addr, n.Size());
      if a.family == n.family {
        SmallQuotient(a.value, n.Size());
      }
    }
  }

  lemma SmallQuotient(x: nat, d: nat)
    requires x < d
    ensures x / d == 0
  {
    QuotientUnique(x, d, 0);
  }

  /** Agreement on longer prefixes implies agreement on shorter ones. */
  lemma ShorterPrefix(family: Family, long: nat, short: nat, x: nat, y: nat)
    requires short <= long <= Bits(family)
    requires x / Pow2(Bits(family) - long) == y / Pow2(Bits(family) - long)
    ensures x / Pow2(Bits(family) - short) == y / Pow2(Bits(family) - short)
  {
    var fine, step := Pow2(Bits(family) - long), Pow2(long - short);
    Pow2Sum(Bits(family) - long, long - short);
    DivideTwice(x, fine, step);
    DivideTwice(y, fine, step);
  }

  // ----- nest or disjoint -------------------------------------------------------

  lemma OwnAddress(n: Net)
    requires n.Valid()
    ensures n.Contains(n.Addr())
  {
    ContainsIsPrefix(n, n.Addr());
  }

  /** A block that shares an address with a wider one lies inside it. */
  lemma SharedMeansWithin(inner: Net, outer: Net, shared: Address)
    requires inner.Valid() && outer.Valid() && outer.prefix <= inner.prefix
    requires inner.Contains(shared) && outer.Contains(shared)
    ensures Within(inner, outer)
  {
    hide *;
    forall a | inner.Contains(a) ensures outer.Contains(a) {
      SharedMeansContains(inner, outer, shared, a);
    }
    WithinIntro(inner, outer);
  }

  lemma WithinIntro(inner: Net, outer: Net)
    requires inner.Valid() && outer.Valid()
    requires forall a :: inner.Contains(a) ==> outer.Contains(a)
    ensures Within(inner, outer)
  {
  }

  lemma SharedMeansContains(inner: Net, outer: Net, shared: Address, a: Address)
    requires inner.Valid() && outer.Valid() && outer.prefix <= inner.prefix
    requires inner.Contains(shared) && outer.Contains(shared) && inner.Contains(a)
    ensures outer.Contains(a)
  {
    ContainsIsPrefix(inner, shared);
    ContainsIsPrefix(outer, shared);
    ContainsIsPrefix(inner, a);
    ContainsIsPrefix(outer, a);
    ShorterPrefix(inner.family, inner.prefix, outer.prefix, shared.value, a.value);
  }

  /** The theorem: any two blocks nest or are disjoint. */
  lemma NestOrDisjoint(a: Net, b: Net)
    requires a.Valid() && b.Valid()
    ensures Within(a, b) || Within(b, a) || Disjoint(a, b)
  {
    if !Disjoint(a, b) {
      var shared :| a.Contains(shared) && b.Contains(shared);
      if a.prefix <= b.prefix {
        SharedMeansWithin(b, a, shared);
      } else {
        SharedMeansWithin(a, b, shared);
      }
    }
  }

  /** The overlap test by network addresses. */
  predicate NetsOverlap(a: Net, b: Net)
    requires a.Valid() && b.Valid()
  {
    a.Contains(b.Addr()) || b.Contains(a.Addr())
  }

  /** Testing each block's own address against the other is exact, host bits or not. */
  lemma OverlapIsExact(a: Net, b: Net)
    requires a.Valid() && b.Valid()
    ensures NetsOverlap(a, b) <==> !Disjoint(a, b)
  {
    hide Net.Contains;
    OwnAddress(a);
    OwnAddress(b);
    NestOrDisjoint(a, b);
  }

  /** One block covers another exactly when it is no longer and holds its address. */
  lemma CoverIsExact(outer: Net, inner: Net)
    requires outer.Valid() && inner.Valid()
    ensures outer.Contains(inner.Addr()) && outer.prefix <= inner.prefix <==> Within(inner, outer)
  {
    OwnAddress(inner);
    if outer.Contains(inner.Addr()) && outer.prefix <= inner.prefix {
      SharedMeansWithin(inner, outer, inner.Addr());
    }
    if Within(inner, outer) && outer.prefix > inner.prefix {
      WiderDoesNotFit(outer, inner);
    }
  }

  lemma LimitIsPow2(family: Family)
    ensures Limit(family) == Pow2(Bits(family))
  {
    assert Pow2(4) == 16;
    hide Pow2;
    Pow2Twice(4, 16);
    Pow2Twice(8, 0x100);
    Pow2Twice(16, 0x1_0000);
    Pow2Twice(32, 0x1_0000_0000);
    Pow2Twice(64, 0x1_0000_0000_0000_0000);
  }

  lemma Pow2Twice(n: nat, v: nat)
    requires Pow2(n) == v
    ensures Pow2(2 * n) == v * v
  {
    Pow2Sum(n, n);
  }

  /** A block ends where the addresses do, at the latest. */
  lemma BlockFits(n: Net)
    requires n.Valid()
    ensures n.Network() + n.Size() <= Limit(n.family)
  {
    hide Pow2;
    LimitIsPow2(n.family);
    Pow2Sum(n.prefix, Bits(n.family) - n.prefix);
    QuotientBelow(n.addr, Pow2(n.prefix), n.Size());
  }

  lemma WiderIsLarger(narrow: Net, wide: Net)
    requires narrow.Valid() && wide.Valid() && wide.prefix < narrow.prefix && narrow.family == wide.family
    ensures wide.Size() > narrow.Size()
  {
    Pow2Grows(Bits(narrow.family) - narrow.prefix + 1, Bits(wide.family) - wide.prefix);
  }

  lemma WiderDoesNotFit(narrow: Net, wide: Net)
    requires narrow.Valid() && wide.Valid() && wide.prefix < narrow.prefix && narrow.family == wide.family
    ensures !Within(wide, narrow)
  {
    WiderIsLarger(narrow, wide);
    BlockFits(wide);
    hide Net.Network, Net.Size;
    var lowest, highest := IpAddr(wide.family, wide.Network()), IpAddr(wide.family, wide.Network() + wide.Size() - 1);
    assert wide.Contains(lowest) && wide.Contains(highest);
    assert !(narrow.Contains(lowest) && narrow.Contains(highest));
  }

  /** The block of length `prefix` around an address. */
  function Around(a: Address, prefix: nat): (n: Net)
    requires prefix <= Bits(a.family)
    ensures n.Valid() && n.family == a.family && n.prefix == prefix
  {
    Net(a.family, a.value, prefix).Trunc()
  }

  lemma MultipleIsCanonical(family: Family, q: nat, prefix: nat)
    requires prefix <= Bits(family) && q * Pow2(Bits(family) - prefix) < Limit(family)
    ensures Net(family, q * Pow2(Bits(family) - prefix), prefix).Canonical()
  {
    var size := Pow2(Bits(family) - prefix);
    QuotientUnique(q * size, size, q);
  }

  /** A canonical block holds an address exactly when it is the block of its length
      around that address; so one lookup per length finds all of them. */
  lemma AroundIsTheOne(n: Net, a: Address)
    requires n.Valid() && n.prefix <= Bits(a.family)
    ensures Around(a, n.prefix).Canonical() && Around(a, n.prefix).Contains(a)
    ensures n.Canonical() ==> (n.Contains(a) <==> n == Around(a, n.prefix))
  {
    hide Net.Contains, Net.Canonical, Net.Trunc, Net.Network, Pow2;
    AroundCanonical(a, n.prefix);
    if n.Canonical() {
      CanonicalAround(n, a);
    }
  }

  lemma AroundCanonical(a: Address, prefix: nat)
    requires prefix <= Bits(a.family)
    ensures Around(a, prefix).Canonical() && Around(a, prefix).Contains(a)
  {
    hide Pow2;
    var size := Pow2(Bits(a.family) - prefix);
    QuotientBounds(a.value, size);
    MultipleIsCanonical(a.family, a.value / size, prefix);
  }

  lemma CanonicalAround(n: Net, a: Address)
    requires n.Valid() && n.prefix <= Bits(a.family) && n.Canonical()
    ensures n.Contains(a) <==> n == Around(a, n.prefix)
  {
    hide Pow2, Net.Contains;
    ContainsIsPrefix(n, a);
    AroundCanonical(a, n.prefix);
  }
}
