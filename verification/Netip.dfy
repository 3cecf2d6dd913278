/** IP addresses and prefixes as numbers: an address is a family and an integer, a prefix is
    an aligned block of a power-of-two number of consecutive addresses. Zones are absent. */
module Netip {
  import opened Basics

  type U32 = n: nat | n < 0x1_0000_0000
  type U128 = n: nat | n < 0x1_0000_0000_0000_0000_0000_0000_0000_0000

  const MAPPED_HIGH: nat := 0xffff

  /** `NoAddr` is the invalid zero value, which `Next` yields after the all-ones address. */
  datatype Addr = NoAddr | V4(v4: U32) | V6(v6: U128) {
    function BitLen(): (bits: nat) {
      match this
      case NoAddr => 0
      case V4(_) => 32
      case V6(_) => 128
    }

    function Number(): nat {
      match this
      case NoAddr => 0
      case V4(n) => n
      case V6(n) => n
    }

    /** The number of addresses of the family. */
    function FamilySize(): nat {
      match this
      case NoAddr => 1
      case V4(_) => 0x1_0000_0000
      case V6(_) => 0x1_0000_0000_0000_0000_0000_0000_0000_0000
    }

    predicate Is4In6() {
      V6? && v6 / 0x1_0000_0000 == MAPPED_HIGH
    }

    function Unmap(): (a: Addr)
      ensures !a.Is4In6()
      ensures a == NoAddr <==> this == NoAddr
    {
      if Is4In6() then V4(v6 % 0x1_0000_0000) else this
    }

    function Next(): Addr {
      match this
      case NoAddr => NoAddr
      case V4(n) => if n == 0xffff_ffff then NoAddr else V4(n + 1)
      case V6(n) =>
        if n == 0xffff_ffff_ffff_ffff_ffff_ffff_ffff_ffff then NoAddr else V6(n + 1)
    }

    /** Address order: by family first, then by number. */
    predicate Less(other: Addr) {
      BitLen() < other.BitLen() || (BitLen() == other.BitLen() && Number() < other.Number())
    }
  }

  type ValidAddr = a: Addr | a != NoAddr witness V4(0)

  /** An address and a port, as the text parser and the socket tables give them. */
  datatype Endpoint = Endpoint(addr: ValidAddr, port: nat)

  lemma SameAddr(a: Addr, b: Addr)
    requires a.BitLen() == b.BitLen() && a.Number() == b.Number()
    ensures a == b
  {
  }

  /** The address `k` places after `base`, when that is still in the family. */
  function Offset(base: Addr, k: nat): Addr
    requires base != NoAddr && base.Number() + k < base.FamilySize()
  {
    if base.V4? then V4(base.v4 + k) else V6(base.v6 + k)
  }

  lemma FamilySizes()
    ensures Pow2(32) == 0x1_0000_0000
    ensures Pow2(128) == 0x1_0000_0000_0000_0000_0000_0000_0000_0000
  {
    PowerValues();
    Pow2Add(32, 32);
    Pow2Add(64, 64);
  }

  datatype RawPrefix = RawPrefix(addr: Addr, bits: nat) {
    function HostBits(): nat
      requires bits <= addr.BitLen()
    {
      addr.BitLen() - bits
    }

    /** The number of addresses the prefix covers. */
    function Size(): (size: nat)
      requires bits <= addr.BitLen()
      ensures size >= 1
    {
      Pow2(HostBits())
    }

    function Base(): (base: nat)
      requires bits <= addr.BitLen()
      ensures base <= addr.Number()
    {
      RemainderBound(addr.Number(), Size());
      addr.Number() - addr.Number() % Size()
    }

    predicate Contains(a: Addr)
      requires bits <= addr.BitLen()
    {
      && addr != NoAddr
      && a.BitLen() == addr.BitLen()
      && a.Number() / Size() == addr.Number() / Size()
    }
  }

  /** Every prefix the program builds comes from the parser or an interface, and is valid. */
  type Prefix = p: RawPrefix | p.addr != NoAddr && p.bits <= p.addr.BitLen()
    witness RawPrefix(V4(0), 0)

  function Masked(p: Prefix): (m: Prefix)
    ensures m.bits == p.bits && m.addr.BitLen() == p.addr.BitLen()
    ensures m.addr.Number() == p.Base()
  {
    RawPrefix(if p.addr.V4? then V4(p.Base()) else V6(p.Base()), p.bits)
  }

  /** The prefix that holds just one address. */
  function HostPrefix(a: Addr): (p: Prefix)
    requires a != NoAddr
  {
    RawPrefix(a, a.BitLen())
  }

  lemma BlockFits(p: Prefix)
    ensures p.Base() % p.Size() == 0
    ensures p.Base() + p.Size() <= p.addr.FamilySize()
  {
    FamilySizes();
    Pow2Add(p.bits, p.HostBits());
    AlignedBlock(p.addr.Number(), p.Size(), Pow2(p.bits));
  }

  lemma AlignedBlock(n: nat, d: nat, e: nat)
    requires d >= 1 && e >= 1 && n < e * d
    ensures n % d <= n && (n - n % d) % d == 0
    ensures n - n % d + d <= e * d
  {
    var q := n / d;
    assert n == d * q + n % d;
    assert e * d == d * e;
    QuotientUnique(d * q, d, q, 0);
    if q >= e {
      if q > e { BlockOrder(e, q, d); }
      assert false;
    }
    BlockOrder(q, e, d);
  }

  /** A prefix contains exactly the addresses of its family in `[Base, Base + Size)`. */
  lemma ContainsIsRange(p: Prefix, a: Addr)
    ensures p.Contains(a) <==>
            a.BitLen() == p.addr.BitLen() && p.Base() <= a.Number() < p.Base() + p.Size()
  {
    SameBlock(a.Number(), p.addr.Number(), p.Size());
  }

  lemma MaskedContains(p: Prefix, a: Addr)
    ensures Masked(p).Contains(a) <==> p.Contains(a)
    ensures Masked(p).Base() == p.Base()
  {
    BlockFits(p);
    ContainsIsRange(p, a);
    ContainsIsRange(Masked(p), a);
  }

  /** The whole address set of `inner` lies in the address set of `outer`. */
  ghost predicate Within(inner: Prefix, outer: Prefix) {
    forall a: Addr :: inner.Contains(a) ==> outer.Contains(a)
  }

  /** Aligned power-of-two blocks nest: sharing one address is enough. */
  lemma BlocksNest(inner: Prefix, outer: Prefix, a: Addr)
    requires outer.bits <= inner.bits
    requires inner.Contains(a) && outer.Contains(a)
    ensures Within(inner, outer)
  {
    var d, e := inner.Size(), Pow2(inner.bits - outer.bits);
    Pow2Add(inner.HostBits(), inner.bits - outer.bits);
    assert outer.HostBits() == inner.HostBits() + (inner.bits - outer.bits);
    assert outer.Size() == d * e;
    forall b: Addr | inner.Contains(b) ensures outer.Contains(b) {
      NestedBlocks(a.Number(), d, e, outer.Size());
      NestedBlocks(b.Number(), d, e, outer.Size());
    }
  }

  /** Containment of the address sets is exactly a shorter prefix containing the base address. */
  lemma WithinIsBaseAndLength(inner: Prefix, outer: Prefix)
    ensures Within(inner, outer) <==>
            && outer.addr.BitLen() == inner.addr.BitLen()
            && outer.bits <= inner.bits
            && outer.Contains(Masked(inner).addr)
  {
    var first := Masked(inner).addr;
    BlockFits(inner);
    ContainsIsRange(inner, first);
    assert inner.Contains(first);
    if Within(inner, outer) {
      assert outer.Contains(first);
      if outer.bits > inner.bits {
        Pow2Monotone(outer.HostBits(), inner.HostBits());
        var last := Offset(first, inner.Size() - 1);
        ContainsIsRange(inner, last);
        ContainsIsRange(outer, first);
        ContainsIsRange(outer, last);
        assert false;
      }
    } else if outer.bits <= inner.bits && outer.Contains(first) {
      BlocksNest(inner, outer, first);
    }
  }

  // Private and link-local space: section 3 of RFC 1918, section 3.1 of RFC 4193,
  // section 2.1 of RFC 3927 and section 2.5.6 of RFC 4291.
  const TEN: Prefix := RawPrefix(V4(0x0a00_0000), 8)
  const ONE_SEVENTY_TWO: Prefix := RawPrefix(V4(0xac10_0000), 12)
  const ONE_NINETY_TWO: Prefix := RawPrefix(V4(0xc0a8_0000), 16)
  const LINK_LOCAL_4: Prefix := RawPrefix(V4(0xa9fe_0000), 16)
  const UNIQUE_LOCAL: Prefix := RawPrefix(V6(0xfc00_0000_0000_0000_0000_0000_0000_0000), 7)
  const LINK_LOCAL_6: Prefix := RawPrefix(V6(0xfe80_0000_0000_0000_0000_0000_0000_0000), 10)

  predicate IsPrivate(a: Addr) {
    var u := a.Unmap();
    TEN.Contains(u) || ONE_SEVENTY_TWO.Contains(u) || ONE_NINETY_TWO.Contains(u) || UNIQUE_LOCAL.Contains(u)
  }

  predicate IsLinkLocalUnicast(a: Addr) {
    var u := a.Unmap();
    LINK_LOCAL_4.Contains(u) || LINK_LOCAL_6.Contains(u)
  }

  predicate IsLocalSpace(a: Addr) {
    IsPrivate(a) || IsLinkLocalUnicast(a)
  }

  function LocalBlocks(): seq<Prefix> {
    [TEN, ONE_SEVENTY_TWO, ONE_NINETY_TWO, UNIQUE_LOCAL, LINK_LOCAL_4, LINK_LOCAL_6]
  }

  /** Two addresses of one small prefix agree above the low 32 bits. */
  lemma SmallBlockSharesHigh(p: Prefix, a: Addr)
    requires p.HostBits() <= 32 && p.Contains(a)
    ensures a.Number() / 0x1_0000_0000 == p.addr.Number() / 0x1_0000_0000
    ensures Pow2(p.HostBits()) * Pow2(32 - p.HostBits()) == 0x1_0000_0000
  {
    PowerValues();
    Pow2Add(p.HostBits(), 32 - p.HostBits());
    NestedBlocks(a.Number(), p.Size(), Pow2(32 - p.HostBits()), 0x1_0000_0000);
    NestedBlocks(p.addr.Number(), p.Size(), Pow2(32 - p.HostBits()), 0x1_0000_0000);
  }

  function UnmappedPrefix(p: Prefix): (q: Prefix)
    requires p.HostBits() <= 16
    ensures q.HostBits() == p.HostBits() && q.addr == p.addr.Unmap()
  {
    RawPrefix(p.addr.Unmap(), if p.addr.Is4In6() then p.bits - 96 else p.bits)
  }

  /** The addresses of a prefix with at most 16 host bits, seen unmapped, form one prefix too. */
  lemma UnmappedBlock(p: Prefix, a: Addr)
    requires p.HostBits() <= 16 && p.Contains(a)
    ensures UnmappedPrefix(p).Contains(a.Unmap())
  {
    SmallBlockSharesHigh(p, a);
    if p.addr.Is4In6() {
      MappedQuotient(a.Number(), p.Size(), Pow2(32 - p.HostBits()));
      MappedQuotient(p.addr.Number(), p.Size(), Pow2(32 - p.HostBits()));
    }
  }

  lemma MappedQuotient(n: nat, d: nat, e: nat)
    requires d >= 1 && e >= 1 && d * e == 0x1_0000_0000 && n / 0x1_0000_0000 == MAPPED_HIGH
    ensures (n % 0x1_0000_0000) / d == n / d - e * MAPPED_HIGH
  {
    var m := n % 0x1_0000_0000;
    assert n == m + (d * e) * MAPPED_HIGH;
    assert (d * e) * MAPPED_HIGH == d * (e * MAPPED_HIGH);
    assert m == d * (m / d) + m % d;
    assert d * (m / d) + d * (e * MAPPED_HIGH) == d * (m / d + e * MAPPED_HIGH);
    QuotientUnique(n, d, m / d + e * MAPPED_HIGH, m % d);
  }

  /** With at most 16 host bits, a base address in local space puts every address there:
      no local block is smaller than 16 host bits. */
  lemma SmallBlocksStayLocal(p: Prefix, a: Addr)
    requires p.HostBits() <= 16 && IsLocalSpace(p.addr)
    requires p.Contains(a)
    ensures IsLocalSpace(a)
  {
    UnmappedBlock(p, a);
    SelfContained(UnmappedPrefix(p));
    var i := BlockOf(p.addr);
    LocalBlocksAreLarge(i);
    BlocksNest(UnmappedPrefix(p), LocalBlocks()[i], p.addr.Unmap());
    LocalSpaceIsBlocks(a, i);
  }

  lemma SelfContained(p: Prefix)
    ensures p.Contains(p.addr)
  {
  }

  lemma LocalBlocksAreLarge(i: nat)
    requires i < |LocalBlocks()|
    ensures LocalBlocks()[i].HostBits() >= 16
  {
  }

  lemma BlockOf(a: Addr) returns (i: nat)
    requires IsLocalSpace(a)
    ensures i < |LocalBlocks()| && LocalBlocks()[i].Contains(a.Unmap())
  {
    var u := a.Unmap();
    if TEN.Contains(u) { i := 0; }
    else if ONE_SEVENTY_TWO.Contains(u) { i := 1; }
    else if ONE_NINETY_TWO.Contains(u) { i := 2; }
    else if UNIQUE_LOCAL.Contains(u) { i := 3; }
    else if LINK_LOCAL_4.Contains(u) { i := 4; }
    else { i := 5; }
  }

  lemma LocalSpaceIsBlocks(a: Addr, i: nat)
    requires i < |LocalBlocks()| && LocalBlocks()[i].Contains(a.Unmap())
    ensures IsLocalSpace(a)
  {
  }

  /** One host bit more and the base address says nothing: 192.168.0.0/15 runs into 192.169. */
  lemma SeventeenHostBitsLeak()
    ensures var p: Prefix := RawPrefix(V4(0xc0a8_0000), 15);
            && p == Masked(p) && p.HostBits() == 17 && IsLocalSpace(p.addr)
            && p.Contains(V4(0xc0a9_0001)) && !IsLocalSpace(V4(0xc0a9_0001))
  {
    PowerValues();
    assert ONE_NINETY_TWO.Contains(V4(0xc0a8_0000));
    OutsideLocalSpace(0xc0a9_0001);
  }

  lemma OutsideLocalSpace(n: U32)
    requires n / 0x100_0000 != 0x0a && n / 0x10_0000 != 0xac1
    requires n / 0x1_0000 != 0xc0a8 && n / 0x1_0000 != 0xa9fe
    ensures !IsLocalSpace(V4(n))
  {
    PowerValues();
    assert TEN.Size() == 0x100_0000 && ONE_SEVENTY_TWO.Size() == 0x10_0000;
    assert ONE_NINETY_TWO.Size() == 0x1_0000 && LINK_LOCAL_4.Size() == 0x1_0000;
    assert V4(n).Unmap() == V4(n);
  }

  /** The program looks addresses up unmapped, and a prefix with its host bits clear contains
      one of those exactly when its base is not an IPv4 address mapped into IPv6. */
  lemma ObservableIffUnmapped(p: Prefix)
    requires p == Masked(p)
    ensures (exists a: Addr :: p.Contains(a.Unmap())) <==> !p.addr.Is4In6()
  {
    SelfContained(p);
    if p.addr.Is4In6() {
      if p.HostBits() > 32 {
        FamilySizes();
        Pow2Add(33, p.HostBits() - 33);
        BlockFits(p);
        EvenQuotient(p.addr.Number(), Pow2(p.HostBits() - 33), p.Size());
        assert false;
      }
      forall a: Addr ensures !p.Contains(a.Unmap()) {
        if p.Contains(a.Unmap()) {
          SmallBlockSharesHigh(p, a.Unmap());
        }
      }
    } else {
      assert p.addr.Unmap() == p.addr;
    }
  }

  lemma EvenQuotient(n: nat, e: nat, d: nat)
    requires d == 0x2_0000_0000 * e && d >= 1 && n % d == 0
    ensures n / 0x1_0000_0000 != MAPPED_HIGH
  {
    var q := n / d;
    assert n == d * q;
    assert d * q == 0x2_0000_0000 * (e * q);
    QuotientUnique(n, 0x1_0000_0000, 2 * (e * q), 0);
  }

  // ----- the same in numbers -----

  /** Unmapping takes ::ffff:0:0/96 to IPv4 and leaves every other address alone. */
  lemma UnmapInNumbers(a: Addr)
    ensures a.V6? && 0xffff_0000_0000 <= a.v6 < 0x1_0000_0000_0000 ==> a.Unmap() == V4(a.v6 - 0xffff_0000_0000)
    ensures !(a.V6? && 0xffff_0000_0000 <= a.v6 < 0x1_0000_0000_0000) ==> a.Unmap() == a
  {
  }

  /** IPv4 addresses come before IPv6 addresses, and within a family the smaller number first. */
  lemma LessInNumbers(a: Addr, b: Addr)
    ensures a.V4? && b.V4? ==> (a.Less(b) <==> a.v4 < b.v4)
    ensures a.V6? && b.V6? ==> (a.Less(b) <==> a.v6 < b.v6)
    ensures a.V4? && b.V6? ==> a.Less(b) && !b.Less(a)
  {
  }

  /** The successor is the next number of the family, and there is none after the all-ones address. */
  lemma NextInNumbers(a: Addr)
    ensures a.V4? && a.v4 < 0xffff_ffff ==> a.Next() == V4(a.v4 + 1)
    ensures a.V6? && a.v6 < 0xffff_ffff_ffff_ffff_ffff_ffff_ffff_ffff ==> a.Next() == V6(a.v6 + 1)
    ensures a == V4(0xffff_ffff) || a == V6(0xffff_ffff_ffff_ffff_ffff_ffff_ffff_ffff) ==> a.Next() == NoAddr
  {
  }

  lemma BlockInNumbers(p: Prefix, q: nat, size: nat, a: Addr)
    requires p.Size() == size && p.addr.Number() == size * q
    ensures p.Contains(a) <==>
            a.BitLen() == p.addr.BitLen() && p.addr.Number() <= a.Number() < p.addr.Number() + size
  {
    QuotientUnique(p.addr.Number(), size, q, 0);
    ContainsIsRange(p, a);
  }

  /** A prefix of full length holds its address only. */
  lemma HostPrefixContains(x: ValidAddr, a: Addr)
    ensures HostPrefix(x).Contains(a) <==> a == x
  {
    BlockInNumbers(HostPrefix(x), x.Number(), 1, a);
    if HostPrefix(x).Contains(a) {
      SameAddr(a, x);
    }
  }

  lemma LocalSizes()
    ensures Pow2(121) == 0x200_0000_0000_0000_0000_0000_0000_0000
    ensures Pow2(118) == 0x40_0000_0000_0000_0000_0000_0000_0000
  {
    FamilySizes();
    Pow2Add(121, 7);
    Pow2Add(118, 10);
    PowerValues();
    Pow2Add(8, 2);
  }

  /** Private addresses: 10/8, 172.16/12, 192.168/16 and fc00::/7. */
  lemma PrivateInNumbers(a: Addr)
    requires !a.Is4In6()
    ensures IsPrivate(a) <==>
            || (a.V4? && (0x0a00_0000 <= a.v4 < 0x0b00_0000 || 0xac10_0000 <= a.v4 < 0xac20_0000
                          || 0xc0a8_0000 <= a.v4 < 0xc0a9_0000))
            || (a.V6? && 0xfc00_0000_0000_0000_0000_0000_0000_0000 <= a.v6 < 0xfe00_0000_0000_0000_0000_0000_0000_0000)
  {
    PowerValues();
    LocalSizes();
    BlockInNumbers(TEN, 0x0a, 0x100_0000, a);
    BlockInNumbers(ONE_SEVENTY_TWO, 0xac1, 0x10_0000, a);
    BlockInNumbers(ONE_NINETY_TWO, 0xc0a8, 0x1_0000, a);
    BlockInNumbers(UNIQUE_LOCAL, 0x7e, 0x200_0000_0000_0000_0000_0000_0000_0000, a);
  }

  /** Link-local addresses: 169.254/16 and fe80::/10. */
  lemma LinkLocalInNumbers(a: Addr)
    requires !a.Is4In6()
    ensures IsLinkLocalUnicast(a) <==>
            || (a.V4? && 0xa9fe_0000 <= a.v4 < 0xa9ff_0000)
            || (a.V6? && 0xfe80_0000_0000_0000_0000_0000_0000_0000 <= a.v6 < 0xfec0_0000_0000_0000_0000_0000_0000_0000)
  {
    PowerValues();
    LocalSizes();
    BlockInNumbers(LINK_LOCAL_4, 0xa9fe, 0x1_0000, a);
    BlockInNumbers(LINK_LOCAL_6, 0x3fa, 0x40_0000_0000_0000_0000_0000_0000_0000, a);
  }

  /** A mapped address counts as the IPv4 address it stands for. */
  lemma MappedCountsAsIPv4(a: Addr)
    ensures IsPrivate(a) <==> IsPrivate(a.Unmap())
    ensures IsLinkLocalUnicast(a) <==> IsLinkLocalUnicast(a.Unmap())
  {
    assert a.Unmap().Unmap() == a.Unmap();
  }
}
