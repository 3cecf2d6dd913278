/** Expansion of probe prefixes into dial targets and the check against local subnets
    (internal/monitor/probe.go). */
module Probe {
  import opened Basics
  import opened Netip

  const TWO_63: int := 0x8000_0000_0000_0000
  const TWO_64: int := 0x1_0000_0000_0000_0000

  /** A Go `int` converted to `uint64`. */
  function AsUint64(n: int): nat {
    n % TWO_64
  }

  /** The `uint64` left shift of one, which loses the bit that leaves the word. */
  function ShiftOne(h: nat): nat {
    if h < 64 then Pow2(h) % TWO_64 else 0
  }

  /** The size guard of the expansion, on machine words. */
  predicate TooLarge(p: Prefix, maxHosts: int) {
    p.HostBits() >= 63 || ShiftOne(p.HostBits()) > AsUint64(maxHosts)
  }

  lemma Pow63()
    ensures Pow2(62) * 2 == TWO_63 == Pow2(63)
    ensures Pow2(64) == TWO_64
  {
    PowerValues();
    Pow2Add(32, 32);
    assert Pow2(64) == 2 * Pow2(63);
  }

  lemma ShiftExact(h: nat)
    requires h < 63
    ensures ShiftOne(h) == Pow2(h) < TWO_63
  {
    Pow63();
    if h < 62 { Pow2Monotone(h, 62); }
  }

  /** For the limits the program uses, the word guard compares the true power of two. */
  lemma GuardIsExact(p: Prefix, maxHosts: int)
    requires 0 <= maxHosts < TWO_63
    ensures TooLarge(p, maxHosts) <==> p.Size() > maxHosts
  {
    Pow63();
    if p.HostBits() < 63 {
      ShiftExact(p.HostBits());
    } else if p.HostBits() > 63 {
      Pow2Monotone(63, p.HostBits());
    }
  }

  /** `size` consecutive addresses of one family. */
  datatype RawBlock = RawBlock(first: Addr, size: nat)

  type Block = b: RawBlock |
      b.first != NoAddr && b.size >= 1 && b.first.Number() + b.size <= b.first.FamilySize()
    witness RawBlock(V4(0), 1)

  function BlockOf(p: Prefix): (b: Block)
    ensures b.first == Masked(p).addr && b.size == p.Size()
  {
    BlockFits(p);
    RawBlock(Masked(p).addr, p.Size())
  }

  /** The `k`-th address of a block. */
  function Nth(b: Block, k: nat): (a: Addr)
    requires k < b.size
    ensures a.BitLen() == b.first.BitLen() && a.Number() == b.first.Number() + k
  {
    Offset(b.first, k)
  }

  /** A network or broadcast address, which is not dialled. */
  predicate Skipped(b: Block, k: nat) {
    b.first.V4? && b.size > 2 && (k == 0 || k == b.size - 1)
  }

  /** The dialled addresses among the first `k` of a block. */
  function HostsUpTo(b: Block, k: nat): (hosts: seq<Addr>)
    requires k <= b.size
  {
    if k == 0 then []
    else HostsUpTo(b, k - 1) + (if Skipped(b, k - 1) then [] else [Nth(b, k - 1)])
  }

  function Hosts(b: Block): seq<Addr> {
    HostsUpTo(b, b.size)
  }

  function Blocks(prefixes: seq<Prefix>): (blocks: seq<Block>)
    ensures |blocks| == |prefixes|
    ensures forall i :: 0 <= i < |prefixes| ==> blocks[i] == BlockOf(prefixes[i])
  {
    seq(|prefixes|, i requires 0 <= i < |prefixes| => BlockOf(prefixes[i]))
  }

  function AllHosts(blocks: seq<Block>): seq<Addr> {
    if blocks == [] then []
    else AllHosts(blocks[..|blocks| - 1]) + Hosts(blocks[|blocks| - 1])
  }

  /** The addresses the prefixes stand for: each prefix in turn, without repetition. */
  function Targets(prefixes: seq<Prefix>): seq<Addr> {
    FirstOccurrences(AllHosts(Blocks(prefixes)))
  }

  /** The elements of `s` in order, each kept at its first occurrence only. */
  function FirstOccurrences(s: seq<Addr>): (u: seq<Addr>)
    ensures |u| <= |s|
  {
    if s == [] then []
    else
      var n := |s| - 1;
      var u := FirstOccurrences(s[..n]);
      if s[n] in u then u else u + [s[n]]
  }

  lemma {:induction false} FirstOccurrencesKeep(s: seq<Addr>, x: Addr)
    ensures x in FirstOccurrences(s) <==> x in s
  {
    if s != [] {
      var n := |s| - 1;
      FirstOccurrencesKeep(s[..n], x);
      FirstOccurrencesKeep(s[..n], s[n]);
      assert s == s[..n] + [s[n]];
    }
  }

  lemma {:induction false} FirstOccurrencesDistinct(s: seq<Addr>)
    ensures Distinct(FirstOccurrences(s))
  {
    if s != [] {
      FirstOccurrencesDistinct(s[..|s| - 1]);
    }
  }

  function NewAt(s: seq<Addr>): nat -> bool {
    (k: nat) => k < |s| && s[k] !in s[..k]
  }

  function NewIndices(s: seq<Addr>, n: nat): seq<nat>
    requires n <= |s|
  {
    if n == 0 then []
    else if s[n - 1] !in s[..n - 1] then NewIndices(s, n - 1) + [n - 1]
    else NewIndices(s, n - 1)
  }

  ghost predicate ReadsNew(s: seq<Addr>, n: nat, u: seq<Addr>, indices: seq<nat>) {
    && Picks(indices, n, NewAt(s)) && |u| == |indices|
    && forall a :: 0 <= a < |u| ==> indices[a] < |s| && u[a] == s[indices[a]]
  }

  lemma ReadsNewStep(s: seq<Addr>, n: nat, u: seq<Addr>, indices: seq<nat>)
    requires n < |s| && ReadsNew(s, n, u, indices)
    ensures if s[n] !in s[..n] then ReadsNew(s, n + 1, u + [s[n]], indices + [n]) else ReadsNew(s, n + 1, u, indices)
  {
    PicksStep(indices, n, NewAt(s));
    assert NewAt(s)(n) == (s[n] !in s[..n]);
  }

  /** Exactly the places whose address did not come before are kept, in order. */
  lemma {:induction false} FirstOccurrencesArePicked(s: seq<Addr>, n: nat)
    requires n <= |s|
    ensures ReadsNew(s, n, FirstOccurrences(s[..n]), NewIndices(s, n))
  {
    if n > 0 {
      FirstOccurrencesArePicked(s, n - 1);
      ReadsNewStep(s, n - 1, FirstOccurrences(s[..n - 1]), NewIndices(s, n - 1));
      assert s[..n] == s[..n - 1] + [s[n - 1]];
      FirstOccurrencesAppend(s[..n - 1], s[n - 1]);
      FirstOccurrencesKeep(s[..n - 1], s[n - 1]);
    }
  }

  lemma FirstOccurrencesAppend(s: seq<Addr>, x: Addr)
    ensures FirstOccurrences(s + [x]) ==
            if x in FirstOccurrences(s) then FirstOccurrences(s) else FirstOccurrences(s) + [x]
  {
    assert (s + [x])[..|s|] == s;
  }

  /** The hosts of a block are its addresses in ascending order without the IPv4 end points. */
  lemma {:induction false} HostsAreRange(b: Block, k: nat)
    requires k <= b.size
    ensures var skip := if b.first.V4? && b.size > 2 then 1 else 0;
            var count := if skip == 0 || k == 0 then k else if k < b.size then k - 1 else k - 2;
            && |HostsUpTo(b, k)| == count
            && forall i :: 0 <= i < count ==> HostsUpTo(b, k)[i] == Nth(b, i + skip)
  {
    if k > 0 {
      HostsAreRange(b, k - 1);
    }
  }

  /** An address is dialled for a prefix exactly when the prefix contains it and, in an IPv4
      prefix of more than two addresses, it is neither the first nor the last. */
  lemma HostMembership(p: Prefix, a: Addr)
    ensures a in Hosts(BlockOf(p)) <==>
            && p.Contains(a)
            && !(p.addr.V4? && p.Size() > 2
                 && (a.Number() == p.Base() || a.Number() == p.Base() + p.Size() - 1))
  {
    ContainsIsRange(p, a);
    BlockMembership(BlockOf(p), a);
  }

  lemma BlockMembership(b: Block, a: Addr)
    ensures a in Hosts(b) <==>
            && a.BitLen() == b.first.BitLen()
            && b.first.Number() <= a.Number() < b.first.Number() + b.size
            && !(b.first.V4? && b.size > 2
                 && (a.Number() == b.first.Number() || a.Number() == b.first.Number() + b.size - 1))
  {
    HostsAreRange(b, b.size);
    var skip := if b.first.V4? && b.size > 2 then 1 else 0;
    var k := a.Number() - b.first.Number();
    if a.BitLen() == b.first.BitLen() && skip <= k < b.size - skip {
      SameAddr(a, Nth(b, k));
      assert Hosts(b)[k - skip] == a;
    }
  }

  lemma {:induction false} AllHostsMembership(blocks: seq<Block>, a: Addr)
    ensures a in AllHosts(blocks) <==> exists i :: 0 <= i < |blocks| && a in Hosts(blocks[i])
  {
    if blocks != [] {
      var n := |blocks| - 1;
      AllHostsMembership(blocks[..n], a);
      assert AllHosts(blocks) == AllHosts(blocks[..n]) + Hosts(blocks[n]);
      if i :| 0 <= i < n && a in Hosts(blocks[i]) {
        assert a in Hosts(blocks[..n][i]);
      }
    }
  }

  lemma HostsLength(b: Block)
    ensures |Hosts(b)| <= b.size
  {
    HostsAreRange(b, b.size);
  }

  lemma {:induction false} AllHostsLength(blocks: seq<Block>, maxHosts: nat)
    requires forall i :: 0 <= i < |blocks| ==> blocks[i].size <= maxHosts
    ensures |AllHosts(blocks)| <= |blocks| * maxHosts
  {
    if blocks != [] {
      var n := |blocks| - 1;
      AllHostsLength(blocks[..n], maxHosts);
      HostsLength(blocks[n]);
      OneMore(n, maxHosts);
    }
  }

  /** Stepping the address cursor by `Next` walks the block and only leaves the family after
      the last address. */
  lemma NextWalks(b: Block, k: nat)
    requires k < b.size
    ensures k + 1 < b.size ==> Nth(b, k).Next() == Nth(b, k + 1)
  {
  }

  /** One turn of the inner loop. */
  lemma HostStep(before: seq<Addr>, b: Block, k: nat)
    requires k < b.size
    ensures var so := FirstOccurrences(before + HostsUpTo(b, k));
            FirstOccurrences(before + HostsUpTo(b, k + 1)) ==
            if Skipped(b, k) || Nth(b, k) in so then so else so + [Nth(b, k)]
  {
    if Skipped(b, k) {
      assert HostsUpTo(b, k + 1) == HostsUpTo(b, k);
    } else {
      assert before + HostsUpTo(b, k + 1) == before + HostsUpTo(b, k) + [Nth(b, k)];
      FirstOccurrencesAppend(before + HostsUpTo(b, k), Nth(b, k));
    }
  }

  lemma CursorStarts(b: Block, before: seq<Addr>)
    ensures b.first == Nth(b, 0) && before + HostsUpTo(b, 0) == before
  {
    SameAddr(b.first, Nth(b, 0));
  }

  /** The `seen` map keeps an address from being appended twice. */
  method AddOnce(address: Addr, known: seq<Addr>, knownSet: set<Addr>)
    returns (addresses: seq<Addr>, seen: set<Addr>)
    requires Elements(known, knownSet)
    ensures addresses == if address in known then known else known + [address]
    ensures Elements(addresses, seen)
  {
    addresses, seen := known, knownSet;
    if address !in seen {
      seen := seen + {address};
      addresses := addresses + [address];
    }
  }

  ghost predicate Elements(s: seq<Addr>, elements: set<Addr>) {
    forall a :: a in elements <==> a in s
  }

  /** The inner loop of the expansion: an address cursor that advances by `Next`. */
  method AppendHosts(b: Block, known: seq<Addr>, knownSet: set<Addr>, ghost before: seq<Addr>)
    returns (addresses: seq<Addr>, seen: set<Addr>)
    requires known == FirstOccurrences(before) && Elements(known, knownSet)
    ensures addresses == FirstOccurrences(before + Hosts(b))
    ensures Elements(addresses, seen)
  {
    addresses, seen := known, knownSet;
    var address := b.first;
    CursorStarts(b, before);
    for index := 0 to b.size
      invariant index < b.size ==> address == Nth(b, index)
      invariant addresses == FirstOccurrences(before + HostsUpTo(b, index))
      invariant Elements(addresses, seen)
    {
      NextWalks(b, index);
      HostStep(before, b, index);
      if b.first.V4? && b.size > 2 && (index == 0 || index == b.size - 1) {
        address := address.Next();
        continue;
      }
      addresses, seen := AddOnce(address, addresses, seen);
      address := address.Next();
    }
  }

  lemma CountIsSize(p: Prefix, maxHosts: int)
    requires !TooLarge(p, maxHosts)
    ensures RawBlock(Masked(p).addr, ShiftOne(p.HostBits())) == BlockOf(p)
  {
    ShiftExact(p.HostBits());
  }

  lemma AllHostsStep(blocks: seq<Block>, i: nat)
    requires i < |blocks|
    ensures AllHosts(blocks[..i + 1]) == AllHosts(blocks[..i]) + Hosts(blocks[i])
  {
    assert blocks[..i + 1][..i] == blocks[..i];
  }

  /** The addresses to dial, or the first prefix that is too large. */
  method ExpandProbePrefixes(prefixes: seq<Prefix>, maxHosts: int)
    returns (r: Result<seq<Addr>, Prefix>)
    ensures r.Ok? ==> AllFit(prefixes, maxHosts) && r.value == Targets(prefixes)
    ensures r.Err? ==> exists i ::
                && 0 <= i < |prefixes| && r.error == Masked(prefixes[i])
                && TooLarge(prefixes[i], maxHosts) && AllFit(prefixes[..i], maxHosts)
  {
    var addresses: seq<Addr>, seen: set<Addr> := [], {};
    ghost var blocks := Blocks(prefixes);
    for i := 0 to |prefixes|
      invariant AllFit(prefixes[..i], maxHosts)
      invariant addresses == FirstOccurrences(AllHosts(blocks[..i]))
      invariant Elements(addresses, seen)
    {
      var prefix := Masked(prefixes[i]);
      var hostBits := prefix.HostBits();
      if hostBits >= 63 {
        return Err(prefix);
      }
      var count := ShiftOne(hostBits);
      if count > AsUint64(maxHosts) {
        return Err(prefix);
      }
      CountIsSize(prefixes[i], maxHosts);
      addresses, seen := AppendHosts(RawBlock(prefix.addr, count), addresses, seen, AllHosts(blocks[..i]));
      AllHostsStep(blocks, i);
    }
    assert prefixes[..|prefixes|] == prefixes && blocks[..|prefixes|] == blocks;
    return Ok(addresses);
  }

  predicate AllFit(prefixes: seq<Prefix>, maxHosts: int) {
    forall i :: 0 <= i < |prefixes| ==> !TooLarge(prefixes[i], maxHosts)
  }

  /** What a successful expansion holds: exactly the dialled addresses of the prefixes, no
      repetition, no invalid address, and at most `maxHosts` for each prefix. */
  lemma ExpansionContents(prefixes: seq<Prefix>, maxHosts: int)
    requires 1 <= maxHosts < TWO_63 && AllFit(prefixes, maxHosts)
    ensures forall a :: a in Targets(prefixes) <==>
            exists i :: 0 <= i < |prefixes| && a in Hosts(BlockOf(prefixes[i]))
    ensures NoAddr !in Targets(prefixes) && Distinct(Targets(prefixes))
    ensures |Targets(prefixes)| <= |prefixes| * maxHosts
  {
    var blocks := Blocks(prefixes);
    FirstOccurrencesDistinct(AllHosts(blocks));
    forall a ensures a in Targets(prefixes) <==>
                     exists i :: 0 <= i < |prefixes| && a in Hosts(BlockOf(prefixes[i]))
    {
      FirstOccurrencesKeep(AllHosts(blocks), a);
      AllHostsMembership(blocks, a);
      if i :| 0 <= i < |prefixes| && a in Hosts(BlockOf(prefixes[i])) {
        assert a in Hosts(blocks[i]);
      }
    }
    forall i | 0 <= i < |prefixes|
      ensures blocks[i].size <= maxHosts && NoAddr !in Hosts(BlockOf(prefixes[i]))
    {
      GuardIsExact(prefixes[i], maxHosts);
      BlockMembership(blocks[i], NoAddr);
    }
    AllHostsLength(blocks, maxHosts);
  }

  /** Every target lies in one of the prefixes. */
  lemma TargetInPrefix(prefixes: seq<Prefix>, maxHosts: int, a: Addr) returns (i: nat)
    requires 1 <= maxHosts < TWO_63 && AllFit(prefixes, maxHosts)
    requires a in Targets(prefixes)
    ensures i < |prefixes| && prefixes[i].Contains(a)
  {
    ExpansionContents(prefixes, maxHosts);
    i :| 0 <= i < |prefixes| && a in Hosts(BlockOf(prefixes[i]));
    HostMembership(prefixes[i], a);
  }

  /** The first probe prefix that no local subnet covers, if there is one. */
  method ValidateLocalProbePrefixes(probePrefixes: seq<Prefix>, localPrefixes: seq<Prefix>)
    returns (offLink: Option<Prefix>)
    ensures offLink.None? <==>
            forall i :: 0 <= i < |probePrefixes| ==> CoveredBy(probePrefixes[i], localPrefixes)
    ensures offLink.Some? ==> exists i ::
                && 0 <= i < |probePrefixes| && offLink.value == Masked(probePrefixes[i])
                && !CoveredBy(probePrefixes[i], localPrefixes)
                && forall j :: 0 <= j < i ==> CoveredBy(probePrefixes[j], localPrefixes)
  {
    for i := 0 to |probePrefixes|
      invariant forall j :: 0 <= j < i ==> CoveredBy(probePrefixes[j], localPrefixes)
    {
      var probePrefix := Masked(probePrefixes[i]);
      var local := false;
      for k := 0 to |localPrefixes|
        invariant !local
        invariant forall j :: 0 <= j < k ==> !Within(probePrefixes[i], localPrefixes[j])
      {
        var localPrefix := Masked(localPrefixes[k]);
        WithinIsBaseAndLength(probePrefixes[i], localPrefixes[k]);
        MaskedContains(localPrefixes[k], probePrefix.addr);
        if localPrefix.addr.BitLen() != probePrefix.addr.BitLen()
           || localPrefix.bits > probePrefix.bits {
          continue;
        }
        if localPrefix.Contains(probePrefix.addr) {
          local := true;
          break;
        }
      }
      if !local {
        return Some(probePrefix);
      }
    }
    return None;
  }

  /** Some local subnet holds every address of the probe prefix. */
  ghost predicate CoveredBy(probe: Prefix, locals: seq<Prefix>) {
    exists k :: 0 <= k < |locals| && Within(probe, locals[k])
  }

  /** Past both checks, every address that will be dialled lies in a local interface subnet. */
  lemma TargetsAreOnLink(prefixes: seq<Prefix>, locals: seq<Prefix>, maxHosts: int, a: Addr)
    requires 1 <= maxHosts < TWO_63 && AllFit(prefixes, maxHosts)
    requires forall i :: 0 <= i < |prefixes| ==> CoveredBy(prefixes[i], locals)
    requires a in Targets(prefixes)
    ensures exists k :: 0 <= k < |locals| && locals[k].Contains(a)
  {
    var i := TargetInPrefix(prefixes, maxHosts, a);
    var k :| 0 <= k < |locals| && Within(prefixes[i], locals[k]);
    assert locals[k].Contains(a);
  }
}
