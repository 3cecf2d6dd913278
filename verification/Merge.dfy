/** The merge of neighbour tables and scan results into observations (combineObservations in
    internal/monitor/probe.go). */
module Merge {
  import opened Basics
  import opened Netip

  datatype Neighbor = Neighbor(address: Addr, mac: string, iface: string, openPorts: seq<int>)

  /** The operating system that the optional detection names. */
  datatype OS = OS(
    name: string, accuracy: int, vendor: string, family: string, generation: string, cpes: seq<string>)

  datatype Observation = Observation(
    address: Addr, mac: string, iface: string, openPorts: seq<int>, os: Option<OS>, observedAt: int)

  const NO_NEIGHBOR: Neighbor := Neighbor(NoAddr, "", "", [])

  predicate ContainsPrefix(prefixes: seq<Prefix>, a: Addr) {
    prefixes != [] && (prefixes[0].Contains(a) || ContainsPrefix(prefixes[1..], a))
  }

  // ----- sorting, as the library sorts -----

  predicate Sorted(s: seq<int>) {
    forall i, j :: 0 <= i < j < |s| ==> s[i] <= s[j]
  }

  function InsertInt(s: seq<int>, x: int): seq<int> {
    if s == [] || s[|s| - 1] <= x then s + [x] else InsertInt(s[..|s| - 1], x) + [s[|s| - 1]]
  }

  function SortInts(s: seq<int>): seq<int> {
    if s == [] then [] else InsertInt(SortInts(s[..|s| - 1]), s[|s| - 1])
  }

  lemma {:induction false} InsertIntSorts(s: seq<int>, x: int)
    requires Sorted(s)
    ensures Sorted(InsertInt(s, x))
    ensures forall y :: y in InsertInt(s, x) <==> y in s || y == x
  {
    if s != [] {
      var n := |s| - 1;
      assert s == s[..n] + [s[n]];
      if s[n] > x {
        InsertIntSorts(s[..n], x);
        var front := InsertInt(s[..n], x);
        forall i | 0 <= i < |front| ensures front[i] <= s[n] {
          assert front[i] in front;
        }
      }
    }
  }

  lemma {:induction false} InsertIntAdds(s: seq<int>, x: int)
    ensures multiset(InsertInt(s, x)) == multiset(s) + multiset{x}
  {
    if s != [] && s[|s| - 1] > x {
      InsertIntAdds(s[..|s| - 1], x);
      assert s == s[..|s| - 1] + [s[|s| - 1]];
    }
  }

  lemma {:induction false} SortIntsSorts(s: seq<int>)
    ensures Sorted(SortInts(s)) && multiset(SortInts(s)) == multiset(s)
  {
    if s != [] {
      SortIntsSorts(s[..|s| - 1]);
      InsertIntSorts(SortInts(s[..|s| - 1]), s[|s| - 1]);
      InsertIntAdds(SortInts(s[..|s| - 1]), s[|s| - 1]);
      assert s == s[..|s| - 1] + [s[|s| - 1]];
    }
  }

  predicate Ascending(s: seq<Addr>) {
    forall i, j :: 0 <= i < j < |s| ==> s[i].Less(s[j])
  }

  function InsertAddr(s: seq<Addr>, x: Addr): seq<Addr> {
    if s == [] || s[|s| - 1].Less(x) then s + [x] else InsertAddr(s[..|s| - 1], x) + [s[|s| - 1]]
  }

  lemma LessTotal(a: Addr, b: Addr)
    ensures a.Less(b) || b.Less(a) || a == b
    ensures !(a.Less(b) && b.Less(a)) && !a.Less(a)
  {
    if a.BitLen() == b.BitLen() && a.Number() == b.Number() {
      SameAddr(a, b);
    }
  }

  lemma {:induction false} InsertAddrSorts(s: seq<Addr>, x: Addr)
    requires Ascending(s) && x !in s
    ensures Ascending(InsertAddr(s, x))
    ensures forall y :: y in InsertAddr(s, x) <==> y in s || y == x
  {
    if s != [] {
      var n := |s| - 1;
      assert s == s[..n] + [s[n]];
      LessTotal(s[n], x);
      if !s[n].Less(x) {
        InsertAddrSorts(s[..n], x);
        var front := InsertAddr(s[..n], x);
        forall i | 0 <= i < |front| ensures front[i].Less(s[n]) {
          assert front[i] in front;
        }
      }
    }
  }

  /** An ascending sequence is determined by its elements. */
  lemma {:induction false} AscendingUnique(s: seq<Addr>, t: seq<Addr>)
    requires Ascending(s) && Ascending(t)
    requires forall a :: a in s <==> a in t
    ensures s == t
  {
    if t != [] {
      assert t[0] in t;
    }
    if s != [] {
      assert s[0] in t && t != [];
      assert t[0] in s;
      var i :| 0 <= i < |t| && t[i] == s[0];
      var k :| 0 <= k < |s| && s[k] == t[0];
      LessTotal(s[0], t[0]);
      assert s[0] == t[0];
      forall a ensures a in s[1..] <==> a in t[1..] {
        LessTotal(s[0], s[0]);
        if a in s[1..] {
          var j :| 0 < j < |s| && s[j] == a;
          assert a in t && a != t[0];
        }
        if a in t[1..] {
          var j :| 0 < j < |t| && t[j] == a;
          assert a in s && a != s[0];
        }
      }
      AscendingUnique(s[1..], t[1..]);
    }
  }

  // ----- what each address should carry -----

  predicate Mentioned(list: seq<Neighbor>, a: Addr) {
    list != [] && (list[|list| - 1].address.Unmap() == a || Mentioned(list[..|list| - 1], a))
  }

  /** The last non-empty hardware address that the tables give for an address. */
  function LastMac(list: seq<Neighbor>, a: Addr): string {
    if list == [] then ""
    else
      var n := list[|list| - 1];
      if n.address.Unmap() == a && n.mac != "" then n.mac else LastMac(list[..|list| - 1], a)
  }

  function LastInterface(list: seq<Neighbor>, a: Addr): string {
    if list == [] then ""
    else
      var n := list[|list| - 1];
      if n.address.Unmap() == a && n.iface != "" then n.iface else LastInterface(list[..|list| - 1], a)
  }

  function Mac(): Neighbor -> string {
    (n: Neighbor) => n.mac
  }

  function Interface(): Neighbor -> string {
    (n: Neighbor) => n.iface
  }

  ghost predicate LastIs(list: seq<Neighbor>, a: Addr, field: Neighbor -> string, value: string) {
    if value == "" then forall i :: 0 <= i < |list| && list[i].address.Unmap() == a ==> field(list[i]) == ""
    else exists i :: 0 <= i < |list| && list[i].address.Unmap() == a && field(list[i]) == value
                     && NoneAfter(list, a, field, i)
  }

  ghost predicate NoneAfter(list: seq<Neighbor>, a: Addr, field: Neighbor -> string, i: nat) {
    forall j :: i < j < |list| && list[j].address.Unmap() == a ==> field(list[j]) == ""
  }

  lemma LastIsStep(list: seq<Neighbor>, n: Neighbor, a: Addr, field: Neighbor -> string, value: string)
    requires LastIs(list, a, field, value)
    ensures LastIs(list + [n], a, field, if n.address.Unmap() == a && field(n) != "" then field(n) else value)
  {
    var more := list + [n];
    assert more[|list|] == n && NoneAfter(more, a, field, |list|);
    if value != "" {
      var i :| 0 <= i < |list| && list[i].address.Unmap() == a && field(list[i]) == value
               && NoneAfter(list, a, field, i);
      assert more[i] == list[i];
      assert !(n.address.Unmap() == a && field(n) != "") ==> NoneAfter(more, a, field, i);
    }
  }

  /** Each is the value of the last entry for the address that has one. */
  lemma {:induction false} LastValues(list: seq<Neighbor>, a: Addr)
    ensures LastIs(list, a, Mac(), LastMac(list, a))
    ensures LastIs(list, a, Interface(), LastInterface(list, a))
  {
    if list != [] {
      var n := |list| - 1;
      assert list == list[..n] + [list[n]];
      LastValues(list[..n], a);
      LastIsStep(list[..n], list[n], a, Mac(), LastMac(list[..n], a));
      LastIsStep(list[..n], list[n], a, Interface(), LastInterface(list[..n], a));
    }
  }

  /** The scan's keys in the order in which the map was walked. */
  predicate Scanned(order: seq<Addr>, a: Addr) {
    order != [] && (order[|order| - 1].Unmap() == a || Scanned(order[..|order| - 1], a))
  }

  function PortsOf(openPorts: map<Addr, seq<int>>, order: seq<Addr>, a: Addr): seq<int> {
    if order == [] then []
    else
      var k := order[|order| - 1];
      if k.Unmap() == a then (if k in openPorts then openPorts[k] else [])
      else PortsOf(openPorts, order[..|order| - 1], a)
  }

  ghost predicate Arranges(order: seq<Addr>, openPorts: map<Addr, seq<int>>) {
    && (forall a :: a in order <==> a in openPorts)
    && Distinct(order)
  }

  ghost predicate Belongs(prefixes: seq<Prefix>, list: seq<Neighbor>, order: seq<Addr>, a: Addr) {
    ContainsPrefix(prefixes, a) && (Mentioned(list, a) || Scanned(order, a))
  }

  function Observed(list: seq<Neighbor>, openPorts: map<Addr, seq<int>>, order: seq<Addr>, at: int, a: Addr)
    : Observation
  {
    Observation(a, LastMac(list, a), LastInterface(list, a), SortInts(PortsOf(openPorts, order, a)), None, at)
  }

  /** The merged observations: strictly ascending addresses, exactly those that belong, each with
      what the tables and the scan say of it. */
  ghost predicate IsMerge(
    prefixes: seq<Prefix>, list: seq<Neighbor>, openPorts: map<Addr, seq<int>>, order: seq<Addr>, at: int,
    r: seq<Observation>)
  {
    && (forall i, j :: 0 <= i < j < |r| ==> r[i].address.Less(r[j].address))
    && (forall i :: 0 <= i < |r| ==> Belongs(prefixes, list, order, r[i].address))
    && (forall a :: Belongs(prefixes, list, order, a) ==> exists i :: 0 <= i < |r| && r[i].address == a)
    && (forall i :: 0 <= i < |r| ==> r[i] == Observed(list, openPorts, order, at, r[i].address))
  }

  lemma MergedIff(
    prefixes: seq<Prefix>, list: seq<Neighbor>, openPorts: map<Addr, seq<int>>, order: seq<Addr>, at: int,
    r: seq<Observation>, a: Addr)
    requires IsMerge(prefixes, list, openPorts, order, at, r)
    ensures (exists k :: 0 <= k < |r| && r[k].address == a) <==> Belongs(prefixes, list, order, a)
  {
  }

  /** Where the fields of an observation come from. */
  lemma MergedFields(
    prefixes: seq<Prefix>, list: seq<Neighbor>, openPorts: map<Addr, seq<int>>, order: seq<Addr>, at: int,
    r: seq<Observation>, k: nat)
    requires IsMerge(prefixes, list, openPorts, order, at, r) && k < |r|
    ensures LastIs(list, r[k].address, Mac(), r[k].mac) && LastIs(list, r[k].address, Interface(), r[k].iface)
    ensures r[k].os == None && r[k].observedAt == at
  {
    LastValues(list, r[k].address);
  }

  // ----- the program -----

  ghost predicate TableHolds(prefixes: seq<Prefix>, list: seq<Neighbor>, m: map<Addr, Neighbor>) {
    && (forall a :: a in m <==> ContainsPrefix(prefixes, a) && Mentioned(list, a))
    && (forall a :: a in m ==> m[a] == Neighbor(a, LastMac(list, a), LastInterface(list, a), []))
  }

  ghost predicate ScanHolds(
    prefixes: seq<Prefix>, list: seq<Neighbor>, openPorts: map<Addr, seq<int>>, order: seq<Addr>,
    m: map<Addr, Neighbor>)
  {
    && (forall a :: a in m <==> Belongs(prefixes, list, order, a))
    && (forall a :: a in m ==>
          m[a] == Neighbor(a, LastMac(list, a), LastInterface(list, a), PortsOf(openPorts, order, a)))
  }

  /** Notes one neighbour. */
  function Noted(m: map<Addr, Neighbor>, n: Neighbor): map<Addr, Neighbor> {
    var address := n.address.Unmap();
    var current := if address in m then m[address] else NO_NEIGHBOR;
    m[address := Neighbor(
        if current.address == NoAddr then address else current.address,
        if n.mac != "" then n.mac else current.mac,
        if n.iface != "" then n.iface else current.iface,
        current.openPorts)]
  }

  lemma NotedStep(prefixes: seq<Prefix>, list: seq<Neighbor>, n: Neighbor, m: map<Addr, Neighbor>)
    requires TableHolds(prefixes, list, m)
    ensures TableHolds(prefixes, list + [n], if ContainsPrefix(prefixes, n.address.Unmap()) then Noted(m, n) else m)
  {
    assert (list + [n])[..|list|] == list;
    if !Mentioned(list, n.address.Unmap()) {
      Unmentioned(list, n.address.Unmap());
    }
  }

  lemma {:induction false} Unmentioned(list: seq<Neighbor>, a: Addr)
    requires !Mentioned(list, a)
    ensures LastMac(list, a) == "" && LastInterface(list, a) == ""
  {
    if list != [] {
      Unmentioned(list[..|list| - 1], a);
    }
  }

  method NoteNeighbors(prefixes: seq<Prefix>, list: seq<Neighbor>) returns (m: map<Addr, Neighbor>)
    ensures TableHolds(prefixes, list, m)
  {
    m := map[];
    for i := 0 to |list|
      invariant TableHolds(prefixes, list[..i], m)
    {
      NotedStep(prefixes, list[..i], list[i], m);
      assert list[..i + 1] == list[..i] + [list[i]];
      if !ContainsPrefix(prefixes, list[i].address.Unmap()) {
        continue;
      }
      m := Noted(m, list[i]);
    }
    assert list[..|list|] == list;
  }

  method AddOpenPorts(
    prefixes: seq<Prefix>, ghost list: seq<Neighbor>, openPorts: map<Addr, seq<int>>, order: seq<Addr>,
    table: map<Addr, Neighbor>) returns (m: map<Addr, Neighbor>)
    requires TableHolds(prefixes, list, table) && Arranges(order, openPorts)
    ensures ScanHolds(prefixes, list, openPorts, order, m)
  {
    m := table;
    for i := 0 to |order|
      invariant ScanHolds(prefixes, list, openPorts, order[..i], m)
    {
      var address := order[i].Unmap();
      assert order[..i + 1][..i] == order[..i];
      if !ContainsPrefix(prefixes, address) {
        continue;
      }
      if address !in m { Unmentioned(list, address); }
      var current := if address in m then m[address] else NO_NEIGHBOR;
      m := m[address := Neighbor(address, current.mac, current.iface, openPorts[order[i]])];
    }
    assert order[..|order|] == order;
  }

  /** `order` is the order in which the map of open ports happens to be walked. */
  method CombineObservations(
    prefixes: seq<Prefix>, before: seq<Neighbor>, after: seq<Neighbor>,
    openPorts: map<Addr, seq<int>>, order: seq<Addr>, at: int) returns (observations: seq<Observation>)
    requires Arranges(order, openPorts)
    ensures IsMerge(prefixes, before + after, openPorts, order, at, observations)
  {
    var list := before + after;
    var table := NoteNeighbors(prefixes, list);
    var neighbors := AddOpenPorts(prefixes, list, openPorts, order, table);
    var addresses := SortedKeys(neighbors.Keys);
    observations := [];
    for i := 0 to |addresses|
      invariant |observations| == i
      invariant forall k :: 0 <= k < i ==>
                  observations[k] == Observed(list, openPorts, order, at, addresses[k])
    {
      assert addresses[i] in neighbors;
      var n := neighbors[addresses[i]];
      observations := observations +
        [Observation(addresses[i], n.mac, n.iface, SortInts(n.openPorts), None, at)];
    }
    forall a | Belongs(prefixes, list, order, a)
      ensures exists i :: 0 <= i < |observations| && observations[i].address == a
    {
      assert a in neighbors;
      var i :| 0 <= i < |addresses| && addresses[i] == a;
      assert observations[i].address == a;
    }
  }

  /** Collects the keys in an arbitrary order and sorts them. */
  method SortedKeys(keys: set<Addr>) returns (addresses: seq<Addr>)
    ensures Ascending(addresses) && forall a :: a in addresses <==> a in keys
  {
    addresses := [];
    var rest := keys;
    while rest != {}
      invariant rest <= keys && Ascending(addresses)
      invariant forall a :: a in addresses <==> a in keys && a !in rest
    {
      var a :| a in rest;
      InsertAddrSorts(addresses, a);
      addresses := InsertAddr(addresses, a);
      rest := rest - {a};
    }
  }

  // ----- determinism -----

  /** The merge is determined by its inputs and the walking order. */
  lemma MergeUnique(
    prefixes: seq<Prefix>, list: seq<Neighbor>, openPorts: map<Addr, seq<int>>, order: seq<Addr>, at: int,
    r: seq<Observation>, q: seq<Observation>)
    requires IsMerge(prefixes, list, openPorts, order, at, r)
    requires IsMerge(prefixes, list, openPorts, order, at, q)
    ensures r == q
  {
    var s, t := Addresses(r), Addresses(q);
    forall a ensures a in s <==> a in t {
      if a in s { var i :| 0 <= i < |s| && s[i] == a; assert Belongs(prefixes, list, order, r[i].address); }
      if a in t { var i :| 0 <= i < |t| && t[i] == a; assert Belongs(prefixes, list, order, q[i].address); }
    }
    AscendingUnique(s, t);
    forall i | 0 <= i < |r| ensures r[i] == q[i] {
      assert s[i] == t[i];
    }
  }

  function Addresses(r: seq<Observation>): (s: seq<Addr>)
    ensures |s| == |r| && forall i :: 0 <= i < |r| ==> s[i] == r[i].address
  {
    seq(|r|, i requires 0 <= i < |r| => r[i].address)
  }

  lemma {:induction false} MentionedIff(list: seq<Neighbor>, a: Addr)
    ensures Mentioned(list, a) <==> exists i :: 0 <= i < |list| && list[i].address.Unmap() == a
  {
    if list != [] {
      var n := |list| - 1;
      MentionedIff(list[..n], a);
      if i :| 0 <= i < |list| && list[i].address.Unmap() == a {
        assert i < n ==> list[..n][i].address.Unmap() == a;
      }
    }
  }

  /** The ports kept for an address are those of some key that unmaps to it. */
  lemma {:induction false} ScannedIff(openPorts: map<Addr, seq<int>>, order: seq<Addr>, a: Addr)
    requires forall k :: k in order ==> k in openPorts
    ensures Scanned(order, a) <==> exists k :: k in order && k.Unmap() == a
    ensures Scanned(order, a) ==>
              exists k :: k in order && k.Unmap() == a && PortsOf(openPorts, order, a) == openPorts[k]
    ensures !Scanned(order, a) ==> PortsOf(openPorts, order, a) == []
  {
    if order != [] {
      var n := |order| - 1;
      assert order == order[..n] + [order[n]];
      assert order[n] in order;
      ScannedIff(openPorts, order[..n], a);
    }
  }

  /** Keys that unmap to one address in scope carry the same ports, up to their order. */
  ghost predicate NoClash(prefixes: seq<Prefix>, openPorts: map<Addr, seq<int>>) {
    forall k, j :: k in openPorts && j in openPorts && k.Unmap() == j.Unmap() && ContainsPrefix(prefixes, k.Unmap()) ==>
                     SortInts(openPorts[k]) == SortInts(openPorts[j])
  }

  /** The result does not depend on the order in which the map is walked. */
  ghost predicate OrderFree(prefixes: seq<Prefix>, list: seq<Neighbor>, openPorts: map<Addr, seq<int>>, at: int) {
    forall o, p, r, q ::
      (Arranges(o, openPorts) && Arranges(p, openPorts)
       && IsMerge(prefixes, list, openPorts, o, at, r) && IsMerge(prefixes, list, openPorts, p, at, q))
      ==> r == q
  }

  /** Exactly when no two keys clash, every walk over the map gives the same result. */
  lemma MergeIsOrderFreeIff(prefixes: seq<Prefix>, list: seq<Neighbor>, openPorts: map<Addr, seq<int>>, at: int)
    ensures OrderFree(prefixes, list, openPorts, at) <==> NoClash(prefixes, openPorts)
  {
    if NoClash(prefixes, openPorts) {
      forall o, p, r, q |
        Arranges(o, openPorts) && Arranges(p, openPorts)
        && IsMerge(prefixes, list, openPorts, o, at, r) && IsMerge(prefixes, list, openPorts, p, at, q)
        ensures r == q
      {
        MergeTransfers(prefixes, list, openPorts, o, p, at, r);
        MergeUnique(prefixes, list, openPorts, p, at, r, q);
      }
    }
    if OrderFree(prefixes, list, openPorts, at) {
      forall k, j |
        k in openPorts && j in openPorts && k.Unmap() == j.Unmap() && ContainsPrefix(prefixes, k.Unmap())
        ensures SortInts(openPorts[k]) == SortInts(openPorts[j])
      {
        var o, r := WalkEndingWith(prefixes, list, openPorts, at, k);
        var p, q := WalkEndingWith(prefixes, list, openPorts, at, j);
        assert r == q;
      }
    }
  }

  lemma SameEntry(
    prefixes: seq<Prefix>, list: seq<Neighbor>, openPorts: map<Addr, seq<int>>, o: seq<Addr>, p: seq<Addr>, a: Addr)
    requires NoClash(prefixes, openPorts) && Arranges(o, openPorts) && Arranges(p, openPorts)
    ensures Belongs(prefixes, list, o, a) <==> Belongs(prefixes, list, p, a)
    ensures Belongs(prefixes, list, o, a) ==>
              SortInts(PortsOf(openPorts, o, a)) == SortInts(PortsOf(openPorts, p, a))
  {
    ScannedIff(openPorts, o, a);
    ScannedIff(openPorts, p, a);
  }

  lemma MergeTransfers(
    prefixes: seq<Prefix>, list: seq<Neighbor>, openPorts: map<Addr, seq<int>>, o: seq<Addr>, p: seq<Addr>, at: int,
    r: seq<Observation>)
    requires NoClash(prefixes, openPorts) && Arranges(o, openPorts) && Arranges(p, openPorts)
    requires IsMerge(prefixes, list, openPorts, o, at, r)
    ensures IsMerge(prefixes, list, openPorts, p, at, r)
  {
    forall a
      ensures Belongs(prefixes, list, o, a) <==> Belongs(prefixes, list, p, a)
      ensures Belongs(prefixes, list, o, a) ==>
                Observed(list, openPorts, o, at, a) == Observed(list, openPorts, p, at, a)
    {
      SameEntry(prefixes, list, openPorts, o, p, a);
    }
  }

  /** A walk that visits `k` last, and the merge along it, which keeps the ports of `k`. */
  lemma WalkEndingWith(
    prefixes: seq<Prefix>, list: seq<Neighbor>, openPorts: map<Addr, seq<int>>, at: int, k: Addr)
    returns (order: seq<Addr>, r: seq<Observation>)
    requires k in openPorts && ContainsPrefix(prefixes, k.Unmap())
    ensures Arranges(order, openPorts) && IsMerge(prefixes, list, openPorts, order, at, r)
    ensures exists i :: 0 <= i < |r| && r[i].address == k.Unmap() && r[i].openPorts == SortInts(openPorts[k])
  {
    var front := Arrangement(openPorts.Keys - {k});
    order := front + [k];
    r := MergeExists(prefixes, list, openPorts, order, at);
    assert PortsOf(openPorts, order, k.Unmap()) == openPorts[k];
    assert Belongs(prefixes, list, order, k.Unmap());
  }

  lemma Arrangement(keys: set<Addr>) returns (order: seq<Addr>)
    ensures forall a :: a in order <==> a in keys
    ensures Distinct(order)
  {
    order := [];
    if keys != {} {
      var a :| a in keys;
      var front := Arrangement(keys - {a});
      order := front + [a];
    }
  }

  lemma Ascends(keys: set<Addr>) returns (s: seq<Addr>)
    ensures Ascending(s) && forall a :: a in s <==> a in keys
  {
    s := [];
    if keys != {} {
      var a :| a in keys;
      var front := Ascends(keys - {a});
      InsertAddrSorts(front, a);
      s := InsertAddr(front, a);
    }
  }

  lemma MergeExists(
    prefixes: seq<Prefix>, list: seq<Neighbor>, openPorts: map<Addr, seq<int>>, order: seq<Addr>, at: int)
    returns (r: seq<Observation>)
    ensures IsMerge(prefixes, list, openPorts, order, at, r)
  {
    var known := (set n | n in list :: n.address.Unmap()) + (set k | k in order :: k.Unmap());
    var addresses := Ascends(set a | a in known && Belongs(prefixes, list, order, a));
    r := seq(|addresses|, i requires 0 <= i < |addresses| => Observed(list, openPorts, order, at, addresses[i]));
    forall i | 0 <= i < |r| ensures Belongs(prefixes, list, order, r[i].address) {
      assert addresses[i] in addresses;
    }
    forall a | Belongs(prefixes, list, order, a) ensures exists i :: 0 <= i < |r| && r[i].address == a {
      Known(list, order, a);
      assert a in known;
      assert a in addresses;
      var i :| 0 <= i < |addresses| && addresses[i] == a;
      assert r[i].address == a;
    }
  }

  lemma Known(list: seq<Neighbor>, order: seq<Addr>, a: Addr)
    requires Mentioned(list, a) || Scanned(order, a)
    ensures (exists n :: n in list && n.address.Unmap() == a) || (exists k :: k in order && k.Unmap() == a)
  {
    MentionedIff(list, a);
    ScannedIff(map k | k in order :: [], order, a);
    if i :| 0 <= i < |list| && list[i].address.Unmap() == a {
      assert list[i] in list;
    }
  }

  // ----- prefixes mapped into IPv6 -----

  /** A probe over mapped networks only reports nothing, whatever answered. */
  lemma MappedNetworksObserveNothing(
    prefixes: seq<Prefix>, list: seq<Neighbor>, openPorts: map<Addr, seq<int>>, order: seq<Addr>, at: int,
    r: seq<Observation>)
    requires forall i :: 0 <= i < |prefixes| ==> prefixes[i] == Masked(prefixes[i]) && prefixes[i].addr.Is4In6()
    requires IsMerge(prefixes, list, openPorts, order, at, r)
    ensures r == []
  {
    if r != [] {
      assert Belongs(prefixes, list, order, r[0].address);
      var a := KeptUnmapped(list, openPorts, order, r[0].address);
      var i := ContainsPrefixWitness(prefixes, r[0].address);
      ObservableIffUnmapped(prefixes[i]);
    }
  }

  lemma KeptUnmapped(list: seq<Neighbor>, openPorts: map<Addr, seq<int>>, order: seq<Addr>, a: Addr) returns (b: Addr)
    requires Mentioned(list, a) || Scanned(order, a)
    ensures b.Unmap() == a
  {
    Known(list, order, a);
    if n :| n in list && n.address.Unmap() == a {
      b := n.address;
    } else {
      b :| b in order && b.Unmap() == a;
    }
  }

  lemma {:induction false} ContainsPrefixWitness(prefixes: seq<Prefix>, a: Addr) returns (i: nat)
    requires ContainsPrefix(prefixes, a)
    ensures i < |prefixes| && prefixes[i].Contains(a)
  {
    if prefixes[0].Contains(a) {
      i := 0;
    } else {
      i := ContainsPrefixWitness(prefixes[1..], a);
      i := i + 1;
    }
  }

  /** When no probed network is mapped and each has at most 16 host bits, as validation demands,
      the result of a probe does not depend on the order of the map. */
  lemma {:induction false} UnmappedProbesAreOrderFree(
    prefixes: seq<Prefix>, list: seq<Neighbor>, openPorts: map<Addr, seq<int>>, at: int)
    requires forall i :: 0 <= i < |prefixes| ==> prefixes[i].HostBits() <= 16 && !prefixes[i].addr.Is4In6()
    requires forall k :: k in openPorts ==> ContainsPrefix(prefixes, k)
    ensures OrderFree(prefixes, list, openPorts, at)
  {
    forall k | k in openPorts ensures k.Unmap() == k {
      var i := ContainsPrefixWitness(prefixes, k);
      SmallBlockSharesHigh(prefixes[i], k);
    }
    MergeIsOrderFreeIff(prefixes, list, openPorts, at);
  }
}
