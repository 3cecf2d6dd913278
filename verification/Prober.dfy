/** One network probe from end to end (SystemNetworkProber.Probe in internal/monitor/probe.go):
    the local check, the expansion, the scan and the merge, and what its report means. */
module Prober {
  import opened Basics
  import opened Netip
  import opened Merge
  import opened Text
  import Config
  import Probe
  import ScanTCP

  /** What one probe meets. `locals` is absent when no interface source is set; the neighbour
      tables are read before and after the scan; `open` answers the dials, `scan` is how the scan
      ended, `order` how its map happens to be walked; `detected` is what the optional OS
      detection reports, if it can be run and read, and `ended` whether the context has ended by
      then. */
  datatype Environment = Environment(
    hasRunner: bool, hasDialer: bool, locals: Option<Option<seq<Prefix>>>,
    before: Option<seq<Neighbor>>, after: Option<seq<Neighbor>>,
    open: (nat, nat) -> bool, scan: ScanTCP.Outcome, order: seq<Addr>, at: int,
    detected: Option<map<Addr, OS>>, ended: bool)

  datatype ProbeError =
    | NoRunner | NoDialer | BadMaxHosts | NoLocalPrefixes | OffLink(prefix: Prefix)
    | NoNeighbors | TooManyHosts(prefix: Prefix) | Cancelled

  function JobOf(prefixes: seq<Prefix>, s: Config.NetworkProbes, env: Environment): ScanTCP.Job {
    ScanTCP.Job(Probe.Targets(prefixes), s.tcpPorts, s.concurrency, env.open)
  }

  /** The scan ended in a way the concurrent program can end, and the walk visits its map. */
  ghost predicate Possible(prefixes: seq<Prefix>, s: Config.NetworkProbes, env: Environment) {
    && ScanTCP.Returns(JobOf(prefixes, s, env), env.scan)
    && (env.scan.Found? ==> Arranges(env.order, env.scan.openPorts))
  }

  ghost predicate OnLink(prefixes: seq<Prefix>, locals: Option<Option<seq<Prefix>>>) {
    locals.Some? ==>
      locals.value.Some? && forall i :: 0 <= i < |prefixes| ==> Probe.CoveredBy(prefixes[i], locals.value.value)
  }

  /** Everything that a probe needs before OS detection. */
  ghost predicate Reaches(prefixes: seq<Prefix>, s: Config.NetworkProbes, env: Environment) {
    && env.hasRunner && env.hasDialer && s.maxHosts >= 1
    && OnLink(prefixes, env.locals)
    && Probe.AllFit(prefixes, s.maxHosts)
    && env.before.Some? && env.after.Some? && env.scan.Found?
  }

  // ----- OS detection -----

  /** The hosts handed to the detection: the first observed addresses with an open port. */
  function DetectionTargets(observations: seq<Observation>, maxHosts: nat): (hosts: seq<Addr>)
    ensures |hosts| <= maxHosts
  {
    if observations == [] then []
    else
      var n := |observations| - 1;
      var hosts, last := DetectionTargets(observations[..n], maxHosts), observations[n];
      if last.openPorts == [] || |hosts| == maxHosts then hosts else hosts + [last.address]
  }

  /** Exactly the first hosts where a probe succeeded, up to the limit, are handed over, in order. */
  lemma {:induction false} DetectionTargetsAreFirst(observations: seq<Observation>, maxHosts: nat)
    ensures var hosts, indices := DetectionTargets(observations, maxHosts), WithPorts(observations, |observations|);
            && Picks(indices, |observations|, HasPorts(observations))
            && |hosts| == (if |indices| < maxHosts then |indices| else maxHosts)
            && forall a :: 0 <= a < |hosts| ==>
                 indices[a] < |observations| && hosts[a] == observations[indices[a]].address
  {
    if observations != [] {
      var n := |observations| - 1;
      DetectionTargetsAreFirst(observations[..n], maxHosts);
      WithPortsPrefix(observations, n);
      WithPortsPicks(observations, n);
      WithPortsPicks(observations, n + 1);
    }
  }

  function HasPorts(observations: seq<Observation>): nat -> bool {
    (k: nat) => k < |observations| && observations[k].openPorts != []
  }

  function WithPorts(observations: seq<Observation>, n: nat): seq<nat>
    requires n <= |observations|
  {
    if n == 0 then []
    else if observations[n - 1].openPorts != [] then WithPorts(observations, n - 1) + [n - 1]
    else WithPorts(observations, n - 1)
  }

  lemma {:induction false} WithPortsPrefix(observations: seq<Observation>, n: nat)
    requires n < |observations|
    ensures WithPorts(observations[..|observations| - 1], n) == WithPorts(observations, n)
  {
    if n > 0 {
      WithPortsPrefix(observations, n - 1);
    }
  }

  lemma {:induction false} WithPortsPicks(observations: seq<Observation>, n: nat)
    requires n <= |observations|
    ensures Picks(WithPorts(observations, n), n, HasPorts(observations))
  {
    if n > 0 {
      WithPortsPicks(observations, n - 1);
      WithPortsStep(observations, n - 1, WithPorts(observations, n - 1));
    }
  }

  lemma WithPortsStep(observations: seq<Observation>, n: nat, indices: seq<nat>)
    requires n < |observations| && Picks(indices, n, HasPorts(observations))
    ensures if observations[n].openPorts != [] then Picks(indices + [n], n + 1, HasPorts(observations))
            else Picks(indices, n + 1, HasPorts(observations))
  {
    PicksStep(indices, n, HasPorts(observations));
    assert HasPorts(observations)(n) == (observations[n].openPorts != []);
  }

  /** Only hosts where a probe succeeded are handed over. */
  lemma {:induction false} DetectionTargetsAnswered(observations: seq<Observation>, maxHosts: nat, a: Addr)
    requires a in DetectionTargets(observations, maxHosts)
    ensures exists i :: 0 <= i < |observations| && observations[i].address == a && observations[i].openPorts != []
  {
    var n := |observations| - 1;
    if a in DetectionTargets(observations[..n], maxHosts) {
      DetectionTargetsAnswered(observations[..n], maxHosts, a);
      var i :| 0 <= i < n && observations[..n][i].address == a && observations[..n][i].openPorts != [];
      assert observations[i].address == a;
    } else {
      assert observations[n].address == a;
    }
  }

  predicate DetectionConfigured(o: Config.OSDetection) {
    TrimSpace(o.binary) != "" && o.timeout > 0 && o.maxHosts > 0
  }

  function WithSystem(o: Observation, detected: map<Addr, OS>): Observation {
    var a := o.address.Unmap();
    if a in detected then o.(os := Some(detected[a])) else o
  }

  function WithSystems(observations: seq<Observation>, detected: map<Addr, OS>): (r: seq<Observation>)
    ensures |r| == |observations|
    ensures forall i :: 0 <= i < |r| ==> r[i].(os := observations[i].os) == observations[i]
  {
    seq(|observations|, i requires 0 <= i < |observations| => WithSystem(observations[i], detected))
  }

  /** Adds what the detection reports; without a host to ask nothing is run and nothing fails. */
  method EnrichOS(observations: seq<Observation>, o: Config.OSDetection, detected: Option<map<Addr, OS>>)
    returns (ok: bool, r: seq<Observation>)
    ensures ok <==> TrimSpace(o.binary) != "" && o.timeout > 0 && o.maxHosts > 0
                    && (DetectionTargets(observations, o.maxHosts) == [] || detected.Some?)
    ensures r == if ok && DetectionTargets(observations, o.maxHosts) != []
                 then WithSystems(observations, detected.value) else observations
  {
    r := observations;
    if TrimSpace(o.binary) == "" { return false, r; }
    if o.timeout <= 0 { return false, r; }
    if o.maxHosts <= 0 { return false, r; }
    var addresses: seq<Addr> := [];
    for i := 0 to |observations|
      invariant addresses == DetectionTargets(observations[..i], o.maxHosts)
      invariant |addresses| < o.maxHosts
    {
      assert observations[..i + 1][..i] == observations[..i];
      if observations[i].openPorts == [] {
        continue;
      }
      addresses := addresses + [observations[i].address];
      if |addresses| == o.maxHosts {
        FullStays(observations, o.maxHosts, i + 1);
        break;
      }
    }
    assert observations[..|observations|] == observations;
    if addresses == [] { return true, r; }
    if detected.None? { return false, r; }
    for i := 0 to |observations|
      invariant |r| == |observations|
      invariant forall k :: 0 <= k < |r| ==>
                  r[k] == if k < i then WithSystem(observations[k], detected.value) else observations[k]
    {
      var a := r[i].address.Unmap();
      if a in detected.value {
        r := r[i := r[i].(os := Some(detected.value[a]))];
      }
    }
    return true, r;
  }

  lemma {:induction false} FullStays(observations: seq<Observation>, maxHosts: nat, i: nat)
    requires i <= |observations| && |DetectionTargets(observations[..i], maxHosts)| == maxHosts
    ensures DetectionTargets(observations, maxHosts) == DetectionTargets(observations[..i], maxHosts)
    decreases |observations|
  {
    if i == |observations| {
      assert observations[..i] == observations;
    } else {
      var n := |observations| - 1;
      assert observations[..n][..i] == observations[..i];
      FullStays(observations[..n], maxHosts, i);
    }
  }

  /** What becomes of the merged observations at the end of a probe. */
  function Finished(merged: seq<Observation>, s: Config.NetworkProbes, env: Environment)
    : Result<seq<Observation>, ProbeError>
  {
    var o := s.osDetection;
    if !o.enabled then Ok(merged)
    else if !DetectionConfigured(o) then if env.ended then Err(Cancelled) else Ok(merged)
    else if DetectionTargets(merged, o.maxHosts) == [] then Ok(merged)
    else if env.detected.Some? then Ok(WithSystems(merged, env.detected.value))
    else if env.ended then Err(Cancelled)
    else Ok(merged)
  }

  /** However the detection goes, a report keeps the merged observations in all other fields: an
      unavailable detection leaves the inventory as it was, and one that works only adds to it. */
  lemma DetectionKeepsInventory(merged: seq<Observation>, s: Config.NetworkProbes, env: Environment)
    ensures var r := Finished(merged, s, env);
            && (r.Ok? ==> && |r.value| == |merged|
                          && forall i :: 0 <= i < |merged| ==> r.value[i].(os := merged[i].os) == merged[i])
            && (r.Err? ==> s.osDetection.enabled && env.ended)
            && (r.Ok? && (!s.osDetection.enabled || env.detected.None?) ==> r.value == merged)
  {
  }

  /** Detection makes a probe fail exactly when it is on, the context has ended by then, and it is
      set up wrongly or has a host to ask and does not report. */
  lemma DetectionFailsIff(merged: seq<Observation>, s: Config.NetworkProbes, env: Environment)
    ensures var o := s.osDetection;
            Finished(merged, s, env).Err? <==>
            && o.enabled && env.ended
            && (TrimSpace(o.binary) == "" || o.timeout <= 0 || o.maxHosts <= 0
                || (env.detected.None? && exists k :: 0 <= k < |merged| && merged[k].openPorts != []))
  {
    if s.osDetection.maxHosts > 0 {
      AnyTargetIff(merged, s.osDetection.maxHosts);
    }
  }

  lemma AnyTargetIff(merged: seq<Observation>, maxHosts: nat)
    requires maxHosts > 0
    ensures DetectionTargets(merged, maxHosts) != [] <==> exists k :: 0 <= k < |merged| && merged[k].openPorts != []
  {
    DetectionTargetsAreFirst(merged, maxHosts);
    var indices := WithPorts(merged, |merged|);
    if indices != [] {
      assert indices[0] in indices && HasPorts(merged)(indices[0]);
    }
    if k :| 0 <= k < |merged| && merged[k].openPorts != [] {
      assert HasPorts(merged)(k);
      assert k in indices;
    }
  }

  /** A detection that is configured, has a host to ask and reports, gives exactly the reported
      systems to exactly the observed addresses it names. */
  lemma DetectionAddsSystems(merged: seq<Observation>, s: Config.NetworkProbes, env: Environment, i: nat)
    requires s.osDetection.enabled && DetectionConfigured(s.osDetection) && env.detected.Some?
    requires exists k :: 0 <= k < |merged| && merged[k].openPorts != []
    requires i < |merged|
    ensures var r, a := Finished(merged, s, env), merged[i].address.Unmap();
            && r.Ok? && |r.value| == |merged|
            && (a in env.detected.value ==> r.value[i].os == Some(env.detected.value[a]))
            && (a !in env.detected.value ==> r.value[i].os == merged[i].os)
  {
    DetectionTargetsAreFirst(merged, s.osDetection.maxHosts);
    var k :| 0 <= k < |merged| && merged[k].openPorts != [];
    assert HasPorts(merged)(k);
    assert k in WithPorts(merged, |merged|);
  }

  // ----- the probe -----

  /** A probe that has everything it needs ends with the merge of the neighbour tables and of what a
      plain loop over all targets would find, plus what OS detection adds; any other fails. */
  method ProbeNetworks(prefixes: seq<Prefix>, s: Config.NetworkProbes, env: Environment)
    returns (r: Result<seq<Observation>, ProbeError>)
    requires s.maxHosts < Probe.TWO_63
    requires Possible(prefixes, s, env)
    ensures !s.enabled ==> r == Ok([])
    ensures s.enabled && !Reaches(prefixes, s, env) ==> r.Err?
    ensures s.enabled && Reaches(prefixes, s, env) ==>
              exists merged :: IsReport(prefixes, s, env, merged) && r == Finished(merged, s, env)
  {
    if !s.enabled { return Ok([]); }
    if !env.hasRunner { return Err(NoRunner); }
    if !env.hasDialer { return Err(NoDialer); }
    if s.maxHosts < 1 { return Err(BadMaxHosts); }
    if env.locals.Some? {
      if env.locals.value.None? { return Err(NoLocalPrefixes); }
      var offLink := Probe.ValidateLocalProbePrefixes(prefixes, env.locals.value.value);
      if offLink.Some? { return Err(OffLink(offLink.value)); }
    }
    if env.before.None? { return Err(NoNeighbors); }
    var targets := Probe.ExpandProbePrefixes(prefixes, s.maxHosts);
    if targets.Err? { return Err(TooManyHosts(targets.error)); }
    Probe.ExpansionContents(prefixes, s.maxHosts);
    ScanTCP.ScanRefinesLoop(JobOf(prefixes, s, env), env.scan);
    if env.scan.Interrupted? { return Err(Cancelled); }
    if env.after.None? { return Err(NoNeighbors); }
    var merged :=
      CombineObservations(prefixes, env.before.value, env.after.value, env.scan.openPorts, env.order, env.at);
    assert IsReport(prefixes, s, env, merged);
    if !s.osDetection.enabled { return Ok(merged); }
    var ok, observations := EnrichOS(merged, s.osDetection, env.detected);
    if !ok && env.ended { return Err(Cancelled); }
    return Ok(observations);
  }

  /** The merge of the tables with the sequential scan of all targets. */
  ghost predicate IsReport(prefixes: seq<Prefix>, s: Config.NetworkProbes, env: Environment, merged: seq<Observation>) {
    var j := JobOf(prefixes, s, env);
    var found := ScanTCP.Sequential(j, |j.targets|);
    && env.before.Some? && env.after.Some? && Arranges(env.order, found)
    && IsMerge(prefixes, env.before.value + env.after.value, found, env.order, env.at, merged)
  }

  // ----- what a report means -----

  /** The prefixes validation lets through, apart from those mapped into IPv6. */
  predicate Plain(prefixes: seq<Prefix>) {
    forall i :: 0 <= i < |prefixes| ==> prefixes[i].HostBits() <= 16 && !prefixes[i].addr.Is4In6()
  }

  /** Target `i` answered on some port. */
  predicate Answers(j: ScanTCP.Job, i: nat)
    requires i < |j.targets|
  {
    exists k :: 0 <= k < |j.ports| && j.open(i, k)
  }

  lemma AnswersIff(j: ScanTCP.Job, i: nat)
    requires i < |j.targets|
    ensures Answers(j, i) <==> ScanTCP.ProbeAddress(j, i) != []
  {
    ScanTCP.ProbeAddressIsOpenPorts(j, i);
    var ports := ScanTCP.ProbeAddress(j, i);
    if ports != [] {
      assert ports[0] in ports;
    }
    if k :| 0 <= k < |j.ports| && j.open(i, k) {
      assert ScanTCP.Opens(j, i, j.ports[k]);
    }
  }

  /** Some target that answered unmaps to the address. */
  ghost predicate Reached(j: ScanTCP.Job, a: Addr) {
    exists i :: 0 <= i < |j.targets| && j.targets[i].Unmap() == a && Answers(j, i)
  }

  /** Exactly the ports whose dial is open, in ascending order; each as often as the job has it. */
  ghost predicate AllOpenPorts(j: ScanTCP.Job, i: nat, ports: seq<int>) {
    && Sorted(ports) && multiset(ports) == multiset(ScanTCP.ProbeAddress(j, i))
    && forall p :: p in ports <==> ScanTCP.Opens(j, i, p)
  }

  lemma SortedAreOpenPorts(j: ScanTCP.Job, i: nat)
    ensures AllOpenPorts(j, i, SortInts(ScanTCP.ProbeAddress(j, i)))
  {
    var ports := ScanTCP.ProbeAddress(j, i);
    SortIntsSorts(ports);
    ScanTCP.ProbeAddressIsOpenPorts(j, i);
    forall p ensures p in SortInts(ports) <==> p in ports {
      assert p in SortInts(ports) <==> p in multiset(SortInts(ports));
      assert p in ports <==> p in multiset(ports);
    }
  }

  /** All the open ports of one such target, or none. */
  ghost predicate PortsExplained(j: ScanTCP.Job, a: Addr, ports: seq<int>) {
    if Reached(j, a)
    then exists i :: 0 <= i < |j.targets| && j.targets[i].Unmap() == a && Answers(j, i)
                     && AllOpenPorts(j, i, ports)
    else ports == []
  }

  /** A report holds an address exactly when that lies in a probed prefix and either is in a
      neighbour table or is the unmapped form of a target that answered; with it come, in ascending
      order, all the open ports of one target that it is the unmapped form of, or none. */
  lemma ReportIsExact(
    prefixes: seq<Prefix>, j: ScanTCP.Job, list: seq<Neighbor>, order: seq<Addr>, at: int, r: seq<Observation>)
    requires j.targets == Probe.Targets(prefixes)
    requires Arranges(order, ScanTCP.Sequential(j, |j.targets|))
    requires IsMerge(prefixes, list, ScanTCP.Sequential(j, |j.targets|), order, at, r)
    ensures forall a :: (exists k :: 0 <= k < |r| && r[k].address == a) <==>
                        ContainsPrefix(prefixes, a) && (Mentioned(list, a) || Reached(j, a))
    ensures forall k :: 0 <= k < |r| ==> PortsExplained(j, r[k].address, r[k].openPorts)
  {
    var found := ScanTCP.Sequential(j, |j.targets|);
    Probe.FirstOccurrencesDistinct(Probe.AllHosts(Probe.Blocks(prefixes)));
    forall a
      ensures (exists k :: 0 <= k < |r| && r[k].address == a) <==>
              ContainsPrefix(prefixes, a) && (Mentioned(list, a) || Reached(j, a))
    {
      MergedIff(prefixes, list, found, order, at, r, a);
      ScanShare(j, order, a);
    }
    forall k | 0 <= k < |r| ensures PortsExplained(j, r[k].address, r[k].openPorts) {
      ScanShare(j, order, r[k].address);
      MergedPorts(prefixes, list, found, order, at, r, k);
    }
  }

  lemma MergedPorts(
    prefixes: seq<Prefix>, list: seq<Neighbor>, openPorts: map<Addr, seq<int>>, order: seq<Addr>, at: int,
    r: seq<Observation>, k: nat)
    requires IsMerge(prefixes, list, openPorts, order, at, r) && k < |r|
    ensures r[k].openPorts == SortInts(PortsOf(openPorts, order, r[k].address))
  {
  }

  /** What the scan contributes to one address. */
  lemma ScanShare(j: ScanTCP.Job, order: seq<Addr>, a: Addr)
    requires Distinct(j.targets) && Arranges(order, ScanTCP.Sequential(j, |j.targets|))
    ensures Scanned(order, a) <==> Reached(j, a)
    ensures PortsExplained(j, a, SortInts(PortsOf(ScanTCP.Sequential(j, |j.targets|), order, a)))
  {
    var found := ScanTCP.Sequential(j, |j.targets|);
    ScannedIff(found, order, a);
    if Scanned(order, a) {
      var k :| k in order && k.Unmap() == a && PortsOf(found, order, a) == found[k];
      FoundAt(j, k);
      var i :| 0 <= i < |j.targets| && j.targets[i] == k && Answers(j, i);
      assert Reached(j, a);
      SortedAreOpenPorts(j, i);
    } else if i :| 0 <= i < |j.targets| && j.targets[i].Unmap() == a && Answers(j, i) {
      FoundAt(j, j.targets[i]);
    }
  }

  /** For plain prefixes a target is its own unmapped form, so with a target come its own ports. */
  lemma PlainReportIsExact(
    prefixes: seq<Prefix>, maxHosts: int, j: ScanTCP.Job, list: seq<Neighbor>, order: seq<Addr>, at: int,
    r: seq<Observation>)
    requires 1 <= maxHosts < Probe.TWO_63 && Probe.AllFit(prefixes, maxHosts) && Plain(prefixes)
    requires j.targets == Probe.Targets(prefixes)
    requires Arranges(order, ScanTCP.Sequential(j, |j.targets|))
    requires IsMerge(prefixes, list, ScanTCP.Sequential(j, |j.targets|), order, at, r)
    ensures forall k, i :: 0 <= k < |r| && 0 <= i < |j.targets| && j.targets[i] == r[k].address ==>
                             AllOpenPorts(j, i, r[k].openPorts)
    ensures forall k :: 0 <= k < |r| && r[k].address !in j.targets ==> r[k].openPorts == []
  {
    forall k | 0 <= k < |r|
      ensures forall i :: 0 <= i < |j.targets| && j.targets[i] == r[k].address ==>
                            AllOpenPorts(j, i, r[k].openPorts)
      ensures r[k].address !in j.targets ==> r[k].openPorts == []
    {
      EntryIsExact(prefixes, maxHosts, j, order, r[k].address);
      forall i | 0 <= i < |j.targets| && j.targets[i] == r[k].address ensures AllOpenPorts(j, i, r[k].openPorts) {
        SortedAreOpenPorts(j, i);
      }
    }
  }

  /** The scan's share of one address. */
  lemma EntryIsExact(prefixes: seq<Prefix>, maxHosts: int, j: ScanTCP.Job, order: seq<Addr>, a: Addr)
    requires 1 <= maxHosts < Probe.TWO_63 && Probe.AllFit(prefixes, maxHosts) && Plain(prefixes)
    requires j.targets == Probe.Targets(prefixes)
    requires Arranges(order, ScanTCP.Sequential(j, |j.targets|))
    ensures Scanned(order, a) <==> exists i :: 0 <= i < |j.targets| && j.targets[i] == a && Answers(j, i)
    ensures a in j.targets ==> ContainsPrefix(prefixes, a)
    ensures var ports := PortsOf(ScanTCP.Sequential(j, |j.targets|), order, a);
            && (forall i :: 0 <= i < |j.targets| && j.targets[i] == a ==> ports == ScanTCP.ProbeAddress(j, i))
            && (a !in j.targets ==> ports == [])
  {
    var found := ScanTCP.Sequential(j, |j.targets|);
    Probe.ExpansionContents(prefixes, maxHosts);
    forall k | k in found ensures k in j.targets && k.Unmap() == k {
      FoundIsTarget(j, k);
      TargetIsPlain(prefixes, maxHosts, k);
    }
    PlainKeys(found, order, a);
    if a in j.targets {
      TargetIsPlain(prefixes, maxHosts, a);
    }
    FoundAt(j, a);
  }

  lemma PlainKeys(found: map<Addr, seq<int>>, order: seq<Addr>, a: Addr)
    requires Arranges(order, found) && forall k :: k in found ==> k.Unmap() == k
    ensures Scanned(order, a) <==> a in found
    ensures PortsOf(found, order, a) == if a in found then found[a] else []
  {
    ScannedIff(found, order, a);
  }

  lemma FoundAt(j: ScanTCP.Job, a: Addr)
    requires Distinct(j.targets)
    ensures var found := ScanTCP.Sequential(j, |j.targets|);
            && (a in found <==> exists i :: 0 <= i < |j.targets| && j.targets[i] == a && Answers(j, i))
            && forall i :: 0 <= i < |j.targets| && j.targets[i] == a ==>
                 (if a in found then found[a] else []) == ScanTCP.ProbeAddress(j, i)
  {
    if a in ScanTCP.Sequential(j, |j.targets|) {
      FoundIsTarget(j, a);
    }
    forall i | 0 <= i < |j.targets| && j.targets[i] == a
      ensures a in ScanTCP.Sequential(j, |j.targets|) <==> Answers(j, i)
      ensures Answers(j, i) ==> ScanTCP.Sequential(j, |j.targets|)[a] == ScanTCP.ProbeAddress(j, i)
      ensures !Answers(j, i) ==> ScanTCP.ProbeAddress(j, i) == []
    {
      AnswersIff(j, i);
      ScanTCP.SequentialLookup(j, |j.targets|, i);
    }
  }

  lemma FoundIsTarget(j: ScanTCP.Job, a: Addr)
    requires Distinct(j.targets) && a in ScanTCP.Sequential(j, |j.targets|)
    ensures a in j.targets
  {
    if j.targets != [] {
      ScanTCP.SequentialLookup(j, |j.targets|, 0);
    }
  }

  /** A target of plain prefixes is its own unmapped form. */
  lemma TargetIsPlain(prefixes: seq<Prefix>, maxHosts: int, a: Addr)
    requires 1 <= maxHosts < Probe.TWO_63 && Probe.AllFit(prefixes, maxHosts) && Plain(prefixes)
    requires a in Probe.Targets(prefixes)
    ensures a.Unmap() == a && ContainsPrefix(prefixes, a)
  {
    var i := Probe.TargetInPrefix(prefixes, maxHosts, a);
    SmallBlockSharesHigh(prefixes[i], a);
    ContainsPrefixAt(prefixes, i, a);
  }

  lemma {:induction false} ContainsPrefixAt(prefixes: seq<Prefix>, i: nat, a: Addr)
    requires i < |prefixes| && prefixes[i].Contains(a)
    ensures ContainsPrefix(prefixes, a)
  {
    if i > 0 {
      ContainsPrefixAt(prefixes[1..], i - 1, a);
    }
  }

  /** In an accepted configuration everything a probe reports, and everything it dials, is
      private or link-local, whatever the neighbour tables say. */
  lemma AcceptedReportsAreLocal(
    t: Config.Parser, c: Config.Config, prefixes: seq<Prefix>, list: seq<Neighbor>,
    openPorts: map<Addr, seq<int>>, order: seq<Addr>, at: int, r: seq<Observation>, k: nat)
    requires Config.Accepted(t, c) && c.networkProbes.enabled
    requires |prefixes| == |c.probeNetworks|
    requires forall i :: 0 <= i < |prefixes| ==>
               Config.NamedPrefix(t, c.networks, c.probeNetworks[i]) == Some(prefixes[i])
    requires IsMerge(prefixes, list, openPorts, order, at, r) && k < |r|
    ensures IsLocalSpace(r[k].address)
  {
    assert Belongs(prefixes, list, order, r[k].address);
    var i := ContainsPrefixWitness(prefixes, r[k].address);
    var maxHosts := c.networkProbes.maxHosts;
    assert Config.Probeable(Config.NamedPrefix(t, c.networks, c.probeNetworks[i]), maxHosts);
    PowerValues();
    if prefixes[i].HostBits() > 16 {
      Pow2Monotone(16, prefixes[i].HostBits());
    }
    SmallBlocksStayLocal(prefixes[i], r[k].address);
  }

  /** The dial of a configured port of target `i` is open. */
  predicate DialOpen(s: Config.NetworkProbes, env: Environment, i: nat, port: int) {
    exists n :: 0 <= n < |s.tcpPorts| && s.tcpPorts[n] == port && env.open(i, n)
  }

  ghost predicate Responds(prefixes: seq<Prefix>, s: Config.NetworkProbes, env: Environment, a: Addr) {
    exists i, port :: 0 <= i < |Probe.Targets(prefixes)| && Probe.Targets(prefixes)[i].Unmap() == a
                      && DialOpen(s, env, i, port)
  }

  /** What a report says, in terms of the settings, the tables and the dials alone: which addresses
      it has, where each hardware address and interface comes from, and when it was made. */
  lemma ReportFollowsSettings(
    prefixes: seq<Prefix>, s: Config.NetworkProbes, env: Environment, merged: seq<Observation>)
    requires IsReport(prefixes, s, env, merged)
    ensures forall a :: (exists k :: 0 <= k < |merged| && merged[k].address == a) <==>
                        ContainsPrefix(prefixes, a)
                        && (Mentioned(env.before.value + env.after.value, a) || Responds(prefixes, s, env, a))
    ensures forall k :: 0 <= k < |merged| ==>
              var o, list := merged[k], env.before.value + env.after.value;
              && LastIs(list, o.address, Mac(), o.mac) && LastIs(list, o.address, Interface(), o.iface)
              && o.os == None && o.observedAt == env.at
  {
    var j, list := JobOf(prefixes, s, env), env.before.value + env.after.value;
    ReportIsExact(prefixes, j, list, env.order, env.at, merged);
    forall a ensures Reached(j, a) <==> Responds(prefixes, s, env, a) {
      ReachedIffResponds(prefixes, s, env, a);
    }
    forall k | 0 <= k < |merged|
      ensures var o := merged[k];
              && LastIs(list, o.address, Mac(), o.mac) && LastIs(list, o.address, Interface(), o.iface)
              && o.os == None && o.observedAt == env.at
    {
      MergedFields(prefixes, list, ScanTCP.Sequential(j, |j.targets|), env.order, env.at, merged, k);
    }
  }

  lemma ReachedIffResponds(prefixes: seq<Prefix>, s: Config.NetworkProbes, env: Environment, a: Addr)
    ensures Reached(JobOf(prefixes, s, env), a) <==> Responds(prefixes, s, env, a)
  {
    var j := JobOf(prefixes, s, env);
    if i :| 0 <= i < |j.targets| && j.targets[i].Unmap() == a && Answers(j, i) {
      var n :| 0 <= n < |j.ports| && j.open(i, n);
      assert DialOpen(s, env, i, s.tcpPorts[n]);
    }
    if i, port :| 0 <= i < |j.targets| && j.targets[i].Unmap() == a && DialOpen(s, env, i, port) {
      var n :| 0 <= n < |s.tcpPorts| && s.tcpPorts[n] == port && env.open(i, n);
      assert Answers(j, i);
    }
  }

  /** For plain prefixes a port is reported with an address exactly when it is configured, the
      address is a target and the dial between them is open; ports come in ascending order. */
  lemma ReportedPortsAreOpen(
    prefixes: seq<Prefix>, s: Config.NetworkProbes, env: Environment, merged: seq<Observation>, k: nat, port: int)
    requires 1 <= s.maxHosts < Probe.TWO_63 && Probe.AllFit(prefixes, s.maxHosts) && Plain(prefixes)
    requires IsReport(prefixes, s, env, merged) && k < |merged|
    ensures Sorted(merged[k].openPorts)
    ensures port in merged[k].openPorts <==>
            exists i :: 0 <= i < |Probe.Targets(prefixes)| && Probe.Targets(prefixes)[i] == merged[k].address
                        && DialOpen(s, env, i, port)
  {
    var j := JobOf(prefixes, s, env);
    PlainReportIsExact(
      prefixes, s.maxHosts, j, env.before.value + env.after.value, env.order, env.at, merged);
    assert forall i :: ScanTCP.Opens(j, i, port) <==> DialOpen(s, env, i, port);
    if merged[k].address in j.targets {
      var i :| 0 <= i < |j.targets| && j.targets[i] == merged[k].address;
      Probe.FirstOccurrencesDistinct(Probe.AllHosts(Probe.Blocks(prefixes)));
      assert AllOpenPorts(j, i, merged[k].openPorts);
    }
  }

  // ----- when the order of the map cannot matter -----

  /** No two targets have the same unmapped form. */
  predicate NoTwins(targets: seq<Addr>) {
    forall i, k :: 0 <= i < k < |targets| ==> targets[i].Unmap() != targets[k].Unmap()
  }

  /** Whatever the dials answer, the report is the same for every walk over the scan's map. */
  ghost predicate AlwaysOrderFree(
    prefixes: seq<Prefix>, list: seq<Neighbor>, ports: seq<int>, concurrency: int, at: int)
  {
    forall open: (nat, nat) -> bool ::
      OrderFree(prefixes, list, Found(Probe.Targets(prefixes), ports, concurrency, open), at)
  }

  function Found(targets: seq<Addr>, ports: seq<int>, concurrency: int, open: (nat, nat) -> bool): map<Addr, seq<int>> {
    ScanTCP.Sequential(ScanTCP.Job(targets, ports, concurrency, open), |targets|)
  }

  /** The report never depends on the walk exactly when only one port is probed or no two targets
      share an unmapped form. */
  lemma AlwaysOrderFreeIff(
    prefixes: seq<Prefix>, maxHosts: int, list: seq<Neighbor>, ports: seq<int>, concurrency: int, at: int)
    requires 1 <= maxHosts < Probe.TWO_63 && Probe.AllFit(prefixes, maxHosts)
    requires ports != [] && Distinct(ports)
    ensures AlwaysOrderFree(prefixes, list, ports, concurrency, at)
            <==> |ports| == 1 || NoTwins(Probe.Targets(prefixes))
  {
    var targets := Probe.Targets(prefixes);
    Probe.ExpansionContents(prefixes, maxHosts);
    if |ports| == 1 || NoTwins(targets) {
      forall open: (nat, nat) -> bool ensures OrderFree(prefixes, list, Found(targets, ports, concurrency, open), at) {
        HarmlessScan(prefixes, ScanTCP.Job(targets, ports, concurrency, open));
        MergeIsOrderFreeIff(prefixes, list, Found(targets, ports, concurrency, open), at);
      }
    } else {
      var i, k :| 0 <= i < k < |targets| && targets[i].Unmap() == targets[k].Unmap();
      var open := OneEach(i, k);
      TwinScanClashes(prefixes, maxHosts, ScanTCP.Job(targets, ports, concurrency, open), i, k);
      MergeIsOrderFreeIff(prefixes, list, Found(targets, ports, concurrency, open), at);
    }
  }

  lemma HarmlessScan(prefixes: seq<Prefix>, j: ScanTCP.Job)
    requires Distinct(j.targets) && (|j.ports| == 1 || NoTwins(j.targets))
    ensures NoClash(prefixes, ScanTCP.Sequential(j, |j.targets|))
  {
    var found := ScanTCP.Sequential(j, |j.targets|);
    forall a, b | a in found && b in found && a.Unmap() == b.Unmap() ensures found[a] == found[b] {
      FoundAt(j, a);
      FoundAt(j, b);
      var i :| 0 <= i < |j.targets| && j.targets[i] == a && Answers(j, i);
      var k :| 0 <= k < |j.targets| && j.targets[k] == b && Answers(j, k);
      AnswersIff(j, i);
      AnswersIff(j, k);
      if |j.ports| == 1 {
        OnePort(j, i);
        OnePort(j, k);
      }
    }
  }

  lemma OnePort(j: ScanTCP.Job, i: nat)
    requires |j.ports| == 1 && ScanTCP.ProbeAddress(j, i) != []
    ensures ScanTCP.ProbeAddress(j, i) == j.ports
  {
    assert ScanTCP.OpenAmong(j, i, 0) == [];
    assert ScanTCP.OpenAmong(j, i, 1) == [j.ports[0]];
  }

  /** Target `i` answers on the first port only and target `k` on the second only. */
  function OneEach(i: nat, k: nat): (nat, nat) -> bool {
    (x, y) => (x == i && y == 0) || (x == k && y == 1)
  }

  lemma {:induction false} OnlyPort(j: ScanTCP.Job, i: nat, y: nat, n: nat)
    requires n <= |j.ports| && y < |j.ports|
    requires forall x :: 0 <= x < |j.ports| ==> (j.open(i, x) <==> x == y)
    ensures ScanTCP.OpenAmong(j, i, n) == if n <= y then [] else [j.ports[y]]
  {
    if n > 0 {
      OnlyPort(j, i, y, n - 1);
    }
  }

  lemma TwinScanClashes(prefixes: seq<Prefix>, maxHosts: int, j: ScanTCP.Job, i: nat, k: nat)
    requires 1 <= maxHosts < Probe.TWO_63 && Probe.AllFit(prefixes, maxHosts)
    requires j.targets == Probe.Targets(prefixes) && Distinct(j.targets)
    requires |j.ports| >= 2 && Distinct(j.ports) && j.open == OneEach(i, k)
    requires i < k < |j.targets| && j.targets[i].Unmap() == j.targets[k].Unmap()
    ensures !NoClash(prefixes, ScanTCP.Sequential(j, |j.targets|))
  {
    var a, b := j.targets[i], j.targets[k];
    OnlyPort(j, i, 0, |j.ports|);
    OnlyPort(j, k, 1, |j.ports|);
    ScanTCP.SequentialLookup(j, |j.targets|, i);
    ScanTCP.SequentialLookup(j, |j.targets|, k);
    TwinsInScope(prefixes, maxHosts, a, b);
    SortOne(j.ports[0]);
    SortOne(j.ports[1]);
  }

  lemma SortOne(x: int)
    ensures SortInts([x]) == [x]
  {
    assert [x][..0] == [];
    assert InsertInt([], x) == [] + [x];
  }

  /** One of two distinct addresses with the same unmapped form is that form. */
  lemma TwinsInScope(prefixes: seq<Prefix>, maxHosts: int, a: Addr, b: Addr)
    requires 1 <= maxHosts < Probe.TWO_63 && Probe.AllFit(prefixes, maxHosts)
    requires a in Probe.Targets(prefixes) && b in Probe.Targets(prefixes)
    requires a != b && a.Unmap() == b.Unmap()
    ensures ContainsPrefix(prefixes, a.Unmap())
  {
    if a.Is4In6() && b.Is4In6() {
      MappedIsInjective(a.v6, b.v6);
    }
    var plain := if a.Is4In6() then b else a;
    var i := Probe.TargetInPrefix(prefixes, maxHosts, plain);
    ContainsPrefixAt(prefixes, i, plain);
  }

  lemma MappedIsInjective(m: nat, n: nat)
    requires m / 0x1_0000_0000 == n / 0x1_0000_0000 && m % 0x1_0000_0000 == n % 0x1_0000_0000
    ensures m == n
  {
  }

  /** An accepted list of probe networks makes every report independent of the walk exactly when
      one port is probed or no two targets share an unmapped form: only an IPv4 network listed
      beside its mapped spelling can make a report depend on chance. */
  lemma AcceptedReportsAreOrderFreeIff(
    t: Config.Parser, c: Config.Config, prefixes: seq<Prefix>, list: seq<Neighbor>, at: int)
    requires Config.Accepted(t, c) && c.networkProbes.enabled
    requires |prefixes| == |c.probeNetworks|
    requires forall i :: 0 <= i < |prefixes| ==>
               Config.NamedPrefix(t, c.networks, c.probeNetworks[i]) == Some(prefixes[i])
    ensures var s := c.networkProbes;
            AlwaysOrderFree(prefixes, list, s.tcpPorts, s.concurrency, at)
            <==> |s.tcpPorts| == 1 || NoTwins(Probe.Targets(prefixes))
  {
    Config.AcceptedTargetsAreLocal(t, c, prefixes);
    AlwaysOrderFreeIff(
      prefixes, c.networkProbes.maxHosts, list, c.networkProbes.tcpPorts, c.networkProbes.concurrency, at);
  }
}
