/** The configuration, its validation and the recognition of networks and devices
    (internal/config/config.go). */
module Config {
  import opened Basics
  import opened Netip
  import opened Text
  import Fingerprint
  import Probe

  /** The address and prefix text parsers of the library, as arbitrary functions. */
  datatype Parser = Parser(addr: string -> Option<ValidAddr>, prefix: string -> Option<Prefix>)

  datatype Network = Network(name: string, cidr: string)

  datatype Device = Device(name: string, user: string, fingerprint: string, networks: seq<string>)

  datatype ObservationPolicy = ObservationPolicy(allow: seq<string>, terminate: seq<string>)

  datatype OSDetection = OSDetection(enabled: bool, binary: string, timeout: int, maxHosts: int)

  datatype NetworkProbes = NetworkProbes(
    enabled: bool, interval: int, timeout: int, concurrency: int, maxHosts: int,
    tcpPorts: seq<int>, osDetection: OSDetection)

  datatype Config = Config(
    pollInterval: int, sshPorts: seq<int>, networks: seq<Network>, probeNetworks: seq<string>,
    networkProbes: NetworkProbes, devices: seq<Device>, mode: string, policy: ObservationPolicy,
    enforce: bool, logLevel: string)

  /** Nanoseconds in the ten minutes that bound OS detection. */
  const TEN_MINUTES: int := 600_000_000_000

  const MAX_HOSTS_CAP: int := 65536

  /** A CIDR, or a single address as a prefix of full length. */
  function ParsePrefix(t: Parser, value: string): Option<Prefix> {
    var v := TrimSpace(value);
    if v == "" then None
    else
      match t.prefix(v)
      case Some(p) => Some(Masked(p))
      case None =>
        match t.addr(v)
        case Some(a) => Some(HostPrefix(a))
        case None => None
  }

  /** Either way the host bits are clear. */
  lemma ParsedIsMasked(t: Parser, value: string)
    ensures var p := ParsePrefix(t, value); p.Some? ==> p.value == Masked(p.value)
  {
    var v := TrimSpace(value);
    if v != "" {
      match t.prefix(v) {
        case Some(p) =>
          MaskedContains(p, p.addr);
          SameAddr(Masked(Masked(p)).addr, Masked(p).addr);
        case None =>
          if t.addr(v).Some? {
            SameAddr(Masked(HostPrefix(t.addr(v).value)).addr, t.addr(v).value);
          }
      }
    }
  }

  /** A trimmed text stands for the addresses of the CIDR it reads as, or else for the one address it
      reads as, and is refused when it reads as neither. */
  lemma ParsePrefixMeans(t: Parser, value: string, a: Addr)
    ensures var p, v := ParsePrefix(t, value), TrimSpace(value);
            if v != "" && t.prefix(v).Some?
            then
              && p.Some? && p.value.bits == t.prefix(v).value.bits
              && (p.value.Contains(a) <==> t.prefix(v).value.Contains(a))
            else if v != "" && t.addr(v).Some?
            then p.Some? && (p.value.Contains(a) <==> a == t.addr(v).value)
            else p.None?
  {
    var v := TrimSpace(value);
    if v != "" {
      if t.prefix(v).Some? {
        MaskedContains(t.prefix(v).value, a);
      } else if t.addr(v).Some? {
        HostPrefixContains(t.addr(v).value, a);
      }
    }
  }

  /** The saturating host count that validation compares with the limit. */
  function PrefixHostCount(p: Prefix, limit: int): int {
    if p.HostBits() >= 63 then AddOne(limit)
    else if Probe.ShiftOne(p.HostBits()) > Probe.AsUint64(limit) then AddOne(limit)
    else Probe.ShiftOne(p.HostBits())
  }

  /** Go's `int` addition of one, which wraps. */
  function AddOne(n: int): int {
    if n == Probe.TWO_63 - 1 then -Probe.TWO_63 else n + 1
  }

  /** The saturating count exceeds its limit exactly when the true power of two does, for every
      `int` limit but the largest, where the saturated value wraps. */
  lemma HostCountExact(p: Prefix, limit: int)
    requires -Probe.TWO_63 <= limit < Probe.TWO_63
    ensures (PrefixHostCount(p, limit) > limit <==> p.Size() > limit)
            <==> !(limit == Probe.TWO_63 - 1 && p.HostBits() >= 63)
  {
    Probe.Pow63();
    if p.HostBits() < 63 {
      Probe.ShiftExact(p.HostBits());
    } else if p.HostBits() > 63 {
      Pow2Monotone(63, p.HostBits());
    }
  }

  // ----- what validation demands -----

  ghost predicate ValidPorts(ports: seq<int>) {
    (forall i :: 0 <= i < |ports| ==> 1 <= ports[i] <= 65535) && Distinct(ports)
  }

  /** A policy address as validation reads it: trimmed and unmapped. */
  function PolicyAddress(t: Parser, value: string): Option<Addr> {
    match t.addr(TrimSpace(value))
    case Some(a) => Some(a.Unmap())
    case None => None
  }

  ghost predicate ValidPolicy(t: Parser, values: seq<string>) {
    && (forall i :: 0 <= i < |values| ==> PolicyAddress(t, values[i]).Some?)
    && (forall i, j :: 0 <= i < j < |values| ==> PolicyAddress(t, values[i]) != PolicyAddress(t, values[j]))
  }

  ghost predicate ValidNetworks(t: Parser, networks: seq<Network>) {
    && (forall i :: 0 <= i < |networks| ==> ParsePrefix(t, networks[i].cidr).Some?)
    && (forall i, j :: 0 <= i < j < |networks| && networks[i].name != "" ==> networks[i].name != networks[j].name)
  }

  ghost predicate Defined(networks: seq<Network>, name: string) {
    name != "" && exists i :: 0 <= i < |networks| && networks[i].name == name
  }

  /** The CIDR of the first network of that name. */
  function NamedPrefix(t: Parser, networks: seq<Network>, name: string): Option<Prefix> {
    if networks == [] then None
    else if networks[0].name == name then ParsePrefix(t, networks[0].cidr)
    else NamedPrefix(t, networks[1..], name)
  }

  ghost predicate ValidNames(networks: seq<Network>, names: seq<string>) {
    forall i :: 0 <= i < |names| ==> TrimSpace(names[i]) != "" && Defined(networks, names[i])
  }

  /** A private or link-local base address, and no more addresses than the limit. */
  predicate Probeable(p: Option<Prefix>, maxHosts: int) {
    p.Some? && IsLocalSpace(p.value.addr) && p.value.Size() <= maxHosts
  }

  ghost predicate ValidProbePrefixes(t: Parser, c: Config) {
    && Distinct(c.probeNetworks)
    && forall i :: 0 <= i < |c.probeNetworks| ==>
         Probeable(NamedPrefix(t, c.networks, c.probeNetworks[i]), c.networkProbes.maxHosts)
  }

  ghost predicate ValidDevice(networks: seq<Network>, d: Device) {
    Fingerprint.IsFingerprint(d.fingerprint) && ValidNames(networks, d.networks)
  }

  /** The numeric limits of the probe section. */
  predicate SettingsInRange(s: NetworkProbes) {
    var o := s.osDetection;
    && s.interval > 0 && s.timeout > 0
    && 1 <= s.concurrency <= 1024
    && 1 <= s.maxHosts <= MAX_HOSTS_CAP
    && s.tcpPorts != []
    && (o.enabled ==>
          TrimSpace(o.binary) != "" && 0 < o.timeout <= TEN_MINUTES && 1 <= o.maxHosts <= s.maxHosts)
  }

  ghost predicate ProbeSectionValid(t: Parser, c: Config) {
    var s := c.networkProbes;
    && ValidNames(c.networks, c.probeNetworks)
    && (s.osDetection.enabled ==> s.enabled)
    && (s.enabled ==>
          && c.probeNetworks != [] && SettingsInRange(s) && ValidPorts(s.tcpPorts)
          && ValidProbePrefixes(t, c))
  }

  /** What an accepted configuration satisfies, whatever the order of the checks. */
  ghost predicate Accepted(t: Parser, c: Config) {
    && (c.mode == "observe" || c.mode == "enforce")
    && c.pollInterval > 0
    && c.sshPorts != [] && ValidPorts(c.sshPorts)
    && ValidPolicy(t, c.policy.allow + c.policy.terminate)
    && ValidNetworks(t, c.networks)
    && ProbeSectionValid(t, c)
    && c.devices != []
    && (forall i :: 0 <= i < |c.devices| ==> ValidDevice(c.networks, c.devices[i]))
    && ToLower(c.logLevel) in {"debug", "info", "warn", "error"}
  }

  // ----- validation as the program runs it -----

  method CheckPorts(ports: seq<int>) returns (ok: bool)
    ensures ok <==> ValidPorts(ports)
  {
    var seen: set<int> := {};
    for i := 0 to |ports|
      invariant ValidPorts(ports[..i])
      invariant forall p :: p in seen <==> p in ports[..i]
    {
      if ports[i] < 1 || ports[i] > 65535 || ports[i] in seen {
        return false;
      }
      seen := seen + {ports[i]};
      assert ports[..i + 1] == ports[..i] + [ports[i]];
    }
    assert ports[..|ports|] == ports;
    return true;
  }

  /** Both policy lists run through one map of seen addresses. */
  method CheckPolicy(t: Parser, values: seq<string>) returns (ok: bool)
    ensures ok <==> ValidPolicy(t, values)
  {
    var seen: set<Addr> := {};
    for i := 0 to |values|
      invariant ValidPolicy(t, values[..i])
      invariant forall a :: a in seen <==> exists j :: 0 <= j < i && PolicyAddress(t, values[j]) == Some(a)
    {
      var address := t.addr(TrimSpace(values[i]));
      if address.None? {
        return false;
      }
      var key := address.value.Unmap();
      if key in seen {
        return false;
      }
      seen := seen + {key};
      assert PolicyAddress(t, values[i]) == Some(key);
    }
    assert values[..|values|] == values;
    return true;
  }

  /** The map from network names to prefixes, filled in the order of the list. */
  function NameMap(t: Parser, networks: seq<Network>): map<string, Prefix> {
    if networks == [] then map[]
    else
      var before, last := NameMap(t, networks[..|networks| - 1]), networks[|networks| - 1];
      var prefix := ParsePrefix(t, last.cidr);
      if last.name == "" || prefix.None? then before else before[last.name := prefix.value]
  }

  /** On valid networks the map has exactly the non-empty names and, for each, the prefix that a
      search through the list finds first. */
  lemma {:induction false} NameMapIsFirstMatch(t: Parser, networks: seq<Network>, name: string)
    requires ValidNetworks(t, networks)
    ensures name in NameMap(t, networks) <==> Defined(networks, name)
    ensures name in NameMap(t, networks) ==>
              NamedPrefix(t, networks, name) == Some(NameMap(t, networks)[name])
  {
    if networks != [] {
      var n := |networks| - 1;
      assert networks == networks[..n] + [networks[n]];
      ValidNetworksStep(t, networks[..n], networks[n]);
      NameMapIsFirstMatch(t, networks[..n], name);
      NameMapStep(t, networks[..n], networks[n], name);
    }
  }

  ghost predicate MapAgrees(m: map<string, Prefix>, name: string, defined: bool, prefix: Option<Prefix>) {
    (name in m <==> defined) && (name in m ==> prefix == Some(m[name]))
  }

  lemma NameMapStep(t: Parser, before: seq<Network>, last: Network, name: string)
    requires ParsePrefix(t, last.cidr).Some? && !Defined(before, last.name)
    requires MapAgrees(NameMap(t, before), name, Defined(before, name), NamedPrefix(t, before, name))
    ensures var networks := before + [last];
            MapAgrees(NameMap(t, networks), name, Defined(networks, name), NamedPrefix(t, networks, name))
  {
    NameMapAppend(t, before, last);
    DefinedAppend(before, last, name);
    if name != "" {
      NamedPrefixStep(t, before, last, name);
    }
  }

  lemma NameMapAppend(t: Parser, before: seq<Network>, last: Network)
    requires ParsePrefix(t, last.cidr).Some?
    ensures NameMap(t, before + [last]) ==
            if last.name == "" then NameMap(t, before)
            else NameMap(t, before)[last.name := ParsePrefix(t, last.cidr).value]
  {
    assert (before + [last])[..|before|] == before;
  }

  lemma NamedPrefixStep(t: Parser, before: seq<Network>, last: Network, name: string)
    requires name != ""
    ensures NamedPrefix(t, before + [last], name) ==
            if Defined(before, name) then NamedPrefix(t, before, name)
            else if name == last.name then ParsePrefix(t, last.cidr) else None
  {
    NamedPrefixAppend(t, before, last, name);
  }

  lemma DefinedAppend(before: seq<Network>, last: Network, name: string)
    ensures Defined(before + [last], name) <==> Defined(before, name) || (name != "" && name == last.name)
  {
    var networks := before + [last];
    assert networks[|before|] == last;
    if Defined(before, name) {
      var j :| 0 <= j < |before| && before[j].name == name;
      assert networks[j].name == name;
    }
  }

  lemma ValidNetworksStep(t: Parser, before: seq<Network>, last: Network)
    ensures ValidNetworks(t, before + [last]) <==>
            && ValidNetworks(t, before)
            && ParsePrefix(t, last.cidr).Some?
            && !Defined(before, last.name)
  {
    var networks := before + [last];
    assert forall i :: 0 <= i < |before| ==> networks[i] == before[i];
    assert networks[|before|] == last;
  }

  lemma {:induction false} NamedPrefixAppend(t: Parser, before: seq<Network>, last: Network, name: string)
    ensures (exists j :: 0 <= j < |before| && before[j].name == name) ==>
              NamedPrefix(t, before + [last], name) == NamedPrefix(t, before, name)
    ensures !(exists j :: 0 <= j < |before| && before[j].name == name) ==>
              NamedPrefix(t, before + [last], name) ==
              if name == last.name then ParsePrefix(t, last.cidr) else None
  {
    if before == [] {
      assert before + [last] == [last];
    } else {
      var tail := before[1..];
      assert (before + [last])[1..] == tail + [last];
      NamedPrefixAppend(t, tail, last, name);
      if before[0].name != name {
        if j :| 0 <= j < |before| && before[j].name == name {
          assert tail[j - 1].name == name;
        }
        if j :| 0 <= j < |tail| && tail[j].name == name {
          assert before[j + 1].name == name;
        }
      }
    }
  }

  /** The network loop, which also fills the name map that the later checks use. */
  method CollectNetworks(t: Parser, networks: seq<Network>)
    returns (ok: bool, prefixes: map<string, Prefix>)
    ensures ok <==> ValidNetworks(t, networks)
    ensures ok ==> prefixes == NameMap(t, networks)
  {
    prefixes := map[];
    for i := 0 to |networks|
      invariant ValidNetworks(t, networks[..i])
      invariant prefixes == NameMap(t, networks[..i])
    {
      var prefix := ParsePrefix(t, networks[i].cidr);
      if prefix.None? {
        return false, prefixes;
      }
      assert networks[..i + 1] == networks[..i] + [networks[i]];
      ValidNetworksStep(t, networks[..i], networks[i]);
      if networks[i].name == "" {
        continue;
      }
      NameMapIsFirstMatch(t, networks[..i], networks[i].name);
      if networks[i].name in prefixes {
        InvalidPrefix(t, networks, i + 1);
        return false, prefixes;
      }
      prefixes := prefixes[networks[i].name := prefix.value];
    }
    assert networks[..|networks|] == networks;
    return true, prefixes;
  }

  lemma InvalidPrefix(t: Parser, networks: seq<Network>, i: nat)
    requires i <= |networks| && !ValidNetworks(t, networks[..i])
    ensures !ValidNetworks(t, networks)
  {
  }

  method CheckNames(prefixes: map<string, Prefix>, names: seq<string>) returns (ok: bool)
    ensures ok <==> forall i :: 0 <= i < |names| ==> TrimSpace(names[i]) != "" && names[i] in prefixes
  {
    for i := 0 to |names|
      invariant forall j :: 0 <= j < i ==> TrimSpace(names[j]) != "" && names[j] in prefixes
    {
      if TrimSpace(names[i]) == "" || names[i] !in prefixes {
        return false;
      }
    }
    return true;
  }

  /** The base address and the size of one probe network. */
  method CheckProbePrefix(prefix: Prefix, maxHosts: int) returns (ok: bool)
    requires 1 <= maxHosts <= MAX_HOSTS_CAP
    ensures ok <==> Probeable(Some(prefix), maxHosts)
  {
    HostCountExact(prefix, maxHosts);
    if !IsPrivate(prefix.addr) && !IsLinkLocalUnicast(prefix.addr) {
      return false;
    }
    if PrefixHostCount(prefix, maxHosts) > maxHosts {
      return false;
    }
    return true;
  }

  /** The last loop of the probe checks. */
  method CheckProbePrefixes(prefixes: map<string, Prefix>, names: seq<string>, maxHosts: int)
    returns (ok: bool)
    requires forall i :: 0 <= i < |names| ==> names[i] in prefixes
    requires 1 <= maxHosts <= MAX_HOSTS_CAP
    ensures ok <==> Distinct(names) &&
                    forall i :: 0 <= i < |names| ==> Probeable(Some(prefixes[names[i]]), maxHosts)
  {
    var seen: set<string> := {};
    for i := 0 to |names|
      invariant Distinct(names[..i])
      invariant forall name :: name in seen <==> name in names[..i]
      invariant forall j :: 0 <= j < i ==> Probeable(Some(prefixes[names[j]]), maxHosts)
    {
      if names[i] in seen {
        return false;
      }
      seen := seen + {names[i]};
      assert names[..i + 1] == names[..i] + [names[i]];
      var probeable := CheckProbePrefix(prefixes[names[i]], maxHosts);
      if !probeable {
        return false;
      }
    }
    assert names[..|names|] == names;
    return true;
  }

  /** The probe section, given the name map of the network section. */
  method ValidateProbeConfig(t: Parser, c: Config, prefixes: map<string, Prefix>)
    returns (accepted: bool)
    requires ValidNetworks(t, c.networks) && prefixes == NameMap(t, c.networks)
    ensures accepted <==> ProbeSectionValid(t, c)
  {
    var s := c.networkProbes;
    NameMapAgrees(t, c, prefixes);
    var named := CheckNames(prefixes, c.probeNetworks);
    if !named { return false; }
    if s.osDetection.enabled && !s.enabled { return false; }
    if !s.enabled { return true; }
    if c.probeNetworks == [] { return false; }
    if s.interval <= 0 { return false; }
    if s.timeout <= 0 { return false; }
    if s.concurrency < 1 || s.concurrency > 1024 { return false; }
    if s.maxHosts < 1 || s.maxHosts > 65536 { return false; }
    if s.tcpPorts == [] { return false; }
    if s.osDetection.enabled {
      if TrimSpace(s.osDetection.binary) == "" { return false; }
      if s.osDetection.timeout <= 0 || s.osDetection.timeout > TEN_MINUTES { return false; }
      if s.osDetection.maxHosts < 1 || s.osDetection.maxHosts > s.maxHosts { return false; }
    }
    var ports := CheckPorts(s.tcpPorts);
    if !ports { return false; }
    accepted := CheckProbePrefixes(prefixes, c.probeNetworks, s.maxHosts);
  }

  lemma NameMapAgrees(t: Parser, c: Config, prefixes: map<string, Prefix>)
    requires ValidNetworks(t, c.networks) && prefixes == NameMap(t, c.networks)
    ensures forall name :: name in prefixes <==> Defined(c.networks, name)
    ensures forall name :: name in prefixes ==> NamedPrefix(t, c.networks, name) == Some(prefixes[name])
  {
    forall name
      ensures name in prefixes <==> Defined(c.networks, name)
      ensures name in prefixes ==> NamedPrefix(t, c.networks, name) == Some(prefixes[name])
    {
      NameMapIsFirstMatch(t, c.networks, name);
    }
  }

  /** Validation passes exactly the accepted configurations. */
  method Validate(t: Parser, c: Config) returns (accepted: bool)
    ensures accepted <==> Accepted(t, c)
  {
    if c.mode != "observe" && c.mode != "enforce" { return false; }
    if c.pollInterval <= 0 { return false; }
    if c.sshPorts == [] { return false; }
    var policy := CheckPolicy(t, c.policy.allow + c.policy.terminate);
    if !policy { return false; }
    var ports := CheckPorts(c.sshPorts);
    if !ports { return false; }
    var networks, prefixes := CollectNetworks(t, c.networks);
    if !networks { return false; }
    var probes := ValidateProbeConfig(t, c, prefixes);
    if !probes { return false; }
    if c.devices == [] { return false; }
    NameMapAgrees(t, c, prefixes);
    var devices := CheckDevices(prefixes, c.devices);
    if !devices { return false; }
    return ToLower(c.logLevel) in {"debug", "info", "warn", "error"};
  }

  ghost predicate DevicePasses(prefixes: map<string, Prefix>, d: Device) {
    && Fingerprint.IsFingerprint(d.fingerprint)
    && forall k :: 0 <= k < |d.networks| ==> TrimSpace(d.networks[k]) != "" && d.networks[k] in prefixes
  }

  method CheckDevice(prefixes: map<string, Prefix>, d: Device) returns (ok: bool)
    ensures ok <==> DevicePasses(prefixes, d)
  {
    Fingerprint.AcceptedIsEncodedDigest(d.fingerprint);
    if !Fingerprint.ValidFingerprint(d.fingerprint) { return false; }
    ok := CheckNames(prefixes, d.networks);
  }

  method CheckDevices(prefixes: map<string, Prefix>, devices: seq<Device>) returns (ok: bool)
    ensures ok <==> forall i :: 0 <= i < |devices| ==> DevicePasses(prefixes, devices[i])
  {
    for i := 0 to |devices|
      invariant forall j :: 0 <= j < i ==> DevicePasses(prefixes, devices[j])
    {
      var passes := CheckDevice(prefixes, devices[i]);
      if !passes { return false; }
    }
    return true;
  }

  // ----- the probe targets of an accepted configuration -----

  /** One prefix for each probe network, in order; an unknown name makes the count fall short. */
  method ProbePrefixList(t: Parser, c: Config) returns (prefixes: Option<seq<Prefix>>)
    ensures prefixes.Some? <==> forall i :: 0 <= i < |c.probeNetworks| ==>
                NamedPrefix(t, c.networks, c.probeNetworks[i]).Some?
    ensures prefixes.Some? ==>
              && |prefixes.value| == |c.probeNetworks|
              && forall i :: 0 <= i < |c.probeNetworks| ==>
                   NamedPrefix(t, c.networks, c.probeNetworks[i]) == Some(prefixes.value[i])
  {
    var found: seq<Prefix> := [];
    ghost var missed := false;
    for i := 0 to |c.probeNetworks|
      invariant |found| <= i
      invariant missed <==> |found| < i
      invariant missed ==> exists j :: 0 <= j < i && NamedPrefix(t, c.networks, c.probeNetworks[j]).None?
      invariant !missed ==> forall j :: 0 <= j < i ==>
                  NamedPrefix(t, c.networks, c.probeNetworks[j]) == Some(found[j])
    {
      var name := c.probeNetworks[i];
      var k := 0;
      ghost var before := found;
      while k < |c.networks|
        invariant k <= |c.networks| && found == before
        invariant NamedPrefix(t, c.networks[k..], name) == NamedPrefix(t, c.networks, name)
      {
        if c.networks[k].name != name {
          k := k + 1;
          continue;
        }
        var prefix := ParsePrefix(t, c.networks[k].cidr);
        if prefix.None? {
          return None;
        }
        found := found + [prefix.value];
        break;
      }
      if found == before {
        missed := true;
      }
    }
    if |found| != |c.probeNetworks| {
      return None;
    }
    return Some(found);
  }

  /** An accepted configuration with probes on: the run-time list is the validated one, the
      expansion cannot fail, and every address it yields, not only each base address, is
      private or link-local. */
  lemma AcceptedTargetsAreLocal(t: Parser, c: Config, prefixes: seq<Prefix>)
    requires Accepted(t, c) && c.networkProbes.enabled
    requires |prefixes| == |c.probeNetworks|
    requires forall i :: 0 <= i < |prefixes| ==>
               NamedPrefix(t, c.networks, c.probeNetworks[i]) == Some(prefixes[i])
    ensures Probe.AllFit(prefixes, c.networkProbes.maxHosts)
    ensures forall a :: a in Probe.Targets(prefixes) ==> IsLocalSpace(a)
  {
    var maxHosts := c.networkProbes.maxHosts;
    forall i | 0 <= i < |prefixes|
      ensures !Probe.TooLarge(prefixes[i], maxHosts) && prefixes[i].HostBits() <= 16
      ensures IsLocalSpace(prefixes[i].addr)
    {
      assert Probeable(NamedPrefix(t, c.networks, c.probeNetworks[i]), maxHosts);
      Probe.GuardIsExact(prefixes[i], maxHosts);
      PowerValues();
      if prefixes[i].HostBits() > 16 {
        Pow2Monotone(16, prefixes[i].HostBits());
      }
    }
    forall a | a in Probe.Targets(prefixes) ensures IsLocalSpace(a) {
      var i := Probe.TargetInPrefix(prefixes, maxHosts, a);
      SmallBlocksStayLocal(prefixes[i], a);
    }
  }

  /** And the run-time list exists: every probe name has a prefix. */
  lemma AcceptedNamesResolve(t: Parser, c: Config, i: nat)
    requires Accepted(t, c) && i < |c.probeNetworks|
    ensures var p := NamedPrefix(t, c.networks, c.probeNetworks[i]);
            && p.Some? && c.probeNetworks[i] in NameMap(t, c.networks)
            && p.value == NameMap(t, c.networks)[c.probeNetworks[i]]
            && p.value == Masked(p.value)
  {
    NameMapIsFirstMatch(t, c.networks, c.probeNetworks[i]);
    NamedPrefixMasked(t, c.networks, c.probeNetworks[i]);
  }

  lemma {:induction false} NamedPrefixMasked(t: Parser, networks: seq<Network>, name: string)
    ensures var p := NamedPrefix(t, networks, name); p.Some? ==> p.value == Masked(p.value)
  {
    if networks != [] {
      ParsedIsMasked(t, networks[0].cidr);
      NamedPrefixMasked(t, networks[1..], name);
    }
  }

  // ----- recognition -----

  function MatchNetwork(t: Parser, networks: seq<Network>, address: Addr): Option<Network> {
    FirstContaining(t, networks, address.Unmap())
  }

  function FirstContaining(t: Parser, networks: seq<Network>, address: Addr): Option<Network> {
    if networks == [] then None
    else if CidrContains(t, networks[0], address) then Some(networks[0])
    else FirstContaining(t, networks[1..], address)
  }

  predicate CidrContains(t: Parser, network: Network, address: Addr) {
    var prefix := ParsePrefix(t, network.cidr);
    prefix.Some? && prefix.value.Contains(address)
  }

  function MatchDevice(t: Parser, c: Config, user: string, fingerprints: seq<string>, address: Addr): Option<Device> {
    FirstDevice(t, c, c.devices, user, fingerprints, address.Unmap())
  }

  function FirstDevice(
    t: Parser, c: Config, devices: seq<Device>, user: string, fingerprints: seq<string>, address: Addr): Option<Device>
  {
    if devices == [] then None
    else
      var d := devices[0];
      if (d.user != "" && d.user != user) || d.fingerprint !in fingerprints
         || !DeviceMatchesNetwork(t, c, d, address)
      then FirstDevice(t, c, devices[1..], user, fingerprints, address)
      else Some(d)
  }

  predicate DeviceMatchesNetwork(t: Parser, c: Config, d: Device, address: Addr) {
    if d.networks != [] then
      exists name, network :: name in d.networks && network in c.networks
                              && network.name == name && CidrContains(t, network, address)
    else if c.networks == [] then true
    else MatchNetwork(t, c.networks, address).Some?
  }

  /** A connection is recognized exactly when some device has its user (or names none), one of
      its fingerprints and a network that covers its unmapped address. */
  lemma RecognizedIff(t: Parser, c: Config, user: string, fingerprints: seq<string>, address: Addr)
    ensures var r := MatchDevice(t, c, user, fingerprints, address);
            && (r.Some? <==>
                  exists i :: 0 <= i < |c.devices| && Admits(t, c, c.devices[i], user, fingerprints, address))
            && (r.Some? ==> exists i :: 0 <= i < |c.devices| && c.devices[i] == r.value
                              && FirstAdmitted(t, c, c.devices, i, user, fingerprints, address))
  {
    FirstDeviceIff(t, c, c.devices, user, fingerprints, address);
  }

  predicate Admits(t: Parser, c: Config, d: Device, user: string, fingerprints: seq<string>, address: Addr) {
    && (d.user == "" || d.user == user)
    && d.fingerprint in fingerprints
    && DeviceMatchesNetwork(t, c, d, address.Unmap())
  }

  ghost predicate FirstAdmitted(
    t: Parser, c: Config, devices: seq<Device>, i: nat, user: string, fingerprints: seq<string>, address: Addr)
    requires i < |devices|
  {
    && Admits(t, c, devices[i], user, fingerprints, address)
    && forall j :: 0 <= j < i ==> !Admits(t, c, devices[j], user, fingerprints, address)
  }

  lemma {:induction false} FirstDeviceIff(
    t: Parser, c: Config, devices: seq<Device>, user: string, fingerprints: seq<string>, address: Addr)
    ensures var r := FirstDevice(t, c, devices, user, fingerprints, address.Unmap());
            && (r.Some? <==> exists i :: 0 <= i < |devices| && Admits(t, c, devices[i], user, fingerprints, address))
            && (r.Some? ==> exists i ::
                  && 0 <= i < |devices| && devices[i] == r.value
                  && FirstAdmitted(t, c, devices, i, user, fingerprints, address))
  {
    if devices != [] {
      var tail := devices[1..];
      FirstDeviceIff(t, c, tail, user, fingerprints, address);
      if Admits(t, c, devices[0], user, fingerprints, address) {
        assert FirstDevice(t, c, devices, user, fingerprints, address.Unmap()) == Some(devices[0]);
      } else {
        var r := FirstDevice(t, c, tail, user, fingerprints, address.Unmap());
        if i :| 0 <= i < |devices| && Admits(t, c, devices[i], user, fingerprints, address) {
          assert tail[i - 1] == devices[i];
        }
        if r.Some? {
          var i :| 0 <= i < |tail| && tail[i] == r.value
                   && FirstAdmitted(t, c, tail, i, user, fingerprints, address);
          assert forall j :: 0 < j < i + 1 ==> devices[j] == tail[j - 1];
          assert FirstAdmitted(t, c, devices, i + 1, user, fingerprints, address);
        }
      }
    }
  }

  /** The matched network is the first in the list that contains the unmapped address. */
  lemma {:induction false} FirstContainingIff(t: Parser, networks: seq<Network>, address: Addr)
    ensures var r := FirstContaining(t, networks, address);
            && (r.None? <==> forall i :: 0 <= i < |networks| ==> !CidrContains(t, networks[i], address))
            && (r.Some? ==> exists i :: 0 <= i < |networks| && networks[i] == r.value
                                        && CidrContains(t, networks[i], address)
                                        && forall j :: 0 <= j < i ==> !CidrContains(t, networks[j], address))
  {
    if networks != [] && !CidrContains(t, networks[0], address) {
      var tail := networks[1..];
      FirstContainingIff(t, tail, address);
      assert forall i :: 0 < i < |networks| ==> networks[i] == tail[i - 1];
      var r := FirstContaining(t, tail, address);
      if r.Some? {
        var i :| 0 <= i < |tail| && tail[i] == r.value && CidrContains(t, tail[i], address)
                 && forall j :: 0 <= j < i ==> !CidrContains(t, tail[j], address);
        assert networks[i + 1] == r.value;
      }
    }
  }

  /** A recognized network can match a connection from somewhere exactly when it is not written
      as IPv4 mapped into IPv6. */
  lemma NetworkMatchesSomethingIff(t: Parser, network: Network)
    requires ParsePrefix(t, network.cidr).Some?
    ensures (exists a: Addr :: CidrContains(t, network, a.Unmap()))
            <==> !ParsePrefix(t, network.cidr).value.addr.Is4In6()
  {
    var p := ParsePrefix(t, network.cidr).value;
    ParsedIsMasked(t, network.cidr);
    ObservableIffUnmapped(p);
    if a: Addr :| p.Contains(a.Unmap()) {
      assert CidrContains(t, network, a.Unmap());
    }
  }

  lemma {:induction false} NamedPrefixIs(t: Parser, networks: seq<Network>, i: nat)
    requires i < |networks|
    requires forall j :: 0 <= j < i ==> networks[j].name != networks[i].name
    ensures NamedPrefix(t, networks, networks[i].name) == ParsePrefix(t, networks[i].cidr)
  {
    if i > 0 {
      NamedPrefixIs(t, networks[1..], i - 1);
    }
  }

  /** In an accepted configuration a device is bound to the prefixes of exactly the networks it
      names; one that names none is admitted from any recognized network, or from anywhere when
      there are none. */
  lemma AcceptedDeviceNetworks(t: Parser, c: Config, k: nat, address: Addr)
    requires Accepted(t, c) && k < |c.devices|
    ensures var names := c.devices[k].networks;
            DeviceMatchesNetwork(t, c, c.devices[k], address) <==>
            if names == [] then
              c.networks == [] || exists i :: 0 <= i < |c.networks| && CidrContains(t, c.networks[i], address.Unmap())
            else exists i :: 0 <= i < |names| && BoundTo(t, c.networks, names[i], address)
  {
    var d := c.devices[k];
    assert ValidDevice(c.networks, d);
    if d.networks == [] {
      FirstContainingIff(t, c.networks, address.Unmap());
    } else {
      forall i, n | 0 <= i < |d.networks| && 0 <= n < |c.networks| && c.networks[n].name == d.networks[i]
        ensures CidrContains(t, c.networks[n], address) <==> BoundTo(t, c.networks, d.networks[i], address)
      {
        NamedPrefixIs(t, c.networks, n);
      }
      DeviceNames(t, c, d, address);
    }
  }

  predicate BoundTo(t: Parser, networks: seq<Network>, name: string, address: Addr) {
    var p := NamedPrefix(t, networks, name);
    p.Some? && p.value.Contains(address)
  }

  lemma DeviceNames(t: Parser, c: Config, d: Device, address: Addr)
    requires ValidNames(c.networks, d.networks) && d.networks != []
    requires forall i, n :: 0 <= i < |d.networks| && 0 <= n < |c.networks| && c.networks[n].name == d.networks[i] ==>
               (CidrContains(t, c.networks[n], address) <==> BoundTo(t, c.networks, d.networks[i], address))
    ensures DeviceMatchesNetwork(t, c, d, address) <==>
            exists i :: 0 <= i < |d.networks| && BoundTo(t, c.networks, d.networks[i], address)
  {
    if DeviceMatchesNetwork(t, c, d, address) {
      var name, network :| name in d.networks && network in c.networks
                           && network.name == name && CidrContains(t, network, address);
      var i :| 0 <= i < |d.networks| && d.networks[i] == name;
      var n :| 0 <= n < |c.networks| && c.networks[n] == network;
      assert BoundTo(t, c.networks, d.networks[i], address);
    }
    if i :| 0 <= i < |d.networks| && BoundTo(t, c.networks, d.networks[i], address) {
      assert Defined(c.networks, d.networks[i]);
      var n :| 0 <= n < |c.networks| && c.networks[n].name == d.networks[i];
      assert c.networks[n] in c.networks && d.networks[i] in d.networks;
    }
  }
}
