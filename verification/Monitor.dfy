/** The monitor's scan loop, its record of terminated sessions and its inventory cache
    (internal/monitor/monitor.go). */
module Monitor {
  import opened Basics
  import opened Netip
  import opened Session
  import opened Identity
  import Config
  import Merge
  import Probe

  type Observation = Merge.Observation

  /** What stays the same over a run: the configuration, the library and the dependencies that
      are present. */
  datatype Setup = Setup(
    parser: Config.Parser, config: Config.Config, format: Endpoint -> string,
    hasDiscoverer: bool, hasResolver: bool, hasEnforcer: bool, hasProber: bool)

  /** What one scan meets: the clock, the prober's reply, the connections found, and for each
      of them the resolver's answer and whether terminating it would succeed. */
  datatype ScanInput = ScanInput(
    now: Time, probe: Option<seq<Observation>>, discovered: Option<seq<Connection>>,
    resolve: nat -> Option<SSHIdentity>, kill: nat -> bool)

  /** One call of the enforcer. */
  datatype Attempt = Attempt(index: nat, connection: Connection, ok: bool)

  datatype Outcome = Completed | NoDiscoverer | DiscoverFailed | NoEnforcer

  datatype State = State(
    terminated: set<string>, inventory: seq<Observation>, inventoryExpires: Time, nextProbe: Time)

  const INITIAL: State := State({}, [], 0, 0)

  datatype Scanned = Scanned(state: State, outcome: Outcome, calls: seq<Attempt>)

  // ----- policy -----

  /** The list holds an address that equals the given one once both are unmapped. Entries go to
      the parser as they are, with any surrounding space. */
  predicate Listed(t: Config.Parser, values: seq<string>, address: Addr) {
    exists value :: value in values && t.addr(value).Some? && t.addr(value).value.Unmap() == address.Unmap()
  }

  predicate ObservationAllows(s: Setup, address: Addr) {
    Listed(s.parser, s.config.policy.allow, address)
  }

  predicate ObservationTerminates(s: Setup, address: Addr) {
    Listed(s.parser, s.config.policy.terminate, address)
  }

  predicate Recognized(s: Setup, c: Connection) {
    Config.MatchDevice(s.parser, s.config, c.user, c.fingerprints, c.remote.addr).Some?
  }

  /** The policy wants the connection gone. */
  predicate Condemned(s: Setup, c: Connection) {
    && !Recognized(s, c)
    && s.config.mode != "observe" && s.config.enforce
    && !ObservationAllows(s, c.remote.addr)
    && (s.config.policy.terminate == [] || ObservationTerminates(s, c.remote.addr))
  }

  /** An answer replaces the connection's methods and keys; an error leaves them as they were. */
  function Identified(c: Connection, answer: Option<SSHIdentity>): Connection {
    if answer.None? then c else c.(methods := answer.value.methods, fingerprints := answer.value.fingerprints)
  }

  /** The connection with what the resolver answered, if it answered. */
  function Seen(s: Setup, input: ScanInput, i: nat): Connection
    requires input.discovered.Some? && i < |input.discovered.value|
  {
    Identified(input.discovered.value[i], if s.hasResolver then input.resolve(i) else None)
  }

  function KeyAt(s: Setup, input: ScanInput, i: nat): string
    requires input.discovered.Some? && i < |input.discovered.value|
  {
    Key(s.format, input.discovered.value[i])
  }

  // ----- one scan, as a function -----

  /** The set of terminated sessions, the calls made, and whether the loop gave up for want of
      an enforcer. */
  datatype Walk = Walk(terminated: set<string>, calls: seq<Attempt>, stopped: bool)

  function WalkTo(s: Setup, input: ScanInput, start: set<string>, n: nat): Walk
    requires input.discovered.Some? && n <= |input.discovered.value|
    decreases n
  {
    if n == 0 then Walk(start, [], false) else Visit(s, input, n - 1, WalkTo(s, input, start, n - 1))
  }

  function Visit(s: Setup, input: ScanInput, i: nat, w: Walk): Walk
    requires input.discovered.Some? && i < |input.discovered.value|
  {
    var c := Seen(s, input, i);
    if w.stopped || !Condemned(s, c) || KeyAt(s, input, i) in w.terminated then w
    else if !s.hasEnforcer then w.(stopped := true)
    else
      Walk(
        if input.kill(i) then w.terminated + {KeyAt(s, input, i)} else w.terminated,
        w.calls + [Attempt(i, c, input.kill(i))],
        false)
  }

  ghost predicate Lists(s: Setup, input: ScanInput, key: string) {
    input.discovered.Some? && exists i :: 0 <= i < |input.discovered.value| && KeyAt(s, input, i) == key
  }

  /** The keys of the first `n` connections. */
  function ActiveKeys(s: Setup, input: ScanInput, n: nat): set<string>
    requires input.discovered.Some? && n <= |input.discovered.value|
  {
    set i | 0 <= i < n :: KeyAt(s, input, i)
  }

  lemma ActiveKeysStep(s: Setup, input: ScanInput, n: nat)
    requires input.discovered.Some? && n < |input.discovered.value|
    ensures ActiveKeys(s, input, n + 1) == ActiveKeys(s, input, n) + {KeyAt(s, input, n)}
  {
  }

  /** Twice the interval, in the 64-bit arithmetic of durations. */
  function Doubled(interval: int): int {
    if 2 * interval >= Probe.TWO_63 then 2 * interval - Probe.TWO_64
    else if 2 * interval < -Probe.TWO_63 then 2 * interval + Probe.TWO_64
    else 2 * interval
  }

  /** Every probe network resolves to a prefix. */
  ghost predicate Resolvable(s: Setup) {
    forall i :: 0 <= i < |s.config.probeNetworks| ==>
      Config.NamedPrefix(s.parser, s.config.networks, s.config.probeNetworks[i]).Some?
  }

  predicate Due(s: Setup, nextProbe: Time, now: Time) {
    s.config.networkProbes.enabled && (nextProbe == 0 || now >= nextProbe)
  }

  /** A probe that starts also yields observations. */
  ghost predicate Yields(s: Setup, input: ScanInput) {
    s.hasProber && Resolvable(s) && input.probe.Some?
  }

  ghost function InventoryStep(s: Setup, state: State, input: ScanInput): State {
    if !Due(s, state.nextProbe, input.now) then state
    else
      var started := state.(nextProbe := input.now + s.config.networkProbes.interval);
      if Yields(s, input)
      then started.(inventory := input.probe.value,
                    inventoryExpires := input.now + Doubled(s.config.networkProbes.interval))
      else started
  }

  ghost function ScanStep(s: Setup, state: State, input: ScanInput): Scanned {
    if !s.hasDiscoverer then Scanned(state, NoDiscoverer, [])
    else
      var probed := InventoryStep(s, state, input);
      if input.discovered.None? then Scanned(probed, DiscoverFailed, [])
      else
        var w := WalkTo(s, input, state.terminated, |input.discovered.value|);
        if w.stopped then Scanned(probed.(terminated := w.terminated), NoEnforcer, w.calls)
        else
          var active := ActiveKeys(s, input, |input.discovered.value|);
          Scanned(probed.(terminated := w.terminated * active), Completed, w.calls)
  }

  /** The state after the first `n` scans. */
  ghost function StateAfter(s: Setup, start: State, inputs: seq<ScanInput>, n: nat): State
    requires n <= |inputs|
  {
    if n == 0 then start else ScanStep(s, StateAfter(s, start, inputs, n - 1), inputs[n - 1]).state
  }

  /** What the scan at place `i` did. */
  ghost function ScanOf(s: Setup, start: State, inputs: seq<ScanInput>, i: nat): Scanned
    requires i < |inputs|
  {
    ScanStep(s, StateAfter(s, start, inputs, i), inputs[i])
  }

  /** What a reader of the inventory sees. */
  ghost function Visible(state: State, now: Time): seq<Observation> {
    if state.inventoryExpires == 0 || now >= state.inventoryExpires then [] else state.inventory
  }

  // ----- the program -----

  /** A detected operating system in memory, which observations point to. */
  class OSFingerprint {
    var name: string
    var accuracy: int
    var vendor: string
    var family: string
    var generation: string
    var cpes: seq<string>

    constructor (os: Merge.OS)
      ensures Value() == os
    {
      name, accuracy, vendor, family, generation, cpes :=
        os.name, os.accuracy, os.vendor, os.family, os.generation, os.cpes;
    }

    function Value(): Merge.OS
      reads this
    {
      Merge.OS(name, accuracy, vendor, family, generation, cpes)
    }

    method Overwrite(os: Merge.OS)
      modifies this
      ensures Value() == os
    {
      name, accuracy, vendor, family, generation, cpes :=
        os.name, os.accuracy, os.vendor, os.family, os.generation, os.cpes;
    }
  }

  /** An observation as it sits in memory: its port list is a separate array and its operating
      system, if there is one, an object of its own. */
  datatype Held = Held(
    address: Addr, mac: string, iface: string, ports: array<int>, os: OSFingerprint?, observedAt: int)

  ghost function Value(h: Held): Observation
    reads h.ports, h.os
  {
    Merge.Observation(
      h.address, h.mac, h.iface, h.ports[..], if h.os == null then None else Some(h.os.Value()), h.observedAt)
  }

  ghost function PortArrays(hs: seq<Held>): set<array<int>> {
    set h | h in hs :: h.ports
  }

  ghost function Systems(hs: seq<Held>): set<OSFingerprint?> {
    set h | h in hs :: h.os
  }

  ghost function Values(hs: seq<Held>): (r: seq<Observation>)
    reads PortArrays(hs), Systems(hs)
    ensures |r| == |hs|
  {
    seq(|hs|, i requires 0 <= i < |hs| reads PortArrays(hs), Systems(hs) => Value(hs[i]))
  }

  /** Copies rows as they are, pointers included, and then each port list into a new array. */
  method Copied(hs: seq<Held>) returns (rows: array<Held>)
    ensures fresh(rows) && rows.Length == |hs|
    ensures forall i :: 0 <= i < |hs| ==>
              fresh(rows[i].ports) && rows[i].os == hs[i].os && Value(rows[i]) == Value(hs[i])
  {
    rows := new Held[|hs|](i requires 0 <= i < |hs| => hs[i]);
    for i := 0 to |hs|
      modifies rows
      invariant forall k :: 0 <= k < i ==>
                  fresh(rows[k].ports) && rows[k].os == hs[k].os && Value(rows[k]) == Value(hs[k])
      invariant forall k :: i <= k < |hs| ==> rows[k] == hs[k]
    {
      var from := hs[i].ports;
      var ports := new int[from.Length](k requires 0 <= k < from.Length reads from => from[k]);
      assert ports[..] == from[..];
      rows[i] := rows[i].(ports := ports);
    }
  }

  /** One observation, in memory that nobody else holds. */
  method Boxed(o: Observation) returns (h: Held)
    ensures fresh(h.ports) && (h.os == null || fresh(h.os)) && Value(h) == o
  {
    var ports := new int[|o.openPorts|](k requires 0 <= k < |o.openPorts| => o.openPorts[k]);
    assert ports[..] == o.openPorts;
    var os: OSFingerprint? := null;
    if o.os.Some? {
      os := new OSFingerprint(o.os.value);
    }
    h := Held(o.address, o.mac, o.iface, ports, os, o.observedAt);
  }

  /** The prober hands over observations in memory that nobody else holds. */
  method Deliver(observations: seq<Observation>) returns (hs: seq<Held>)
    ensures |hs| == |observations|
    ensures forall p :: p in PortArrays(hs) ==> fresh(p)
    ensures forall o :: o in Systems(hs) && o != null ==> fresh(o)
    ensures Values(hs) == observations
  {
    hs := [];
    for i := 0 to |observations|
      invariant |hs| == i
      invariant forall k :: 0 <= k < i ==>
                  fresh(hs[k].ports) && (hs[k].os == null || fresh(hs[k].os)) && Value(hs[k]) == observations[k]
    {
      var h := Boxed(observations[i]);
      hs := hs + [h];
    }
  }

  class Monitor {
    const setup: Setup
    var terminated: set<string>
    /** The inventory is the first `count` slots; the rest is spare capacity. */
    var buffer: array<Held>
    var count: nat
    var inventoryExpires: Time
    var nextProbe: Time

    constructor (setup: Setup)
      ensures this.setup == setup && Valid() && fresh(buffer) && Current() == INITIAL
    {
      this.setup := setup;
      terminated, count, inventoryExpires, nextProbe := {}, 0, 0, 0;
      buffer := new Held[0];
    }

    ghost predicate Valid()
      reads `buffer, `count
    {
      count <= buffer.Length
    }

    ghost function Ports(): set<array<int>>
      requires Valid()
      reads `buffer, `count, buffer
    {
      PortArrays(buffer[..count])
    }

    ghost function Boxes(): set<OSFingerprint?>
      requires Valid()
      reads `buffer, `count, buffer
    {
      Systems(buffer[..count])
    }

    ghost function Current(): State
      requires Valid()
      reads this, buffer, Ports(), Boxes()
    {
      State(terminated, Values(buffer[..count]), inventoryExpires, nextProbe)
    }

    /** Replaces the inventory. The old slots are reused when they suffice; otherwise a larger
        array takes their place. */
    method Store(observations: seq<Held>)
      requires Valid()
      modifies this`buffer, this`count, buffer
      ensures Valid() && buffer[..count] == observations
      ensures buffer == old(buffer) || fresh(buffer)
    {
      if |observations| > buffer.Length {
        var capacity: nat :| capacity >= |observations|;
        var blank := observations[0];
        buffer := new Held[capacity](_ => blank);
      }
      count := |observations|;
      for i := 0 to |observations|
        invariant Valid() && buffer[..i] == observations[..i]
        modifies buffer
      {
        buffer[i] := observations[i];
      }
    }

    /** Takes over what the prober delivers. */
    method Keep(observations: seq<Observation>)
      requires Valid()
      modifies this`buffer, this`count, buffer
      ensures Valid() && (buffer == old(buffer) || fresh(buffer))
      ensures forall p :: p in Ports() ==> fresh(p)
      ensures forall o :: o in Boxes() && o != null ==> fresh(o)
      ensures Values(buffer[..count]) == observations
    {
      var rows := Deliver(observations);
      Store(rows);
    }

    method ScanNetworkInventory(input: ScanInput)
      requires Valid()
      modifies this`buffer, this`count, this`inventoryExpires, this`nextProbe, buffer
      ensures Valid() && (buffer == old(buffer) || fresh(buffer))
      ensures forall p :: p in Ports() ==> p in old(Ports()) || fresh(p)
      ensures forall o :: o in Boxes() && o != null ==> o in old(Boxes()) || fresh(o)
      ensures Current() == InventoryStep(setup, old(Current()), input)
    {
      var interval := setup.config.networkProbes.interval;
      if !setup.config.networkProbes.enabled {
        return;
      }
      if nextProbe != 0 && input.now < nextProbe {
        return;
      }
      nextProbe := input.now + interval;
      if !setup.hasProber {
        return;
      }
      var prefixes := Config.ProbePrefixList(setup.parser, setup.config);
      if prefixes.None? {
        return;
      }
      if input.probe.None? {
        return;
      }
      Keep(input.probe.value);
      inventoryExpires := input.now + Doubled(interval);
    }

    method Scan(input: ScanInput) returns (outcome: Outcome, calls: seq<Attempt>)
      requires Valid()
      modifies this, buffer
      ensures Valid() && (buffer == old(buffer) || fresh(buffer))
      ensures forall p :: p in Ports() ==> p in old(Ports()) || fresh(p)
      ensures forall o :: o in Boxes() && o != null ==> o in old(Boxes()) || fresh(o)
      ensures Scanned(Current(), outcome, calls) == ScanStep(setup, old(Current()), input)
    {
      calls := [];
      if !setup.hasDiscoverer {
        return NoDiscoverer, calls;
      }
      ScanNetworkInventory(input);
      ghost var probed := Current();
      if input.discovered.None? {
        return DiscoverFailed, calls;
      }
      var active, stopped;
      active, stopped, calls := Enforce(input);
      assert Current() == probed.(terminated := terminated);
      if stopped {
        return NoEnforcer, calls;
      }
      Prune(active);
      assert Current() == probed.(terminated := terminated);
      return Completed, calls;
    }

    /** The two tests that pass over a connection. */
    method Spares(c: Connection) returns (spared: bool)
      ensures spared <==> !Condemned(setup, c)
    {
      if Recognized(setup, c) || setup.config.mode == "observe" || !setup.config.enforce
         || ObservationAllows(setup, c.remote.addr)
      {
        return true;
      }
      if setup.config.policy.terminate != [] && !ObservationTerminates(setup, c.remote.addr) {
        return true;
      }
      return false;
    }

    /** The loop of a scan over the connections it found. */
    method Enforce(input: ScanInput) returns (active: set<string>, stopped: bool, calls: seq<Attempt>)
      requires input.discovered.Some?
      modifies this`terminated
      ensures var n := |input.discovered.value|;
              && WalkTo(setup, input, old(terminated), n) == Walk(terminated, calls, stopped)
              && (!stopped ==> active == ActiveKeys(setup, input, n))
    {
      var connections := input.discovered.value;
      active, stopped, calls := {}, false, [];
      for i := 0 to |connections|
        invariant active == ActiveKeys(setup, input, i)
        invariant WalkTo(setup, input, old(terminated), i) == Walk(terminated, calls, false)
      {
        var key := Key(setup.format, connections[i]);
        active := active + {key};
        ActiveKeysStep(setup, input, i);
        var c := Seen(setup, input, i);
        var spared := Spares(c);
        if spared {
          continue;
        }
        if key in terminated {
          continue;
        }
        if !setup.hasEnforcer {
          StoppedStays(setup, input, old(terminated), i + 1, |connections|);
          return active, true, calls;
        }
        calls := calls + [Attempt(i, c, input.kill(i))];
        if !input.kill(i) {
          continue;
        }
        terminated := terminated + {key};
      }
      return active, false, calls;
    }

    /** Forgets the sessions that are no longer active. */
    method Prune(active: set<string>)
      modifies this`terminated
      ensures terminated == old(terminated) * active
    {
      var keys := terminated;
      while keys != {}
        invariant terminated == (old(terminated) * active) + keys
        invariant keys <= old(terminated)
        modifies this`terminated
        decreases |keys|
      {
        var key :| key in keys;
        if key !in active {
          terminated := terminated - {key};
        }
        keys := keys - {key};
      }
    }

    /** Scans until the context ends, which is looked at after each scan. */
    method Run(inputs: seq<ScanInput>) returns (started: bool, calls: seq<seq<Attempt>>)
      requires Valid() && inputs != []
      modifies this, buffer
      ensures Valid() && (buffer == old(buffer) || fresh(buffer))
      ensures forall p :: p in Ports() ==> p in old(Ports()) || fresh(p)
      ensures forall o :: o in Boxes() && o != null ==> o in old(Boxes()) || fresh(o)
      ensures started <==> setup.config.pollInterval > 0
      ensures !started ==> Current() == old(Current()) && calls == []
      ensures started ==>
                && Current() == StateAfter(setup, old(Current()), inputs, |inputs|)
                && |calls| == |inputs|
                && forall i :: 0 <= i < |inputs| ==> calls[i] == ScanOf(setup, old(Current()), inputs, i).calls
    {
      calls := [];
      if setup.config.pollInterval <= 0 {
        return false, calls;
      }
      ghost var start := Current();
      for i := 0 to |inputs|
        invariant Valid() && (buffer == old(buffer) || fresh(buffer))
        invariant forall p :: p in Ports() ==> p in old(Ports()) || fresh(p)
        invariant forall o :: o in Boxes() && o != null ==> o in old(Boxes()) || fresh(o)
        invariant Current() == StateAfter(setup, start, inputs, i)
        invariant |calls| == i
        invariant forall k :: 0 <= k < i ==> calls[k] == ScanOf(setup, start, inputs, k).calls
      {
        var outcome, made := Scan(inputs[i]);
        assert Scanned(Current(), outcome, made) == ScanOf(setup, start, inputs, i);
        calls := calls + [made];
      }
      return true, calls;
    }

    /** The rows of a snapshot are the inventory's: separate slots and port lists, the same
        operating systems. */
    ghost predicate SharedBy(snapshot: array<Held>)
      requires Valid()
      reads this, buffer, snapshot
    {
      && snapshot != buffer && snapshot.Length == count
      && forall i :: 0 <= i < count ==> snapshot[i].os == buffer[i].os && snapshot[i].ports !in Ports()
    }

    /** A copy of the inventory while it is fresh, port lists included. */
    method NetworkInventory(now: Time) returns (snapshot: array<Held>)
      requires Valid()
      ensures fresh(snapshot) && forall i :: 0 <= i < snapshot.Length ==> fresh(snapshot[i].ports)
      ensures Values(snapshot[..]) == Visible(Current(), now)
      ensures snapshot.Length > 0 ==> SharedBy(snapshot)
    {
      if inventoryExpires == 0 || now >= inventoryExpires {
        snapshot := new Held[0];
        return;
      }
      snapshot := Copied(buffer[..count]);
    }
  }

  lemma {:induction false} StoppedStays(s: Setup, input: ScanInput, start: set<string>, i: nat, n: nat)
    requires input.discovered.Some? && i <= n <= |input.discovered.value|
    requires WalkTo(s, input, start, i).stopped
    ensures WalkTo(s, input, start, n) == WalkTo(s, input, start, i)
    decreases n
  {
    if i < n {
      StoppedStays(s, input, start, i, n - 1);
    }
  }

  // ----- snapshots -----

  /** A snapshot keeps its contents through any later scans, although they reuse the array
      behind the inventory. */
  method SnapshotSurvives(m: Monitor, now: Time, inputs: seq<ScanInput>) returns (snapshot: array<Held>)
    requires m.Valid() && inputs != []
    modifies m, m.buffer
    ensures Values(snapshot[..]) == old(Visible(m.Current(), now))
  {
    snapshot := m.NetworkInventory(now);
    ghost var rows, shown := snapshot[..], Values(snapshot[..]);
    var started, calls := m.Run(inputs);
    assert snapshot[..] == rows;
    forall i | 0 <= i < |rows| ensures Value(rows[i]) == shown[i] {
      assert rows[i] in rows;
    }
    assert Values(rows) == shown;
  }

  /** Whatever a reader writes to the slots and port lists of a snapshot, the monitor does not
      see. */
  method MonitorIgnoresWriters(m: Monitor, now: Time, slot: Held, port: int)
    requires m.Valid()
    ensures m.Valid() && m.Current() == old(m.Current())
  {
    var snapshot := m.NetworkInventory(now);
    var rows := snapshot[..];
    for i := 0 to |rows|
      modifies snapshot, PortArrays(rows)
    {
      assert rows[i] in rows;
      var ports := rows[i].ports;
      for k := 0 to ports.Length
        modifies ports
      {
        ports[k] := port;
      }
      snapshot[i] := slot;
    }
  }

  /** What a reader can write through one row of a snapshot. */
  datatype Write = Slot(row: Held) | Port(k: nat, port: int) | System(os: Merge.OS) | Cpe(k: nat, text: string)

  function RewrittenOS(os: Merge.OS, w: Write): Merge.OS {
    match w
    case System(other) => other
    case Cpe(k, text) => if k < |os.cpes| then os.(cpes := os.cpes[k := text]) else os
    case _ => os
  }

  /** What a write makes of an observation that points to the same operating system. */
  function Rewritten(o: Observation, w: Write): Observation {
    o.(os := if o.os.None? then None else Some(RewrittenOS(o.os.value, w)))
  }

  method WriteMemory(row: Held, w: Write)
    modifies row.ports, row.os
    ensures row.os != null ==> row.os.Value() == RewrittenOS(old(row.os.Value()), w)
  {
    match w {
      case Slot(_) =>
      case Port(k, port) =>
        if k < row.ports.Length {
          row.ports[k] := port;
        }
      case System(os) =>
        if row.os != null {
          row.os.Overwrite(os);
        }
      case Cpe(k, text) =>
        if row.os != null && k < |row.os.cpes| {
          row.os.cpes := row.os.cpes[k := text];
        }
    }
  }

  /** Where a write through a snapshot shows: in every row of the inventory that points to the
      same operating system, and nowhere else. */
  method WriteRow(m: Monitor, snapshot: array<Held>, i: nat, w: Write)
    requires m.Valid() && m.SharedBy(snapshot) && i < snapshot.Length
    modifies snapshot, snapshot[i].ports, snapshot[i].os
    ensures m.Valid()
    ensures forall k :: 0 <= k < m.count ==>
              Value(m.buffer[k]) ==
              if m.buffer[k].os == old(snapshot[i].os) then Rewritten(old(Value(m.buffer[k])), w)
              else old(Value(m.buffer[k]))
  {
    var row := snapshot[i];
    if w.Slot? {
      snapshot[i] := w.row;
    }
    assert forall k :: 0 <= k < m.count ==> m.buffer[..m.count][k] in m.buffer[..m.count];
    WriteMemory(row, w);
  }

  /** One write through a snapshot that still shares with the inventory. Slots and port lists are
      the reader's own; the operating system is not: it changes in every row of the inventory that
      points to it, and the monitor's state stays as it was exactly when the write changes nothing
      of it. */
  method WriteThrough(m: Monitor, snapshot: array<Held>, i: nat, w: Write)
    requires m.Valid() && m.SharedBy(snapshot) && i < snapshot.Length
    modifies snapshot, snapshot[i].ports, snapshot[i].os
    ensures m.Valid() && |m.Current().inventory| == old(m.count)
    ensures m.Current() == old(m.Current()).(inventory := m.Current().inventory)
    ensures forall k :: 0 <= k < m.count ==>
              var was := old(m.Current()).inventory[k];
              m.Current().inventory[k] == if m.buffer[k].os == old(snapshot[i].os) then Rewritten(was, w) else was
    ensures m.Current() == old(m.Current()) <==>
            var was := old(m.Current()).inventory[i]; Rewritten(was, w) == was
  {
    ghost var was, os := Values(m.buffer[..m.count]), snapshot[i].os;
    WriteRow(m, snapshot, i, w);
    ghost var same := set k | 0 <= k < m.count && m.buffer[k].os == os;
    SharedRowsAgree(was, Values(m.buffer[..m.count]), same, i, w);
  }

  /** Rows that point to one operating system all change or none does. */
  lemma SharedRowsAgree(was: seq<Observation>, now: seq<Observation>, same: set<int>, i: nat, w: Write)
    requires |was| == |now| && i < |was| && i in same
    requires forall k :: 0 <= k < |was| ==> now[k] == if k in same then Rewritten(was[k], w) else was[k]
    requires forall k :: 0 <= k < |was| && k in same ==> was[k].os == was[i].os
    ensures now == was <==> Rewritten(was[i], w) == was[i]
  {
  }

  /** So a fresh snapshot is no private copy: what one reader writes to an operating system is
      what the next reader finds. */
  method NextReaderSeesSystem(m: Monitor, now: Time, i: nat, os: Merge.OS) returns (again: array<Held>)
    requires m.Valid() && i < |Visible(m.Current(), now)| && Visible(m.Current(), now)[i].os.Some?
    modifies m.buffer[i].os
    ensures m.Valid() && i < again.Length && Value(again[i]).os == Some(os)
  {
    var snapshot := m.NetworkInventory(now);
    WriteThrough(m, snapshot, i, System(os));
    assert m.Current().inventory[i].os == Some(os);
    again := m.NetworkInventory(now);
    assert Values(again[..]) == m.Current().inventory;
    assert Values(again[..])[i] == Value(again[i]);
  }
}
