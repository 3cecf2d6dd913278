/** From the authentication log to the enforcer: what it takes for a discovered session to count as
    recognized, and which sessions a whole run tries to terminate, when the resolver's answers come
    from the identity cache (Scan in internal/monitor/monitor.go over internal/monitor/identity.go
    and the devices of the configuration). */
module Admission {
  import opened Basics
  import opened Session
  import opened Identity
  import Config
  import Monitor
  import MonitorRuns
  import Netip

  /** The last event of the session among the lines, with its record. */
  ghost predicate IsLatest(l: Library, lines: seq<LogLine>, c: Connection, i: nat, record: LogRecord) {
    && i < |lines| && Identifies(l, lines[i], c, record)
    && forall j, other :: i < j < |lines| ==> !Identifies(l, lines[j], c, other)
  }

  lemma LatestIsUnique(l: Library, lines: seq<LogLine>, c: Connection, i: nat, a: LogRecord, j: nat, b: LogRecord)
    requires IsLatest(l, lines, c, i, a) && IsLatest(l, lines, c, j, b)
    ensures i == j && a == b
  {
    assert Identifies(l, lines[i], c, a) && Identifies(l, lines[j], c, b);
  }

  /** What the cache answers about a session, in terms of the log alone. */
  lemma AnswerIsLatest(
    l: Library, calls: seq<Call>, states: seq<Cache>, n: nat, c: Connection, start: Option<Time>, i: nat,
    record: LogRecord)
    requires IsRun(l, calls, states) && n <= |calls| && Injective(l.format)
    requires IsLatest(l, ReadLines(calls, states, n), c, i, record)
    ensures Answer(l, states[n].identities, c, start) ==
            if start.None? then Err(StartError)
            else Ok(if record.timestamp < start.value then NOBODY else record.identity)
  {
    var lines := ReadLines(calls, states, n);
    CacheIsLastWriter(l, calls, states, n);
    LastRecordExists(l, lines, c, i, record);
    var j := LastRecordSource(l, lines, c);
    LatestIsUnique(l, lines, c, i, record, j, LastRecord(l, lines, Key(l.format, c)).value);
  }

  /** The last event of the session admits it: it is no older than the process, and one of its
      keys is that of a device which also admits the user and the address. */
  ghost predicate Admitted(
    s: Monitor.Setup, l: Library, lines: seq<LogLine>, c: Connection, start: Option<Time>,
    i: nat, record: LogRecord, k: nat)
  {
    && IsLatest(l, lines, c, i, record)
    && start.Some? && record.timestamp >= start.value
    && k < |s.config.devices|
    && Config.Admits(s.parser, s.config, s.config.devices[k], c.user, record.identity.fingerprints, c.remote.addr)
  }

  ghost predicate SomeAdmits(s: Monitor.Setup, l: Library, lines: seq<LogLine>, c: Connection, start: Option<Time>) {
    exists i, record, k :: Admitted(s, l, lines, c, start, i, record, k)
  }

  /** What the scan gets from the resolver in that state: nothing when it errs. */
  function Reply(l: Library, cache: Cache, c: Connection, start: Option<Time>): Option<SSHIdentity> {
    if cache.failed then None
    else
      match Answer(l, cache.identities, c, start)
      case Ok(identity) => Some(identity)
      case Err(_) => None
  }

  /** The connection as the scan sees it. */
  function SeenWith(l: Library, cache: Cache, c: Connection, start: Option<Time>): Connection {
    Monitor.Identified(c, Reply(l, cache, c, start))
  }

  /** After `n` calls the log vouches for a session: its last reading did not fail, and the last
      event of the session in all that was read admits it. */
  ghost predicate Vouches(
    s: Monitor.Setup, l: Library, calls: seq<Call>, states: seq<Cache>, n: nat, c: Connection, start: Option<Time>)
    requires n <= |calls| && n < |states|
  {
    !states[n].failed && SomeAdmits(s, l, ReadLines(calls, states, n), c, start)
  }

  /** A discovered session, which comes without keys, is recognized exactly when the last reading
      of the log did not fail and the last accepted event of its own process and remote end, in all
      that was read, carries the key of a device that admits it. */
  lemma RecognizedIffAuthenticated(
    s: Monitor.Setup, l: Library, calls: seq<Call>, states: seq<Cache>, n: nat, c: Connection, start: Option<Time>)
    requires IsRun(l, calls, states) && n <= |calls| && Injective(l.format) && c.fingerprints == []
    ensures Monitor.Recognized(s, SeenWith(l, states[n], c, start)) <==> Vouches(s, l, calls, states, n, c, start)
  {
    var answer := Answer(l, states[n].identities, c, start);
    if states[n].failed {
      UnansweredIsUnrecognized(s, c);
    } else if answer.Ok? {
      AnsweredIff(s, l, calls, states, n, c, start);
    } else {
      UnansweredIsUnrecognized(s, c);
      if i, record, k :| Admitted(s, l, ReadLines(calls, states, n), c, start, i, record, k) {
        AnswerIsLatest(l, calls, states, n, c, start, i, record);
      }
    }
  }

  lemma AnsweredIff(
    s: Monitor.Setup, l: Library, calls: seq<Call>, states: seq<Cache>, n: nat, c: Connection, start: Option<Time>)
    requires IsRun(l, calls, states) && n <= |calls| && Injective(l.format)
    requires Answer(l, states[n].identities, c, start).Ok?
    ensures Monitor.Recognized(s, Monitor.Identified(c, Some(Answer(l, states[n].identities, c, start).value)))
            <==> SomeAdmits(s, l, ReadLines(calls, states, n), c, start)
  {
    var lines := ReadLines(calls, states, n);
    var identity := Answer(l, states[n].identities, c, start).value;
    Config.RecognizedIff(s.parser, s.config, c.user, identity.fingerprints, c.remote.addr);
    if Monitor.Recognized(s, Monitor.Identified(c, Some(identity))) {
      var k :| 0 <= k < |s.config.devices|
               && Config.Admits(s.parser, s.config, s.config.devices[k], c.user, identity.fingerprints, c.remote.addr);
      var i, record := IdentityIsGrounded(l, calls, states, n, c, start);
      assert Admitted(s, l, lines, c, start, i, record, k);
    }
    if i, record, k :| Admitted(s, l, lines, c, start, i, record, k) {
      AnswerIsLatest(l, calls, states, n, c, start, i, record);
    }
  }

  /** A session that the resolver cannot answer for keeps the empty key list that discovery gave
      it, and is not recognized. */
  lemma UnansweredIsUnrecognized(s: Monitor.Setup, c: Connection)
    requires c.fingerprints == []
    ensures !Monitor.Recognized(s, c)
  {
    Config.RecognizedIff(s.parser, s.config, c.user, c.fingerprints, c.remote.addr);
  }

  /** The run of two calls that shows why the last reading matters: the first reads the session's
      event and recognizes it; a second later the log cannot be read, the event is still in the
      cache and still admits the session, and yet the session is no longer recognized: in enforce
      mode the policy condemns it. */
  lemma FailedReadingUnrecognizes(
    s: Monitor.Setup, l: Library, line: LogLine, c: Connection, record: LogRecord, k: nat, now: Time, start: Time)
    returns (calls: seq<Call>, states: seq<Cache>)
    requires Injective(l.format) && c.fingerprints == [] && now != 0
    requires Identifies(l, line, c, record) && record.timestamp >= start && k < |s.config.devices|
    requires Config.Admits(s.parser, s.config, s.config.devices[k], c.user, record.identity.fingerprints, c.remote.addr)
    ensures calls == [Call(now, Lines([line]), Some(start)), Call(now + SECOND, Unavailable, Some(start))]
    ensures IsRun(l, calls, states)
    ensures Monitor.Recognized(s, SeenWith(l, states[1], c, Some(start)))
    ensures !Monitor.Recognized(s, SeenWith(l, states[2], c, Some(start)))
    ensures SomeAdmits(s, l, ReadLines(calls, states, 2), c, Some(start))
    ensures Exposed(s, c) ==> Monitor.Condemned(s, SeenWith(l, states[2], c, Some(start)))
  {
    calls := [Call(now, Lines([line]), Some(start)), Call(now + SECOND, Unavailable, Some(start))];
    var m := map[Key(l.format, c) := record];
    var first, second := Cache(now, false, m), Cache(now + SECOND, true, m);
    states := [FRESH, first, second];
    OneEventCache(l, line, c, record);
    assert FRESH.identities + m == m;
    assert Refreshed(l, FRESH, now, Lines([line]), first);
    assert Refreshed(l, first, now + SECOND, Unavailable, second);
    OneLineRead(l, line, calls, states);
    assert IsLatest(l, [line], c, 0, record);
    assert Admitted(s, l, [line], c, Some(start), 0, record, k);
    RecognizedIffAuthenticated(s, l, calls, states, 1, c, Some(start));
    RecognizedIffAuthenticated(s, l, calls, states, 2, c, Some(start));
  }

  lemma OneEventCache(l: Library, line: LogLine, c: Connection, record: LogRecord)
    requires Identifies(l, line, c, record)
    ensures LastWriterWins(l, map[Key(l.format, c) := record], [line])
  {
    forall key ensures LastRecord(l, [line], key) == if key == Key(l.format, c) then Some(record) else None {
      LastRecordAppend(l, [], line, key);
      assert [] + [line] == [line];
    }
  }

  lemma OneLineRead(l: Library, line: LogLine, calls: seq<Call>, states: seq<Cache>)
    requires |calls| == 2 && |states| == 3 && IsRun(l, calls, states)
    requires calls[0].log == Lines([line]) && calls[1].log.Unavailable? && !line.Broken?
    ensures ReadLines(calls, states, 1) == [line] && ReadLines(calls, states, 2) == [line]
  {
    assert ReadLines(calls, states, 0) == [];
    assert [] + [line] == [line];
    assert Readable([line]);
  }

  // ----- addresses mapped into IPv6 -----

  /** The connection with its remote address unmapped. */
  function Unmapped(c: Connection): Connection {
    c.(remote := Netip.Endpoint(c.remote.addr.Unmap(), c.remote.port))
  }

  /** When the log has an event of the process, the unmapped address and the port, the cache knows
      the connection exactly when its address is not mapped. */
  lemma KnownIffNotMapped(l: Library, calls: seq<Call>, states: seq<Cache>, n: nat, c: Connection)
    requires IsRun(l, calls, states) && n <= |calls| && Injective(l.format)
    requires SomeIdentifies(l, ReadLines(calls, states, n), Unmapped(c))
    ensures Key(l.format, c) in states[n].identities <==> !c.remote.addr.Is4In6()
  {
    KnownIff(l, calls, states, n, c);
    if !c.remote.addr.Is4In6() {
      assert Unmapped(c) == c;
    }
  }

  /** So a session whose event admits it under its unmapped address is recognized exactly when
      discovery does not report that address mapped: mapped, an authenticated session is taken for
      an unrecognized one. */
  lemma AuthenticatedRecognizedIffNotMapped(
    s: Monitor.Setup, l: Library, calls: seq<Call>, states: seq<Cache>, n: nat, c: Connection, start: Option<Time>)
    requires IsRun(l, calls, states) && n <= |calls| && Injective(l.format) && c.fingerprints == []
    requires !states[n].failed && SomeAdmits(s, l, ReadLines(calls, states, n), Unmapped(c), start)
    ensures Monitor.Recognized(s, SeenWith(l, states[n], c, start)) <==> !c.remote.addr.Is4In6()
  {
    RecognizedIffAuthenticated(s, l, calls, states, n, c, start);
    if c.remote.addr.Is4In6() {
      MappedIsNotAdmitted(s, l, ReadLines(calls, states, n), c, start);
    } else {
      assert Unmapped(c) == c;
    }
  }

  lemma MappedIsNotIdentified(l: Library, line: LogLine, c: Connection, record: LogRecord)
    requires c.remote.addr.Is4In6()
    ensures !Identifies(l, line, c, record)
  {
  }

  lemma MappedIsNotAdmitted(s: Monitor.Setup, l: Library, lines: seq<LogLine>, c: Connection, start: Option<Time>)
    requires c.remote.addr.Is4In6()
    ensures !SomeAdmits(s, l, lines, c, start)
  {
    if i: nat, record, k: nat :| Admitted(s, l, lines, c, start, i, record, k) {
      MappedIsNotIdentified(l, lines[i], c, record);
    }
  }

  // ----- a whole run -----

  /** The resolver calls of a scan up to the `n`-th connection: one for each, until the scan gives
      up for want of an enforcer. */
  function Asked(s: Monitor.Setup, input: Monitor.ScanInput, start: set<string>, n: nat): (count: nat)
    requires input.discovered.Some? && n <= |input.discovered.value|
    ensures count <= n
  {
    if n == 0 then 0
    else if Monitor.WalkTo(s, input, start, n - 1).stopped then Asked(s, input, start, n - 1)
    else n
  }

  ghost function AskedIn(s: Monitor.Setup, inputs: seq<Monitor.ScanInput>, j: nat): (count: nat)
    requires j < |inputs|
    ensures count > 0 ==> inputs[j].discovered.Some? && count <= |inputs[j].discovered.value|
  {
    var input := inputs[j];
    if !s.hasDiscoverer || input.discovered.None? then 0
    else Asked(s, input, MonitorRuns.After(s, inputs, j).terminated, |input.discovered.value|)
  }

  /** The resolver calls made before the scan at place `j`. */
  ghost function AskedBefore(s: Monitor.Setup, inputs: seq<Monitor.ScanInput>, j: nat): nat
    requires j <= |inputs|
  {
    if j == 0 then 0 else AskedBefore(s, inputs, j - 1) + AskedIn(s, inputs, j - 1)
  }

  /** The place of the resolver call about connection `i` of scan `j` among all calls. */
  ghost function CallAt(s: Monitor.Setup, inputs: seq<Monitor.ScanInput>, j: nat, i: nat): nat
    requires j < |inputs|
  {
    AskedBefore(s, inputs, j) + i
  }

  /** A run of the monitor whose resolver is the cache: the calls of all scans, one after another,
      are one run of the cache, and each answer is the reply to its own call. */
  ghost predicate Threaded(
    s: Monitor.Setup, l: Library, inputs: seq<Monitor.ScanInput>, calls: seq<Call>, states: seq<Cache>)
  {
    && s.hasResolver && s.format == l.format && IsRun(l, calls, states)
    && |calls| == AskedBefore(s, inputs, |inputs|)
    && forall j, i :: 0 <= j < |inputs| && 0 <= i < AskedIn(s, inputs, j) ==>
         var n := CallAt(s, inputs, j, i);
         n < |calls| && inputs[j].resolve(i) == Reply(l, states[n + 1], inputs[j].discovered.value[i], calls[n].start)
  }

  /** The log vouches for connection `i` of scan `j` when the resolver is asked about it. */
  ghost predicate Vouched(
    s: Monitor.Setup, l: Library, inputs: seq<Monitor.ScanInput>, calls: seq<Call>, states: seq<Cache>, j: nat, i: nat)
    requires j < |inputs| && i < AskedIn(s, inputs, j)
  {
    var n := CallAt(s, inputs, j, i);
    && n < |calls| && n + 1 < |states|
    && Vouches(s, l, calls, states, n + 1, inputs[j].discovered.value[i], calls[n].start)
  }

  /** The policy alone would let the session be terminated. */
  predicate Exposed(s: Monitor.Setup, c: Connection) {
    && s.config.mode != "observe" && s.config.enforce
    && !Monitor.ObservationAllows(s, c.remote.addr)
    && (s.config.policy.terminate == [] || Monitor.ObservationTerminates(s, c.remote.addr))
  }

  lemma SeenIsReplied(
    s: Monitor.Setup, l: Library, inputs: seq<Monitor.ScanInput>, calls: seq<Call>, states: seq<Cache>, j: nat, i: nat)
    requires Threaded(s, l, inputs, calls, states) && j < |inputs| && i < AskedIn(s, inputs, j)
    ensures var n := CallAt(s, inputs, j, i);
            && n < |calls| && |states| == |calls| + 1
            && Monitor.Seen(s, inputs[j], i) ==
               SeenWith(l, states[n + 1], inputs[j].discovered.value[i], calls[n].start)
  {
    var n := CallAt(s, inputs, j, i);
    assert inputs[j].resolve(i) == Reply(l, states[n + 1], inputs[j].discovered.value[i], calls[n].start);
  }

  lemma RunRecognizesIffVouched(
    s: Monitor.Setup, l: Library, inputs: seq<Monitor.ScanInput>, calls: seq<Call>, states: seq<Cache>, j: nat, i: nat)
    requires Threaded(s, l, inputs, calls, states) && Injective(l.format)
    requires j < |inputs| && i < AskedIn(s, inputs, j) && inputs[j].discovered.value[i].fingerprints == []
    ensures Monitor.Recognized(s, Monitor.Seen(s, inputs[j], i)) <==> Vouched(s, l, inputs, calls, states, j, i)
  {
    SeenIsReplied(s, l, inputs, calls, states, j, i);
    var n := CallAt(s, inputs, j, i);
    RepliedIsVouched(
      s, l, calls, states, n, inputs[j].discovered.value[i], calls[n].start, Monitor.Seen(s, inputs[j], i));
  }

  lemma RepliedIsVouched(
    s: Monitor.Setup, l: Library, calls: seq<Call>, states: seq<Cache>, n: nat, c: Connection, start: Option<Time>,
    seen: Connection)
    requires IsRun(l, calls, states) && n < |calls| && Injective(l.format) && c.fingerprints == []
    requires seen == SeenWith(l, states[n + 1], c, start)
    ensures Monitor.Recognized(s, seen) <==> Vouches(s, l, calls, states, n + 1, c, start)
  {
    RecognizedIffAuthenticated(s, l, calls, states, n + 1, c, start);
  }

  /** Over whole runs: a scan tries to terminate a session it has asked the resolver about exactly
      when the policy exposes it, the log does not vouch for it at that moment, it is not on record
      and was not terminated earlier in the same scan. */
  lemma RunAttemptsExactly(
    s: Monitor.Setup, l: Library, inputs: seq<Monitor.ScanInput>, calls: seq<Call>, states: seq<Cache>, j: nat, i: nat)
    requires Threaded(s, l, inputs, calls, states) && Injective(l.format)
    requires j < |inputs| && i < AskedIn(s, inputs, j) && inputs[j].discovered.value[i].fingerprints == []
    ensures MonitorRuns.Attempted(MonitorRuns.ScanAt(s, inputs, j).calls, i) <==>
            && s.hasEnforcer
            && Exposed(s, inputs[j].discovered.value[i])
            && !Vouched(s, l, inputs, calls, states, j, i)
            && !MonitorRuns.Remembered(s, inputs, j, Monitor.KeyAt(s, inputs[j], i))
            && !MonitorRuns.HandledBefore(s, inputs[j], i)
  {
    RunRecognizesIffVouched(s, l, inputs, calls, states, j, i);
    var before := MonitorRuns.After(s, inputs, j).terminated;
    MonitorRuns.ScanAttemptsExactly(s, inputs[j], before, |inputs[j].discovered.value|, i);
    MonitorRuns.TerminatedHistory(s, inputs, j, Monitor.KeyAt(s, inputs[j], i));
    assert MonitorRuns.CondemnedAt(s, inputs[j], i) <==>
           Exposed(s, inputs[j].discovered.value[i]) && !Vouched(s, l, inputs, calls, states, j, i);
  }

  /** With an enforcer every connection of every scan is asked about. */
  lemma {:induction false} EveryoneIsAsked(s: Monitor.Setup, input: Monitor.ScanInput, start: set<string>, n: nat)
    requires s.hasEnforcer && input.discovered.Some? && n <= |input.discovered.value|
    ensures Asked(s, input, start, n) == n && !Monitor.WalkTo(s, input, start, n).stopped
  {
    if n > 0 {
      EveryoneIsAsked(s, input, start, n - 1);
    }
  }
}
