/** What the monitor guarantees over whole runs: which sessions are terminated and when, that the
    inventory has no say in it, and how fresh the inventory is (internal/monitor/monitor.go). */
module MonitorRuns {
  import opened Basics
  import opened Netip
  import opened Session
  import opened Identity
  import opened Text
  import opened Monitor
  import Config
  import Probe

  // ----- one scan -----

  predicate Attempted(calls: seq<Attempt>, i: nat) {
    exists k :: 0 <= k < |calls| && calls[k].index == i
  }

  /** A call that succeeded for that session. */
  ghost predicate Killed(s: Setup, calls: seq<Attempt>, key: string) {
    exists k :: 0 <= k < |calls| && calls[k].ok && Key(s.format, calls[k].connection) == key
  }

  predicate CondemnedAt(s: Setup, input: ScanInput, i: nat)
    requires input.discovered.Some? && i < |input.discovered.value|
  {
    Condemned(s, Seen(s, input, i))
  }

  /** The session of `i` was condemned and terminated at an earlier place of the same scan. */
  predicate HandledBefore(s: Setup, input: ScanInput, i: nat)
    requires input.discovered.Some? && i < |input.discovered.value|
  {
    exists p :: 0 <= p < i && CondemnedAt(s, input, p) && KeyAt(s, input, p) == KeyAt(s, input, i) && input.kill(p)
  }

  /** Which connections a scan tries to terminate. */
  predicate ShouldAttempt(s: Setup, input: ScanInput, start: set<string>, i: nat)
    requires input.discovered.Some? && i < |input.discovered.value|
  {
    s.hasEnforcer && CondemnedAt(s, input, i) && KeyAt(s, input, i) !in start && !HandledBefore(s, input, i)
  }

  /** The calls are faithful: each is about the connection at its place, in the order of the
      list, with the enforcer's answer. */
  ghost predicate Faithful(s: Setup, input: ScanInput, calls: seq<Attempt>, n: nat)
    requires input.discovered.Some? && n <= |input.discovered.value|
  {
    && (forall k :: 0 <= k < |calls| ==>
          && calls[k].index < n && calls[k].connection == Seen(s, input, calls[k].index)
          && calls[k].ok == input.kill(calls[k].index))
    && (forall k, m :: 0 <= k < m < |calls| ==> calls[k].index < calls[m].index)
  }

  lemma {:induction false} WalkIsFaithful(s: Setup, input: ScanInput, start: set<string>, n: nat)
    requires input.discovered.Some? && n <= |input.discovered.value|
    ensures Faithful(s, input, WalkTo(s, input, start, n).calls, n)
  {
    if n > 0 {
      WalkIsFaithful(s, input, start, n - 1);
      var before := WalkTo(s, input, start, n - 1);
      FaithfulStep(s, input, before, n - 1);
      assert WalkTo(s, input, start, n) == Visit(s, input, n - 1, before);
    }
  }

  lemma FaithfulStep(s: Setup, input: ScanInput, w: Walk, i: nat)
    requires input.discovered.Some? && i < |input.discovered.value| && Faithful(s, input, w.calls, i)
    ensures Faithful(s, input, Visit(s, input, i, w).calls, i + 1)
  {
  }

  lemma {:induction false} WalkTerminated(s: Setup, input: ScanInput, start: set<string>, n: nat, key: string)
    requires input.discovered.Some? && n <= |input.discovered.value|
    ensures var w := WalkTo(s, input, start, n);
            key in w.terminated <==> key in start || Killed(s, w.calls, key)
  {
    if n > 0 {
      WalkTerminated(s, input, start, n - 1, key);
      var v, w := WalkTo(s, input, start, n - 1), WalkTo(s, input, start, n);
      if v.calls != w.calls {
        var last := Attempt(n - 1, Seen(s, input, n - 1), input.kill(n - 1));
        assert w.calls == v.calls + [last];
        KilledAppend(s, v.calls, last, key);
      }
    }
  }

  lemma KilledAppend(s: Setup, calls: seq<Attempt>, last: Attempt, key: string)
    ensures Killed(s, calls + [last], key) <==>
            Killed(s, calls, key) || (last.ok && Key(s.format, last.connection) == key)
  {
    var more := calls + [last];
    assert more[|calls|] == last;
    if Killed(s, calls, key) {
      var k :| 0 <= k < |calls| && calls[k].ok && Key(s.format, calls[k].connection) == key;
      assert more[k] == calls[k];
    }
  }

  /** The set after `n` connections, without reference to the calls. */
  lemma {:induction false} WalkSet(s: Setup, input: ScanInput, start: set<string>, n: nat, key: string)
    requires input.discovered.Some? && n <= |input.discovered.value| && s.hasEnforcer
    ensures var w := WalkTo(s, input, start, n);
            && !w.stopped
            && (key in w.terminated <==> key in start || KilledBefore(s, input, n, key))
  {
    if n > 0 {
      WalkSet(s, input, start, n - 1, key);
    }
  }

  predicate KilledBefore(s: Setup, input: ScanInput, n: nat, key: string)
    requires input.discovered.Some? && n <= |input.discovered.value|
  {
    exists p :: 0 <= p < n && CondemnedAt(s, input, p) && KeyAt(s, input, p) == key && input.kill(p)
  }

  /** Exactly the condemned connections of sessions that are not yet terminated are attempted, a
      session that has been terminated in the same scan not again; without an enforcer, none. */
  lemma {:induction false} ScanAttemptsExactly(s: Setup, input: ScanInput, start: set<string>, n: nat, i: nat)
    requires input.discovered.Some? && i < n <= |input.discovered.value|
    ensures Attempted(WalkTo(s, input, start, n).calls, i) <==> ShouldAttempt(s, input, start, i)
  {
    var v, w := WalkTo(s, input, start, n - 1), WalkTo(s, input, start, n);
    WalkIsFaithful(s, input, start, n - 1);
    if s.hasEnforcer {
      WalkSet(s, input, start, n - 1, KeyAt(s, input, n - 1));
    }
    AttemptedAppend(v.calls, Attempt(n - 1, Seen(s, input, n - 1), input.kill(n - 1)), i);
    if i < n - 1 {
      ScanAttemptsExactly(s, input, start, n - 1, i);
    } else {
      assert !Attempted(v.calls, i);
    }
    if !s.hasEnforcer {
      NoEnforcerNoCalls(s, input, start, n);
    }
  }

  lemma AttemptedAppend(calls: seq<Attempt>, last: Attempt, i: nat)
    ensures Attempted(calls + [last], i) <==> Attempted(calls, i) || last.index == i
  {
    var more := calls + [last];
    assert more[|calls|] == last;
    if Attempted(calls, i) {
      var k :| 0 <= k < |calls| && calls[k].index == i;
      assert more[k].index == i;
    }
  }

  lemma {:induction false} NoEnforcerNoCalls(s: Setup, input: ScanInput, start: set<string>, n: nat)
    requires input.discovered.Some? && n <= |input.discovered.value| && !s.hasEnforcer
    ensures WalkTo(s, input, start, n).calls == []
  {
    if n > 0 {
      NoEnforcerNoCalls(s, input, start, n - 1);
    }
  }

  /** In observe mode, or with enforcement off, or for a recognized or permitted connection,
      nothing is ever called. */
  lemma OnlyCondemnedAreAttempted(s: Setup, state: State, input: ScanInput)
    ensures forall k :: 0 <= k < |ScanStep(s, state, input).calls| ==>
              AttemptedRightly(s, state, ScanStep(s, state, input).calls[k].connection)
  {
    forall k | 0 <= k < |ScanStep(s, state, input).calls|
      ensures AttemptedRightly(s, state, ScanStep(s, state, input).calls[k].connection)
    {
      AttemptIsRight(s, state, input, k);
    }
  }

  predicate AttemptedRightly(s: Setup, state: State, c: Connection) {
    && Condemned(s, c) && s.config.mode != "observe" && s.config.enforce
    && !Recognized(s, c) && !ObservationAllows(s, c.remote.addr)
    && Key(s.format, c) !in state.terminated
  }

  lemma AttemptIsRight(s: Setup, state: State, input: ScanInput, k: nat)
    requires k < |ScanStep(s, state, input).calls|
    ensures AttemptedRightly(s, state, ScanStep(s, state, input).calls[k].connection)
  {
    var calls, n := ScanStep(s, state, input).calls, |input.discovered.value|;
    WalkIsFaithful(s, input, state.terminated, n);
    assert Attempted(calls, calls[k].index);
    ScanAttemptsExactly(s, input, state.terminated, n, calls[k].index);
    assert Key(s.format, calls[k].connection) == KeyAt(s, input, calls[k].index);
  }

  /** After a completed scan every condemned connection is in the record of terminated sessions,
      or terminating one of its session was tried in that very scan, at its own place, and failed. */
  lemma CondemnedAreHandled(s: Setup, state: State, input: ScanInput, i: nat)
    requires ScanStep(s, state, input).outcome == Completed && input.discovered.Some?
    requires i < |input.discovered.value| && CondemnedAt(s, input, i)
    ensures var r := ScanStep(s, state, input);
            || KeyAt(s, input, i) in r.state.terminated
            || exists k :: 0 <= k < |r.calls| && r.calls[k].index == i && !r.calls[k].ok
  {
    var n := |input.discovered.value|;
    var w := WalkTo(s, input, state.terminated, n);
    var key := KeyAt(s, input, i);
    assert key in ActiveKeys(s, input, n);
    if s.hasEnforcer {
      WalkSet(s, input, state.terminated, n, key);
      ScanAttemptsExactly(s, input, state.terminated, n, i);
      WalkIsFaithful(s, input, state.terminated, n);
      if ShouldAttempt(s, input, state.terminated, i) {
        var k :| 0 <= k < |w.calls| && w.calls[k].index == i;
        assert w.calls[k].ok ==> KilledBefore(s, input, n, key);
      } else if HandledBefore(s, input, i) {
        assert KilledBefore(s, input, n, key);
      }
    } else {
      MissingEnforcerStops(s, input, state.terminated, n, i);
    }
  }

  lemma {:induction false} MissingEnforcerStops(s: Setup, input: ScanInput, start: set<string>, n: nat, i: nat)
    requires input.discovered.Some? && i < n <= |input.discovered.value| && !s.hasEnforcer
    requires CondemnedAt(s, input, i) && !WalkTo(s, input, start, n).stopped
    ensures KeyAt(s, input, i) in start && WalkTo(s, input, start, n).terminated == start
  {
    UntouchedWithoutEnforcer(s, input, start, n - 1);
    if i < n - 1 {
      MissingEnforcerStops(s, input, start, n - 1, i);
    }
  }

  lemma {:induction false} UntouchedWithoutEnforcer(s: Setup, input: ScanInput, start: set<string>, n: nat)
    requires input.discovered.Some? && n <= |input.discovered.value| && !s.hasEnforcer
    ensures WalkTo(s, input, start, n).terminated == start
  {
    if n > 0 {
      UntouchedWithoutEnforcer(s, input, start, n - 1);
    }
  }

  lemma {:induction false} StopsIff(s: Setup, input: ScanInput, start: set<string>, n: nat)
    requires input.discovered.Some? && n <= |input.discovered.value| && !s.hasEnforcer
    ensures WalkTo(s, input, start, n).stopped <==>
            exists i :: 0 <= i < n && CondemnedAt(s, input, i) && KeyAt(s, input, i) !in start
  {
    if n > 0 {
      StopsIff(s, input, start, n - 1);
      UntouchedWithoutEnforcer(s, input, start, n - 1);
    }
  }

  /** A scan completes exactly when it can discover and does, and either has an enforcer or meets
      no condemned connection of a session that is not on record. */
  lemma ScanCompletesIff(s: Setup, state: State, input: ScanInput)
    ensures ScanStep(s, state, input).outcome == Completed <==>
            && s.hasDiscoverer && input.discovered.Some?
            && (s.hasEnforcer || forall i :: 0 <= i < |input.discovered.value| && CondemnedAt(s, input, i) ==>
                                   KeyAt(s, input, i) in state.terminated)
  {
    if s.hasDiscoverer && input.discovered.Some? {
      var n := |input.discovered.value|;
      if s.hasEnforcer {
        WalkSet(s, input, state.terminated, n, "");
      } else {
        StopsIff(s, input, state.terminated, n);
      }
    }
  }

  /** One session is terminated at most once in a scan, and never when it already was before. */
  lemma OneSuccessPerScan(s: Setup, state: State, input: ScanInput, k: nat, m: nat)
    requires var calls := ScanStep(s, state, input).calls;
             k < m < |calls| && calls[k].ok && calls[m].ok
    ensures var calls := ScanStep(s, state, input).calls;
            Key(s.format, calls[k].connection) != Key(s.format, calls[m].connection)
  {
    var calls := ScanStep(s, state, input).calls;
    var n := |input.discovered.value|;
    WalkIsFaithful(s, input, state.terminated, n);
    assert Attempted(calls, calls[k].index) && Attempted(calls, calls[m].index);
    ScanAttemptsExactly(s, input, state.terminated, n, calls[k].index);
    ScanAttemptsExactly(s, input, state.terminated, n, calls[m].index);
  }

  // ----- runs -----

  /** The state after the first `n` scans of a new monitor. */
  ghost function After(s: Setup, inputs: seq<ScanInput>, n: nat): State
    requires n <= |inputs|
  {
    StateAfter(s, INITIAL, inputs, n)
  }

  /** What the scan at place `i` of the run did. */
  ghost function ScanAt(s: Setup, inputs: seq<ScanInput>, i: nat): Scanned
    requires i < |inputs|
  {
    ScanOf(s, INITIAL, inputs, i)
  }

  ghost predicate KilledAt(s: Setup, inputs: seq<ScanInput>, i: nat, key: string)
    requires i < |inputs|
  {
    Killed(s, ScanAt(s, inputs, i).calls, key)
  }

  /** A completed scan that did not list the session. */
  ghost predicate Missed(s: Setup, inputs: seq<ScanInput>, i: nat, key: string)
    requires i < |inputs|
  {
    ScanAt(s, inputs, i).outcome == Completed && !Lists(s, inputs[i], key)
  }

  /** Terminated in scan `j`, and listed by every completed scan since. */
  ghost predicate KilledAndListedSince(s: Setup, inputs: seq<ScanInput>, j: nat, n: nat, key: string)
    requires j < n <= |inputs|
  {
    KilledAt(s, inputs, j, key) && forall i :: j <= i < n ==> !Missed(s, inputs, i, key)
  }

  ghost predicate Remembered(s: Setup, inputs: seq<ScanInput>, n: nat, key: string)
    requires n <= |inputs|
  {
    exists j :: 0 <= j < n && KilledAndListedSince(s, inputs, j, n, key)
  }

  lemma KilledIsListed(s: Setup, state: State, input: ScanInput, key: string)
    requires Killed(s, ScanStep(s, state, input).calls, key)
    ensures Lists(s, input, key)
  {
    var calls := ScanStep(s, state, input).calls;
    var k :| 0 <= k < |calls| && calls[k].ok && Key(s.format, calls[k].connection) == key;
    WalkIsFaithful(s, input, state.terminated, |input.discovered.value|);
    assert KeyAt(s, input, calls[k].index) == key;
  }

  lemma KilledIsNew(s: Setup, state: State, input: ScanInput, key: string)
    requires Killed(s, ScanStep(s, state, input).calls, key)
    ensures key !in state.terminated
  {
    OnlyCondemnedAreAttempted(s, state, input);
  }

  /** One scan's effect on the record. */
  lemma ScanTerminated(s: Setup, state: State, input: ScanInput, key: string)
    ensures var r := ScanStep(s, state, input);
            key in r.state.terminated <==>
            && (key in state.terminated || Killed(s, r.calls, key))
            && (r.outcome == Completed ==> Lists(s, input, key))
  {
    if s.hasDiscoverer && input.discovered.Some? {
      WalkTerminated(s, input, state.terminated, |input.discovered.value|, key);
    }
  }

  /** Between scans a session is on record exactly when some scan terminated it and every
      completed scan from that one on has listed it. Scans that fail change nothing but what they
      terminated before failing. */
  lemma {:induction false} TerminatedHistory(s: Setup, inputs: seq<ScanInput>, n: nat, key: string)
    requires n <= |inputs|
    ensures key in After(s, inputs, n).terminated <==> Remembered(s, inputs, n, key)
  {
    if n > 0 {
      TerminatedHistory(s, inputs, n - 1, key);
      HistoryStep(s, inputs, n - 1, key);
    }
  }

  /** The record and the history move alike. */
  lemma HistoryStep(s: Setup, inputs: seq<ScanInput>, n: nat, key: string)
    requires n < |inputs|
    requires key in After(s, inputs, n).terminated <==> Remembered(s, inputs, n, key)
    ensures key in After(s, inputs, n + 1).terminated <==> Remembered(s, inputs, n + 1, key)
  {
    RecordStep(s, inputs, n, key);
    RememberedStep(s, inputs, n, key);
  }

  lemma RecordStep(s: Setup, inputs: seq<ScanInput>, n: nat, key: string)
    requires n < |inputs|
    ensures key in After(s, inputs, n + 1).terminated <==>
            (key in After(s, inputs, n).terminated || KilledAt(s, inputs, n, key)) && !Missed(s, inputs, n, key)
  {
    ScanTerminated(s, After(s, inputs, n), inputs[n], key);
  }

  lemma RememberedStep(s: Setup, inputs: seq<ScanInput>, n: nat, key: string)
    requires n < |inputs|
    ensures Remembered(s, inputs, n + 1, key) <==>
            (Remembered(s, inputs, n, key) || KilledAt(s, inputs, n, key)) && !Missed(s, inputs, n, key)
  {
    if Remembered(s, inputs, n, key) && !Missed(s, inputs, n, key) {
      var j :| 0 <= j < n && KilledAndListedSince(s, inputs, j, n, key);
      assert KilledAndListedSince(s, inputs, j, n + 1, key);
    } else if KilledAt(s, inputs, n, key) && !Missed(s, inputs, n, key) {
      assert KilledAndListedSince(s, inputs, n, n + 1, key);
    }
    if Remembered(s, inputs, n + 1, key) {
      var j :| 0 <= j < n + 1 && KilledAndListedSince(s, inputs, j, n + 1, key);
      assert j < n ==> KilledAndListedSince(s, inputs, j, n, key);
    }
  }

  /** Two successes for one session are separated by a completed scan that did not list it. */
  lemma SuccessesAreSeparated(s: Setup, inputs: seq<ScanInput>, j: nat, k: nat, key: string)
    requires j < k < |inputs| && KilledAt(s, inputs, j, key) && KilledAt(s, inputs, k, key)
    ensures exists i :: j < i < k && Missed(s, inputs, i, key)
  {
    KilledIsNew(s, After(s, inputs, k), inputs[k], key);
    TerminatedHistory(s, inputs, k, key);
    assert !KilledAndListedSince(s, inputs, j, k, key);
    var i :| j <= i < k && Missed(s, inputs, i, key);
    assert i != j by {
      KilledIsListed(s, After(s, inputs, j), inputs[j], key);
    }
  }

  // ----- the inventory has no say -----

  /** Two setups that differ at most in the prober and in the probe section. */
  ghost predicate SameEnforcement(a: Setup, b: Setup) {
    b == a.(hasProber := b.hasProber,
            config := a.config.(networkProbes := b.config.networkProbes, probeNetworks := b.config.probeNetworks))
  }

  /** Two scans that meet the same connections, identities and enforcer. */
  ghost predicate SameSessions(a: ScanInput, b: ScanInput) {
    a.discovered == b.discovered && a.resolve == b.resolve && a.kill == b.kill
  }

  lemma {:induction false} SameDevices(
    a: Setup, b: Setup, devices: seq<Config.Device>, user: string, keys: seq<string>, address: Addr)
    requires SameEnforcement(a, b)
    ensures Config.FirstDevice(a.parser, a.config, devices, user, keys, address)
            == Config.FirstDevice(b.parser, b.config, devices, user, keys, address)
  {
    if devices != [] {
      SameDevices(a, b, devices[1..], user, keys, address);
    }
  }

  lemma SameCondemned(a: Setup, b: Setup, c: Connection)
    requires SameEnforcement(a, b)
    ensures Condemned(a, c) <==> Condemned(b, c)
  {
    SameDevices(a, b, a.config.devices, c.user, c.fingerprints, c.remote.addr.Unmap());
  }

  lemma {:induction false} SameWalk(a: Setup, b: Setup, x: ScanInput, y: ScanInput, start: set<string>, n: nat)
    requires SameEnforcement(a, b) && SameSessions(x, y)
    requires x.discovered.Some? && n <= |x.discovered.value|
    ensures WalkTo(a, x, start, n) == WalkTo(b, y, start, n)
  {
    if n > 0 {
      SameWalk(a, b, x, y, start, n - 1);
      SameCondemned(a, b, Seen(a, x, n - 1));
    }
  }

  /** Two runs over the same sessions make the same calls, end each scan alike and keep the same
      record, whatever their probers reply, whenever their clocks tick and whether or not probing
      is configured at all. */
  lemma {:induction false} EnforcementIgnoresInventory(a: Setup, b: Setup, x: seq<ScanInput>, y: seq<ScanInput>, n: nat)
    requires SameEnforcement(a, b)
    requires |x| == |y| && forall i :: 0 <= i < |x| ==> SameSessions(x[i], y[i])
    requires n <= |x|
    ensures After(a, x, n).terminated == After(b, y, n).terminated
    ensures forall i :: 0 <= i < n ==> ScanAt(a, x, i).calls == ScanAt(b, y, i).calls
    ensures forall i :: 0 <= i < n ==> ScanAt(a, x, i).outcome == ScanAt(b, y, i).outcome
  {
    if n > 0 {
      EnforcementIgnoresInventory(a, b, x, y, n - 1);
      SameScan(a, b, x[n - 1], y[n - 1], After(a, x, n - 1), After(b, y, n - 1));
    }
  }

  lemma SameScan(a: Setup, b: Setup, x: ScanInput, y: ScanInput, p: State, q: State)
    requires SameEnforcement(a, b) && SameSessions(x, y) && p.terminated == q.terminated
    ensures var r, t := ScanStep(a, p, x), ScanStep(b, q, y);
            r.calls == t.calls && r.outcome == t.outcome && r.state.terminated == t.state.terminated
  {
    if x.discovered.Some? {
      SameWalk(a, b, x, y, p.terminated, |x.discovered.value|);
      assert forall i :: 0 <= i < |x.discovered.value| ==> KeyAt(a, x, i) == KeyAt(b, y, i);
      assert ActiveKeys(a, x, |x.discovered.value|) == ActiveKeys(b, y, |x.discovered.value|);
    }
  }

  // ----- freshness -----

  /** The scan at place `i` starts a probe. */
  ghost predicate Starts(s: Setup, inputs: seq<ScanInput>, i: nat)
    requires i < |inputs|
  {
    s.hasDiscoverer && Due(s, After(s, inputs, i).nextProbe, inputs[i].now)
  }

  ghost predicate Refreshes(s: Setup, inputs: seq<ScanInput>, i: nat)
    requires i < |inputs|
  {
    Starts(s, inputs, i) && Yields(s, inputs[i])
  }

  /** The clock never makes the next probe time look unset. */
  ghost predicate ClockRuns(s: Setup, inputs: seq<ScanInput>) {
    forall i :: 0 <= i < |inputs| ==> inputs[i].now + s.config.networkProbes.interval != 0
  }

  lemma {:induction false} NextProbeIsLater(s: Setup, inputs: seq<ScanInput>, n: nat, i: nat)
    requires i < n <= |inputs| && ClockRuns(s, inputs) && s.config.networkProbes.interval > 0
    requires Starts(s, inputs, i)
    ensures var next := After(s, inputs, n).nextProbe;
            next != 0 && inputs[i].now + s.config.networkProbes.interval <= next
  {
    if i < n - 1 {
      NextProbeIsLater(s, inputs, n - 1, i);
    }
  }

  /** Probes start at least an interval apart, whatever the clock does in between. */
  lemma ProbesAreSpaced(s: Setup, inputs: seq<ScanInput>, i: nat, j: nat)
    requires i < j < |inputs| && ClockRuns(s, inputs) && s.config.networkProbes.interval > 0
    requires Starts(s, inputs, i) && Starts(s, inputs, j)
    ensures inputs[j].now - inputs[i].now >= s.config.networkProbes.interval
  {
    NextProbeIsLater(s, inputs, j, i);
  }

  /** The last of the first `n` scans that was due to start a probe, by the configuration and the
      clock alone: probing is on, and there was none before or an interval has passed since. */
  ghost function LastDue(s: Setup, inputs: seq<ScanInput>, n: nat): (r: Option<nat>)
    requires n <= |inputs|
    ensures r.Some? ==> r.value < n
  {
    if n == 0 then None
    else
      var before := LastDue(s, inputs, n - 1);
      var interval := s.config.networkProbes.interval;
      if s.hasDiscoverer && s.config.networkProbes.enabled
         && (before.None? || inputs[n - 1].now - inputs[before.value].now >= interval
             || inputs[before.value].now + interval == 0)
      then Some(n - 1) else before
  }

  lemma NextProbeStep(s: Setup, state: State, input: ScanInput)
    ensures ScanStep(s, state, input).state.nextProbe ==
            if s.hasDiscoverer && Due(s, state.nextProbe, input.now)
            then input.now + s.config.networkProbes.interval else state.nextProbe
  {
  }

  /** The time of the next probe is an interval after the last one that was due, and unset before
      the first. An interval that would end at the unset instant counts as passed. */
  lemma {:induction false} NextProbeIsScheduled(s: Setup, inputs: seq<ScanInput>, n: nat)
    requires n <= |inputs|
    ensures After(s, inputs, n).nextProbe ==
            match LastDue(s, inputs, n)
            case None => 0
            case Some(i) => inputs[i].now + s.config.networkProbes.interval
  {
    if n > 0 {
      NextProbeIsScheduled(s, inputs, n - 1);
      NextProbeStep(s, After(s, inputs, n - 1), inputs[n - 1]);
    }
  }

  /** A probe starts exactly when one is due, and never when probing is off. */
  lemma ProbesStartExactly(s: Setup, inputs: seq<ScanInput>, i: nat)
    requires i < |inputs|
    ensures Starts(s, inputs, i) <==> LastDue(s, inputs, i + 1) == Some(i)
    ensures !s.config.networkProbes.enabled ==> LastDue(s, inputs, i + 1) != Some(i)
  {
    NextProbeIsScheduled(s, inputs, i);
  }

  /** What a scan does to the inventory: one that starts a probe sets the next probe time and, when
      prober, networks and reply are there, takes over the reply with its expiry; one that does not
      leaves all of it alone. Whether discovery succeeds does not matter. */
  lemma ScanInventory(s: Setup, inputs: seq<ScanInput>, i: nat)
    requires i < |inputs|
    ensures var was, now, interval :=
              After(s, inputs, i), After(s, inputs, i + 1), s.config.networkProbes.interval;
            if LastDue(s, inputs, i + 1) != Some(i)
            then now == was.(terminated := now.terminated)
            else
              && now.nextProbe == inputs[i].now + interval
              && if s.hasProber && Resolvable(s) && inputs[i].probe.Some?
                 then now.inventory == inputs[i].probe.value
                      && now.inventoryExpires == inputs[i].now + Doubled(interval)
                 else now.inventory == was.inventory && now.inventoryExpires == was.inventoryExpires
  {
    ProbesStartExactly(s, inputs, i);
  }

  /** The last of the first `n` scans whose probe gave a result. */
  ghost function LastRefresh(s: Setup, inputs: seq<ScanInput>, n: nat): (r: Option<nat>)
    requires n <= |inputs|
    ensures r.Some? ==> r.value < n && Refreshes(s, inputs, r.value)
    ensures forall i :: (if r.Some? then r.value + 1 else 0) <= i < n ==> !Refreshes(s, inputs, i)
  {
    if n == 0 then None
    else if Refreshes(s, inputs, n - 1) then Some(n - 1)
    else LastRefresh(s, inputs, n - 1)
  }

  lemma {:induction false} InventoryState(s: Setup, inputs: seq<ScanInput>, n: nat)
    requires n <= |inputs|
    ensures var r, state := LastRefresh(s, inputs, n), After(s, inputs, n);
            if r.None? then state.inventoryExpires == 0
            else
              && state.inventory == inputs[r.value].probe.value
              && state.inventoryExpires == inputs[r.value].now + Doubled(s.config.networkProbes.interval)
  {
    if n > 0 {
      InventoryState(s, inputs, n - 1);
    }
  }

  /** What a reader sees at time `t` after `n` scans: nothing, or exactly the result of the last
      successful probe, begun less than two intervals before. */
  lemma {:induction false} InventoryIsLatestProbe(s: Setup, inputs: seq<ScanInput>, n: nat, t: Time)
    requires n <= |inputs| && s.config.networkProbes.interval > 0
    ensures var r, seen := LastRefresh(s, inputs, n), Visible(After(s, inputs, n), t);
            seen != [] ==>
              && r.Some? && seen == inputs[r.value].probe.value
              && t - inputs[r.value].now < 2 * s.config.networkProbes.interval
  {
    InventoryState(s, inputs, n);
  }

  /** And it sees that result for all of that time, when twice the interval fits the 64-bit
      duration; when it does not, the inventory expires at once and is never seen. */
  lemma {:induction false} InventoryIsSeen(s: Setup, inputs: seq<ScanInput>, n: nat, t: Time)
    requires n <= |inputs| && 0 < s.config.networkProbes.interval < Probe.TWO_63
    requires LastRefresh(s, inputs, n).Some?
    requires var now := inputs[LastRefresh(s, inputs, n).value].now; 0 < now <= t
    ensures var r, interval := LastRefresh(s, inputs, n).value, s.config.networkProbes.interval;
            var seen, result := Visible(After(s, inputs, n), t), inputs[r].probe.value;
            && (2 * interval < Probe.TWO_63 && t - inputs[r].now < 2 * interval ==> seen == result)
            && (2 * interval >= Probe.TWO_63 ==> seen == [])
  {
    InventoryState(s, inputs, n);
  }

  /** In an accepted configuration a probe that starts can only fail for want of a prober or in
      the prober: its networks always resolve. */
  lemma AcceptedIsResolvable(s: Setup)
    requires Config.Accepted(s.parser, s.config)
    ensures Resolvable(s)
  {
    forall i | 0 <= i < |s.config.probeNetworks|
      ensures Config.NamedPrefix(s.parser, s.config.networks, s.config.probeNetworks[i]).Some?
    {
      Config.AcceptedNamesResolve(s.parser, s.config, i);
    }
  }

  // ----- policy lists -----

  /** The library's address parser takes no surrounding space. */
  ghost predicate RefusesPadding(t: Config.Parser) {
    forall value :: Padded(value) ==> t.addr(value).None?
  }

  /** Validation reads the list as allowing that address. */
  ghost predicate ReadsAs(t: Config.Parser, values: seq<string>, address: Addr) {
    exists i :: 0 <= i < |values| && Config.PolicyAddress(t, values[i]) == Some(address.Unmap())
  }

  /** A validated list means at run time what validation read exactly when none of its entries
      has surrounding space: such an entry is accepted, and then never matches. */
  lemma PolicyMeansWhatWasValidatedIff(t: Config.Parser, values: seq<string>)
    requires Config.ValidPolicy(t, values) && RefusesPadding(t)
    ensures (forall a :: Listed(t, values, a) <==> ReadsAs(t, values, a))
            <==> forall i :: 0 <= i < |values| ==> !Padded(values[i])
  {
    forall i | 0 <= i < |values| ensures TrimSpace(values[i]) == values[i] <==> !Padded(values[i]) {
      TrimSpaceIdentity(values[i]);
    }
    if i :| 0 <= i < |values| && Padded(values[i]) {
      PaddedNeverMatches(t, values, i);
    } else {
      forall a ensures Listed(t, values, a) <==> ReadsAs(t, values, a) {
        if Listed(t, values, a) {
          var value :| value in values && t.addr(value).Some? && t.addr(value).value.Unmap() == a.Unmap();
          var k :| 0 <= k < |values| && values[k] == value;
          assert Config.PolicyAddress(t, values[k]) == Some(a.Unmap());
        }
      }
    }
  }

  /** The address of a padded entry is not matched by the list at all. */
  lemma {:induction false} PaddedNeverMatches(t: Config.Parser, values: seq<string>, i: nat)
    requires Config.ValidPolicy(t, values) && RefusesPadding(t)
    requires i < |values| && Padded(values[i])
    ensures var a := Config.PolicyAddress(t, values[i]);
            a.Some? && ReadsAs(t, values, a.value) && !Listed(t, values, a.value)
  {
    var a := Config.PolicyAddress(t, values[i]).value;
    assert a.Unmap() == a;
    if Listed(t, values, a) {
      var k := ListedAt(t, values, a);
    }
  }

  /** In an accepted configuration no address is both allowed and listed for termination. */
  lemma AllowedIsNeverListedForTermination(s: Setup, a: Addr)
    requires Config.Accepted(s.parser, s.config) && RefusesPadding(s.parser)
    ensures !(ObservationAllows(s, a) && ObservationTerminates(s, a))
  {
    var t, allow, terminate := s.parser, s.config.policy.allow, s.config.policy.terminate;
    if ObservationAllows(s, a) && ObservationTerminates(s, a) {
      var i := ListedAt(t, allow, a);
      var k := ListedAt(t, terminate, a);
      ListsAreDisjoint(t, allow, terminate, i, k);
    }
  }

  lemma ListsAreDisjoint(t: Config.Parser, allow: seq<string>, terminate: seq<string>, i: nat, k: nat)
    requires Config.ValidPolicy(t, allow + terminate) && i < |allow| && k < |terminate|
    ensures Config.PolicyAddress(t, allow[i]) != Config.PolicyAddress(t, terminate[k])
  {
    assert (allow + terminate)[i] == allow[i] && (allow + terminate)[|allow| + k] == terminate[k];
  }

  lemma ListedAt(t: Config.Parser, values: seq<string>, a: Addr) returns (i: nat)
    requires Listed(t, values, a) && RefusesPadding(t)
    ensures i < |values| && Config.PolicyAddress(t, values[i]) == Some(a.Unmap()) && !Padded(values[i])
  {
    var value :| value in values && t.addr(value).Some? && t.addr(value).value.Unmap() == a.Unmap();
    i :| 0 <= i < |values| && values[i] == value;
    TrimSpaceIdentity(value);
  }

  // ----- the policy in the configuration's own terms -----

  /** In an accepted configuration the policy condemns a connection exactly when enforcement is on
      in both places, no device admits it, no allowed address is its own, and either no address is
      listed for termination or its own is; entries with surrounding space count for nothing. */
  lemma CondemnedIff(s: Setup, c: Connection)
    requires Config.Accepted(s.parser, s.config) && RefusesPadding(s.parser)
    ensures Condemned(s, c) <==>
            && s.config.mode == "enforce" && s.config.enforce
            && (forall k :: 0 <= k < |s.config.devices| ==>
                  !Config.Admits(s.parser, s.config, s.config.devices[k], c.user, c.fingerprints, c.remote.addr))
            && !Names(s.parser, s.config.policy.allow, c.remote.addr)
            && (s.config.policy.terminate == [] || Names(s.parser, s.config.policy.terminate, c.remote.addr))
  {
    Config.RecognizedIff(s.parser, s.config, c.user, c.fingerprints, c.remote.addr);
    ListedIffNames(s.parser, s.config.policy.allow, c.remote.addr);
    ListedIffNames(s.parser, s.config.policy.terminate, c.remote.addr);
  }

  /** Some entry without surrounding space is that address. */
  ghost predicate Names(t: Config.Parser, values: seq<string>, a: Addr) {
    exists i :: 0 <= i < |values| && !Padded(values[i]) && Config.PolicyAddress(t, values[i]) == Some(a.Unmap())
  }

  lemma ListedIffNames(t: Config.Parser, values: seq<string>, a: Addr)
    requires RefusesPadding(t)
    ensures Listed(t, values, a) <==> Names(t, values, a)
  {
    if Listed(t, values, a) {
      var i := ListedAt(t, values, a);
    }
    if i :| 0 <= i < |values| && !Padded(values[i]) && Config.PolicyAddress(t, values[i]) == Some(a.Unmap()) {
      TrimSpaceIdentity(values[i]);
      assert values[i] in values;
    }
  }
}
