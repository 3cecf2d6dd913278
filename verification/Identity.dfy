/** The identity cache over the authentication log (internal/monitor/identity.go), from decoded
    log events on. */
module Identity {
  import opened Basics
  import opened Netip
  import opened Session

  /** Nanoseconds; zero is the instant that `IsZero` recognizes. */
  type Time = int

  const SECOND: Time := 1_000_000_000

  datatype SSHIdentity = SSHIdentity(methods: seq<string>, fingerprints: seq<string>)

  const NOBODY: SSHIdentity := SSHIdentity([], [])

  datatype LogRecord = LogRecord(identity: SSHIdentity, timestamp: Time)

  /** The library's address and port parsers and its endpoint format. */
  datatype Library = Library(
    addr: string -> Option<ValidAddr>, port: string -> Option<nat>, format: Endpoint -> string)

  /** A line of the log: no event, a broken event, or an event with its message in fields and
      its time stamp if that is readable. */
  datatype LogLine =
    | Skipped
    | Broken
    | Event(message: seq<string>, pid: int, timestamp: Option<Time>)

  function FirstFingerprint(fields: seq<string>): seq<string> {
    if fields == [] then []
    else if "SHA256:" <= fields[0] then [fields[0]]
    else FirstFingerprint(fields[1..])
  }

  /** "Accepted <method> for <user> from <address> port <port> ...". The address is unmapped. */
  function ParseAccepted(l: Library, fields: seq<string>): Option<(Endpoint, SSHIdentity)> {
    if |fields| < 8 || fields[0] != "Accepted" || fields[2] != "for" || fields[4] != "from" || fields[6] != "port"
    then None
    else
      var address, port := l.addr(fields[5]), l.port(fields[7]);
      if address.None? || port.None? then None
      else
        var fingerprints := if fields[1] == "publickey" then FirstFingerprint(fields[8..]) else [];
        Some((Endpoint(address.value.Unmap(), port.value), SSHIdentity([fields[1]], fingerprints)))
  }

  /** The session and the record of a line that counts. */
  function Entry(l: Library, line: LogLine): Option<(int, Endpoint, LogRecord)> {
    if !line.Event? then None
    else
      var accepted := ParseAccepted(l, line.message);
      if accepted.None? || line.pid <= 0 || line.timestamp.None? then None
      else Some((line.pid, accepted.value.0, LogRecord(accepted.value.1, line.timestamp.value)))
  }

  function EntryKey(l: Library, line: LogLine): Option<string> {
    match Entry(l, line)
    case None => None
    case Some((pid, remote, _)) => Some(SessionKey(l.format, pid, remote))
  }

  /** The record of the last line with that key. */
  function LastRecord(l: Library, lines: seq<LogLine>, key: string): Option<LogRecord> {
    if lines == [] then None
    else
      var last := lines[|lines| - 1];
      if EntryKey(l, last) == Some(key) then Some(Entry(l, last).value.2)
      else LastRecord(l, lines[..|lines| - 1], key)
  }

  predicate Readable(lines: seq<LogLine>) {
    forall i :: 0 <= i < |lines| ==> !lines[i].Broken?
  }

  /** A map that answers like a search from the end. */
  ghost predicate LastWriterWins(l: Library, m: map<string, LogRecord>, lines: seq<LogLine>) {
    forall key :: (key in m <==> LastRecord(l, lines, key).Some?)
                  && (key in m ==> LastRecord(l, lines, key) == Some(m[key]))
  }

  lemma LastRecordAppend(l: Library, lines: seq<LogLine>, line: LogLine, key: string)
    ensures LastRecord(l, lines + [line], key) ==
            if EntryKey(l, line) == Some(key) then Some(Entry(l, line).value.2) else LastRecord(l, lines, key)
  {
    assert (lines + [line])[..|lines|] == lines;
  }

  lemma {:induction false} LastRecordConcat(l: Library, a: seq<LogLine>, b: seq<LogLine>, key: string)
    ensures LastRecord(l, a + b, key) ==
            if LastRecord(l, b, key).Some? then LastRecord(l, b, key) else LastRecord(l, a, key)
  {
    if b == [] {
      assert a + b == a;
    } else {
      var n := |b| - 1;
      assert b == b[..n] + [b[n]] && a + b == (a + b[..n]) + [b[n]];
      LastRecordAppend(l, a + b[..n], b[n], key);
      LastRecordAppend(l, b[..n], b[n], key);
      LastRecordConcat(l, a, b[..n], key);
    }
  }

  /** The records of one reading of the log; a broken event spoils it. */
  method ParseAuthLogRecords(l: Library, lines: seq<LogLine>) returns (r: Option<map<string, LogRecord>>)
    ensures r.Some? <==> Readable(lines)
    ensures r.Some? ==> LastWriterWins(l, r.value, lines)
  {
    var identities: map<string, LogRecord> := map[];
    for i := 0 to |lines|
      invariant Readable(lines[..i])
      invariant LastWriterWins(l, identities, lines[..i])
    {
      var line := lines[i];
      if line.Broken? {
        return None;
      }
      assert lines[..i + 1] == lines[..i] + [line];
      forall key { LastRecordAppend(l, lines[..i], line, key); }
      var entry := Entry(l, line);
      if entry.Some? {
        var (pid, remote, record) := entry.value;
        identities := identities[SessionKey(l.format, pid, remote) := record];
      }
    }
    assert lines[..|lines|] == lines;
    return Some(identities);
  }

  // ----- the cache -----

  datatype LogReply = Unavailable | Lines(lines: seq<LogLine>)

  /** What one call of the resolver meets: the clock, the log and the process's start time. */
  datatype Call = Call(now: Time, log: LogReply, start: Option<Time>)

  datatype Cache = Cache(lastRefresh: Time, failed: bool, identities: map<string, LogRecord>)

  const FRESH: Cache := Cache(0, false, map[])

  /** Whether a call reads the log. */
  predicate Reads(c: Cache, now: Time) {
    c.lastRefresh == 0 || now - c.lastRefresh >= SECOND
  }

  predicate Success(log: LogReply) {
    log.Lines? && Readable(log.lines)
  }

  datatype ResolveError = LogError | StartError

  /** The answer to a lookup once the refresh has succeeded. */
  function Answer(l: Library, identities: map<string, LogRecord>, c: Connection, start: Option<Time>)
    : Result<SSHIdentity, ResolveError>
  {
    var key := Key(l.format, c);
    if key !in identities then Ok(NOBODY)
    else if start.None? then Err(StartError)
    else if identities[key].timestamp < start.value then Ok(NOBODY)
    else Ok(identities[key].identity)
  }

  class SystemIdentityResolver {
    const library: Library
    var lastRefresh: Time
    var failed: bool
    var identities: map<string, LogRecord>

    constructor (library: Library)
      ensures this.library == library && State() == FRESH
    {
      this.library := library;
      lastRefresh, failed, identities := 0, false, map[];
    }

    function State(): Cache
      reads this
    {
      Cache(lastRefresh, failed, identities)
    }

    method Refresh(now: Time, log: LogReply)
      modifies this
      ensures Refreshed(library, old(State()), now, log, State())
    {
      if lastRefresh != 0 && now - lastRefresh < SECOND {
        return;
      }
      lastRefresh := now;
      if log.Unavailable? {
        failed := true;
        return;
      }
      var records := ParseAuthLogRecords(library, log.lines);
      if records.None? {
        failed := true;
        return;
      }
      identities := identities + records.value;
      failed := false;
    }

    method Resolve(c: Connection, call: Call) returns (r: Result<SSHIdentity, ResolveError>)
      modifies this
      ensures Refreshed(library, old(State()), call.now, call.log, State())
      ensures r == if failed then Err(LogError) else Answer(library, identities, c, call.start)
    {
      Refresh(call.now, call.log);
      if failed {
        return Err(LogError);
      }
      var key := Key(library.format, c);
      if key !in identities {
        return Ok(NOBODY);
      }
      var record := identities[key];
      if call.start.None? {
        return Err(StartError);
      }
      if record.timestamp < call.start.value {
        return Ok(NOBODY);
      }
      return Ok(record.identity);
    }
  }

  /** One refresh: nothing within a second of the last reading; otherwise the reading is noted,
      and its records are merged in only when all of it could be read. */
  ghost predicate Refreshed(l: Library, c: Cache, now: Time, log: LogReply, d: Cache) {
    if !Reads(c, now) then d == c
    else
      && d.lastRefresh == now && d.failed == !Success(log)
      && if Success(log) then
           exists m :: LastWriterWins(l, m, log.lines) && d.identities == c.identities + m
         else d.identities == c.identities
  }

  // ----- runs -----

  /** The states of the cache before and after each call. */
  ghost predicate IsRun(l: Library, calls: seq<Call>, states: seq<Cache>) {
    && |states| == |calls| + 1 && states[0] == FRESH
    && forall i :: 0 <= i < |calls| ==> Refreshed(l, states[i], calls[i].now, calls[i].log, states[i + 1])
  }

  /** The lines of all successful readings, in order. */
  function ReadLines(calls: seq<Call>, states: seq<Cache>, n: nat): seq<LogLine>
    requires n <= |calls| && n <= |states|
  {
    if n == 0 then []
    else
      var before := ReadLines(calls, states, n - 1);
      if Reads(states[n - 1], calls[n - 1].now) && Success(calls[n - 1].log)
      then before + calls[n - 1].log.lines else before
  }

  /** After any run the cache is the last-writer-wins map of everything read successfully; failed
      readings leave no trace in it. */
  lemma {:induction false} CacheIsLastWriter(l: Library, calls: seq<Call>, states: seq<Cache>, n: nat)
    requires IsRun(l, calls, states) && n <= |calls|
    ensures LastWriterWins(l, states[n].identities, ReadLines(calls, states, n))
  {
    if n > 0 {
      CacheIsLastWriter(l, calls, states, n - 1);
      var c, d, call := states[n - 1], states[n], calls[n - 1];
      assert Refreshed(l, c, call.now, call.log, d);
      if Reads(c, call.now) && Success(call.log) {
        var m :| LastWriterWins(l, m, call.log.lines) && d.identities == c.identities + m;
        MergeWrites(l, c.identities, ReadLines(calls, states, n - 1), m, call.log.lines);
      }
    }
  }

  lemma MergeWrites(l: Library, m: map<string, LogRecord>, a: seq<LogLine>, k: map<string, LogRecord>, b: seq<LogLine>)
    requires LastWriterWins(l, m, a) && LastWriterWins(l, k, b)
    ensures LastWriterWins(l, m + k, a + b)
  {
    forall key
      ensures key in m + k <==> LastRecord(l, a + b, key).Some?
      ensures key in m + k ==> LastRecord(l, a + b, key) == Some((m + k)[key])
    {
      LastRecordConcat(l, a, b, key);
    }
  }

  /** The last of the first `n` calls that was due to read the log, by the clock alone: the first
      one, and then each that comes a second or more after the last reading, whatever came of it. */
  function LastReading(calls: seq<Call>, n: nat): (r: Option<nat>)
    requires n <= |calls|
    ensures r.Some? ==> r.value < n
  {
    if n == 0 then None
    else
      var before := LastReading(calls, n - 1);
      if before.None? || calls[before.value].now == 0 || calls[n - 1].now - calls[before.value].now >= SECOND
      then Some(n - 1) else before
  }

  /** The log is read by exactly the calls that are due, and the cache counts as failed exactly when
      the last reading did not succeed. A reading at the unset instant counts as none. */
  lemma {:induction false} ReadingsAreExact(l: Library, calls: seq<Call>, states: seq<Cache>, n: nat)
    requires IsRun(l, calls, states) && n <= |calls|
    ensures var r := LastReading(calls, n);
            && states[n].lastRefresh == (if r.None? then 0 else calls[r.value].now)
            && (states[n].failed <==> r.Some? && !Success(calls[r.value].log))
    ensures n > 0 ==> (Reads(states[n - 1], calls[n - 1].now) <==> LastReading(calls, n) == Some(n - 1))
  {
    if n > 0 {
      ReadingsAreExact(l, calls, states, n - 1);
      assert Refreshed(l, states[n - 1], calls[n - 1].now, calls[n - 1].log, states[n]);
    }
  }

  /** The times at which the log was read. */
  function ReadTimes(calls: seq<Call>, states: seq<Cache>, n: nat): seq<Time>
    requires n <= |calls| && n <= |states|
  {
    if n == 0 then []
    else
      var before := ReadTimes(calls, states, n - 1);
      if Reads(states[n - 1], calls[n - 1].now) then before + [calls[n - 1].now] else before
  }

  /** Whatever the clock does, a reading at any instant but zero keeps the next one a second
      away; so, when the clock never shows zero, `k` readings span at least `k - 1` seconds. */
  lemma {:induction false} ReadingsAreSpaced(l: Library, calls: seq<Call>, states: seq<Cache>, n: nat)
    requires IsRun(l, calls, states) && n <= |calls|
    ensures var times := ReadTimes(calls, states, n);
            && (forall i :: 0 <= i < |times| - 1 && times[i] != 0 ==> times[i + 1] - times[i] >= SECOND)
            && (times != [] && 0 !in times ==> times[|times| - 1] - times[0] >= (|times| - 1) * SECOND)
            && states[n].lastRefresh == (if times == [] then 0 else times[|times| - 1])
  {
    if n > 0 {
      ReadingsAreSpaced(l, calls, states, n - 1);
      assert Refreshed(l, states[n - 1], calls[n - 1].now, calls[n - 1].log, states[n]);
      var before := ReadTimes(calls, states, n - 1);
      assert before != [] ==> before[|before| - 1] in before;
    }
  }

  // ----- what an identity rests on -----

  /** An event that identifies the connection: same process, same remote end. */
  predicate Identifies(l: Library, line: LogLine, c: Connection, record: LogRecord) {
    Entry(l, line) == Some((c.pid, c.remote, record))
  }

  /** The keys of a message: the first field after the eighth that starts with the prefix of a
      fingerprint, when the method is "publickey", and otherwise none. */
  ghost predicate KeysOf(message: seq<string>, keys: seq<string>)
    requires |message| >= 8
  {
    if message[1] == "publickey" && HasKey(message)
    then exists i :: FirstKeyAt(message, i) && keys == [message[i]]
    else keys == []
  }

  ghost predicate HasKey(message: seq<string>) {
    exists i :: 8 <= i < |message| && "SHA256:" <= message[i]
  }

  ghost predicate FirstKeyAt(message: seq<string>, i: int) {
    && 8 <= i < |message| && "SHA256:" <= message[i]
    && forall j :: 8 <= j < i ==> !("SHA256:" <= message[j])
  }

  /** Which events identify a connection, in terms of the event's own text. */
  ghost predicate Attests(l: Library, line: LogLine, c: Connection, record: LogRecord) {
    && line.Event? && line.pid == c.pid && c.pid > 0 && line.timestamp == Some(record.timestamp)
    && var m := line.message;
       && |m| >= 8 && m[0] == "Accepted" && m[2] == "for" && m[4] == "from" && m[6] == "port"
       && l.addr(m[5]).Some? && c.remote.addr == l.addr(m[5]).value.Unmap()
       && l.port(m[7]) == Some(c.remote.port)
       && record.identity.methods == [m[1]] && KeysOf(m, record.identity.fingerprints)
  }

  lemma {:induction false} FirstFingerprintIs(fields: seq<string>) returns (k: nat)
    ensures k <= |fields| && forall j :: 0 <= j < k ==> !("SHA256:" <= fields[j])
    ensures k < |fields| ==> "SHA256:" <= fields[k] && FirstFingerprint(fields) == [fields[k]]
    ensures k == |fields| ==> FirstFingerprint(fields) == []
  {
    if fields == [] || "SHA256:" <= fields[0] {
      k := 0;
    } else {
      k := FirstFingerprintIs(fields[1..]);
      assert forall j :: 0 < j < k + 1 ==> fields[j] == fields[1..][j - 1];
      k := k + 1;
    }
  }

  lemma KeysAreFirst(message: seq<string>, keys: seq<string>)
    requires |message| >= 8
    ensures KeysOf(message, keys) <==>
            keys == if message[1] == "publickey" then FirstFingerprint(message[8..]) else []
  {
    var k := FirstFingerprintIs(message[8..]);
    assert forall j :: 8 <= j < |message| ==> message[j] == message[8..][j - 8];
    if k < |message[8..]| {
      assert FirstKeyAt(message, k + 8);
      forall i | FirstKeyAt(message, i) ensures i == k + 8 {
      }
    }
  }

  /** An event identifies a connection exactly when it says so itself: an accepted login of that
      process, from that address and port, with a readable time; failed logins never do. */
  lemma IdentifiesIff(l: Library, line: LogLine, c: Connection, record: LogRecord)
    ensures Identifies(l, line, c, record) <==> Attests(l, line, c, record)
  {
    if line.Event? && |line.message| >= 8 {
      KeysAreFirst(line.message, record.identity.fingerprints);
    }
  }

  lemma {:induction false} LastRecordSource(l: Library, lines: seq<LogLine>, c: Connection) returns (i: nat)
    requires Injective(l.format) && LastRecord(l, lines, Key(l.format, c)).Some?
    ensures i < |lines| && Identifies(l, lines[i], c, LastRecord(l, lines, Key(l.format, c)).value)
    ensures forall j, record :: i < j < |lines| ==> !Identifies(l, lines[j], c, record)
  {
    var n := |lines| - 1;
    var key := Key(l.format, c);
    var entry := Entry(l, lines[n]);
    if EntryKey(l, lines[n]) == Some(key) {
      SessionKeyInjective(l.format, entry.value.0, entry.value.1, c.pid, c.remote);
      i := n;
    } else {
      i := LastRecordSource(l, lines[..n], c);
      forall j, record | i < j < |lines| ensures !Identifies(l, lines[j], c, record) {
        if j < n {
          assert !Identifies(l, lines[..n][j], c, record);
        }
      }
    }
  }

  lemma {:induction false} LastRecordExists(l: Library, lines: seq<LogLine>, c: Connection, i: nat, record: LogRecord)
    requires i < |lines| && Identifies(l, lines[i], c, record)
    ensures LastRecord(l, lines, Key(l.format, c)).Some?
  {
    if i < |lines| - 1 {
      LastRecordExists(l, lines[..|lines| - 1], c, i, record);
    }
  }

  /** The cache knows a connection exactly when some event read so far identifies it. */
  lemma KnownIff(l: Library, calls: seq<Call>, states: seq<Cache>, n: nat, c: Connection)
    requires IsRun(l, calls, states) && n <= |calls| && Injective(l.format)
    ensures Key(l.format, c) in states[n].identities <==>
            SomeIdentifies(l, ReadLines(calls, states, n), c)
  {
    CacheIsLastWriter(l, calls, states, n);
    var lines := ReadLines(calls, states, n);
    if LastRecord(l, lines, Key(l.format, c)).Some? {
      var i := LastRecordSource(l, lines, c);
      var record := LastRecord(l, lines, Key(l.format, c)).value;
      assert Identifies(l, lines[i], c, record);
    } else if SomeIdentifies(l, lines, c) {
      var i, record :| 0 <= i < |lines| && Identifies(l, lines[i], c, record);
      LastRecordExists(l, lines, c, i, record);
    }
  }

  ghost predicate SomeIdentifies(l: Library, lines: seq<LogLine>, c: Connection) {
    exists i, record :: 0 <= i < |lines| && Identifies(l, lines[i], c, record)
  }

  /** In every run, an identity that is returned comes from the last accepted event, among all
      lines read so far, of the very same process and remote end, and that event is no earlier
      than the start of the process. */
  lemma IdentityIsGrounded(l: Library, calls: seq<Call>, states: seq<Cache>, n: nat, c: Connection, start: Option<Time>)
    returns (i: nat, record: LogRecord)
    requires IsRun(l, calls, states) && n <= |calls| && Injective(l.format)
    requires var r := Answer(l, states[n].identities, c, start); r.Ok? && r.value != NOBODY
    ensures var lines := ReadLines(calls, states, n);
            && i < |lines| && Identifies(l, lines[i], c, record)
            && (forall j, other :: i < j < |lines| ==> !Identifies(l, lines[j], c, other))
            && record.identity == Answer(l, states[n].identities, c, start).value
            && start.Some? && record.timestamp >= start.value
  {
    CacheIsLastWriter(l, calls, states, n);
    var lines := ReadLines(calls, states, n);
    i := LastRecordSource(l, lines, c);
    record := LastRecord(l, lines, Key(l.format, c)).value;
  }

  /** Events are filed under unmapped addresses, but lookups use the address as it came: a
      connection whose remote address arrives mapped into IPv6 is never identified. */
  lemma MappedRemoteIsNeverIdentified(
    l: Library, calls: seq<Call>, states: seq<Cache>, n: nat, c: Connection, start: Option<Time>)
    requires IsRun(l, calls, states) && n <= |calls| && Injective(l.format)
    requires c.remote.addr.Is4In6()
    ensures Answer(l, states[n].identities, c, start) == Ok(NOBODY)
  {
    CacheIsLastWriter(l, calls, states, n);
    var lines := ReadLines(calls, states, n);
    if LastRecord(l, lines, Key(l.format, c)).Some? {
      var i := LastRecordSource(l, lines, c);
    }
  }
}
