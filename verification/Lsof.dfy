/** The parser of the socket lister's field output (internal/monitor/lsof.go), after the text has
    been cut into lines. */
module Lsof {
  import opened Basics
  import opened Text
  import opened Netip
  import opened Session

  /** The library's number and endpoint parsers, as arbitrary functions. */
  datatype Parser = Parser(atoi: string -> Option<int>, endpoint: string -> Option<Endpoint>)

  datatype Record = Record(
    pid: int, command: string, user: string, names: seq<string>, established: bool, hasState: bool)

  const EMPTY: Record := Record(0, "", "", [], false, false)

  datatype ParseError = BadPid(text: string) | BadName(name: string)

  type Connections = Result<seq<Connection>, ParseError>

  predicate IsDaemon(command: string) {
    command == "sshd" || command == "sshd-session"
  }

  /** The position of the first `->`, or the length. */
  function Arrow(s: string): (k: nat)
    ensures k <= |s|
    ensures k < |s| ==> k + 2 <= |s|
  {
    if |s| < 2 then |s| else if s[0] == '-' && s[1] == '>' then 0 else 1 + Arrow(s[1..])
  }

  predicate IsArrow(s: string, i: nat) {
    i + 1 < |s| && s[i] == '-' && s[i + 1] == '>'
  }

  lemma {:induction false} ArrowIsFirst(s: string)
    ensures Arrow(s) < |s| ==> IsArrow(s, Arrow(s))
    ensures forall i :: 0 <= i < Arrow(s) ==> !IsArrow(s, i)
  {
    if |s| >= 2 && !IsArrow(s, 0) {
      ArrowIsFirst(s[1..]);
      forall i | 0 <= i < Arrow(s) ensures !IsArrow(s, i) {
        assert i > 0 ==> IsArrow(s, i) == IsArrow(s[1..], i - 1);
      }
    }
  }

  function ParseName(t: Parser, name: string): Option<(Endpoint, Endpoint)> {
    var k := Arrow(name);
    if k == |name| then None
    else
      var local, remote := t.endpoint(TrimSpace(name[..k])), t.endpoint(TrimSpace(name[k + 2..]));
      if local.None? || remote.None? then None else Some((local.value, remote.value))
  }

  /** The name has its first arrow between two texts that read as those ends once trimmed. */
  ghost predicate NameIs(t: Parser, name: string, local: Endpoint, remote: Endpoint) {
    exists x, y :: CutsInto(name, x, y)
                   && t.endpoint(TrimSpace(x)) == Some(local) && t.endpoint(TrimSpace(y)) == Some(remote)
  }

  ghost predicate CutsInto(name: string, x: string, y: string) {
    name == x + "->" + y && forall i :: 0 <= i < |x| ==> !IsArrow(name, i)
  }

  /** A name reads as the end before its first arrow and the end after it, and as nothing when it
      has no arrow or one of them is unreadable. */
  lemma ParseNameIff(t: Parser, name: string, local: Endpoint, remote: Endpoint)
    ensures ParseName(t, name) == Some((local, remote)) <==> NameIs(t, name, local, remote)
  {
    if Arrow(name) < |name| {
      ArrowCuts(name);
    }
    if x, y :| CutsInto(name, x, y) && t.endpoint(TrimSpace(x)) == Some(local)
               && t.endpoint(TrimSpace(y)) == Some(remote)
    {
      CutIsArrow(name, x, y);
    }
  }

  lemma ArrowCuts(name: string)
    requires Arrow(name) < |name|
    ensures CutsInto(name, name[..Arrow(name)], name[Arrow(name) + 2..])
  {
    ArrowIsFirst(name);
    AroundArrow(name, Arrow(name));
  }

  lemma AroundArrow(name: string, k: nat)
    requires IsArrow(name, k)
    ensures name == name[..k] + "->" + name[k + 2..]
  {
    assert name[k..k + 2] == "->";
    assert name == name[..k] + name[k..k + 2] + name[k + 2..];
  }

  lemma CutIsArrow(name: string, x: string, y: string)
    requires CutsInto(name, x, y)
    ensures Arrow(name) == |x| && name[..|x|] == x && name[|x| + 2..] == y
  {
    ArrowIsFirst(name);
    assert IsArrow(name, |x|);
  }

  predicate Field(line: string, c: char) {
    |line| >= 2 && line[0] == c
  }

  predicate IsEstablished(value: string) {
    Contains(ToUpper(value), "ESTABLISHED")
  }

  // ----- what a group of lines means -----

  function Values(g: seq<string>, c: char): seq<string> {
    if g == [] then []
    else
      var before, last := Values(g[..|g| - 1], c), g[|g| - 1];
      if Field(last, c) then before + [last[1..]] else before
  }

  function FieldAt(g: seq<string>, c: char): nat -> bool {
    (k: nat) => k < |g| && Field(g[k], c)
  }

  function FieldIndices(g: seq<string>, c: char, n: nat): seq<nat>
    requires n <= |g|
  {
    if n == 0 then []
    else if Field(g[n - 1], c) then FieldIndices(g, c, n - 1) + [n - 1]
    else FieldIndices(g, c, n - 1)
  }

  /** The values are those of the lines at the given places. */
  ghost predicate ReadsFields(g: seq<string>, c: char, n: nat, values: seq<string>, indices: seq<nat>) {
    && Picks(indices, n, FieldAt(g, c)) && |values| == |indices|
    && forall a :: 0 <= a < |values| ==>
         indices[a] < |g| && Field(g[indices[a]], c) && values[a] == g[indices[a]][1..]
  }

  lemma ReadsFieldsStep(g: seq<string>, c: char, n: nat, values: seq<string>, indices: seq<nat>)
    requires n < |g| && ReadsFields(g, c, n, values, indices)
    ensures if Field(g[n], c) then ReadsFields(g, c, n + 1, values + [g[n][1..]], indices + [n])
            else ReadsFields(g, c, n + 1, values, indices)
  {
    PicksStep(indices, n, FieldAt(g, c));
    assert FieldAt(g, c)(n) == Field(g[n], c);
  }

  /** The values of a field are those of exactly the lines with that letter, in order. */
  lemma {:induction false} ValuesArePicked(g: seq<string>, c: char, n: nat)
    requires n <= |g|
    ensures ReadsFields(g, c, n, Values(g[..n], c), FieldIndices(g, c, n))
  {
    if n > 0 {
      ValuesArePicked(g, c, n - 1);
      ReadsFieldsStep(g, c, n - 1, Values(g[..n - 1], c), FieldIndices(g, c, n - 1));
      assert g[..n] == g[..n - 1] + [g[n - 1]];
      ValuesStep(g[..n - 1], g[n - 1], c);
    }
  }

  ghost predicate SaysEstablished(value: string) {
    exists k :: OccursAt(ToUpper(value), "ESTABLISHED", k)
  }

  /** The word is found wherever it stands and in either case. */
  lemma EstablishedIff(value: string)
    ensures IsEstablished(value) <==> SaysEstablished(value)
  {
    ContainsIff(ToUpper(value), "ESTABLISHED");
  }

  function Last(values: seq<string>, default: string): string {
    if values == [] then default else values[|values| - 1]
  }

  function First(values: seq<string>, default: string): string {
    if values == [] then default else values[0]
  }

  function PidOf(t: Parser, g: seq<string>): int {
    var pids := Values(g, 'p');
    if pids == [] then 0 else match t.atoi(pids[|pids| - 1]) case Some(pid) => pid case None => 0
  }

  /** The fields of a group: the last process and command, the login name if there is one and the
      first user otherwise, the names in order, and the state that the last state line gives. */
  function Meaning(t: Parser, g: seq<string>): Record {
    var states := Values(g, 'T');
    Record(
      PidOf(t, g), Last(Values(g, 'c'), ""), Last(Values(g, 'L'), First(Values(g, 'u'), "")),
      Values(g, 'n'), states != [] && IsEstablished(states[|states| - 1]), states != [])
  }

  function Listed(r: Record, ends: (Endpoint, Endpoint)): Connection {
    Connection(r.pid, r.command, r.user, ends.0, ends.1, "ESTABLISHED", [], [])
  }

  predicate Wanted(ports: set<int>, local: Endpoint) {
    ports == {} || local.port in ports
  }

  /** The connections of a record, up to the first name that does not parse. */
  function FromNames(t: Parser, ports: set<int>, r: Record, names: seq<string>): Connections {
    if names == [] then Ok([])
    else
      var n := |names| - 1;
      match FromNames(t, ports, r, names[..n])
      case Err(e) => Err(e)
      case Ok(before) =>
        match ParseName(t, names[n])
        case None => Err(BadName(names[n]))
        case Some(ends) => Ok(before + (if Wanted(ports, ends.0) then [Listed(r, ends)] else []))
  }

  predicate Reports(r: Record) {
    r.pid != 0 && IsDaemon(r.command) && r.hasState && r.established
  }

  function Emit(t: Parser, ports: set<int>, r: Record): Connections {
    if Reports(r) then FromNames(t, ports, r, r.names) else Ok([])
  }

  function FirstBadPid(t: Parser, pids: seq<string>): Option<string> {
    if pids == [] then None
    else
      var before := FirstBadPid(t, pids[..|pids| - 1]);
      if before.Some? then before
      else if t.atoi(pids[|pids| - 1]).None? then Some(pids[|pids| - 1])
      else None
  }

  /** What one group of lines contributes on its own. */
  function GroupResult(t: Parser, ports: set<int>, g: seq<string>): Connections {
    match FirstBadPid(t, Values(g, 'p'))
    case Some(text) => Err(BadPid(text))
    case None => Emit(t, ports, Meaning(t, g))
  }

  function Then(a: Connections, b: Connections): Connections {
    match a
    case Err(e) => Err(e)
    case Ok(x) => match b case Err(e) => Err(e) case Ok(y) => Ok(x + y)
  }

  function Outputs(t: Parser, ports: set<int>, groups: seq<seq<string>>): Connections {
    if groups == [] then Ok([])
    else Then(Outputs(t, ports, groups[..|groups| - 1]), GroupResult(t, ports, groups[|groups| - 1]))
  }

  // ----- how lines fall into groups -----

  /** The record in hand would be flushed for good: its process number is not zero. */
  predicate Pending(t: Parser, g: seq<string>) {
    var pids := Values(g, 'p');
    pids != [] && t.atoi(pids[|pids| - 1]) != Some(0)
  }

  /** A process line starts a new group only after a group with a non-zero process: a record
      with process zero is not reset and runs on into the next one. */
  function Groups(t: Parser, lines: seq<string>): (groups: seq<seq<string>>)
    ensures groups != []
  {
    if lines == [] then [[]]
    else
      var n := |lines| - 1;
      var groups, line := Groups(t, lines[..n]), lines[n];
      var k := |groups| - 1;
      if Field(line, 'p') && Pending(t, groups[k]) then groups + [[line]]
      else groups[..k] + [groups[k] + [line]]
  }

  /** Cutting at every process line. */
  function Blocks(lines: seq<string>): seq<seq<string>> {
    if lines == [] then []
    else
      var n := |lines| - 1;
      var blocks, line := Blocks(lines[..n]), lines[n];
      var k := |blocks| - 1;
      if Field(line, 'p') || blocks == [] then blocks + [[line]]
      else blocks[..k] + [blocks[k] + [line]]
  }

  function Parsed(t: Parser, ports: set<int>, lines: seq<string>): Connections {
    Outputs(t, ports, Groups(t, lines))
  }

  // ----- the program -----

  method ParseConnections(t: Parser, ports: set<int>, record: Record, known: seq<Connection>)
    returns (connections: seq<Connection>, bad: Option<string>)
    ensures match FromNames(t, ports, record, record.names)
            case Ok(found) => bad.None? && connections == known + found
            case Err(e) => bad.Some? && e == BadName(bad.value)
  {
    connections := known;
    for i := 0 to |record.names|
      invariant FromNames(t, ports, record, record.names[..i]).Ok?
      invariant connections == known + FromNames(t, ports, record, record.names[..i]).value
    {
      var name := record.names[i];
      assert record.names[..i + 1][..i] == record.names[..i];
      var ends := ParseName(t, name);
      if ends.None? {
        BadNameSticks(t, ports, record, record.names, i);
        return connections, Some(name);
      }
      if |ports| > 0 && ends.value.0.port !in ports {
        continue;
      }
      connections := connections + [Listed(record, ends.value)];
    }
    assert record.names[..|record.names|] == record.names;
    return connections, None;
  }

  lemma {:induction false} BadNameSticks(t: Parser, ports: set<int>, r: Record, names: seq<string>, i: nat)
    requires i < |names| && FromNames(t, ports, r, names[..i]).Ok? && ParseName(t, names[i]).None?
    ensures FromNames(t, ports, r, names) == Err(BadName(names[i]))
    decreases |names|
  {
    if i < |names| - 1 {
      assert names[..|names| - 1][..i] == names[..i];
      BadNameSticks(t, ports, r, names[..|names| - 1], i);
    }
  }

  /** The closure that ends a record. */
  method Flush(t: Parser, ports: set<int>, record: Record, known: seq<Connection>)
    returns (next: Record, connections: seq<Connection>, bad: Option<string>)
    ensures match Emit(t, ports, record)
            case Ok(found) => bad.None? && connections == known + found
            case Err(e) => bad.Some? && e == BadName(bad.value)
    ensures bad.None? ==> next == if record.pid == 0 then record else EMPTY
  {
    if record.pid == 0 {
      return record, known, None;
    }
    if !IsDaemon(record.command) || (record.hasState && !record.established) {
      return EMPTY, known, None;
    }
    if !record.hasState {
      return EMPTY, known, None;
    }
    next := EMPTY;
    connections, bad := ParseConnections(t, ports, record, known);
  }

  /** One line that is not a process line. */
  function Update(r: Record, line: string): Record {
    if |line| < 2 then r
    else
      var value := line[1..];
      match line[0]
      case 'c' => r.(command := value)
      case 'u' => if r.user == "" then r.(user := value) else r
      case 'L' => r.(user := value)
      case 'n' => r.(names := r.names + [value])
      case 'T' => r.(hasState := true, established := IsEstablished(value))
      case _ => r
  }

  /** The line loop. Whatever the input, the result is that of its groups, one by one. */
  method ParseLsofOutput(t: Parser, lines: seq<string>, ports: set<int>) returns (r: Connections)
    ensures r == Parsed(t, ports, lines)
  {
    var connections: seq<Connection>, record := [], EMPTY;
    for i := 0 to |lines|
      invariant InStep(t, ports, lines[..i], connections, record)
    {
      var line := lines[i];
      assert lines[..i + 1] == lines[..i] + [line];
      if Field(line, 'p') {
        var failed: Option<ParseError>;
        record, connections, failed := StartProcess(t, ports, lines[..i], line, record, connections);
        if failed.Some? {
          DoomedForever(t, ports, lines, i + 1, failed.value);
          return Err(failed.value);
        }
      } else {
        OtherLine(t, ports, lines[..i], line, record);
        record := Update(record, line);
      }
    }
    assert lines[..|lines|] == lines;
    var bad;
    record, connections, bad := Flush(t, ports, record, connections);
    return if bad.Some? then Err(BadName(bad.value)) else Ok(connections);
  }

  /** A process line: the record in hand is flushed and a new process begins. */
  method StartProcess(
    t: Parser, ports: set<int>, ghost before: seq<string>, line: string, record: Record, known: seq<Connection>)
    returns (next: Record, connections: seq<Connection>, failed: Option<ParseError>)
    requires Field(line, 'p') && InStep(t, ports, before, known, record)
    ensures failed.None? ==> InStep(t, ports, before + [line], connections, next)
    ensures failed.Some? ==> Doomed(t, ports, before + [line], failed.value)
  {
    assert known + [] == known;
    var bad;
    next, connections, bad := Flush(t, ports, record, known);
    if bad.Some? {
      FlushFails(t, ports, before, line, record);
      return next, connections, Some(BadName(bad.value));
    }
    var pid := t.atoi(line[1..]);
    if pid.None? {
      BadPidFails(t, ports, before, line, record);
      return next, connections, Some(BadPid(line[1..]));
    }
    PidLine(t, ports, before, line, record);
    return next.(pid := pid.value), connections, None;
  }

  // ----- the loop keeps in step with the groups -----

  function Closed(t: Parser, lines: seq<string>): seq<seq<string>> {
    Groups(t, lines)[..|Groups(t, lines)| - 1]
  }

  function Open(t: Parser, lines: seq<string>): seq<string> {
    Groups(t, lines)[|Groups(t, lines)| - 1]
  }

  lemma ParsedSplits(t: Parser, ports: set<int>, lines: seq<string>)
    ensures Parsed(t, ports, lines) ==
            Then(Outputs(t, ports, Closed(t, lines)), GroupResult(t, ports, Open(t, lines)))
  {
  }

  /** One more line either joins the open group or closes it. */
  lemma GroupsStep(t: Parser, lines: seq<string>, line: string)
    ensures if Field(line, 'p') && Pending(t, Open(t, lines))
            then Closed(t, lines + [line]) == Closed(t, lines) + [Open(t, lines)]
                 && Open(t, lines + [line]) == [line]
            else Closed(t, lines + [line]) == Closed(t, lines)
                 && Open(t, lines + [line]) == Open(t, lines) + [line]
  {
    assert (lines + [line])[..|lines|] == lines;
    var groups := Groups(t, lines);
    assert groups == Closed(t, lines) + [Open(t, lines)];
  }

  lemma OutputsStep(t: Parser, ports: set<int>, groups: seq<seq<string>>, g: seq<string>)
    ensures Outputs(t, ports, groups + [g]) == Then(Outputs(t, ports, groups), GroupResult(t, ports, g))
  {
    assert (groups + [g])[..|groups|] == groups;
  }

  lemma ValuesStep(g: seq<string>, line: string, c: char)
    ensures Values(g + [line], c) == if Field(line, c) then Values(g, c) + [line[1..]] else Values(g, c)
  {
    assert (g + [line])[..|g|] == g;
  }

  lemma {:induction false} ValuesNotEmpty(g: seq<string>, c: char)
    ensures forall i :: 0 <= i < |Values(g, c)| ==> Values(g, c)[i] != ""
  {
    if g != [] {
      ValuesNotEmpty(g[..|g| - 1], c);
    }
  }

  ghost predicate InStep(t: Parser, ports: set<int>, lines: seq<string>, connections: seq<Connection>, record: Record) {
    var open := Open(t, lines);
    && Outputs(t, ports, Closed(t, lines)) == Ok(connections)
    && FirstBadPid(t, Values(open, 'p')).None?
    && record == Meaning(t, open)
  }

  lemma {:induction false} GoodPids(t: Parser, pids: seq<string>)
    requires FirstBadPid(t, pids).None?
    ensures forall i :: 0 <= i < |pids| ==> t.atoi(pids[i]).Some?
  {
    if pids != [] {
      GoodPids(t, pids[..|pids| - 1]);
    }
  }

  /** The flush keeps the record exactly when the group is not pending. */
  lemma PendingIsNonZero(t: Parser, g: seq<string>)
    requires FirstBadPid(t, Values(g, 'p')).None?
    ensures Pending(t, g) <==> Meaning(t, g).pid != 0
  {
    GoodPids(t, Values(g, 'p'));
  }

  /** Each line moves the record from one group's meaning to the next. */
  lemma MeaningStep(t: Parser, g: seq<string>, line: string)
    ensures !Field(line, 'p') ==> Meaning(t, g + [line]) == Update(Meaning(t, g), line)
    ensures Field(line, 'p') && t.atoi(line[1..]).Some? ==>
              Meaning(t, g + [line]) == Meaning(t, g).(pid := t.atoi(line[1..]).value)
  {
    PidStep(t, g, line);
    ValuesStep(g, line, 'c');
    ValuesStep(g, line, 'n');
    StateStep(g, line);
    UserStep(g, line);
  }

  lemma PidStep(t: Parser, g: seq<string>, line: string)
    ensures !Field(line, 'p') ==> PidOf(t, g + [line]) == PidOf(t, g)
    ensures Field(line, 'p') && t.atoi(line[1..]).Some? ==> PidOf(t, g + [line]) == t.atoi(line[1..]).value
  {
    ValuesStep(g, line, 'p');
  }

  lemma StateStep(g: seq<string>, line: string)
    ensures Values(g + [line], 'T') != [] <==> Field(line, 'T') || Values(g, 'T') != []
    ensures Last(Values(g + [line], 'T'), "") == if Field(line, 'T') then line[1..] else Last(Values(g, 'T'), "")
  {
    ValuesStep(g, line, 'T');
  }

  function User(g: seq<string>): string {
    Last(Values(g, 'L'), First(Values(g, 'u'), ""))
  }

  lemma UserStep(g: seq<string>, line: string)
    ensures User(g + [line]) ==
            if Field(line, 'L') then line[1..]
            else if Field(line, 'u') && User(g) == "" then line[1..]
            else User(g)
  {
    ValuesStep(g, line, 'L');
    ValuesStep(g, line, 'u');
    ValuesNotEmpty(g, 'L');
    ValuesNotEmpty(g, 'u');
  }

  lemma OtherLine(t: Parser, ports: set<int>, lines: seq<string>, line: string, record: Record)
    requires !Field(line, 'p') && FirstBadPid(t, Values(Open(t, lines), 'p')).None?
    requires record == Meaning(t, Open(t, lines))
    ensures Closed(t, lines + [line]) == Closed(t, lines)
    ensures FirstBadPid(t, Values(Open(t, lines + [line]), 'p')).None?
    ensures Update(record, line) == Meaning(t, Open(t, lines + [line]))
  {
    GroupsStep(t, lines, line);
    MeaningStep(t, Open(t, lines), line);
    ValuesStep(Open(t, lines), line, 'p');
  }

  lemma PidLine(t: Parser, ports: set<int>, lines: seq<string>, line: string, record: Record)
    requires Field(line, 'p') && t.atoi(line[1..]).Some?
    requires FirstBadPid(t, Values(Open(t, lines), 'p')).None? && record == Meaning(t, Open(t, lines))
    ensures Outputs(t, ports, Closed(t, lines + [line])) ==
            Then(Outputs(t, ports, Closed(t, lines)), Emit(t, ports, record))
    ensures FirstBadPid(t, Values(Open(t, lines + [line]), 'p')).None?
    ensures (if record.pid == 0 then record else EMPTY).(pid := t.atoi(line[1..]).value)
            == Meaning(t, Open(t, lines + [line]))
  {
    var open := Open(t, lines);
    GroupsStep(t, lines, line);
    PendingIsNonZero(t, open);
    MeaningStep(t, open, line);
    ValuesStep(open, line, 'p');
    BadPidAppend(t, Values(open, 'p'), line[1..]);
    MeaningStep(t, [], line);
    ValuesStep([], line, 'p');
    BadPidAppend(t, [], line[1..]);
    assert [] + [line] == [line];
    OutputsStep(t, ports, Closed(t, lines), open);
    ThenNothing(Outputs(t, ports, Closed(t, lines)));
  }

  lemma ThenNothing(a: Connections)
    ensures Then(a, Ok([])) == a && Then(Ok([]), a) == a
  {
    if a.Ok? {
      assert a.value + [] == a.value && [] + a.value == a.value;
    }
  }

  lemma BadPidAppend(t: Parser, pids: seq<string>, text: string)
    ensures FirstBadPid(t, pids + [text]) ==
            if FirstBadPid(t, pids).Some? then FirstBadPid(t, pids)
            else if t.atoi(text).None? then Some(text) else None
  {
    assert (pids + [text])[..|pids|] == pids;
  }

  /** The result is already an error, and no later line changes which. */
  ghost predicate Doomed(t: Parser, ports: set<int>, lines: seq<string>, e: ParseError) {
    var closed := Outputs(t, ports, Closed(t, lines));
    || closed == Err(e)
    || (closed.Ok? && e.BadPid? && FirstBadPid(t, Values(Open(t, lines), 'p')) == Some(e.text))
  }

  lemma DoomedStep(t: Parser, ports: set<int>, lines: seq<string>, line: string, e: ParseError)
    requires Doomed(t, ports, lines, e)
    ensures Doomed(t, ports, lines + [line], e)
  {
    GroupsStep(t, lines, line);
    var open := Open(t, lines);
    OutputsStep(t, ports, Closed(t, lines), open);
    ValuesStep(open, line, 'p');
    if Field(line, 'p') {
      BadPidAppend(t, Values(open, 'p'), line[1..]);
    }
  }

  lemma {:induction false} DoomedForever(t: Parser, ports: set<int>, lines: seq<string>, i: nat, e: ParseError)
    requires i <= |lines| && Doomed(t, ports, lines[..i], e)
    ensures Parsed(t, ports, lines) == Err(e)
    decreases |lines| - i
  {
    if i == |lines| {
      assert lines[..i] == lines;
      ParsedSplits(t, ports, lines);
    } else {
      assert lines[..i + 1] == lines[..i] + [lines[i]];
      DoomedStep(t, ports, lines[..i], lines[i], e);
      DoomedForever(t, ports, lines, i + 1, e);
    }
  }

  lemma FlushFails(t: Parser, ports: set<int>, lines: seq<string>, line: string, record: Record)
    requires Field(line, 'p') && Outputs(t, ports, Closed(t, lines)).Ok?
    requires FirstBadPid(t, Values(Open(t, lines), 'p')).None? && record == Meaning(t, Open(t, lines))
    requires Emit(t, ports, record).Err?
    ensures Doomed(t, ports, lines + [line], Emit(t, ports, record).error)
  {
    GroupsStep(t, lines, line);
    PendingIsNonZero(t, Open(t, lines));
    OutputsStep(t, ports, Closed(t, lines), Open(t, lines));
  }

  lemma BadPidFails(t: Parser, ports: set<int>, lines: seq<string>, line: string, record: Record)
    requires Field(line, 'p') && Outputs(t, ports, Closed(t, lines)).Ok? && t.atoi(line[1..]).None?
    requires FirstBadPid(t, Values(Open(t, lines), 'p')).None? && record == Meaning(t, Open(t, lines))
    requires Emit(t, ports, record).Ok?
    ensures Doomed(t, ports, lines + [line], BadPid(line[1..]))
  {
    var open := Open(t, lines);
    GroupsStep(t, lines, line);
    OutputsStep(t, ports, Closed(t, lines), open);
    ValuesStep(open, line, 'p');
    ValuesStep([], line, 'p');
    assert [] + [line] == [line];
    BadPidAppend(t, Values(open, 'p'), line[1..]);
    BadPidAppend(t, [], line[1..]);
  }

  // ----- what is listed, and verification -----

  lemma FromNamesStep(t: Parser, ports: set<int>, r: Record, names: seq<string>, name: string)
    ensures FromNames(t, ports, r, names + [name]) ==
            match FromNames(t, ports, r, names)
            case Err(e) => Err(e)
            case Ok(before) =>
              match ParseName(t, name)
              case None => Err(BadName(name))
              case Some(ends) => Ok(before + (if Wanted(ports, ends.0) then [Listed(r, ends)] else []))
  {
    assert (names + [name])[..|names|] == names;
  }

  /** The `i`-th name of group `g` gives the connection `c`. */
  predicate Gives(t: Parser, ports: set<int>, g: seq<string>, i: nat, c: Connection) {
    var r := Meaning(t, g);
    && Reports(r) && i < |r.names|
    && GivesName(t, ports, r, r.names[i], c)
  }

  predicate GivesName(t: Parser, ports: set<int>, r: Record, name: string, c: Connection) {
    var ends := ParseName(t, name);
    ends.Some? && Wanted(ports, ends.value.0) && c == Listed(r, ends.value)
  }

  /** The connections are those of exactly the wanted names, in order. */
  ghost predicate ReadsNames(
    t: Parser, ports: set<int>, names: seq<string>, n: nat, found: seq<Connection>, indices: seq<nat>)
  {
    && Picks(indices, n, WantedAt(t, ports, names)) && |found| == |indices|
    && forall a :: 0 <= a < |found| ==>
         indices[a] < |names| && ParseName(t, names[indices[a]]) == Some((found[a].local, found[a].remote))
  }

  function WantedAt(t: Parser, ports: set<int>, names: seq<string>): nat -> bool {
    (k: nat) => k < |names| && ParseName(t, names[k]).Some? && Wanted(ports, ParseName(t, names[k]).value.0)
  }

  function WantedIndices(t: Parser, ports: set<int>, names: seq<string>, n: nat): seq<nat>
    requires n <= |names|
  {
    if n == 0 then []
    else if WantedAt(t, ports, names)(n - 1) then WantedIndices(t, ports, names, n - 1) + [n - 1]
    else WantedIndices(t, ports, names, n - 1)
  }

  lemma {:induction false} NamesArePicked(t: Parser, ports: set<int>, r: Record, names: seq<string>, n: nat)
    requires n <= |names| && FromNames(t, ports, r, names[..n]).Ok?
    ensures ReadsNames(t, ports, names, n, FromNames(t, ports, r, names[..n]).value, WantedIndices(t, ports, names, n))
  {
    if n > 0 {
      assert names[..n] == names[..n - 1] + [names[n - 1]];
      FromNamesStep(t, ports, r, names[..n - 1], names[n - 1]);
      NamesArePicked(t, ports, r, names, n - 1);
      var found := FromNames(t, ports, r, names[..n - 1]).value;
      ReadsNamesStep(t, ports, r, names, n - 1, found, WantedIndices(t, ports, names, n - 1));
      assert found + [] == found;
    }
  }

  lemma ReadsNamesStep(
    t: Parser, ports: set<int>, r: Record, names: seq<string>, n: nat, found: seq<Connection>, indices: seq<nat>)
    requires n < |names| && ReadsNames(t, ports, names, n, found, indices) && ParseName(t, names[n]).Some?
    ensures if WantedAt(t, ports, names)(n)
            then ReadsNames(t, ports, names, n + 1, found + [Listed(r, ParseName(t, names[n]).value)], indices + [n])
            else ReadsNames(t, ports, names, n + 1, found, indices)
  {
    PicksStep(indices, n, WantedAt(t, ports, names));
  }

  ghost predicate SomeGives(t: Parser, ports: set<int>, r: Record, names: seq<string>, c: Connection) {
    exists i :: 0 <= i < |names| && GivesName(t, ports, r, names[i], c)
  }

  lemma SomeGivesAppend(t: Parser, ports: set<int>, r: Record, names: seq<string>, name: string, c: Connection)
    ensures SomeGives(t, ports, r, names + [name], c) <==>
            SomeGives(t, ports, r, names, c) || GivesName(t, ports, r, name, c)
  {
    var more := names + [name];
    assert more[|names|] == name;
    if SomeGives(t, ports, r, names, c) {
      var i :| 0 <= i < |names| && GivesName(t, ports, r, names[i], c);
      assert more[i] == names[i];
    }
  }

  lemma {:induction false} FromNamesContents(t: Parser, ports: set<int>, r: Record, names: seq<string>, c: Connection)
    requires FromNames(t, ports, r, names).Ok?
    ensures c in FromNames(t, ports, r, names).value <==> SomeGives(t, ports, r, names, c)
  {
    if names != [] {
      var n := |names| - 1;
      assert names == names[..n] + [names[n]];
      FromNamesContents(t, ports, r, names[..n], c);
      SomeGivesAppend(t, ports, r, names[..n], names[n], c);
      var before, ends := FromNames(t, ports, r, names[..n]).value, ParseName(t, names[n]).value;
      InAppended(before, Listed(r, ends), Wanted(ports, ends.0), c);
    }
  }

  lemma InAppended(before: seq<Connection>, last: Connection, wanted: bool, c: Connection)
    ensures c in before + (if wanted then [last] else []) <==> c in before || (wanted && c == last)
  {
  }

  ghost predicate GroupLists(t: Parser, ports: set<int>, g: seq<string>, c: Connection) {
    exists i :: Gives(t, ports, g, i, c)
  }

  lemma GroupContents(t: Parser, ports: set<int>, g: seq<string>, c: Connection)
    requires GroupResult(t, ports, g).Ok?
    ensures c in GroupResult(t, ports, g).value <==> GroupLists(t, ports, g, c)
  {
    var r := Meaning(t, g);
    if Reports(r) {
      FromNamesContents(t, ports, r, r.names, c);
      if i :| 0 <= i < |r.names| && GivesName(t, ports, r, r.names[i], c) {
        assert Gives(t, ports, g, i, c);
      }
    }
  }

  lemma InBoth(a: Connections, b: Connections, c: Connection)
    requires Then(a, b).Ok?
    ensures c in Then(a, b).value <==> c in a.value || c in b.value
  {
  }

  lemma {:induction false} OutputsFrom(t: Parser, ports: set<int>, groups: seq<seq<string>>, c: Connection)
    returns (k: nat)
    requires Outputs(t, ports, groups).Ok? && c in Outputs(t, ports, groups).value
    ensures k < |groups| && GroupLists(t, ports, groups[k], c)
  {
    var n := |groups| - 1;
    GroupContents(t, ports, groups[n], c);
    InBoth(Outputs(t, ports, groups[..n]), GroupResult(t, ports, groups[n]), c);
    if GroupLists(t, ports, groups[n], c) {
      k := n;
    } else {
      k := OutputsFrom(t, ports, groups[..n], c);
    }
  }

  lemma {:induction false} OutputsKeep(t: Parser, ports: set<int>, groups: seq<seq<string>>, k: nat, c: Connection)
    requires Outputs(t, ports, groups).Ok? && k < |groups| && GroupLists(t, ports, groups[k], c)
    ensures c in Outputs(t, ports, groups).value
  {
    var n := |groups| - 1;
    InBoth(Outputs(t, ports, groups[..n]), GroupResult(t, ports, groups[n]), c);
    if k == n {
      GroupContents(t, ports, groups[n], c);
    } else {
      OutputsKeep(t, ports, groups[..n], k, c);
    }
  }

  /** Some group of the lines shows the connection. */
  ghost predicate Lists(t: Parser, ports: set<int>, lines: seq<string>, c: Connection) {
    exists k :: 0 <= k < |Groups(t, lines)| && Shows(t, ports, Groups(t, lines)[k], c)
  }

  /** The group shows the connection: one of its names reads as the two ends, the local port is
      wanted, and its last process, command and state lines and its user are the connection's. */
  ghost predicate Shows(t: Parser, ports: set<int>, g: seq<string>, c: Connection) {
    var pids, commands, states := Values(g, 'p'), Values(g, 'c'), Values(g, 'T');
    && (exists i :: 0 <= i < |Values(g, 'n')| && NameIs(t, Values(g, 'n')[i], c.local, c.remote))
    && (ports == {} || c.local.port in ports)
    && c.pid != 0 && pids != [] && t.atoi(pids[|pids| - 1]) == Some(c.pid)
    && commands != [] && c.command == commands[|commands| - 1]
    && (c.command == "sshd" || c.command == "sshd-session")
    && states != [] && SaysEstablished(states[|states| - 1])
    && c.user == User(g) && c.state == "ESTABLISHED" && c.methods == [] && c.fingerprints == []
  }

  /** The user is the last login name, or else the first user, or else empty. */
  lemma UserIs(g: seq<string>)
    ensures var logins, users := Values(g, 'L'), Values(g, 'u');
            && (logins != [] ==> User(g) == logins[|logins| - 1])
            && (logins == [] && users != [] ==> User(g) == users[0])
            && (logins == [] && users == [] ==> User(g) == "")
  {
  }

  /** What the record of a group says that the connection must repeat. */
  ghost predicate Repeats(r: Record, c: Connection) {
    && c.pid == r.pid && c.command == r.command && c.user == r.user
    && c.state == "ESTABLISHED" && c.methods == [] && c.fingerprints == []
  }

  lemma GivesNameIff(t: Parser, ports: set<int>, r: Record, name: string, c: Connection)
    ensures GivesName(t, ports, r, name, c) <==>
            NameIs(t, name, c.local, c.remote) && (ports == {} || c.local.port in ports) && Repeats(r, c)
  {
    ParseNameIff(t, name, c.local, c.remote);
  }

  lemma ReportsIff(t: Parser, g: seq<string>)
    ensures var pids, commands, states := Values(g, 'p'), Values(g, 'c'), Values(g, 'T');
            Reports(Meaning(t, g)) <==>
            && pids != [] && t.atoi(pids[|pids| - 1]).Some? && t.atoi(pids[|pids| - 1]) != Some(0)
            && commands != [] && IsDaemon(commands[|commands| - 1])
            && states != [] && SaysEstablished(states[|states| - 1])
  {
    var states := Values(g, 'T');
    if states != [] {
      EstablishedIff(states[|states| - 1]);
    }
  }

  lemma ShowsIff(t: Parser, ports: set<int>, g: seq<string>, c: Connection)
    ensures GroupLists(t, ports, g, c) <==> Shows(t, ports, g, c)
  {
    ReportsIff(t, g);
    var r, names := Meaning(t, g), Values(g, 'n');
    if GroupLists(t, ports, g, c) {
      var i: nat :| Gives(t, ports, g, i, c);
      GivesNameIff(t, ports, r, names[i], c);
    }
    if Shows(t, ports, g, c) {
      var i :| 0 <= i < |names| && NameIs(t, names[i], c.local, c.remote);
      GivesNameIff(t, ports, r, names[i], c);
      assert Gives(t, ports, g, i, c);
    }
  }

  /** A successful parse holds a connection exactly when one of the groups shows it. */
  lemma ParsedContents(t: Parser, ports: set<int>, lines: seq<string>, c: Connection)
    requires Parsed(t, ports, lines).Ok?
    ensures c in Parsed(t, ports, lines).value <==> Lists(t, ports, lines, c)
  {
    var groups := Groups(t, lines);
    if c in Parsed(t, ports, lines).value {
      var k := OutputsFrom(t, ports, groups, c);
      ShowsIff(t, ports, groups[k], c);
    }
    if k :| 0 <= k < |groups| && Shows(t, ports, groups[k], c) {
      ShowsIff(t, ports, groups[k], c);
      OutputsKeep(t, ports, groups, k, c);
    }
  }

  /** What the lister command answered: its lines, its way of saying nothing matched, or failure. */
  datatype Listing = Lines(lines: seq<string>) | NoMatches | Failed

  /** Re-reads the process's connections; `None` is an error. */
  method Verify(t: Parser, listing: Listing, expected: Connection) returns (verdict: Option<bool>)
    ensures match listing
            case Failed => verdict == None
            case NoMatches => verdict == Some(false)
            case Lines(lines) =>
              (verdict.None? <==> Parsed(t, {}, lines).Err?) &&
              (verdict.Some? ==>
                 (verdict.value <==> exists c :: Lists(t, {}, lines, c) && SameSession(c, expected)))
  {
    if listing.Failed? {
      return None;
    }
    if listing.NoMatches? {
      return Some(false);
    }
    var r := ParseLsofOutput(t, listing.lines, {});
    if r.Err? {
      return None;
    }
    var connections := r.value;
    for n := 0 to |connections|
      invariant forall j :: 0 <= j < n ==> !SameSession(connections[j], expected)
    {
      var c := connections[n];
      if c.pid == expected.pid && c.local == expected.local && c.remote == expected.remote {
        ParsedContents(t, {}, listing.lines, c);
        assert SameSession(c, expected);
        return Some(true);
      }
    }
    forall c | Lists(t, {}, listing.lines, c) ensures !SameSession(c, expected) {
      ParsedContents(t, {}, listing.lines, c);
    }
    return Some(false);
  }

  predicate SameSession(c: Connection, expected: Connection) {
    c.pid == expected.pid && c.local == expected.local && c.remote == expected.remote
  }
}
