/** How the parser of internal/monitor/lsof.go goes on from one block of lines into the next: the
    groups of two texts put together, what a record hands on to the group it runs on into, and the
    blocks that bring out what it leaves behind. These are the steps of the results that
    LsofComposition states; the definitions those results speak of are here too, since the steps
    need them first. */
module LsofBlocks {
  import opened Basics
  import opened Text
  import opened Session
  import opened Lsof

  predicate StartsBlock(lines: seq<string>) {
    lines != [] && Field(lines[0], 'p')
  }

  lemma SingleLine(t: Parser, line: string)
    ensures Groups(t, [line]) == [[line]] && Blocks([line]) == [[line]]
    ensures Field(line, 'p') && t.atoi(line[1..]) != Some(0) ==> Pending(t, [line])
  {
    assert [line][..0] == [] && [] + [line] == [line];
    GroupsStep(t, [], line);
    ValuesStep([], line, 'p');
  }

  /** The step on whole groups. */
  function Extended(t: Parser, groups: seq<seq<string>>, line: string): (more: seq<seq<string>>)
    requires groups != []
    ensures more != []
  {
    var k := |groups| - 1;
    if Field(line, 'p') && Pending(t, groups[k]) then groups + [[line]]
    else groups[..k] + [groups[k] + [line]]
  }

  lemma Reassemble(t: Parser, lines: seq<string>, line: string)
    ensures Groups(t, lines + [line]) == Extended(t, Groups(t, lines), line)
  {
    assert (lines + [line])[..|lines|] == lines;
  }

  lemma PendingStep(t: Parser, lines: seq<string>, line: string)
    requires Pending(t, Open(t, lines)) && (Field(line, 'p') ==> t.atoi(line[1..]) != Some(0))
    ensures Pending(t, Open(t, lines + [line]))
  {
    GroupsStep(t, lines, line);
    SingleLine(t, line);
    ValuesStep(Open(t, lines), line, 'p');
  }

  lemma NothingParsed(t: Parser, ports: set<int>)
    ensures Parsed(t, ports, []) == Ok([])
  {
    assert Closed(t, []) == [] && Open(t, []) == [];
    ParsedSplits(t, ports, []);
    assert Meaning(t, []) == EMPTY;
    ThenNothing(Ok([]));
  }

  /** Parsing composes at a block start whenever the first part ends in a pending record. */
  lemma {:induction false} ParseComposes(t: Parser, ports: set<int>, a: seq<string>, b: seq<string>)
    requires StartsBlock(b) && (a == [] || Pending(t, Open(t, a)))
    ensures Parsed(t, ports, a + b) == Then(Parsed(t, ports, a), Parsed(t, ports, b))
  {
    if a == [] {
      assert a + b == b;
      NothingParsed(t, ports);
      ThenNothing(Parsed(t, ports, b));
    } else {
      GroupsConcat(t, a, b);
      OutputsConcat(t, ports, Groups(t, a), Groups(t, b));
    }
  }

  lemma {:induction false} GroupsConcat(t: Parser, a: seq<string>, b: seq<string>)
    requires StartsBlock(b) && Pending(t, Open(t, a))
    ensures Groups(t, a + b) == Groups(t, a) + Groups(t, b)
  {
    var n := |b| - 1;
    var before, line := b[..n], b[n];
    assert b == before + [line] && a + b == (a + before) + [line];
    if n == 0 {
      assert a + b == a + [line] && b == [line];
      ConcatStart(t, a, line);
    } else {
      GroupsConcat(t, a, before);
      Reassemble(t, a + before, line);
      Reassemble(t, before, line);
      LastOfBoth(t, Groups(t, a), Groups(t, before), line);
    }
  }

  lemma ConcatStart(t: Parser, a: seq<string>, line: string)
    requires Field(line, 'p') && Pending(t, Open(t, a))
    ensures Groups(t, a + [line]) == Groups(t, a) + Groups(t, [line])
  {
    Reassemble(t, a, line);
    SingleLine(t, line);
  }

  lemma LastOfBoth(t: Parser, a: seq<seq<string>>, b: seq<seq<string>>, line: string)
    requires b != []
    ensures Extended(t, a + b, line) == a + Extended(t, b, line)
  {
    assert (a + b)[|a + b| - 1] == b[|b| - 1];
  }

  lemma ThenAssociates(a: Connections, b: Connections, c: Connections)
    ensures Then(Then(a, b), c) == Then(a, Then(b, c))
  {
    if a.Ok? && b.Ok? && c.Ok? {
      assert (a.value + b.value) + c.value == a.value + (b.value + c.value);
    }
  }

  lemma {:induction false} OutputsConcat(t: Parser, ports: set<int>, a: seq<seq<string>>, b: seq<seq<string>>)
    ensures Outputs(t, ports, a + b) == Then(Outputs(t, ports, a), Outputs(t, ports, b))
  {
    if b == [] {
      assert a + b == a;
      ThenNothing(Outputs(t, ports, a));
    } else {
      var n := |b| - 1;
      OutputsConcat(t, ports, a, b[..n]);
      assert (a + b)[..|a + b| - 1] == a + b[..n];
      ThenAssociates(Outputs(t, ports, a), Outputs(t, ports, b[..n]), GroupResult(t, ports, b[n]));
    }
  }

  // ----- exactly when parsing composes -----

  /** Whatever block follows, its lines are parsed as they would be on their own. */
  ghost predicate Composes(t: Parser, ports: set<int>, a: seq<string>) {
    forall b :: StartsBlock(b) ==> Parsed(t, ports, a + b) == Then(Parsed(t, ports, a), Parsed(t, ports, b))
  }

  /** A record that leaves nothing to the block it runs on into. */
  predicate Inert(t: Parser, ports: set<int>, r: Record) {
    && !IsDaemon(r.command) && r.user == "" && !r.established
    && forall i :: 0 <= i < |r.names| ==> Idle(t, ports, r.names[i])
  }

  predicate Idle(t: Parser, ports: set<int>, name: string) {
    var ends := ParseName(t, name);
    ends.Some? && !Wanted(ports, ends.value.0)
  }

  /** The groups after the open group `g` has run on into the first of others. */
  function RunOn(closed: seq<seq<string>>, g: seq<string>, groups: seq<seq<string>>): seq<seq<string>>
    requires groups != []
  {
    closed + [g + groups[0]] + groups[1..]
  }

  /** The first group of the block takes in the open group when that is not pending. */
  lemma {:induction false} GroupsRunOn(t: Parser, a: seq<string>, b: seq<string>)
    requires StartsBlock(b) && !Pending(t, Open(t, a))
    ensures Groups(t, a + b) == RunOn(Closed(t, a), Open(t, a), Groups(t, b))
    ensures Values(Groups(t, b)[0], 'p') != []
  {
    var n := |b| - 1;
    var before, line := b[..n], b[n];
    assert b == before + [line] && a + b == (a + before) + [line];
    if n == 0 {
      assert a + b == a + [line] && b == [line];
      RunOnStart(t, a, line);
    } else {
      GroupsRunOn(t, a, before);
      Reassemble(t, a + before, line);
      Reassemble(t, before, line);
      RunOnStep(t, Closed(t, a), Open(t, a), Groups(t, before), line);
    }
  }

  lemma RunOnStart(t: Parser, a: seq<string>, line: string)
    requires Field(line, 'p') && !Pending(t, Open(t, a))
    ensures Groups(t, a + [line]) == RunOn(Closed(t, a), Open(t, a), Groups(t, [line]))
    ensures Values(Groups(t, [line])[0], 'p') != []
  {
    Reassemble(t, a, line);
    SingleLine(t, line);
    ValuesStep([], line, 'p');
    assert [] + [line] == [line];
  }

  lemma RunOnStep(t: Parser, closed: seq<seq<string>>, g: seq<string>, groups: seq<seq<string>>, line: string)
    requires groups != [] && Values(groups[0], 'p') != []
    ensures Extended(t, RunOn(closed, g, groups), line) == RunOn(closed, g, Extended(t, groups, line))
    ensures Values(Extended(t, groups, line)[0], 'p') != []
  {
    ValuesConcat(g, groups[0], 'p');
    ValuesStep(groups[0], line, 'p');
    assert (g + groups[0]) + [line] == g + (groups[0] + [line]);
  }

  lemma {:induction false} ValuesConcat(g: seq<string>, h: seq<string>, c: char)
    ensures Values(g + h, c) == Values(g, c) + Values(h, c)
  {
    if h == [] {
      assert g + h == g;
    } else {
      var n := |h| - 1;
      assert h == h[..n] + [h[n]] && g + h == (g + h[..n]) + [h[n]];
      ValuesConcat(g, h[..n], c);
      ValuesStep(g + h[..n], h[n], c);
      ValuesStep(h[..n], h[n], c);
    }
  }

  lemma {:induction false} BadPidConcat(t: Parser, a: seq<string>, b: seq<string>)
    requires FirstBadPid(t, a).None?
    ensures FirstBadPid(t, a + b) == FirstBadPid(t, b)
  {
    if b == [] {
      assert a + b == a;
    } else {
      var n := |b| - 1;
      assert b == b[..n] + [b[n]] && a + b == (a + b[..n]) + [b[n]];
      BadPidConcat(t, a, b[..n]);
      BadPidAppend(t, a + b[..n], b[n]);
      BadPidAppend(t, b[..n], b[n]);
    }
  }

  /** How two runs of lines mean together, the second with a process line. */
  lemma MeaningConcat(t: Parser, g: seq<string>, h: seq<string>)
    requires Values(h, 'p') != []
    ensures var r, q := Meaning(t, g), Meaning(t, h);
            Meaning(t, g + h) == Record(
              q.pid,
              if Values(h, 'c') == [] then r.command else q.command,
              if Values(h, 'L') == [] && r.user != "" then r.user else q.user,
              r.names + q.names,
              if q.hasState then q.established else r.established,
              r.hasState || q.hasState)
  {
    ValuesConcat(g, h, 'p');
    ValuesConcat(g, h, 'c');
    ValuesConcat(g, h, 'n');
    ValuesConcat(g, h, 'T');
    UserConcat(g, h);
  }

  lemma UserConcat(g: seq<string>, h: seq<string>)
    ensures User(g + h) == if Values(h, 'L') == [] && User(g) != "" then User(g) else User(h)
  {
    ValuesConcat(g, h, 'L');
    ValuesConcat(g, h, 'u');
    ValuesNotEmpty(g, 'L');
    ValuesNotEmpty(g, 'u');
    PickUser(Values(g, 'L'), Values(h, 'L'), Values(g, 'u'), Values(h, 'u'));
  }

  lemma PickUser(gl: seq<string>, hl: seq<string>, gu: seq<string>, hu: seq<string>)
    requires "" !in gl && "" !in gu
    ensures var user := Last(gl, First(gu, ""));
            Last(gl + hl, First(gu + hu, "")) == if hl == [] && user != "" then user else Last(hl, First(hu, ""))
  {
    assert gl != [] ==> gl[|gl| - 1] in gl;
    assert gu != [] ==> gu[0] in gu;
  }

  /** Idle names neither add a connection nor fail. */
  lemma {:induction false} IdleAlone(t: Parser, ports: set<int>, r: Record, idle: seq<string>)
    requires forall i :: 0 <= i < |idle| ==> Idle(t, ports, idle[i])
    ensures FromNames(t, ports, r, idle) == Ok([])
  {
    if idle != [] {
      var n := |idle| - 1;
      assert idle == idle[..n] + [idle[n]] && Idle(t, ports, idle[n]);
      IdleAlone(t, ports, r, idle[..n]);
      FromNamesStep(t, ports, r, idle[..n], idle[n]);
      var none: seq<Connection> := [];
      assert none + none == none;
    }
  }

  lemma {:induction false} IdleNames(t: Parser, ports: set<int>, r: Record, idle: seq<string>, names: seq<string>)
    requires forall i :: 0 <= i < |idle| ==> Idle(t, ports, idle[i])
    ensures FromNames(t, ports, r, idle + names) == FromNames(t, ports, r, names)
  {
    if names == [] {
      assert idle + names == idle;
      IdleAlone(t, ports, r, idle);
    } else {
      var n := |names| - 1;
      assert names == names[..n] + [names[n]] && idle + names == (idle + names[..n]) + [names[n]];
      IdleNames(t, ports, r, idle, names[..n]);
      FromNamesStep(t, ports, r, idle + names[..n], names[n]);
      FromNamesStep(t, ports, r, names[..n], names[n]);
    }
  }

  /** The names decide through the record's process, command and user only. */
  lemma {:induction false} FromNamesAlike(t: Parser, ports: set<int>, r: Record, q: Record, names: seq<string>)
    requires r.pid == q.pid && r.command == q.command && r.user == q.user
    ensures FromNames(t, ports, r, names) == FromNames(t, ports, q, names)
  {
    if names != [] {
      FromNamesAlike(t, ports, r, q, names[..|names| - 1]);
    }
  }

  /** An inert record changes nothing for the group that runs on from it. */
  lemma InertRunsOn(t: Parser, ports: set<int>, g: seq<string>, h: seq<string>)
    requires FirstBadPid(t, Values(g, 'p')).None? && Inert(t, ports, Meaning(t, g)) && Values(h, 'p') != []
    ensures GroupResult(t, ports, g + h) == GroupResult(t, ports, h)
  {
    var r, q, both := Meaning(t, g), Meaning(t, h), Meaning(t, g + h);
    ValuesConcat(g, h, 'p');
    BadPidConcat(t, Values(g, 'p'), Values(h, 'p'));
    MeaningConcat(t, g, h);
    if Values(h, 'c') == [] {
      assert q.command == "";
    }
    if Reports(q) {
      IdleNames(t, ports, both, r.names, q.names);
      FromNamesAlike(t, ports, both, q, q.names);
    }
  }

  /** A parse that has succeeded or failed so far splits into the closed groups and the open one;
      what follows only matters through the group that the open one runs on into. */
  lemma RunOnSplits(t: Parser, ports: set<int>, a: seq<string>, b: seq<string>)
    requires StartsBlock(b) && !Pending(t, Open(t, a))
    ensures var closed, rest := Outputs(t, ports, Closed(t, a)), Outputs(t, ports, Groups(t, b)[1..]);
            && Parsed(t, ports, a + b) ==
               Then(closed, Then(GroupResult(t, ports, Open(t, a) + Groups(t, b)[0]), rest))
            && Parsed(t, ports, b) == Then(GroupResult(t, ports, Groups(t, b)[0]), rest)
  {
    GroupsRunOn(t, a, b);
    var groups := Groups(t, b);
    assert groups == [groups[0]] + groups[1..];
    OutputsCons(t, ports, groups[0], groups[1..]);
    OutputsMiddle(t, ports, Closed(t, a), Open(t, a) + groups[0], groups[1..]);
  }

  lemma OutputsMiddle(t: Parser, ports: set<int>, closed: seq<seq<string>>, g: seq<string>, rest: seq<seq<string>>)
    ensures Outputs(t, ports, closed + [g] + rest) ==
            Then(Outputs(t, ports, closed), Then(GroupResult(t, ports, g), Outputs(t, ports, rest)))
  {
    assert closed + [g] + rest == closed + ([g] + rest);
    OutputsConcat(t, ports, closed, [g] + rest);
    OutputsCons(t, ports, g, rest);
  }

  lemma OutputsCons(t: Parser, ports: set<int>, g: seq<string>, rest: seq<seq<string>>)
    ensures Outputs(t, ports, [g] + rest) == Then(GroupResult(t, ports, g), Outputs(t, ports, rest))
  {
    OutputsConcat(t, ports, [g], rest);
    OutputsStep(t, ports, [], g);
    assert [] + [g] == [g];
    ThenNothing(GroupResult(t, ports, g));
  }

  /** When the open group is not pending and is good so far, it contributes nothing itself. */
  lemma NotPendingGivesNothing(t: Parser, ports: set<int>, a: seq<string>)
    requires !Pending(t, Open(t, a)) && Parsed(t, ports, a).Ok?
    ensures FirstBadPid(t, Values(Open(t, a), 'p')).None? && Meaning(t, Open(t, a)).pid == 0
    ensures Outputs(t, ports, Closed(t, a)) == Parsed(t, ports, a)
  {
    ParsedSplits(t, ports, a);
    PendingIsNonZero(t, Open(t, a));
    ThenNothing(Outputs(t, ports, Closed(t, a)));
  }

  lemma InertComposes(t: Parser, ports: set<int>, a: seq<string>, b: seq<string>)
    requires StartsBlock(b) && !Pending(t, Open(t, a)) && Parsed(t, ports, a).Ok?
    requires Inert(t, ports, Meaning(t, Open(t, a)))
    ensures Parsed(t, ports, a + b) == Then(Parsed(t, ports, a), Parsed(t, ports, b))
  {
    NotPendingGivesNothing(t, ports, a);
    GroupsRunOn(t, a, b);
    RunOnSplits(t, ports, a, b);
    InertRunsOn(t, ports, Open(t, a), Groups(t, b)[0]);
  }

  /** An error stays the error, whatever follows. */
  lemma ErrorComposes(t: Parser, ports: set<int>, a: seq<string>, b: seq<string>)
    requires StartsBlock(b) && !Pending(t, Open(t, a)) && Parsed(t, ports, a).Err?
    ensures Parsed(t, ports, a + b) == Parsed(t, ports, a)
  {
    ParsedSplits(t, ports, a);
    var e := Parsed(t, ports, a).error;
    if FirstBadPid(t, Values(Open(t, a), 'p')).None? {
      PendingIsNonZero(t, Open(t, a));
    }
    assert Doomed(t, ports, a, e);
    assert (a + b)[..|a|] == a;
    DoomedForever(t, ports, a + b, |a|, e);
  }

  // Blocks that bring out what a record leaves behind: a process line with number `p`, and then any
  // of a command line, an established state and a name line.
  const COMMAND: string := "csshd"

  const STATE: string := "TESTABLISHED"

  lemma ProbeLines()
    ensures Field(COMMAND, 'c') && COMMAND[1..] == "sshd" && IsDaemon("sshd")
    ensures Field(STATE, 'T') && IsEstablished(STATE[1..])
  {
    assert STATE[1..] == "ESTABLISHED";
    assert ToUpper("ESTABLISHED") == "ESTABLISHED";
  }

  /** A block of one group. */
  lemma {:induction false} OneBlock(t: Parser, p: string, rest: seq<string>)
    requires Field(p, 'p') && forall i :: 0 <= i < |rest| ==> !Field(rest[i], 'p')
    ensures StartsBlock([p] + rest) && Groups(t, [p] + rest) == [[p] + rest]
  {
    if rest == [] {
      assert [p] + rest == [p];
      SingleLine(t, p);
    } else {
      var n := |rest| - 1;
      OneBlock(t, p, rest[..n]);
      assert [p] + rest == ([p] + rest[..n]) + [rest[n]];
      Reassemble(t, [p] + rest[..n], rest[n]);
    }
  }

  /** The block tells the open group from nothing. */
  lemma BlockTells(t: Parser, ports: set<int>, a: seq<string>, p: string, rest: seq<string>)
    requires !Pending(t, Open(t, a)) && Parsed(t, ports, a).Ok? && Field(p, 'p')
    requires forall i :: 0 <= i < |rest| ==> !Field(rest[i], 'p')
    requires GroupResult(t, ports, [p] + rest).Ok?
    requires GroupResult(t, ports, Open(t, a) + ([p] + rest)) != GroupResult(t, ports, [p] + rest)
    ensures !Composes(t, ports, a)
  {
    var b := [p] + rest;
    OneBlock(t, p, rest);
    NotPendingGivesNothing(t, ports, a);
    RunOnSplits(t, ports, a, b);
    assert Groups(t, b)[1..] == [];
    ThenNothing(GroupResult(t, ports, b));
    ThenNothing(GroupResult(t, ports, Open(t, a) + b));
    ThenCancels(Parsed(t, ports, a), GroupResult(t, ports, Open(t, a) + b), GroupResult(t, ports, b));
  }

  lemma ThenCancels(a: Connections, x: Connections, y: Connections)
    requires a.Ok? && y.Ok? && x != y
    ensures Then(a, x) != Then(a, y)
  {
    if x.Ok? {
      assert (a.value + x.value)[|a.value|..] == x.value && (a.value + y.value)[|a.value|..] == y.value;
    }
  }

  lemma {:induction false} MeaningLines(t: Parser, g: seq<string>, lines: seq<string>)
    requires forall i :: 0 <= i < |lines| ==> !Field(lines[i], 'p')
    ensures Meaning(t, g + lines) == Updates(Meaning(t, g), lines)
    ensures Values(g + lines, 'p') == Values(g, 'p')
    decreases |lines|
  {
    if lines == [] {
      assert g + lines == g;
    } else {
      assert g + lines == (g + [lines[0]]) + lines[1..];
      MeaningLines(t, g + [lines[0]], lines[1..]);
      MeaningStep(t, g, lines[0]);
      ValuesStep(g, lines[0], 'p');
    }
  }

  /** What a block gives when it runs on from a group. */
  lemma BlockGives(t: Parser, ports: set<int>, g: seq<string>, p: string, rest: seq<string>)
    requires FirstBadPid(t, Values(g, 'p')).None? && Field(p, 'p') && t.atoi(p[1..]).Some?
    requires forall i :: 0 <= i < |rest| ==> !Field(rest[i], 'p')
    ensures GroupResult(t, ports, g + ([p] + rest)) ==
            Emit(t, ports, Updates(Meaning(t, g).(pid := t.atoi(p[1..]).value), rest))
  {
    Regrouped(g, p, rest);
    MeaningStep(t, g, p);
    ValuesStep(g, p, 'p');
    BadPidAppend(t, Values(g, 'p'), p[1..]);
    MeaningLines(t, g + [p], rest);
  }

  /** And what it gives on its own. */
  lemma BlockGivesAlone(t: Parser, ports: set<int>, p: string, rest: seq<string>)
    requires Field(p, 'p') && t.atoi(p[1..]).Some?
    requires forall i :: 0 <= i < |rest| ==> !Field(rest[i], 'p')
    ensures GroupResult(t, ports, [p] + rest) == Emit(t, ports, Updates(EMPTY.(pid := t.atoi(p[1..]).value), rest))
  {
    ProcessMeaning(t, p);
    MeaningLines(t, [p], rest);
  }

  lemma ProcessMeaning(t: Parser, p: string)
    requires Field(p, 'p') && t.atoi(p[1..]).Some?
    ensures Meaning(t, [p]) == EMPTY.(pid := t.atoi(p[1..]).value)
    ensures FirstBadPid(t, Values([p], 'p')).None?
  {
    NothingYet(t);
    assert [] + [p] == [p];
    LineJoins(t, [], EMPTY, p);
  }

  lemma UpdatesPair(r: Record, x: string, y: string)
    ensures Updates(r, [x, y]) == Update(Update(r, x), y)
  {
    assert [x, y][1..] == [y] && [y][1..] == [];
    assert Updates(Update(Update(r, x), y), []) == Update(Update(r, x), y);
    assert Updates(Update(r, x), [y]) == Updates(Update(Update(r, x), y), []);
  }

  lemma UpdatesTriple(r: Record, x: string, y: string, z: string)
    ensures Updates(r, [x, y, z]) == Update(Update(Update(r, x), y), z)
  {
    assert [x, y, z][1..] == [y, z];
    UpdatesPair(Update(r, x), y, z);
  }

  /** A reporting record whose last name is wanted fails or lists that name last. */
  lemma LastNameShows(t: Parser, ports: set<int>, r: Record, names: seq<string>, name: string)
    requires Reports(r) && r.names == names + [name]
    requires ParseName(t, name).Some? && Wanted(ports, ParseName(t, name).value.0)
    ensures var e := Emit(t, ports, r);
            e.Ok? ==> e.value != [] && e.value[|e.value| - 1] == Listed(r, ParseName(t, name).value)
  {
    FromNamesStep(t, ports, r, names, name);
  }

  /** A reporting record with a name that is not idle fails or lists something. */
  lemma NameShows(t: Parser, ports: set<int>, r: Record, i: nat)
    requires Reports(r) && i < |r.names| && !Idle(t, ports, r.names[i])
    ensures Emit(t, ports, r) != Ok([])
  {
    if FromNames(t, ports, r, r.names).Ok? {
      NamesParse(t, ports, r, r.names, i);
      var c := Listed(r, ParseName(t, r.names[i]).value);
      assert GivesName(t, ports, r, r.names[i], c);
      FromNamesContents(t, ports, r, r.names, c);
    }
  }

  lemma {:induction false} NamesParse(t: Parser, ports: set<int>, r: Record, names: seq<string>, i: nat)
    requires FromNames(t, ports, r, names).Ok? && i < |names|
    ensures ParseName(t, names[i]).Some?
  {
    if i < |names| - 1 {
      NamesParse(t, ports, r, names[..|names| - 1], i);
    }
  }

  /** The library reads some process number that is not zero and some name that is wanted. */
  ghost predicate Witnesses(t: Parser, ports: set<int>, p: string, n: string) {
    && Field(p, 'p') && t.atoi(p[1..]).Some? && t.atoi(p[1..]) != Some(0)
    && Field(n, 'n') && ParseName(t, n[1..]).Some? && Wanted(ports, ParseName(t, n[1..]).value.0)
  }

  /** The open record, when it is good but not pending. */
  ghost predicate Leftover(t: Parser, ports: set<int>, a: seq<string>, r: Record) {
    !Pending(t, Open(t, a)) && Parsed(t, ports, a).Ok? && r == Meaning(t, Open(t, a))
  }

  /** What the lines after a process line make of a record. */
  lemma StateBlock(r: Record, n: string)
    requires Field(n, 'n')
    ensures Updates(r, [STATE, n]) == Record(r.pid, r.command, r.user, r.names + [n[1..]], true, true)
    ensures forall i :: 0 <= i < 2 ==> !Field([STATE, n][i], 'p')
  {
    ProbeLines();
    UpdatesPair(r, STATE, n);
  }

  lemma CommandBlock(r: Record, n: string)
    requires Field(n, 'n')
    ensures Updates(r, [COMMAND, n]) == Record(r.pid, "sshd", r.user, r.names + [n[1..]], r.established, r.hasState)
    ensures forall i :: 0 <= i < 2 ==> !Field([COMMAND, n][i], 'p')
  {
    ProbeLines();
    UpdatesPair(r, COMMAND, n);
  }

  lemma CommandStateBlock(r: Record)
    ensures Updates(r, [COMMAND, STATE]) == Record(r.pid, "sshd", r.user, r.names, true, true)
    ensures forall i :: 0 <= i < 2 ==> !Field([COMMAND, STATE][i], 'p')
  {
    ProbeLines();
    UpdatesPair(r, COMMAND, STATE);
  }

  /** A reporting record with a wanted name at its end does not give nothing. */
  lemma ReportsSomething(t: Parser, ports: set<int>, r: Record, names: seq<string>, name: string)
    requires Reports(r) && r.names == names + [name]
    requires ParseName(t, name).Some? && Wanted(ports, ParseName(t, name).value.0)
    ensures Emit(t, ports, r) != Ok([])
  {
    LastNameShows(t, ports, r, names, name);
  }

  lemma DaemonTells(t: Parser, ports: set<int>, a: seq<string>, r: Record, p: string, n: string)
    requires Leftover(t, ports, a, r) && Witnesses(t, ports, p, n) && IsDaemon(r.command)
    ensures !Composes(t, ports, a)
  {
    NotPendingGivesNothing(t, ports, a);
    var rest, pid := [STATE, n], t.atoi(p[1..]).value;
    StateBlock(r.(pid := pid), n);
    StateBlock(EMPTY.(pid := pid), n);
    BlockGives(t, ports, Open(t, a), p, rest);
    BlockGivesAlone(t, ports, p, rest);
    ReportsSomething(t, ports, Record(pid, r.command, r.user, r.names + [n[1..]], true, true), r.names, n[1..]);
    BlockTells(t, ports, a, p, rest);
  }

  lemma StateTells(t: Parser, ports: set<int>, a: seq<string>, r: Record, p: string, n: string)
    requires Leftover(t, ports, a, r) && Witnesses(t, ports, p, n) && r.established
    ensures !Composes(t, ports, a)
  {
    NotPendingGivesNothing(t, ports, a);
    var rest, pid := [COMMAND, n], t.atoi(p[1..]).value;
    CommandBlock(r.(pid := pid), n);
    CommandBlock(EMPTY.(pid := pid), n);
    BlockGives(t, ports, Open(t, a), p, rest);
    BlockGivesAlone(t, ports, p, rest);
    ReportsSomething(t, ports, Record(pid, "sshd", r.user, r.names + [n[1..]], true, true), r.names, n[1..]);
    BlockTells(t, ports, a, p, rest);
  }

  /** The full block fills a record in. */
  lemma FullBlock(r: Record, n: string)
    requires Field(n, 'n')
    ensures Updates(r, [COMMAND, STATE, n]) == Record(r.pid, "sshd", r.user, r.names + [n[1..]], true, true)
    ensures forall i :: 0 <= i < 3 ==> !Field([COMMAND, STATE, n][i], 'p')
  {
    ProbeLines();
    UpdatesTriple(r, COMMAND, STATE, n);
  }

  lemma UserTells(t: Parser, ports: set<int>, a: seq<string>, r: Record, p: string, n: string)
    requires Leftover(t, ports, a, r) && Witnesses(t, ports, p, n) && r.user != ""
    ensures !Composes(t, ports, a)
  {
    NotPendingGivesNothing(t, ports, a);
    var rest, pid := [COMMAND, STATE, n], t.atoi(p[1..]).value;
    FullBlock(r.(pid := pid), n);
    FullBlock(EMPTY.(pid := pid), n);
    BlockGives(t, ports, Open(t, a), p, rest);
    BlockGivesAlone(t, ports, p, rest);
    UsersDiffer(t, ports, pid, r, n[1..]);
    BlockTells(t, ports, a, p, rest);
  }

  /** The user of the leftover record shows in what is listed last. */
  lemma UsersDiffer(t: Parser, ports: set<int>, pid: int, r: Record, name: string)
    requires pid != 0 && r.user != "" && ParseName(t, name).Some? && Wanted(ports, ParseName(t, name).value.0)
    ensures var both, alone := Record(pid, "sshd", r.user, r.names + [name], true, true),
                               Record(pid, "sshd", "", [] + [name], true, true);
            Emit(t, ports, alone).Ok? && Emit(t, ports, both) != Emit(t, ports, alone)
  {
    LastNameShows(t, ports, Record(pid, "sshd", r.user, r.names + [name], true, true), r.names, name);
    AloneLists(t, ports, Record(pid, "sshd", "", [] + [name], true, true), name);
  }

  /** A reporting record with a single wanted name lists just that. */
  lemma AloneLists(t: Parser, ports: set<int>, r: Record, name: string)
    requires Reports(r) && r.names == [] + [name]
    requires ParseName(t, name).Some? && Wanted(ports, ParseName(t, name).value.0)
    ensures Emit(t, ports, r) == Ok([] + [Listed(r, ParseName(t, name).value)])
  {
    FromNamesStep(t, ports, r, [], name);
  }

  lemma NameTells(t: Parser, ports: set<int>, a: seq<string>, r: Record, p: string, i: nat)
    requires Leftover(t, ports, a, r) && Field(p, 'p') && t.atoi(p[1..]).Some? && t.atoi(p[1..]) != Some(0)
    requires i < |r.names| && !Idle(t, ports, r.names[i])
    ensures !Composes(t, ports, a)
  {
    NotPendingGivesNothing(t, ports, a);
    var rest, pid := [COMMAND, STATE], t.atoi(p[1..]).value;
    CommandStateBlock(r.(pid := pid));
    CommandStateBlock(EMPTY.(pid := pid));
    BlockGives(t, ports, Open(t, a), p, rest);
    BlockGivesAlone(t, ports, p, rest);
    NameShows(t, ports, Record(pid, "sshd", r.user, r.names, true, true), i);
    BlockTells(t, ports, a, p, rest);
  }

  /** Nothing is closed and every process number so far is a number. */
  ghost predicate OneGroup(t: Parser, a: seq<string>, r: Record) {
    Groups(t, a) == [a] && FirstBadPid(t, Values(a, 'p')).None? && Meaning(t, a) == r
  }

  /** A group that is not pending takes the next line in, whatever it is. */
  lemma LineJoins(t: Parser, a: seq<string>, r: Record, line: string)
    requires OneGroup(t, a, r) && !(Field(line, 'p') && Pending(t, a))
    requires Field(line, 'p') ==> t.atoi(line[1..]).Some?
    ensures OneGroup(t, a + [line],
                     if Field(line, 'p') then r.(pid := t.atoi(line[1..]).value) else Update(r, line))
    ensures !Field(line, 'p') ==> Pending(t, a + [line]) == Pending(t, a)
    ensures Field(line, 'p') ==> Pending(t, a + [line]) == (t.atoi(line[1..]) != Some(0))
  {
    Reassemble(t, a, line);
    MeaningStep(t, a, line);
    ValuesStep(a, line, 'p');
    if Field(line, 'p') {
      BadPidAppend(t, Values(a, 'p'), line[1..]);
    }
  }

  lemma SingleGroup(t: Parser, a: seq<string>, r: Record)
    requires OneGroup(t, a, r)
    ensures Parsed(t, {}, a) == Emit(t, {}, r)
  {
    ParsedSplits(t, {}, a);
    assert Closed(t, a) == [] && Open(t, a) == a;
    ThenNothing(GroupResult(t, {}, a));
  }

  function Updates(r: Record, lines: seq<string>): Record
    decreases |lines|
  {
    if lines == [] then r else Updates(Update(r, lines[0]), lines[1..])
  }

  /** Lines other than process lines only update the record. */
  lemma {:induction false} LinesJoin(t: Parser, a: seq<string>, r: Record, lines: seq<string>)
    requires OneGroup(t, a, r) && forall i :: 0 <= i < |lines| ==> !Field(lines[i], 'p')
    ensures OneGroup(t, a + lines, Updates(r, lines))
    decreases |lines|
  {
    if lines == [] {
      assert a + lines == a;
    } else {
      LineJoins(t, a, r, lines[0]);
      assert a + [lines[0]] + lines[1..] == a + lines;
      LinesJoin(t, a + [lines[0]], Update(r, lines[0]), lines[1..]);
    }
  }

  /** What a first block `p`, `n`, `s` adds to a group that is not pending. */
  lemma BlockMeaning(t: Parser, a: seq<string>, r: Record, p: string, rest: seq<string>)
    requires OneGroup(t, a, r) && !Pending(t, a)
    requires Field(p, 'p') && t.atoi(p[1..]) == Some(1)
    requires forall i :: 0 <= i < |rest| ==> !Field(rest[i], 'p')
    ensures OneGroup(t, a + [p] + rest, Updates(r.(pid := 1), rest))
  {
    LineJoins(t, a, r, p);
    LinesJoin(t, a + [p], r.(pid := 1), rest);
  }

  lemma TwoUpdates(r: Record, n: string, s: string)
    requires Field(n, 'n') && Field(s, 'T') && IsEstablished(s[1..])
    ensures Updates(r, [n, s]) == Record(r.pid, r.command, r.user, r.names + [n[1..]], true, true)
  {
    assert [n, s][1..] == [s] && [s][1..] == [];
    assert Updates(r, [n, s]) == Updates(Update(r, n), [s]);
    assert Updates(Update(r, n), [s]) == Updates(Update(Update(r, n), s), []);
  }

  lemma SingleName(t: Parser, r: Record, name: string)
    requires ParseName(t, name).Some? && r.names == [name] && Reports(r)
    ensures Emit(t, {}, r) == Ok([Listed(r, ParseName(t, name).value)])
  {
    assert FromNames(t, {}, r, [name][..0]) == Ok([]);
    assert [] + [Listed(r, ParseName(t, name).value)] == [Listed(r, ParseName(t, name).value)];
  }

  lemma BlockAfter(t: Parser, a: seq<string>, command: string, p: string, n: string, s: string)
    requires OneGroup(t, a, Record(0, command, "", [], false, false)) && !Pending(t, a)
    requires Field(p, 'p') && t.atoi(p[1..]) == Some(1)
    requires Field(n, 'n') && Field(s, 'T') && IsEstablished(s[1..])
    ensures Parsed(t, {}, a + ([p] + [n, s])) == Emit(t, {}, Record(1, command, "", [n[1..]], true, true))
  {
    var r, rest := Record(0, command, "", [], false, false), [n, s];
    TwoUpdates(r.(pid := 1), n, s);
    assert [] + [n[1..]] == [n[1..]];
    BlockMeaning(t, a, r, p, rest);
    Regrouped(a, p, rest);
    SingleGroup(t, a + ([p] + rest), Record(1, command, "", [n[1..]], true, true));
  }

  lemma Regrouped(a: seq<string>, p: string, rest: seq<string>)
    ensures a + [p] + rest == a + ([p] + rest)
  {
  }

  lemma NothingYet(t: Parser)
    ensures OneGroup(t, [], EMPTY) && !Pending(t, [])
  {
  }

  lemma ZeroLine(t: Parser, zero: string)
    requires Field(zero, 'p') && t.atoi(zero[1..]) == Some(0)
    ensures OneGroup(t, [zero], EMPTY) && !Pending(t, [zero])
  {
    NothingYet(t);
    assert [] + [zero] == [zero];
    LineJoins(t, [], EMPTY, zero);
  }

  lemma ZeroBlock(t: Parser, zero: string, command: string)
    requires Field(zero, 'p') && t.atoi(zero[1..]) == Some(0) && Field(command, 'c') && command[1..] == "sshd"
    ensures OneGroup(t, [zero, command], Record(0, "sshd", "", [], false, false))
    ensures !Pending(t, [zero, command]) && Parsed(t, {}, [zero, command]) == Ok([])
  {
    ZeroLine(t, zero);
    CommandJoins(t, [zero], command);
    assert [zero] + [command] == [zero, command];
  }

  lemma CommandJoins(t: Parser, a: seq<string>, command: string)
    requires OneGroup(t, a, EMPTY) && !Pending(t, a) && Field(command, 'c') && command[1..] == "sshd"
    ensures OneGroup(t, a + [command], Record(0, "sshd", "", [], false, false))
    ensures !Pending(t, a + [command]) && Parsed(t, {}, a + [command]) == Ok([])
  {
    LineJoins(t, a, EMPTY, command);
    SingleGroup(t, a + [command], Record(0, "sshd", "", [], false, false));
  }
}
