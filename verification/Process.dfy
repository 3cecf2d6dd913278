/** The process-tree terminator (internal/monitor/process.go): a recursive walk over whatever
    process table the system shows, which may change between any two questions. */
module Process {
  import opened Basics
  import opened Text
  import opened Netip

  const MIN_INT: int := -0x8000_0000_0000_0000
  const MAX_INT: int := 0x7fff_ffff_ffff_ffff

  /** A Go `int`. */
  type Pid = p: int | MIN_INT <= p <= MAX_INT

  datatype Target = Target(pid: Pid, local: Option<Endpoint>, remote: Option<Endpoint>)

  datatype SignalReply = Delivered | NoSuchProcess | Refused

  /** What the walk asked the system and what it answered, in order. */
  datatype Event =
    | Asked(pid: Pid, children: Option<seq<Pid>>)
    | Inspected(pid: Pid, command: Option<string>)
    | Verified(target: Target, verdict: Option<bool>)
    | Signalled(pid: Pid, reply: SignalReply)

  /** Arbitrary answers: each may depend on how many questions came before. */
  datatype World = World(
    children: (nat, Pid) -> Option<seq<Pid>>,
    command: (nat, Pid) -> Option<string>,
    verifier: Option<(nat, Target) -> Option<bool>>,
    signal: (nat, Pid) -> SignalReply)

  // ----- the command predicate -----

  /** `filepath.Base`. */
  function PathBase(path: string): string {
    if path == "" then "."
    else
      var p := TrimSlashes(path);
      if p == "" then "/" else AfterLastSlash(p)
  }

  function TrimSlashes(p: string): string {
    if p != "" && p[|p| - 1] == '/' then TrimSlashes(p[..|p| - 1]) else p
  }

  function AfterLastSlash(p: string): string {
    if p == "" || p[|p| - 1] == '/' then "" else AfterLastSlash(p[..|p| - 1]) + [p[|p| - 1]]
  }

  function TrimColon(s: string): string {
    if s != "" && s[|s| - 1] == ':' then s[..|s| - 1] else s
  }

  /** A session process of the SSH daemon shows its user after a colon; the listener does not. */
  predicate IsSSHSessionCommand(command: string) {
    var field := FirstField(command);
    var name := TrimColon(PathBase(field));
    field != "" && (name == "sshd" || name == "sshd-session") && ':' in field
  }

  // What the predicate accepts, said of the text itself.

  /** `f` is the first run of the command without white space, complete on both sides; it is empty
      when the command is blank. */
  ghost predicate IsFirstRun(command: string, f: string) {
    exists i, k :: RunsFrom(command, f, i, k)
  }

  ghost predicate RunsFrom(command: string, f: string, i: int, k: int) {
    && 0 <= i <= k <= |command| && f == command[i..k]
    && (forall x :: 0 <= x < i ==> SpaceAt(command, x))
    && (forall x :: i <= x < k ==> !SpaceAt(command, x))
    && (k < |command| ==> SpaceAt(command, k))
    && (f == "" ==> k == |command|)
  }

  predicate SpaceAt(s: string, x: int) {
    0 <= x < |s| && IsSpace(s[x])
  }

  /** An optional directory, the name of a daemon, an optional colon and slashes, with a colon
      somewhere. */
  ghost predicate IsSessionField(f: string) {
    ':' in f && exists dir, name, colon, slashes :: IsSplit(f, dir, name, colon, slashes)
  }

  ghost predicate IsSplit(f: string, dir: string, name: string, colon: string, slashes: string) {
    && f == dir + name + colon + slashes
    && (dir == "" || dir[|dir| - 1] == '/')
    && (name == "sshd" || name == "sshd-session")
    && (colon == "" || colon == ":")
    && forall x :: 0 <= x < |slashes| ==> slashes[x] == '/'
  }

  lemma {:induction false} FirstFieldIsFirstRun(command: string)
    ensures IsFirstRun(command, FirstField(command))
  {
    var i := LeadingSpace(command);
    var k := RunLength(command[i..]);
    assert FirstField(command) == command[i..][..k] == command[i..i + k];
    assert forall x :: i <= x < i + k ==> command[x] == command[i..][x - i];
    assert RunsFrom(command, FirstField(command), i, i + k);
  }

  /** How many white-space characters lead. */
  lemma {:induction false} LeadingSpace(s: string) returns (i: nat)
    ensures i <= |s| && TrimLeft(s) == s[i..]
    ensures forall x :: 0 <= x < i ==> IsSpace(s[x])
    ensures i < |s| ==> !IsSpace(s[i])
  {
    if s != "" && IsSpace(s[0]) {
      i := LeadingSpace(s[1..]);
      assert s[1..][i..] == s[i + 1..];
      assert forall x :: 0 < x < i + 1 ==> s[x] == s[1..][x - 1];
      i := i + 1;
    } else {
      i := 0;
    }
  }

  /** How far the run without white space reaches. */
  lemma {:induction false} RunLength(s: string) returns (k: nat)
    ensures k <= |s| && UpToSpace(s) == s[..k]
    ensures forall x :: 0 <= x < k ==> !IsSpace(s[x])
    ensures k < |s| ==> IsSpace(s[k])
  {
    if s == "" || IsSpace(s[0]) {
      k := 0;
    } else {
      k := RunLength(s[1..]);
      assert forall x :: 0 < x < k + 1 ==> s[x] == s[1..][x - 1];
      k := k + 1;
    }
  }

  lemma FirstRunIsUnique(command: string, f: string, g: string)
    requires IsFirstRun(command, f) && IsFirstRun(command, g)
    ensures f == g
  {
    var i, k :| RunsFrom(command, f, i, k);
    var m, n :| RunsFrom(command, g, m, n);
    assert i < m ==> SpaceAt(command, i);
    assert i < k ==> !SpaceAt(command, i);
    assert m < i ==> SpaceAt(command, m);
    assert m < n ==> !SpaceAt(command, m);
    assert i == m;
    assert k < n ==> !SpaceAt(command, k);
    assert n < k ==> !SpaceAt(command, n);
    assert k == n;
  }

  lemma {:induction false} TrimSlashesSplit(p: string) returns (slashes: string)
    ensures p == TrimSlashes(p) + slashes && forall x :: 0 <= x < |slashes| ==> slashes[x] == '/'
    ensures TrimSlashes(p) != "" ==> TrimSlashes(p)[|TrimSlashes(p)| - 1] != '/'
  {
    slashes := "";
    if p != "" && p[|p| - 1] == '/' {
      var rest := TrimSlashesSplit(p[..|p| - 1]);
      slashes := rest + "/";
    }
  }

  lemma {:induction false} TrimSlashesAppend(p: string, slashes: string)
    requires p != "" && p[|p| - 1] != '/' && forall x :: 0 <= x < |slashes| ==> slashes[x] == '/'
    ensures TrimSlashes(p + slashes) == p
  {
    if slashes == "" {
      assert p + slashes == p;
    } else {
      var n := |slashes| - 1;
      assert (p + slashes)[..|p + slashes| - 1] == p + slashes[..n];
      TrimSlashesAppend(p, slashes[..n]);
    }
  }

  lemma {:induction false} AfterLastSlashSplit(p: string) returns (dir: string)
    ensures p == dir + AfterLastSlash(p) && (dir == "" || dir[|dir| - 1] == '/')
  {
    if p == "" || p[|p| - 1] == '/' {
      dir := p;
    } else {
      dir := AfterLastSlashSplit(p[..|p| - 1]);
    }
  }

  lemma {:induction false} AfterLastSlashAppend(dir: string, base: string)
    requires (dir == "" || dir[|dir| - 1] == '/') && '/' !in base
    ensures AfterLastSlash(dir + base) == base
  {
    if base == "" {
      assert dir + base == dir;
    } else {
      var n := |base| - 1;
      assert base[n] in base;
      assert (dir + base)[..|dir + base| - 1] == dir + base[..n];
      AfterLastSlashAppend(dir, base[..n]);
    }
  }

  /** Exactly the fields whose base name, a final colon aside, is a daemon's. */
  lemma BaseNameIff(f: string)
    ensures (var name := TrimColon(PathBase(f)); f != "" && (name == "sshd" || name == "sshd-session"))
            <==> exists dir, name, colon, slashes :: IsSplit(f, dir, name, colon, slashes)
  {
    var name := TrimColon(PathBase(f));
    if f != "" && (name == "sshd" || name == "sshd-session") {
      var slashes := TrimSlashesSplit(f);
      var dir := AfterLastSlashSplit(TrimSlashes(f));
      var colon := if PathBase(f) == name then "" else ":";
      assert PathBase(f) == name + colon;
      assert IsSplit(f, dir, name, colon, slashes);
    }
    if dir, name, colon, slashes :| IsSplit(f, dir, name, colon, slashes) {
      SplitHasBase(f, dir, name, colon, slashes);
    }
  }

  lemma SplitHasBase(f: string, dir: string, name: string, colon: string, slashes: string)
    requires IsSplit(f, dir, name, colon, slashes)
    ensures f != "" && TrimColon(PathBase(f)) == name
  {
    var base := name + colon;
    assert base[|base| - 1] == if colon == "" then name[|name| - 1] else ':';
    assert f == (dir + base) + slashes;
    assert (dir + base)[|dir + base| - 1] == base[|base| - 1];
    TrimSlashesAppend(dir + base, slashes);
    AfterLastSlashAppend(dir, base);
    assert base[..|name|] == name;
  }

  /** A command is taken for a session exactly when its first run of text names a daemon, in any
      directory and with or without a final colon, and has a colon. */
  lemma SessionCommandIff(command: string, f: string)
    requires IsFirstRun(command, f)
    ensures IsSSHSessionCommand(command) <==> IsSessionField(f)
  {
    FirstFieldIsFirstRun(command);
    FirstRunIsUnique(command, f, FirstField(command));
    BaseNameIff(f);
  }

  lemma RunCommand(f: string, rest: string)
    requires f != "" && (forall x :: 0 <= x < |f| ==> !IsSpace(f[x])) && (rest != "" ==> IsSpace(rest[0]))
    ensures IsSSHSessionCommand(f + rest) <==> IsSessionField(f)
  {
    assert RunsFrom(f + rest, f, 0, |f|);
    SessionCommandIff(f + rest, f);
  }

  predicate Daemon(name: string) {
    name == "sshd" || name == "sshd-session"
  }

  /** A session, which shows its user after a colon, is taken: "sshd: alice@ttys001" and
      "sshd-session: alice@ttys001" among others. */
  lemma SessionIsTaken(name: string, rest: string)
    requires Daemon(name) && (rest != "" ==> IsSpace(rest[0]))
    ensures IsSSHSessionCommand(name + ":" + rest)
  {
    assert (name + ":")[|name|] == ':';
    assert "" + name + ":" + "" == name + ":";
    assert IsSplit(name + ":", "", name, ":", "");
    RunCommand(name + ":", rest);
  }

  /** A program that shows no colon in its first run is refused, whatever its arguments: the
      listener, "sshd -D" and "/usr/sbin/sshd" among others, and anything like "vim". */
  lemma ListenerIsRefused(f: string, rest: string)
    requires f != "" && ':' !in f && (forall x :: 0 <= x < |f| ==> !IsSpace(f[x]))
    requires rest != "" ==> IsSpace(rest[0])
    ensures !IsSSHSessionCommand(f + rest)
  {
    RunCommand(f, rest);
  }

  /** So is any other program, colon or not. */
  lemma OtherProgramIsRefused(f: string, rest: string)
    requires f != "" && '/' !in f && (forall x :: 0 <= x < |f| ==> !IsSpace(f[x]))
    requires rest != "" ==> IsSpace(rest[0])
    requires !Daemon(f) && !(f[|f| - 1] == ':' && Daemon(f[..|f| - 1]))
    ensures !IsSSHSessionCommand(f + rest)
  {
    RunCommand(f, rest);
    forall dir, name, colon, slashes ensures !IsSplit(f, dir, name, colon, slashes) {
      if IsSplit(f, dir, name, colon, slashes) {
        PlainSplit(f, dir, name, colon, slashes);
      }
    }
  }

  lemma PlainSplit(f: string, dir: string, name: string, colon: string, slashes: string)
    requires '/' !in f && IsSplit(f, dir, name, colon, slashes)
    ensures f == name + colon
  {
    assert forall c :: c in dir || c in slashes ==> c in f;
    NoSlash(dir);
    NoSlash(slashes);
  }

  lemma NoSlash(s: string)
    requires '/' !in s
    ensures s == "" || s[|s| - 1] != '/'
  {
  }

  // ----- the walk as a function of the answers -----

  datatype Walk = Walk(visited: set<Pid>, trace: seq<Event>)

  function Log(w: Walk, e: Event): Walk {
    w.(trace := w.trace + [e])
  }

  ghost function Unvisited(visited: set<Pid>): set<int> {
    set p: int | MIN_INT <= p <= MAX_INT && p !in visited
  }

  /** The walk of one process: mark, ask, walk the children, signal. */
  ghost function Tree(s: World, target: Target, validate: bool, w: Walk): (r: (Walk, bool))
    ensures w.visited <= r.0.visited && w.trace <= r.0.trace
    decreases Unvisited(w.visited), 0
  {
    var pid := target.pid;
    if pid in w.visited then (w, true)
    else
      var reply := s.children(|w.trace|, pid);
      var w1 := Log(Walk(w.visited + {pid}, w.trace), Asked(pid, reply));
      assert pid in Unvisited(w.visited) && pid !in Unvisited(w1.visited);
      if reply.None? then (w1, false)
      else
        var (w2, ok) := Forest(s, reply.value, w1);
        if !ok then (w2, false) else Finish(s, target, validate, w2)
  }

  ghost function Forest(s: World, children: seq<Pid>, w: Walk): (r: (Walk, bool))
    ensures w.visited <= r.0.visited && w.trace <= r.0.trace
    decreases Unvisited(w.visited), 1 + |children|
  {
    if children == [] then (w, true)
    else
      var (w1, ok) := Tree(s, Child(children[0]), false, w);
      assert Unvisited(w1.visited) <= Unvisited(w.visited);
      if !ok then (w1, false) else Forest(s, children[1..], w1)
  }

  function Child(pid: Pid): Target {
    Target(pid, None, None)
  }

  /** The end of a process's walk: for the root the checks again, then the signal. */
  function Finish(s: World, target: Target, validate: bool, w: Walk): (r: (Walk, bool))
    ensures r.0.visited == w.visited && w.trace <= r.0.trace
  {
    if !validate then Signal(s, target.pid, w)
    else
      var (w1, ok) := Check(s, target, w);
      if !ok then (w1, false) else Signal(s, target.pid, w1)
  }

  /** The command must be a session's and the verifier, when there is one, must agree. */
  function Check(s: World, target: Target, w: Walk): (r: (Walk, bool))
    ensures r.0.visited == w.visited && w.trace <= r.0.trace
  {
    var command := s.command(|w.trace|, target.pid);
    var w1 := Log(w, Inspected(target.pid, command));
    if command.None? || !IsSSHSessionCommand(command.value) then (w1, false)
    else if s.verifier.None? then (w1, true)
    else
      var verdict := s.verifier.value(|w1.trace|, target);
      (Log(w1, Verified(target, verdict)), verdict == Some(true))
  }

  function Signal(s: World, pid: Pid, w: Walk): (r: (Walk, bool))
    ensures r.0.visited == w.visited && w.trace <= r.0.trace
  {
    var reply := s.signal(|w.trace|, pid);
    (Log(w, Signalled(pid, reply)), reply != Refused)
  }

  /** A whole run: preflight checks, then the walk from the root. */
  ghost function Terminate(s: World, target: Target): (Walk, bool) {
    var (w, ok) := Check(s, target, Walk({}, []));
    if !ok then (w, false) else Tree(s, target, true, w)
  }

  // ----- the program -----

  /** The terminator with the map of visited processes and the record of its questions. */
  class TreeTerminator {
    const world: World
    var visited: set<Pid>
    var trace: seq<Event>

    constructor (world: World)
      ensures this.world == world && visited == {} && trace == []
    {
      this.world := world;
      visited, trace := {}, [];
    }

    ghost function State(): Walk
      reads this
    {
      Walk(visited, trace)
    }

    method VerifyConnection(target: Target) returns (ok: bool)
      modifies this
      ensures visited == old(visited)
      ensures if world.verifier.None? then ok && trace == old(trace)
              else var verdict := world.verifier.value(|old(trace)|, target);
                   trace == old(trace) + [Verified(target, verdict)] && ok == (verdict == Some(true))
    {
      if world.verifier.None? {
        return true;
      }
      var verdict := world.verifier.value(|trace|, target);
      trace := trace + [Verified(target, verdict)];
      return verdict == Some(true);
    }

    method CheckRoot(target: Target) returns (ok: bool)
      modifies this
      ensures (State(), ok) == Check(world, target, old(State()))
    {
      var command := world.command(|trace|, target.pid);
      trace := trace + [Inspected(target.pid, command)];
      if command.None? {
        return false;
      }
      if !IsSSHSessionCommand(command.value) {
        return false;
      }
      ok := VerifyConnection(target);
    }

    method Run(target: Target) returns (ok: bool)
      requires visited == {} && trace == []
      modifies this
      ensures (State(), ok) == Terminate(world, target)
    {
      var checked := CheckRoot(target);
      if !checked {
        return false;
      }
      ok := TerminateTree(target, true);
    }

    method TerminateTree(target: Target, validate: bool) returns (ok: bool)
      modifies this
      ensures (State(), ok) == Tree(world, target, validate, old(State()))
      decreases Unvisited(visited), 0
    {
      var pid := target.pid;
      if pid in visited {
        return true;
      }
      assert pid in Unvisited(visited);
      visited := visited + {pid};
      var children := world.children(|trace|, pid);
      trace := trace + [Asked(pid, children)];
      if children.None? {
        return false;
      }
      ghost var marked := State();
      var i := 0;
      while i < |children.value|
        invariant i <= |children.value|
        invariant marked.visited <= visited
        invariant Forest(world, children.value, marked) == Forest(world, children.value[i..], State())
      {
        assert Unvisited(visited) < Unvisited(old(visited)) by {
          assert pid !in Unvisited(visited);
        }
        var walked := TerminateTree(Child(children.value[i]), false);
        if !walked {
          return false;
        }
        assert children.value[i..][1..] == children.value[i + 1..];
        i := i + 1;
      }
      if validate {
        var checked := CheckRoot(target);
        if !checked {
          return false;
        }
      }
      var reply := world.signal(|trace|, pid);
      trace := trace + [Signalled(pid, reply)];
      return reply != Refused;
    }
  }
}
