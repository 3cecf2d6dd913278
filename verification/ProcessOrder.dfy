/** What the terminator's walk guarantees about the process graph it was shown: the recorded
    answers form one fixed graph, because no process is asked about twice. */
module ProcessOrder {
  import opened Basics
  import opened Process

  // ----- reading the record -----

  function Asks(trace: seq<Event>): seq<Pid> {
    if trace == [] then []
    else
      var last := trace[|trace| - 1];
      Asks(trace[..|trace| - 1]) + (if last.Asked? then [last.pid] else [])
  }

  /** The processes that were sent a signal, in order. */
  function Signals(trace: seq<Event>): seq<Pid> {
    if trace == [] then []
    else
      var last := trace[|trace| - 1];
      Signals(trace[..|trace| - 1]) + (if last.Signalled? then [last.pid] else [])
  }

  /** The children each process reported. */
  function Graph(trace: seq<Event>): map<Pid, seq<Pid>> {
    if trace == [] then map[]
    else
      var g, last := Graph(trace[..|trace| - 1]), trace[|trace| - 1];
      if last.Asked? && last.children.Some? then g[last.pid := last.children.value] else g
  }

  lemma Append(trace: seq<Event>, e: Event)
    ensures Asks(trace + [e]) == Asks(trace) + (if e.Asked? then [e.pid] else [])
    ensures Signals(trace + [e]) == Signals(trace) + (if e.Signalled? then [e.pid] else [])
    ensures Graph(trace + [e]) ==
            if e.Asked? && e.children.Some? then Graph(trace)[e.pid := e.children.value] else Graph(trace)
  {
    assert (trace + [e])[..|trace|] == trace;
  }

  // ----- reachability in the observed graph -----

  predicate Edge(g: map<Pid, seq<Pid>>, u: Pid, v: Pid) {
    u in g && v in g[u]
  }

  predicate IsPath(g: map<Pid, seq<Pid>>, p: seq<Pid>) {
    p != [] && forall i :: 0 <= i < |p| - 1 ==> Edge(g, p[i], p[i + 1])
  }

  ghost predicate Reaches(g: map<Pid, seq<Pid>>, u: Pid, v: Pid) {
    exists p :: IsPath(g, p) && p[0] == u && p[|p| - 1] == v
  }

  lemma ReachesSelf(g: map<Pid, seq<Pid>>, u: Pid)
    ensures Reaches(g, u, u)
  {
    assert IsPath(g, [u]);
  }

  lemma ReachesOn(g: map<Pid, seq<Pid>>, u: Pid, v: Pid, w: Pid)
    requires Reaches(g, u, v) && Edge(g, v, w)
    ensures Reaches(g, u, w)
  {
    var p :| IsPath(g, p) && p[0] == u && p[|p| - 1] == v;
    assert IsPath(g, p + [w]);
  }

  /** The graph only grows: known answers stay. */
  predicate Extends(g: map<Pid, seq<Pid>>, h: map<Pid, seq<Pid>>) {
    forall u :: u in g ==> u in h && h[u] == g[u]
  }

  lemma PathExtends(g: map<Pid, seq<Pid>>, h: map<Pid, seq<Pid>>, p: seq<Pid>)
    requires Extends(g, h) && IsPath(g, p)
    ensures IsPath(h, p)
  {
  }

  lemma ReachesExtends(g: map<Pid, seq<Pid>>, h: map<Pid, seq<Pid>>, u: Pid, v: Pid)
    requires Extends(g, h) && Reaches(g, u, v)
    ensures Reaches(h, u, v)
  {
    var p :| IsPath(g, p) && p[0] == u && p[|p| - 1] == v;
    PathExtends(g, h, p);
  }

  // ----- invariants of the walk -----

  /** A signalled process had each reported child signalled before it, or the child leads back
      to it. */
  ghost predicate PostOrder(g: map<Pid, seq<Pid>>, signals: seq<Pid>) {
    forall k, v :: 0 <= k < |signals| && Edge(g, signals[k], v) ==>
      v in signals[..k] || Reaches(g, v, signals[k])
  }

  /** Holds of every walk, broken off or not. */
  ghost predicate Sound(root: Pid, w: Walk) {
    var g, signals := Graph(w.trace), Signals(w.trace);
    && (forall p :: p in w.visited <==> p in Asks(w.trace)) && Distinct(Asks(w.trace))
    && (forall p :: p in g ==> p in w.visited)
    && (forall p :: p in signals ==> p in w.visited && p in g) && Distinct(signals)
    && (forall p :: p in w.visited ==> Reaches(g, root, p))
    && PostOrder(g, signals)
  }

  /** Holds while the walk goes on: `stack` is the chain of processes being walked. */
  ghost predicate Going(w: Walk, stack: seq<Pid>) {
    var g, signals := Graph(w.trace), Signals(w.trace);
    && (stack != [] ==> IsPath(g, stack))
    && (forall p :: p in stack ==> p in w.visited && p !in signals)
    && (forall p :: p in w.visited ==> p in signals || p in stack)
    && (forall p, v :: p in signals && Edge(g, p, v) ==> v in w.visited)
  }

  /** From a process on the stack there is a path to the top. */
  lemma StackReaches(g: map<Pid, seq<Pid>>, stack: seq<Pid>, v: Pid)
    requires IsPath(g, stack) && v in stack
    ensures Reaches(g, v, stack[|stack| - 1])
  {
    var i :| 0 <= i < |stack| && stack[i] == v;
    assert IsPath(g, stack[i..]);
  }

  /** The walk after marking a process and recording its answer. */
  function Ask(w: Walk, pid: Pid, reply: Option<seq<Pid>>): Walk {
    Log(Walk(w.visited + {pid}, w.trace), Asked(pid, reply))
  }

  /** The process about to be walked is the root, or a child of the top of the stack. */
  ghost predicate Next(root: Pid, w: Walk, stack: seq<Pid>, pid: Pid) {
    if stack == [] then pid == root else Edge(Graph(w.trace), stack[|stack| - 1], pid)
  }

  lemma AskExtends(root: Pid, w: Walk, pid: Pid, reply: Option<seq<Pid>>)
    requires Sound(root, w) && pid !in w.visited
    ensures Extends(Graph(w.trace), Graph(Ask(w, pid, reply).trace))
    ensures Signals(Ask(w, pid, reply).trace) == Signals(w.trace)
    ensures reply.Some? ==> Graph(Ask(w, pid, reply).trace) == Graph(w.trace)[pid := reply.value]
    ensures reply.None? ==> Graph(Ask(w, pid, reply).trace) == Graph(w.trace)
  {
    Append(w.trace, Asked(pid, reply));
  }

  lemma AskReaches(root: Pid, w: Walk, stack: seq<Pid>, pid: Pid, reply: Option<seq<Pid>>, p: Pid)
    requires Sound(root, w) && Going(w, stack) && pid !in w.visited && Next(root, w, stack, pid)
    requires p in w.visited || p == pid
    ensures Reaches(Graph(Ask(w, pid, reply).trace), root, p)
  {
    AskExtends(root, w, pid, reply);
    var g, h := Graph(w.trace), Graph(Ask(w, pid, reply).trace);
    if p in w.visited {
      ReachesExtends(g, h, root, p);
    } else if stack == [] {
      ReachesSelf(h, root);
    } else {
      var top := stack[|stack| - 1];
      ReachesExtends(g, h, root, top);
      ReachesOn(h, root, top, pid);
    }
  }

  lemma AskSound(root: Pid, w: Walk, stack: seq<Pid>, pid: Pid, reply: Option<seq<Pid>>)
    requires Sound(root, w) && Going(w, stack) && pid !in w.visited && Next(root, w, stack, pid)
    ensures Sound(root, Ask(w, pid, reply))
  {
    var w1 := Ask(w, pid, reply);
    Append(w.trace, Asked(pid, reply));
    AskExtends(root, w, pid, reply);
    forall p | p in w1.visited ensures Reaches(Graph(w1.trace), root, p) {
      AskReaches(root, w, stack, pid, reply, p);
    }
    PostOrderExtends(Graph(w.trace), Graph(w1.trace), Signals(w.trace));
  }

  lemma AskGoing(root: Pid, w: Walk, stack: seq<Pid>, pid: Pid, children: seq<Pid>)
    requires Sound(root, w) && Going(w, stack) && pid !in w.visited && Next(root, w, stack, pid)
    ensures Going(Ask(w, pid, Some(children)), stack + [pid])
  {
    AskExtends(root, w, pid, Some(children));
    var h := Graph(Ask(w, pid, Some(children)).trace);
    PathPush(Graph(w.trace), h, stack, pid);
    assert forall p, v :: p in Signals(w.trace) && Edge(h, p, v) ==> Edge(Graph(w.trace), p, v);
  }

  lemma PathPush(g: map<Pid, seq<Pid>>, h: map<Pid, seq<Pid>>, stack: seq<Pid>, pid: Pid)
    requires Extends(g, h) && (stack != [] ==> IsPath(g, stack) && Edge(g, stack[|stack| - 1], pid))
    ensures IsPath(h, stack + [pid])
  {
    if stack != [] {
      PathExtends(g, h, stack);
    }
  }

  lemma PostOrderExtends(g: map<Pid, seq<Pid>>, h: map<Pid, seq<Pid>>, signals: seq<Pid>)
    requires Extends(g, h) && PostOrder(g, signals) && forall p :: p in signals ==> p in g
    ensures PostOrder(h, signals)
  {
    forall k, v | 0 <= k < |signals| && Edge(h, signals[k], v)
      ensures v in signals[..k] || Reaches(h, v, signals[k])
    {
      assert Edge(g, signals[k], v);
      if v !in signals[..k] {
        ReachesExtends(g, h, v, signals[k]);
      }
    }
  }

  /** The checks leave the graph and the signals as they were. */
  lemma CheckKeeps(s: World, target: Target, w: Walk)
    ensures var t := Check(s, target, w).0.trace;
            Asks(t) == Asks(w.trace) && Signals(t) == Signals(w.trace) && Graph(t) == Graph(w.trace)
  {
    var command := s.command(|w.trace|, target.pid);
    var w1 := Log(w, Inspected(target.pid, command));
    Append(w.trace, Inspected(target.pid, command));
    if s.verifier.Some? {
      Append(w1.trace, Verified(target, s.verifier.value(|w1.trace|, target)));
    }
  }

  /** The signal at the end of a process's walk, all its children visited. */
  lemma SignalStep(s: World, root: Pid, w: Walk, stack: seq<Pid>, pid: Pid)
    requires Sound(root, w) && Going(w, stack + [pid]) && pid !in stack && pid in Graph(w.trace)
    requires AllVisited(Graph(w.trace)[pid], w.visited)
    ensures var w1 := Signal(s, pid, w).0;
            && Sound(root, w1) && Going(w1, stack)
            && Graph(w1.trace) == Graph(w.trace) && Signals(w1.trace) == Signals(w.trace) + [pid]
  {
    var e := Signalled(pid, s.signal(|w.trace|, pid));
    Append(w.trace, e);
    var g, signals := Graph(w.trace), Signals(w.trace);
    assert pid in stack + [pid];
    forall v | Edge(g, pid, v) ensures v in signals || Reaches(g, v, pid) {
      if v !in signals {
        assert v in stack + [pid];
        StackReaches(g, stack + [pid], v);
      }
    }
    PostOrderAppend(g, signals, pid);
    if stack != [] {
      assert forall i :: 0 <= i < |stack| ==> (stack + [pid])[i] == stack[i];
      assert IsPath(g, stack);
    }
  }

  lemma PostOrderAppend(g: map<Pid, seq<Pid>>, signals: seq<Pid>, pid: Pid)
    requires PostOrder(g, signals)
    requires forall v :: Edge(g, pid, v) ==> v in signals || Reaches(g, v, pid)
    ensures PostOrder(g, signals + [pid])
  {
    var longer := signals + [pid];
    forall k, v | 0 <= k < |longer| && Edge(g, longer[k], v)
      ensures v in longer[..k] || Reaches(g, v, longer[k])
    {
      assert longer[..k] == signals[..k];
      if k == |signals| {
        assert signals[..k] == signals;
      }
    }
  }

  // ----- the walk keeps the invariants -----

  /** What a part of the walk does: it keeps the graph's answers, adds to the signals, and stays
      sound; while it goes on, the stack below is as it was. */
  ghost predicate Advances(root: Pid, w: Walk, stack: seq<Pid>, r: (Walk, bool)) {
    && Sound(root, r.0)
    && Extends(Graph(w.trace), Graph(r.0.trace))
    && (forall p :: p in stack ==> p !in Signals(r.0.trace))
    && (r.1 ==> Going(r.0, stack))
  }

  lemma {:induction false} TreeAdvances(s: World, root: Pid, target: Target, validate: bool, w: Walk, stack: seq<Pid>)
    requires Sound(root, w) && Going(w, stack) && Next(root, w, stack, target.pid)
    ensures var r := Tree(s, target, validate, w);
            Advances(root, w, stack, r) && (r.1 ==> target.pid in r.0.visited)
    decreases Unvisited(w.visited), 0
  {
    var pid := target.pid;
    if pid !in w.visited {
      var reply := s.children(|w.trace|, pid);
      var w1 := Ask(w, pid, reply);
      AskSound(root, w, stack, pid, reply);
      AskExtends(root, w, pid, reply);
      assert pid in Unvisited(w.visited) && pid !in Unvisited(w1.visited);
      if reply.Some? {
        AskGoing(root, w, stack, pid, reply.value);
        AskedChildren(w, pid, reply.value);
        ForestAdvances(s, root, reply.value, w1, stack + [pid]);
        StackFresh(w, stack, pid);
        TreeEnds(s, root, target, validate, w, w1, Forest(s, reply.value, w1), stack);
      }
    }
  }

  /** From the walk of the children to the end of the walk of their parent. */
  lemma TreeEnds(
    s: World, root: Pid, target: Target, validate: bool, w: Walk, w1: Walk, r: (Walk, bool), stack: seq<Pid>)
    requires Extends(Graph(w.trace), Graph(w1.trace)) && target.pid in w1.visited && target.pid !in stack
    requires Advances(root, w1, stack + [target.pid], r) && w1.visited <= r.0.visited
    requires target.pid in Graph(w1.trace) && (r.1 ==> AllVisited(Graph(w1.trace)[target.pid], r.0.visited))
    ensures var end := if r.1 then Finish(s, target, validate, r.0) else (r.0, false);
            Advances(root, w, stack, end) && (end.1 ==> target.pid in end.0.visited)
  {
    ExtendsOn(Graph(w.trace), Graph(w1.trace), Graph(r.0.trace));
    assert forall p :: p in stack ==> p in stack + [target.pid];
    if r.1 {
      FinishAdvances(s, root, target, validate, r.0, stack);
    }
  }

  lemma AskedChildren(w: Walk, pid: Pid, children: seq<Pid>)
    ensures var h := Graph(Ask(w, pid, Some(children)).trace);
            pid in h && h[pid] == children && ChildrenOf(h, pid, children)
  {
    Append(w.trace, Asked(pid, Some(children)));
  }

  lemma StackFresh(w: Walk, stack: seq<Pid>, pid: Pid)
    requires Going(w, stack) && pid !in w.visited
    ensures pid !in stack
  {
  }

  ghost predicate ChildrenOf(g: map<Pid, seq<Pid>>, pid: Pid, children: seq<Pid>) {
    forall i :: 0 <= i < |children| ==> Edge(g, pid, children[i])
  }

  predicate AllVisited(children: seq<Pid>, visited: set<Pid>) {
    forall i :: 0 <= i < |children| ==> children[i] in visited
  }

  lemma {:induction false} ForestAdvances(s: World, root: Pid, children: seq<Pid>, w: Walk, stack: seq<Pid>)
    requires Sound(root, w) && Going(w, stack) && stack != []
    requires ChildrenOf(Graph(w.trace), stack[|stack| - 1], children)
    ensures var r := Forest(s, children, w);
            Advances(root, w, stack, r) && (r.1 ==> AllVisited(children, r.0.visited))
    decreases Unvisited(w.visited), 1 + |children|
  {
    if children != [] {
      assert Edge(Graph(w.trace), stack[|stack| - 1], children[0]);
      TreeAdvances(s, root, Child(children[0]), false, w, stack);
      var (w1, ok) := Tree(s, Child(children[0]), false, w);
      assert Unvisited(w1.visited) <= Unvisited(w.visited);
      if ok {
        var rest := children[1..];
        ChildrenKept(Graph(w.trace), Graph(w1.trace), stack[|stack| - 1], children);
        ForestAdvances(s, root, rest, w1, stack);
        var r := Forest(s, rest, w1);
        ExtendsOn(Graph(w.trace), Graph(w1.trace), Graph(r.0.trace));
        if r.1 {
          AllVisitedStep(children, r.0.visited);
        }
      }
    }
  }

  lemma AllVisitedStep(children: seq<Pid>, visited: set<Pid>)
    requires children != [] && children[0] in visited && AllVisited(children[1..], visited)
    ensures AllVisited(children, visited)
  {
    assert forall i :: 0 < i < |children| ==> children[i] == children[1..][i - 1];
  }

  lemma ExtendsOn(g: map<Pid, seq<Pid>>, h: map<Pid, seq<Pid>>, k: map<Pid, seq<Pid>>)
    requires Extends(g, h) && Extends(h, k)
    ensures Extends(g, k)
  {
  }

  lemma ChildrenKept(g: map<Pid, seq<Pid>>, h: map<Pid, seq<Pid>>, pid: Pid, children: seq<Pid>)
    requires Extends(g, h) && children != [] && ChildrenOf(g, pid, children)
    ensures ChildrenOf(h, pid, children[1..])
  {
    assert forall i :: 0 <= i < |children| - 1 ==> children[1..][i] == children[i + 1];
  }

  lemma FinishAdvances(s: World, root: Pid, target: Target, validate: bool, w: Walk, stack: seq<Pid>)
    requires Sound(root, w) && Going(w, stack + [target.pid]) && target.pid !in stack
    requires target.pid in Graph(w.trace)
    requires AllVisited(Graph(w.trace)[target.pid], w.visited)
    ensures var r := Finish(s, target, validate, w);
            && Advances(root, w, stack, r)
            && (Signals(r.0.trace) == Signals(w.trace)
                || Signals(r.0.trace) == Signals(w.trace) + [target.pid])
            && (r.1 ==> Signals(r.0.trace) == Signals(w.trace) + [target.pid])
  {
    if validate {
      CheckKeeps(s, target, w);
      var (w1, ok) := Check(s, target, w);
      if ok {
        SignalStep(s, root, w1, stack, target.pid);
      }
    } else {
      SignalStep(s, root, w, stack, target.pid);
    }
  }

  // ----- whole runs -----

  /** The preflight passed and the root has been asked: what the rest of the run starts from. */
  lemma Started(s: World, target: Target, w: Walk)
    requires w.visited == {} && Asks(w.trace) == [] && Signals(w.trace) == [] && Graph(w.trace) == map[]
    ensures Sound(target.pid, w) && Going(w, []) && Next(target.pid, w, [], target.pid)
  {
  }

  /** Every run, completed or broken off: each process is asked at most once, signalled at most
      once and only after being asked, everything visited is reachable from the root in the
      observed graph, and the signals are in post-order up to cycles. */
  lemma EveryRunIsSound(s: World, target: Target)
    ensures Sound(target.pid, Terminate(s, target).0)
    ensures Terminate(s, target).1 ==>
              Going(Terminate(s, target).0, []) && target.pid in Terminate(s, target).0.visited
  {
    var start := Walk({}, []);
    CheckKeeps(s, target, start);
    var (w, ok) := Check(s, target, start);
    Started(s, target, w);
    if ok {
      TreeAdvances(s, target.pid, target, true, w, []);
    }
  }

  /** A completed run signals exactly the processes that the root reaches through the reported
      children, each once. */
  lemma CompletedRunCoversTree(s: World, target: Target, p: Pid)
    requires Terminate(s, target).1
    ensures var trace := Terminate(s, target).0.trace;
            && (p in Signals(trace) <==> Reaches(Graph(trace), target.pid, p))
            && Distinct(Signals(trace))
  {
    EveryRunIsSound(s, target);
    var w := Terminate(s, target).0;
    var g := Graph(w.trace);
    if Reaches(g, target.pid, p) {
      var path :| IsPath(g, path) && path[0] == target.pid && path[|path| - 1] == p;
      PathVisited(w, path, |path| - 1);
    }
  }

  lemma {:induction false} PathVisited(w: Walk, path: seq<Pid>, i: nat)
    requires Going(w, []) && IsPath(Graph(w.trace), path) && path[0] in w.visited && i < |path|
    ensures path[i] in w.visited
  {
    if i > 0 {
      PathVisited(w, path, i - 1);
      assert Edge(Graph(w.trace), path[i - 1], path[i]);
    }
  }

  /** The passing checks that must stand right before the signal to the root. */
  predicate Rechecked(s: World, target: Target, trace: seq<Event>) {
    var n := |trace|;
    if s.verifier.None? then n >= 1 && PassedCommand(target, trace[n - 1])
    else n >= 2 && PassedCommand(target, trace[n - 2]) && trace[n - 1] == Verified(target, Some(true))
  }

  predicate PassedCommand(target: Target, e: Event) {
    e.Inspected? && e.pid == target.pid && e.command.Some? && IsSSHSessionCommand(e.command.value)
  }

  lemma CheckPasses(s: World, target: Target, w: Walk)
    ensures Check(s, target, w).1 ==> Rechecked(s, target, Check(s, target, w).0.trace)
  {
  }

  /** The root's signal, if there is one, is the last event and follows passing rechecks. */
  predicate RootGated(s: World, target: Target, trace: seq<Event>) {
    target.pid in Signals(trace) ==>
      var n := |trace| - 1;
      && n >= 0 && trace[n].Signalled? && trace[n].pid == target.pid
      && target.pid !in Signals(trace[..n])
      && Rechecked(s, target, trace[..n])
  }

  predicate EndsWith(signals: seq<Pid>, pid: Pid) {
    signals != [] && signals[|signals| - 1] == pid
  }

  /** In every run the root is signalled at most once, as the very last action, right after a
      passing recheck of its command and, when there is a verifier, of its connection; a run
      that breaks off earlier leaves the root alone. */
  lemma RootIsGated(s: World, target: Target)
    ensures RootGated(s, target, Terminate(s, target).0.trace)
    ensures Terminate(s, target).1 ==> EndsWith(Signals(Terminate(s, target).0.trace), target.pid)
  {
    var start := Walk({}, []);
    CheckKeeps(s, target, start);
    var (w, ok) := Check(s, target, start);
    Started(s, target, w);
    if ok {
      RootWalkIsGated(s, target, w);
    }
  }

  /** The walk that follows a passed preflight. */
  lemma RootWalkIsGated(s: World, target: Target, w: Walk)
    requires Sound(target.pid, w) && Going(w, []) && w.visited == {} && Signals(w.trace) == []
    ensures RootGated(s, target, Tree(s, target, true, w).0.trace)
    ensures Tree(s, target, true, w).1 ==> EndsWith(Signals(Tree(s, target, true, w).0.trace), target.pid)
  {
    var reply := s.children(|w.trace|, target.pid);
    AskExtends(target.pid, w, target.pid, reply);
    if reply.Some? {
      RootUntouchedByForest(s, target, w, reply.value);
      RootFinish(s, target, Forest(s, reply.value, Ask(w, target.pid, reply)).0);
    }
  }

  /** Cycles back to the root find it visited: the walk of its descendants never signals it. */
  lemma RootUntouchedByForest(s: World, target: Target, w: Walk, children: seq<Pid>)
    requires Sound(target.pid, w) && Going(w, []) && target.pid !in w.visited
    ensures target.pid !in Signals(Forest(s, children, Ask(w, target.pid, Some(children))).0.trace)
  {
    var root := target.pid;
    AskSound(root, w, [], root, Some(children));
    AskGoing(root, w, [], root, children);
    AskedChildren(w, root, children);
    assert [] + [root] == [root];
    ForestAdvances(s, root, children, Ask(w, root, Some(children)), [root]);
  }

  lemma RootFinish(s: World, target: Target, w: Walk)
    requires target.pid !in Signals(w.trace)
    ensures RootGated(s, target, Finish(s, target, true, w).0.trace)
    ensures Finish(s, target, true, w).1 ==> EndsWith(Signals(Finish(s, target, true, w).0.trace), target.pid)
  {
    CheckKeeps(s, target, w);
    CheckPasses(s, target, w);
    var (w1, checked) := Check(s, target, w);
    if checked {
      var e := Signalled(target.pid, s.signal(|w1.trace|, target.pid));
      Append(w1.trace, e);
      assert (w1.trace + [e])[..|w1.trace|] == w1.trace;
    }
  }

  /** Nothing is signalled unless the preflight passed: its events open the record. */
  lemma PreflightGuardsEverySignal(s: World, target: Target)
    ensures var trace := Terminate(s, target).0.trace;
            Signals(trace) != [] ==>
              var k := if s.verifier.None? then 1 else 2;
              k < |trace| && Rechecked(s, target, trace[..k])
  {
    var start := Walk({}, []);
    CheckKeeps(s, target, start);
    CheckPasses(s, target, start);
    var (w, ok) := Check(s, target, start);
    if ok {
      OpensRecord(s, target, w.trace, Terminate(s, target).0.trace);
    }
  }

  lemma OpensRecord(s: World, target: Target, opening: seq<Event>, trace: seq<Event>)
    requires opening <= trace && Signals(opening) == [] && Rechecked(s, target, opening)
    ensures Signals(trace) != [] ==> |opening| < |trace| && Rechecked(s, target, trace[..|opening|])
  {
    assert trace[..|opening|] == opening;
    if |trace| == |opening| {
      assert trace == opening;
    }
  }

  ghost predicate Acyclic(g: map<Pid, seq<Pid>>) {
    forall u, v :: Edge(g, u, v) ==> !Reaches(g, v, u)
  }

  /** When the observed graph has no cycle, every descendant of a signalled process was
      signalled before it, in every run. */
  lemma DescendantsFirst(s: World, target: Target, k: nat, v: Pid)
    requires var trace := Terminate(s, target).0.trace;
             && Acyclic(Graph(trace)) && k < |Signals(trace)|
             && v != Signals(trace)[k] && Reaches(Graph(trace), Signals(trace)[k], v)
    ensures v in Signals(Terminate(s, target).0.trace)[..k]
  {
    EveryRunIsSound(s, target);
    var trace := Terminate(s, target).0.trace;
    var g, signals := Graph(trace), Signals(trace);
    var path :| IsPath(g, path) && path[0] == signals[k] && path[|path| - 1] == v;
    PathFirst(g, signals, k, path, |path| - 1);
  }

  lemma {:induction false} PathFirst(g: map<Pid, seq<Pid>>, signals: seq<Pid>, k: nat, path: seq<Pid>, i: nat)
    requires PostOrder(g, signals) && Acyclic(g) && k < |signals|
    requires IsPath(g, path) && path[0] == signals[k] && 0 < i < |path|
    ensures path[i] in signals[..k]
    decreases i
  {
    assert Edge(g, path[i - 1], path[i]);
    if i == 1 {
      assert Edge(g, signals[k], path[1]);
    } else {
      PathFirst(g, signals, k, path, i - 1);
      var j :| 0 <= j < k && signals[j] == path[i - 1];
      assert Edge(g, signals[j], path[i]);
      assert path[i] in signals[..j];
    }
  }

  // ----- what a run says of the world, and when it succeeds -----

  /** The event is a question that the run may put at that point, with the world's answer to it;
      only the root's command and connection are ever inspected. */
  predicate Truthful(s: World, root: Target, e: Event, i: nat) {
    match e
    case Asked(pid, children) => children == s.children(i, pid)
    case Inspected(pid, command) => pid == root.pid && command == s.command(i, pid)
    case Verified(target, verdict) => target == root && s.verifier.Some? && verdict == s.verifier.value(i, target)
    case Signalled(pid, reply) => reply == s.signal(i, pid)
  }

  ghost predicate AllTruthful(s: World, root: Target, trace: seq<Event>) {
    forall i :: 0 <= i < |trace| ==> Truthful(s, root, trace[i], i)
  }

  /** The answer lets the run go on; a process that is gone already does. */
  predicate Fine(e: Event) {
    match e
    case Asked(_, children) => children.Some?
    case Inspected(_, command) => command.Some? && IsSSHSessionCommand(command.value)
    case Verified(_, verdict) => verdict == Some(true)
    case Signalled(_, reply) => reply == Delivered || reply == NoSuchProcess
  }

  ghost predicate AllFine(trace: seq<Event>) {
    forall i :: 0 <= i < |trace| ==> Fine(trace[i])
  }

  /** True answers only, and success exactly while all of them are fine. */
  ghost predicate Honest(s: World, root: Target, r: (Walk, bool)) {
    AllTruthful(s, root, r.0.trace) && (r.1 <==> AllFine(r.0.trace))
  }

  lemma Note(s: World, root: Target, trace: seq<Event>, e: Event)
    ensures AllFine(trace + [e]) <==> AllFine(trace) && Fine(e)
    ensures AllTruthful(s, root, trace) && Truthful(s, root, e, |trace|) ==> AllTruthful(s, root, trace + [e])
  {
    var more := trace + [e];
    assert more[|trace|] == e && forall i :: 0 <= i < |trace| ==> more[i] == trace[i];
  }

  lemma CheckIsHonest(s: World, root: Target, w: Walk)
    requires AllTruthful(s, root, w.trace) && AllFine(w.trace)
    ensures Honest(s, root, Check(s, root, w))
  {
    var e := Inspected(root.pid, s.command(|w.trace|, root.pid));
    Note(s, root, w.trace, e);
    var w1 := Log(w, e);
    if s.verifier.Some? {
      Note(s, root, w1.trace, Verified(root, s.verifier.value(|w1.trace|, root)));
    }
  }

  lemma SignalIsHonest(s: World, root: Target, pid: Pid, w: Walk)
    requires AllTruthful(s, root, w.trace) && AllFine(w.trace)
    ensures Honest(s, root, Signal(s, pid, w))
  {
    Note(s, root, w.trace, Signalled(pid, s.signal(|w.trace|, pid)));
  }

  lemma FinishIsHonest(s: World, root: Target, target: Target, validate: bool, w: Walk)
    requires AllTruthful(s, root, w.trace) && AllFine(w.trace) && (validate ==> target == root)
    ensures Honest(s, root, Finish(s, target, validate, w))
  {
    if validate {
      CheckIsHonest(s, root, w);
      var (w1, ok) := Check(s, root, w);
      if ok {
        SignalIsHonest(s, root, target.pid, w1);
      }
    } else {
      SignalIsHonest(s, root, target.pid, w);
    }
  }

  lemma {:induction false} TreeIsHonest(s: World, root: Target, target: Target, validate: bool, w: Walk)
    requires AllTruthful(s, root, w.trace) && AllFine(w.trace) && (validate ==> target == root)
    ensures Honest(s, root, Tree(s, target, validate, w))
    decreases Unvisited(w.visited), 0
  {
    var pid := target.pid;
    if pid !in w.visited {
      var reply := s.children(|w.trace|, pid);
      Note(s, root, w.trace, Asked(pid, reply));
      var w1 := Ask(w, pid, reply);
      assert pid in Unvisited(w.visited) && pid !in Unvisited(w1.visited);
      if reply.Some? {
        ForestIsHonest(s, root, reply.value, w1);
        var (w2, ok) := Forest(s, reply.value, w1);
        if ok {
          FinishIsHonest(s, root, target, validate, w2);
        }
      }
    }
  }

  lemma {:induction false} ForestIsHonest(s: World, root: Target, children: seq<Pid>, w: Walk)
    requires AllTruthful(s, root, w.trace) && AllFine(w.trace)
    ensures Honest(s, root, Forest(s, children, w))
    decreases Unvisited(w.visited), 1 + |children|
  {
    if children != [] {
      TreeIsHonest(s, root, Child(children[0]), false, w);
      var (w1, ok) := Tree(s, Child(children[0]), false, w);
      assert Unvisited(w1.visited) <= Unvisited(w.visited);
      if ok {
        ForestIsHonest(s, root, children[1..], w1);
      }
    }
  }

  /** Every recorded answer is the world's, and a run succeeds exactly when every answer it got let
      it go on: readable children, a session's command, an affirmed connection, and signals that
      were delivered or found the process gone. */
  lemma RunSucceedsIff(s: World, target: Target)
    ensures AllTruthful(s, target, Terminate(s, target).0.trace)
    ensures Terminate(s, target).1 <==> AllFine(Terminate(s, target).0.trace)
  {
    CheckIsHonest(s, target, Walk({}, []));
    var (w, ok) := Check(s, target, Walk({}, []));
    if ok {
      TreeIsHonest(s, target, target, true, w);
    }
  }
}
