/** The concurrent TCP scan (scanTCP and probeAddress in internal/monitor/probe.go): a feeder,
    workers, a closer and a collector over an unbuffered `jobs` channel, a bounded `results`
    channel and a rendezvous on `workersDone`, with a cancellation flag that never resets.
    Every interleaving is a sequence of steps; `select` is nondeterministic. */
module ScanTCP {
  import opened Basics
  import opened Netip

  /** One scan. `open(i, k)` is what a dial of port `k` of target `i` answers while the context
      is live; after cancellation a dial may answer anything. */
  datatype Job = Job(targets: seq<Addr>, ports: seq<int>, concurrency: int, open: (nat, nat) -> bool)

  datatype Reply = Reply(index: nat, ports: seq<int>)

  /** What a worker goroutine is doing. `Probing` is the head of the port loop, `Sending` the
      select that delivers the result, `Signalling` the deferred send on `workersDone`. */
  datatype Worker =
    | Idle
    | Probing(index: nat, next: nat, found: seq<int>)
    | Dialling(index: nat, next: nat, found: seq<int>)
    | Sending(index: nat, found: seq<int>)
    | Signalling
    | Exited

  datatype Outcome = Found(openPorts: map<Addr, seq<int>>) | Interrupted

  /** `collected` and `dropped` only record where results went. */
  datatype State = State(
    cancelled: bool, panicked: bool,
    fed: nat, feeding: bool, jobsClosed: bool,
    workers: seq<Worker>,
    signals: nat, closing: bool, resultsClosed: bool,
    buffer: seq<Reply>, openPorts: map<Addr, seq<int>>, outcome: Option<Outcome>,
    collected: seq<Reply>, dropped: multiset<nat>)

  datatype Step =
    | Feed(w: nat) | FeedCancelled | FeedDone
    | Check(w: nat) | Dial(w: nat, ok: bool)
    | Send(w: nat) | Drop(w: nat) | NoMoreJobs(w: nat) | Signal(w: nat)
    | CloseResults | Receive | Finish
    | Cancel

  function WorkerCount(j: Job): (count: nat)
    ensures j.targets != [] ==> 1 <= count <= |j.targets|
  {
    if j.concurrency < 1 then (if |j.targets| < 1 then |j.targets| else 1)
    else if j.concurrency > |j.targets| then |j.targets|
    else j.concurrency
  }

  function Init(j: Job): State {
    State(false, false, 0, true, false, seq(WorkerCount(j), i => Idle), 0, true, false, [], map[], None, [], multiset{})
  }

  predicate Enabled(j: Job, s: State, step: Step) {
    && !s.panicked
    && match step
       case Feed(w) => s.feeding && s.fed < |j.targets| && w < |s.workers| && s.workers[w].Idle?
       case FeedCancelled => s.feeding && s.fed < |j.targets| && s.cancelled
       case FeedDone => s.feeding && s.fed == |j.targets|
       case Check(w) => w < |s.workers| && s.workers[w].Probing?
       case Dial(w, ok) =>
         && w < |s.workers| && s.workers[w].Dialling?
         && (!s.cancelled ==> ok == j.open(s.workers[w].index, s.workers[w].next))
       case Send(w) =>
         && w < |s.workers| && s.workers[w].Sending?
         && (s.resultsClosed || |s.buffer| < WorkerCount(j))
       case Drop(w) => w < |s.workers| && s.workers[w].Sending? && s.cancelled
       case NoMoreJobs(w) => w < |s.workers| && s.workers[w].Idle? && s.jobsClosed
       case Signal(w) =>
         w < |s.workers| && s.workers[w].Signalling? && s.closing && s.signals < |s.workers|
       case CloseResults => s.closing && s.signals == |s.workers|
       case Receive => s.outcome.None? && s.buffer != []
       case Finish => s.outcome.None? && s.buffer == [] && s.resultsClosed
       case Cancel => !s.cancelled
  }

  /** Sending on a closed channel and closing it again both panic. */
  function Do(j: Job, s: State, step: Step): State
    requires Enabled(j, s, step)
  {
    match step
    case Feed(w) =>
      if s.jobsClosed then s.(panicked := true)
      else s.(fed := s.fed + 1, workers := s.workers[w := Probing(s.fed, 0, [])])
    case FeedCancelled => CloseJobs(s)
    case FeedDone => CloseJobs(s)
    case Check(w) => s.(workers := s.workers[w := AfterCheck(j, s.cancelled, s.workers[w])])
    case Dial(w, ok) => s.(workers := s.workers[w := AfterDial(j, s.workers[w], ok)])
    case Send(w) =>
      if s.resultsClosed then s.(panicked := true)
      else s.(buffer := s.buffer + [Reply(s.workers[w].index, s.workers[w].found)],
              workers := s.workers[w := Idle])
    case Drop(w) =>
      s.(dropped := s.dropped + multiset{s.workers[w].index}, workers := s.workers[w := Signalling])
    case NoMoreJobs(w) => s.(workers := s.workers[w := Signalling])
    case Signal(w) => s.(signals := s.signals + 1, workers := s.workers[w := Exited])
    case CloseResults =>
      if s.resultsClosed then s.(panicked := true) else s.(closing := false, resultsClosed := true)
    case Receive =>
      s.(buffer := s.buffer[1..], collected := s.collected + [s.buffer[0]],
         openPorts := Collect(j, s.openPorts, s.buffer[0]))
    case Finish =>
      s.(outcome := Some(if s.cancelled then Interrupted else Found(s.openPorts)))
    case Cancel => s.(cancelled := true)
  }

  function CloseJobs(s: State): State {
    if s.jobsClosed then s.(panicked := true) else s.(feeding := false, jobsClosed := true)
  }

  /** The head of the port loop: done, cancelled, or on to the next dial. */
  function AfterCheck(j: Job, cancelled: bool, w: Worker): Worker
    requires w.Probing?
  {
    if w.next >= |j.ports| || cancelled then Sending(w.index, w.found)
    else Dialling(w.index, w.next, w.found)
  }

  function AfterDial(j: Job, w: Worker, ok: bool): Worker
    requires w.Dialling?
  {
    Probing(w.index, w.next + 1, if ok && w.next < |j.ports| then w.found + [j.ports[w.next]] else w.found)
  }

  /** The collector keeps non-empty results only. */
  function Collect(j: Job, m: map<Addr, seq<int>>, r: Reply): map<Addr, seq<int>> {
    if r.index < |j.targets| && r.ports != [] then m[j.targets[r.index] := r.ports] else m
  }

  /** The state that a sequence of steps leads to, if each is enabled in turn. */
  function Follow(j: Job, s: State, steps: seq<Step>): Option<State>
    decreases |steps|
  {
    if steps == [] then Some(s)
    else if Enabled(j, s, steps[0]) then Follow(j, Do(j, s, steps[0]), steps[1..])
    else None
  }

  function After(j: Job, steps: seq<Step>): Option<State> {
    Follow(j, Init(j), steps)
  }

  lemma {:induction false} FollowConcat(j: Job, s: State, a: seq<Step>, b: seq<Step>)
    requires Follow(j, s, a).Some?
    ensures Follow(j, s, a + b) == Follow(j, Follow(j, s, a).value, b)
    decreases |a|
  {
    if a == [] {
      assert a + b == b;
    } else {
      assert (a + b)[1..] == a[1..] + b;
      FollowConcat(j, Do(j, s, a[0]), a[1..], b);
    }
  }

  // ----- the sequential loop -----

  /** The open ports among the first `k`, in order. */
  function OpenAmong(j: Job, i: nat, k: nat): seq<int>
    requires k <= |j.ports|
  {
    if k == 0 then []
    else OpenAmong(j, i, k - 1) + (if j.open(i, k - 1) then [j.ports[k - 1]] else [])
  }

  /** What probing one target alone finds. */
  function ProbeAddress(j: Job, i: nat): seq<int> {
    OpenAmong(j, i, |j.ports|)
  }

  function OpenAt(j: Job, i: nat): nat -> bool {
    (k: nat) => j.open(i, k)
  }

  /** A list of ports is the job's list read along exactly the places whose dial is open. */
  ghost predicate ReadsOpenPorts(j: Job, i: nat, n: nat, ports: seq<int>, indices: seq<nat>)
    requires n <= |j.ports|
  {
    && Picks(indices, n, OpenAt(j, i)) && |ports| == |indices|
    && forall a :: 0 <= a < |ports| ==> indices[a] < |j.ports| && ports[a] == j.ports[indices[a]]
  }

  function OpenIndices(j: Job, i: nat, n: nat): seq<nat> {
    if n == 0 then []
    else if j.open(i, n - 1) then OpenIndices(j, i, n - 1) + [n - 1]
    else OpenIndices(j, i, n - 1)
  }

  /** Every port whose dial succeeds is kept, in order, and no other. */
  lemma {:induction false} OpenAmongAll(j: Job, i: nat, n: nat)
    requires n <= |j.ports|
    ensures ReadsOpenPorts(j, i, n, OpenAmong(j, i, n), OpenIndices(j, i, n))
  {
    if n > 0 {
      OpenAmongAll(j, i, n - 1);
      OpenAmongStep(j, i, n - 1, OpenAmong(j, i, n - 1), OpenIndices(j, i, n - 1));
      assert OpenAmong(j, i, n - 1) + [] == OpenAmong(j, i, n - 1);
    }
  }

  lemma OpenAmongStep(j: Job, i: nat, n: nat, ports: seq<int>, indices: seq<nat>)
    requires n < |j.ports| && ReadsOpenPorts(j, i, n, ports, indices)
    ensures if j.open(i, n) then ReadsOpenPorts(j, i, n + 1, ports + [j.ports[n]], indices + [n])
            else ReadsOpenPorts(j, i, n + 1, ports, indices)
  {
    PicksStep(indices, n, OpenAt(j, i));
    assert OpenAt(j, i)(n) == j.open(i, n);
  }

  /** The dial of that port of target `i` is open. */
  predicate Opens(j: Job, i: nat, port: int) {
    exists k :: 0 <= k < |j.ports| && j.ports[k] == port && j.open(i, k)
  }

  lemma ProbeAddressIsOpenPorts(j: Job, i: nat)
    ensures exists indices :: ReadsOpenPorts(j, i, |j.ports|, ProbeAddress(j, i), indices)
    ensures forall p :: p in ProbeAddress(j, i) <==> Opens(j, i, p)
  {
    OpenAmongAll(j, i, |j.ports|);
    var indices := OpenIndices(j, i, |j.ports|);
    var ports := ProbeAddress(j, i);
    forall p ensures p in ports <==> Opens(j, i, p) {
      if p in ports {
        var a :| 0 <= a < |ports| && ports[a] == p;
        assert indices[a] in indices && OpenAt(j, i)(indices[a]);
      }
      if k :| 0 <= k < |j.ports| && j.ports[k] == p && j.open(i, k) {
        assert OpenAt(j, i)(k);
        var a :| 0 <= a < |indices| && indices[a] == k;
        assert ports[a] == p;
      }
    }
  }

  /** The map that a plain loop over the first `n` targets fills. */
  function Sequential(j: Job, n: nat): map<Addr, seq<int>>
    requires n <= |j.targets|
  {
    if n == 0 then map[]
    else Collect(j, Sequential(j, n - 1), Reply(n - 1, ProbeAddress(j, n - 1)))
  }

  // ----- sums over workers -----

  function Sum(ws: seq<Worker>, f: Worker -> nat): nat {
    if ws == [] then 0 else Sum(ws[..|ws| - 1], f) + f(ws[|ws| - 1])
  }

  lemma {:induction false} SumUpdate(ws: seq<Worker>, f: Worker -> nat, w: nat, x: Worker)
    requires w < |ws|
    ensures Sum(ws[w := x], f) + f(ws[w]) == Sum(ws, f) + f(x)
  {
    var n := |ws| - 1;
    if w < n {
      SumUpdate(ws[..n], f, w, x);
      assert ws[w := x][..n] == ws[..n][w := x];
    } else {
      assert ws[w := x][..n] == ws[..n];
    }
  }

  function ExitMark(): Worker -> nat {
    (w: Worker) => if w.Exited? then 1 else 0
  }

  /** As many exit marks as workers means every worker has exited. */
  lemma {:induction false} ExitCount(ws: seq<Worker>)
    ensures Sum(ws, ExitMark()) <= |ws|
    ensures Sum(ws, ExitMark()) == |ws| <==> forall w :: 0 <= w < |ws| ==> ws[w].Exited?
  {
    if ws != [] {
      var n := |ws| - 1;
      ExitCount(ws[..n]);
      assert forall w :: 0 <= w < n ==> ws[..n][w] == ws[w];
    }
  }

  // ----- control: channels, program counters, no panic -----

  predicate WorkerOk(j: Job, s: State, w: Worker) {
    match w
    case Probing(i, next, _) => i < s.fed && next <= |j.ports|
    case Dialling(i, next, _) => i < s.fed && next < |j.ports|
    case Sending(i, _) => i < s.fed
    case Idle => true
    case Signalling => s.jobsClosed || s.cancelled
    case Exited => s.jobsClosed || s.cancelled
  }

  ghost predicate WorkersOk(j: Job, s: State) {
    forall w :: 0 <= w < |s.workers| ==> WorkerOk(j, s, s.workers[w])
  }

  /** Which goroutine owns which channel, and what each closed channel implies. */
  ghost predicate ChannelsOk(j: Job, s: State) {
    && !s.panicked
    && j.targets != [] && |s.workers| == WorkerCount(j)
    && s.fed <= |j.targets|
    && s.feeding == !s.jobsClosed
    && s.closing == !s.resultsClosed
    && (s.jobsClosed && s.fed < |j.targets| ==> s.cancelled)
    && s.signals == Sum(s.workers, ExitMark())
    && (s.resultsClosed ==> s.signals == |s.workers|)
    && |s.buffer| <= WorkerCount(j)
    && (s.outcome.Some? ==> s.resultsClosed && s.buffer == [])
  }

  ghost predicate ControlInv(j: Job, s: State) {
    ChannelsOk(j, s) && WorkersOk(j, s)
  }

  /** What the worker of a step turns into. */
  function NextWorker(j: Job, s: State, step: Step): Option<(nat, Worker)>
    requires Enabled(j, s, step)
  {
    match step
    case Feed(w) => Some((w, Probing(s.fed, 0, [])))
    case Check(w) => Some((w, AfterCheck(j, s.cancelled, s.workers[w])))
    case Dial(w, ok) => Some((w, AfterDial(j, s.workers[w], ok)))
    case Send(w) => Some((w, Idle))
    case Drop(w) => Some((w, Signalling))
    case NoMoreJobs(w) => Some((w, Signalling))
    case Signal(w) => Some((w, Exited))
    case _ => None
  }

  lemma ChannelStep(j: Job, s: State, step: Step)
    requires ControlInv(j, s) && Enabled(j, s, step)
    ensures ChannelsOk(j, Do(j, s, step))
    ensures Do(j, s, step).workers == match NextWorker(j, s, step)
              case Some((w, x)) => s.workers[w := x] case None => s.workers
  {
    ExitCount(s.workers);
    match NextWorker(j, s, step)
    case Some((w, x)) => SumUpdate(s.workers, ExitMark(), w, x);
    case None =>
  }

  lemma WorkersStep(j: Job, s: State, step: Step)
    requires ControlInv(j, s) && Enabled(j, s, step)
    ensures WorkersOk(j, Do(j, s, step))
  {
    ChannelStep(j, s, step);
    var t := Do(j, s, step);
    forall v | 0 <= v < |t.workers| ensures WorkerOk(j, t, t.workers[v]) {
      assert WorkerOk(j, s, s.workers[v]);
    }
  }

  // ----- conservation: every target is in exactly one place -----

  function HoldMark(i: nat): Worker -> nat {
    (w: Worker) =>
      match w
      case Probing(k, _, _) => if k == i then 1 else 0
      case Dialling(k, _, _) => if k == i then 1 else 0
      case Sending(k, _) => if k == i then 1 else 0
      case _ => 0
  }

  /** How many results for target `i` a sequence has. */
  function Count(rs: seq<Reply>, i: nat): nat {
    if rs == [] then 0 else Count(rs[..|rs| - 1], i) + (if rs[|rs| - 1].index == i then 1 else 0)
  }

  lemma {:induction false} CountHead(rs: seq<Reply>, i: nat)
    requires rs != []
    ensures Count(rs, i) == (if rs[0].index == i then 1 else 0) + Count(rs[1..], i)
  {
    var n := |rs| - 1;
    if n > 0 {
      CountHead(rs[..n], i);
      assert rs[..n][1..] == rs[1..][..n - 1];
    }
  }

  lemma CountPush(rs: seq<Reply>, r: Reply, i: nat)
    ensures Count(rs + [r], i) == Count(rs, i) + (if r.index == i then 1 else 0)
  {
    assert (rs + [r])[..|rs|] == rs;
  }

  /** In how many places target `i` is: with a worker, buffered, collected or dropped. */
  function Places(s: State, i: nat): nat {
    Sum(s.workers, HoldMark(i)) + Count(s.buffer, i) + Count(s.collected, i) + s.dropped[i]
  }

  ghost predicate Conserved(s: State) {
    && (forall i: nat :: Places(s, i) == if i < s.fed then 1 else 0)
    && (s.dropped != multiset{} ==> s.cancelled)
  }

  lemma ConservedStep(j: Job, s: State, step: Step)
    requires ControlInv(j, s) && Conserved(s) && Enabled(j, s, step)
    ensures Conserved(Do(j, s, step))
  {
    ChannelStep(j, s, step);
    var t := Do(j, s, step);
    forall i: nat ensures Places(t, i) == if i < t.fed then 1 else 0 {
      PlacesStep(j, s, step, i);
      assert Places(s, i) == if i < s.fed then 1 else 0;
    }
  }

  /** A step moves a target from one place to another; only feeding brings a new one in. */
  lemma PlacesStep(j: Job, s: State, step: Step, i: nat)
    requires ControlInv(j, s) && Enabled(j, s, step)
    ensures Places(Do(j, s, step), i) == Places(s, i) + (if step.Feed? && i == s.fed then 1 else 0)
  {
    if NextWorker(j, s, step).Some? {
      WorkerPlacesStep(j, s, step, i);
    } else if step.Receive? {
      CountHead(s.buffer, i);
      CountPush(s.collected, s.buffer[0], i);
    }
  }

  lemma WorkerPlacesStep(j: Job, s: State, step: Step, i: nat)
    requires ControlInv(j, s) && Enabled(j, s, step) && NextWorker(j, s, step).Some?
    ensures Places(Do(j, s, step), i) == Places(s, i) + (if step.Feed? && i == s.fed then 1 else 0)
  {
    ChannelStep(j, s, step);
    var (w, x) := NextWorker(j, s, step).value;
    SumUpdate(s.workers, HoldMark(i), w, x);
    if step.Send? {
      CountPush(s.buffer, Reply(s.workers[w].index, s.workers[w].found), i);
    }
  }

  // ----- data: without cancellation every list of ports is complete -----

  predicate WorkerData(j: Job, w: Worker) {
    match w
    case Probing(i, next, found) => next <= |j.ports| && found == OpenAmong(j, i, next)
    case Dialling(i, next, found) => next < |j.ports| && found == OpenAmong(j, i, next)
    case Sending(i, found) => found == ProbeAddress(j, i)
    case _ => true
  }

  predicate Complete(j: Job, rs: seq<Reply>) {
    forall k :: 0 <= k < |rs| ==> rs[k].ports == ProbeAddress(j, rs[k].index)
  }

  ghost predicate DataInv(j: Job, s: State) {
    !s.cancelled ==>
      && (forall w :: 0 <= w < |s.workers| ==> WorkerData(j, s.workers[w]))
      && Complete(j, s.buffer) && Complete(j, s.collected)
  }

  lemma DataStep(j: Job, s: State, step: Step)
    requires ControlInv(j, s) && DataInv(j, s) && Enabled(j, s, step)
    ensures DataInv(j, Do(j, s, step))
  {
    ChannelStep(j, s, step);
    match NextWorker(j, s, step) {
      case Some((w, x)) =>
        if !s.cancelled {
          assert WorkerData(j, s.workers[w]);
          assert WorkerData(j, x);
        }
      case None =>
    }
  }

  // ----- outcome -----

  function Fold(j: Job, rs: seq<Reply>): map<Addr, seq<int>> {
    if rs == [] then map[] else Collect(j, Fold(j, rs[..|rs| - 1]), rs[|rs| - 1])
  }

  lemma {:induction false} FoldLookup(j: Job, rs: seq<Reply>, i: nat)
    requires Distinct(j.targets) && Complete(j, rs) && i < |j.targets|
    ensures j.targets[i] in Fold(j, rs) <==> Count(rs, i) > 0 && ProbeAddress(j, i) != []
    ensures j.targets[i] in Fold(j, rs) ==> Fold(j, rs)[j.targets[i]] == ProbeAddress(j, i)
    ensures forall a :: a in Fold(j, rs) ==> a in j.targets
  {
    if rs != [] {
      FoldLookup(j, rs[..|rs| - 1], i);
    }
  }

  lemma {:induction false} SequentialLookup(j: Job, n: nat, i: nat)
    requires Distinct(j.targets) && n <= |j.targets| && i < |j.targets|
    ensures j.targets[i] in Sequential(j, n) <==> i < n && ProbeAddress(j, i) != []
    ensures j.targets[i] in Sequential(j, n) ==> Sequential(j, n)[j.targets[i]] == ProbeAddress(j, i)
    ensures forall a :: a in Sequential(j, n) ==> a in j.targets
  {
    if n > 0 {
      SequentialLookup(j, n - 1, i);
    }
  }

  /** Any arrival order of all complete results gives the map of the sequential loop. */
  lemma FoldIsSequential(j: Job, rs: seq<Reply>)
    requires Distinct(j.targets) && Complete(j, rs) && j.targets != []
    requires forall i :: 0 <= i < |j.targets| ==> Count(rs, i) == 1
    ensures Fold(j, rs) == Sequential(j, |j.targets|)
  {
    var f, q := Fold(j, rs), Sequential(j, |j.targets|);
    forall i | 0 <= i < |j.targets|
      ensures j.targets[i] in f <==> j.targets[i] in q
      ensures j.targets[i] in f ==> f[j.targets[i]] == q[j.targets[i]]
    {
      FoldLookup(j, rs, i);
      SequentialLookup(j, |j.targets|, i);
    }
    FoldLookup(j, rs, 0);
    SequentialLookup(j, |j.targets|, 0);
  }

  ghost predicate OutcomeInv(j: Job, s: State) {
    && s.openPorts == Fold(j, s.collected)
    && (s.outcome == Some(Interrupted) ==> s.cancelled)
    && (s.outcome.Some? && s.outcome.value.Found? && Distinct(j.targets) ==>
          s.outcome.value.openPorts == Sequential(j, |j.targets|))
  }

  /** At the end of an uncancelled scan everything has been fed and collected. */
  lemma NothingOutstanding(j: Job, s: State)
    requires ControlInv(j, s) && Conserved(s)
    requires s.resultsClosed && s.buffer == [] && !s.cancelled
    ensures s.fed == |j.targets|
    ensures forall i :: 0 <= i < |j.targets| ==> Count(s.collected, i) == 1
  {
    ExitCount(s.workers);
    assert WorkerOk(j, s, s.workers[0]);
    forall i | 0 <= i < |j.targets| ensures Count(s.collected, i) == 1 {
      HeldNothing(s.workers, i);
      assert Places(s, i) == 1;
    }
  }

  lemma {:induction false} HeldNothing(ws: seq<Worker>, i: nat)
    requires forall w :: 0 <= w < |ws| ==> ws[w].Exited?
    ensures Sum(ws, HoldMark(i)) == 0
  {
    if ws != [] {
      HeldNothing(ws[..|ws| - 1], i);
    }
  }

  lemma OutcomeStep(j: Job, s: State, step: Step)
    requires ControlInv(j, s) && Conserved(s) && DataInv(j, s) && OutcomeInv(j, s)
    requires Enabled(j, s, step)
    ensures OutcomeInv(j, Do(j, s, step))
  {
    if step.Receive? {
      assert (s.collected + [s.buffer[0]])[..|s.collected|] == s.collected;
    } else if step.Finish? {
      if !s.cancelled && Distinct(j.targets) {
        NothingOutstanding(j, s);
        FoldIsSequential(j, s.collected);
      }
    } else {
      OutcomeKept(j, s, step);
    }
  }

  lemma OutcomeKept(j: Job, s: State, step: Step)
    requires Enabled(j, s, step) && !step.Receive? && !step.Finish?
    ensures var t := Do(j, s, step);
            && t.collected == s.collected && t.openPorts == s.openPorts && t.outcome == s.outcome
            && (s.cancelled ==> t.cancelled)
  {
  }

  // ----- safety of every run -----

  ghost predicate Inv(j: Job, s: State) {
    ControlInv(j, s) && Conserved(s) && DataInv(j, s) && OutcomeInv(j, s)
  }

  lemma InitInv(j: Job)
    requires j.targets != []
    ensures Inv(j, Init(j))
  {
    var s := Init(j);
    IdleSum(s.workers, ExitMark());
    forall i: nat ensures Places(s, i) == 0 {
      IdleSum(s.workers, HoldMark(i));
    }
  }

  lemma {:induction false} IdleSum(ws: seq<Worker>, f: Worker -> nat)
    requires f(Idle) == 0 && forall w :: 0 <= w < |ws| ==> ws[w] == Idle
    ensures Sum(ws, f) == 0
  {
    if ws != [] {
      IdleSum(ws[..|ws| - 1], f);
    }
  }

  lemma InvStep(j: Job, s: State, step: Step)
    requires Inv(j, s) && Enabled(j, s, step)
    ensures Inv(j, Do(j, s, step))
  {
    ChannelStep(j, s, step);
    WorkersStep(j, s, step);
    ConservedStep(j, s, step);
    DataStep(j, s, step);
    OutcomeStep(j, s, step);
  }

  lemma {:induction false} FollowInv(j: Job, s: State, steps: seq<Step>)
    requires Inv(j, s) && Follow(j, s, steps).Some?
    ensures Inv(j, Follow(j, s, steps).value)
    decreases |steps|
  {
    if steps != [] {
      InvStep(j, s, steps[0]);
      FollowInv(j, Do(j, s, steps[0]), steps[1..]);
    }
  }

  lemma RunInv(j: Job, steps: seq<Step>)
    requires j.targets != [] && After(j, steps).Some?
    ensures Inv(j, After(j, steps).value)
  {
    InitInv(j);
    FollowInv(j, Init(j), steps);
  }

  /** In every run, whatever the interleaving, the worker count and the moment of cancellation,
      each target is in exactly one place, nothing is dropped before cancellation, and no
      goroutine sends on a closed channel or closes one twice. */
  lemma EachTargetInOnePlace(j: Job, steps: seq<Step>, i: nat)
    requires j.targets != [] && After(j, steps).Some? && i < |j.targets|
    ensures var s := After(j, steps).value;
            && Places(s, i) == (if i < s.fed then 1 else 0)
            && (i in s.dropped ==> s.cancelled)
            && (i >= s.fed && !s.feeding ==> s.cancelled)
            && !s.panicked
  {
    RunInv(j, steps);
  }

  /** What the scan can return: without targets the empty map at once, even when cancelled. */
  ghost predicate Returns(j: Job, o: Outcome) {
    if j.targets == [] then o == Found(map[])
    else exists steps :: After(j, steps).Some? && After(j, steps).value.outcome == Some(o)
  }

  /** The map has exactly the targets with an open dial, each with all its open ports in order. */
  ghost predicate HoldsOpenPorts(j: Job, m: map<Addr, seq<int>>) {
    && (forall a :: a in m ==> a in j.targets)
    && forall i :: 0 <= i < |j.targets| ==>
         && (j.targets[i] in m <==> exists p :: Opens(j, i, p))
         && (j.targets[i] in m ==>
               exists indices :: ReadsOpenPorts(j, i, |j.ports|, m[j.targets[i]], indices))
  }

  lemma SequentialHoldsOpenPorts(j: Job)
    requires Distinct(j.targets)
    ensures HoldsOpenPorts(j, Sequential(j, |j.targets|))
  {
    var m := Sequential(j, |j.targets|);
    if j.targets != [] {
      SequentialLookup(j, |j.targets|, 0);
    }
    forall i | 0 <= i < |j.targets|
      ensures j.targets[i] in m <==> exists p :: Opens(j, i, p)
      ensures j.targets[i] in m ==> exists indices :: ReadsOpenPorts(j, i, |j.ports|, m[j.targets[i]], indices)
    {
      SequentialLookup(j, |j.targets|, i);
      ProbeAddressIsOpenPorts(j, i);
      var ports := ProbeAddress(j, i);
      if ports != [] {
        assert ports[0] in ports;
      }
    }
  }

  /** A scan that returns a map returns the map of the sequential loop, so the partial port
      lists of a cancelled context never escape; and whichever way it fails, it is cancelled. */
  lemma ScanRefinesLoop(j: Job, o: Outcome)
    requires Distinct(j.targets) && Returns(j, o)
    ensures o.Found? ==> o.openPorts == Sequential(j, |j.targets|) && HoldsOpenPorts(j, o.openPorts)
    ensures o.Interrupted? ==> j.targets != [] && OnlyCancelled(j)
  {
    SequentialHoldsOpenPorts(j);
    if j.targets != [] {
      var steps :| After(j, steps).Some? && After(j, steps).value.outcome == Some(o);
      RunInv(j, steps);
    }
    if o.Interrupted? {
      FailsOnlyCancelled(j);
    }
  }

  /** Every run that ends in failure has been cancelled. */
  ghost predicate OnlyCancelled(j: Job) {
    forall steps :: After(j, steps).Some? && After(j, steps).value.outcome == Some(Interrupted) ==>
                      After(j, steps).value.cancelled
  }

  lemma FailsOnlyCancelled(j: Job)
    requires j.targets != []
    ensures OnlyCancelled(j)
  {
    forall steps | After(j, steps).Some? && After(j, steps).value.outcome == Some(Interrupted)
      ensures After(j, steps).value.cancelled
    {
      RunInv(j, steps);
    }
  }

  /** The collector's last look at the context decides: it fails exactly when cancelled by then. */
  lemma FinishFailsIff(j: Job, steps: seq<Step>)
    requires j.targets != [] && After(j, steps).Some? && Enabled(j, After(j, steps).value, Finish)
    ensures After(j, steps + [Finish]).Some?
    ensures After(j, steps + [Finish]).value.outcome == Some(Interrupted) <==> After(j, steps).value.cancelled
  {
    FollowConcat(j, Init(j), steps, [Finish]);
    var s := After(j, steps).value;
    assert [Finish][1..] == [];
    assert Follow(j, Do(j, s, Finish), []) == Some(Do(j, s, Finish));
    assert Follow(j, s, [Finish]) == Some(Do(j, s, Finish));
  }

  /** Without targets the scan returns the empty map and nothing else, cancelled or not. */
  lemma EmptyScanReturns(j: Job, o: Outcome)
    requires j.targets == []
    ensures Returns(j, o) <==> o == Found(Sequential(j, 0))
  {
  }

  // ----- progress and termination -----

  /** Every goroutine has returned. */
  ghost predicate Final(s: State) {
    && !s.feeding && !s.closing && s.outcome.Some?
    && forall w :: 0 <= w < |s.workers| ==> s.workers[w].Exited?
  }

  /** No deadlock: a state that is not final has a step other than cancellation. */
  lemma NoDeadlock(j: Job, s: State) returns (step: Step)
    requires ControlInv(j, s) && !Final(s)
    ensures step != Cancel && Enabled(j, s, step)
  {
    ExitCount(s.workers);
    if w :| 0 <= w < |s.workers| && !s.workers[w].Exited? && !s.workers[w].Idle? {
      match s.workers[w] {
        case Probing(_, _, _) => step := Check(w);
        case Dialling(i, k, _) => step := Dial(w, j.open(i, k));
        case Sending(_, _) => step := if |s.buffer| < WorkerCount(j) then Send(w) else Receive;
        case Signalling => step := Signal(w);
      }
    } else if w :| 0 <= w < |s.workers| && s.workers[w].Idle? {
      step := if s.jobsClosed then NoMoreJobs(w) else if s.fed < |j.targets| then Feed(w) else FeedDone;
    } else if s.closing {
      step := CloseResults;
    } else if s.outcome.None? {
      step := if s.buffer != [] then Receive else Finish;
    } else {
      assert WorkerOk(j, s, s.workers[0]);
      step := if s.fed < |j.targets| then FeedCancelled else FeedDone;
    }
  }

  /** The steps a worker still has before it can take another job. */
  function Weight(j: Job): Worker -> nat {
    (w: Worker) =>
      match w
      case Idle => 2
      case Probing(_, next, _) => 5 + 2 * (if next < |j.ports| then |j.ports| - next else 0)
      case Dialling(_, next, _) => 4 + 2 * (if next < |j.ports| then |j.ports| - next else 0)
      case Sending(_, _) => 4
      case Signalling => 1
      case Exited => 0
  }

  function TargetWeight(j: Job): nat {
    2 * |j.ports| + 4
  }

  function Unsent(j: Job, s: State): nat {
    if s.feeding && s.fed <= |j.targets| then 1 + (|j.targets| - s.fed) * TargetWeight(j) else 0
  }

  function Measure(j: Job, s: State): nat {
    Unsent(j, s) + Sum(s.workers, Weight(j)) + |s.buffer|
    + (if s.closing then 1 else 0) + (if s.outcome.None? then 1 else 0)
  }

  lemma MeasureFalls(j: Job, s: State, step: Step)
    requires ControlInv(j, s) && Enabled(j, s, step)
    ensures step != Cancel ==> Measure(j, Do(j, s, step)) < Measure(j, s)
    ensures step == Cancel ==> Measure(j, Do(j, s, step)) == Measure(j, s)
  {
    if NextWorker(j, s, step).Some? {
      WorkerMeasureFalls(j, s, step);
    }
  }

  lemma WorkerMeasureFalls(j: Job, s: State, step: Step)
    requires ControlInv(j, s) && Enabled(j, s, step) && NextWorker(j, s, step).Some?
    ensures Measure(j, Do(j, s, step)) < Measure(j, s)
  {
    ChannelStep(j, s, step);
    var (w, x) := NextWorker(j, s, step).value;
    SumUpdate(s.workers, Weight(j), w, x);
    WeightFalls(j, s, step);
    UnsentFalls(j, s, step);
  }

  lemma UnsentFalls(j: Job, s: State, step: Step)
    requires ControlInv(j, s) && Enabled(j, s, step) && NextWorker(j, s, step).Some?
    ensures var t := Do(j, s, step);
            && Unsent(j, s) == Unsent(j, t) + (if step.Feed? then TargetWeight(j) else 0)
            && |t.buffer| <= |s.buffer| + (if step.Send? then 1 else 0)
            && t.closing == s.closing && t.outcome == s.outcome
  {
    if step.Feed? {
      OneMore(|j.targets| - s.fed - 1, TargetWeight(j));
    }
  }

  /** A worker's step costs it weight: at least two when it sends, and it pays for a new job
      with the weight of the target. */
  lemma WeightFalls(j: Job, s: State, step: Step)
    requires ControlInv(j, s) && Enabled(j, s, step) && NextWorker(j, s, step).Some?
    ensures var (w, x) := NextWorker(j, s, step).value;
            w < |s.workers| &&
            Weight(j)(x) + (if step.Send? then 2 else 1) <=
            Weight(j)(s.workers[w]) + (if step.Feed? then TargetWeight(j) else 0)
  {
    assert WorkerOk(j, s, s.workers[NextWorker(j, s, step).value.0]);
  }

  /** The steps of a run that are not the cancellation. */
  function Progress(steps: seq<Step>): nat {
    if steps == [] then 0 else (if steps[0] == Cancel then 0 else 1) + Progress(steps[1..])
  }

  lemma {:induction false} FollowBounded(j: Job, s: State, steps: seq<Step>)
    requires Inv(j, s) && Follow(j, s, steps).Some?
    ensures Progress(steps) + Measure(j, Follow(j, s, steps).value) <= Measure(j, s)
    decreases |steps|
  {
    if steps != [] {
      InvStep(j, s, steps[0]);
      MeasureFalls(j, s, steps[0]);
      FollowBounded(j, Do(j, s, steps[0]), steps[1..]);
    }
  }

  /** No run has more steps, cancellation aside, than the initial measure. */
  lemma RunsAreBounded(j: Job, steps: seq<Step>)
    requires j.targets != [] && After(j, steps).Some?
    ensures Progress(steps) <= Measure(j, Init(j))
  {
    InitInv(j);
    FollowBounded(j, Init(j), steps);
  }

  lemma {:induction false} Completion(j: Job, s: State) returns (more: seq<Step>)
    requires Inv(j, s)
    ensures Follow(j, s, more).Some? && Final(Follow(j, s, more).value)
    decreases Measure(j, s)
  {
    if Final(s) {
      more := [];
    } else {
      var step := NoDeadlock(j, s);
      MeasureFalls(j, s, step);
      InvStep(j, s, step);
      var rest := Completion(j, Do(j, s, step));
      more := [step] + rest;
      assert more[1..] == rest;
    }
  }

  /** From every reachable state, cancelled or not, the goroutines run on to a final state with
      both channels closed; by the bound above no way of going on avoids it for ever. */
  lemma EveryRunCompletes(j: Job, steps: seq<Step>) returns (more: seq<Step>)
    requires j.targets != [] && After(j, steps).Some?
    ensures After(j, steps + more).Some?
    ensures var s := After(j, steps + more).value;
            Final(s) && s.jobsClosed && s.resultsClosed && !s.panicked
  {
    RunInv(j, steps);
    more := Completion(j, After(j, steps).value);
    FollowConcat(j, Init(j), steps, more);
    RunInv(j, steps + more);
  }

  // ----- how much is dialled at once, and after cancellation -----

  function DialMark(): Worker -> nat {
    (w: Worker) => if w.Dialling? then 1 else 0
  }

  lemma {:induction false} DialCount(ws: seq<Worker>)
    ensures Sum(ws, DialMark()) <= |ws|
  {
    if ws != [] {
      DialCount(ws[..|ws| - 1]);
    }
  }

  /** In every run there are as many workers as the configured concurrency, at least one and no more
      than targets, so no more dials than that are ever under way at once. */
  lemma DialsAreBounded(j: Job, steps: seq<Step>)
    requires j.targets != [] && After(j, steps).Some?
    ensures var s := After(j, steps).value;
            && Sum(s.workers, DialMark()) <= |s.workers|
            && 1 <= |s.workers| <= |j.targets|
            && (1 <= j.concurrency <= |j.targets| ==> |s.workers| == j.concurrency)
            && (j.concurrency < 1 ==> |s.workers| == 1)
            && (j.concurrency > |j.targets| ==> |s.workers| == |j.targets|)
  {
    RunInv(j, steps);
    DialCount(After(j, steps).value.workers);
  }

  lemma CancelledStep(j: Job, s: State, step: Step)
    requires ControlInv(j, s) && Enabled(j, s, step) && s.cancelled
    ensures Do(j, s, step).cancelled
    ensures Sum(Do(j, s, step).workers, DialMark()) + (if step.Dial? then 1 else 0) <= Sum(s.workers, DialMark())
  {
    ChannelStep(j, s, step);
    match NextWorker(j, s, step) {
      case Some((w, x)) => SumUpdate(s.workers, DialMark(), w, x);
      case None =>
    }
  }

  function DialSteps(steps: seq<Step>): nat {
    if steps == [] then 0 else (if steps[0].Dial? then 1 else 0) + DialSteps(steps[1..])
  }

  /** Once cancelled, a scan finishes the dials under way and begins no other. */
  lemma {:induction false} CancelledBeginsNoDial(j: Job, s: State, steps: seq<Step>)
    requires Inv(j, s) && s.cancelled && Follow(j, s, steps).Some?
    ensures DialSteps(steps) + Sum(Follow(j, s, steps).value.workers, DialMark()) <= Sum(s.workers, DialMark())
    decreases |steps|
  {
    if steps != [] {
      CancelledStep(j, s, steps[0]);
      InvStep(j, s, steps[0]);
      CancelledBeginsNoDial(j, Do(j, s, steps[0]), steps[1..]);
    }
  }
}
