/**
 The scheduler of the kernel: workers take the first script of a queue, run lines until one fails, the quantum is over
 or the script ends, and put unfinished scripts back last.  Workers interleave line by line.
 */
module Runner {
  import opened Basics

  datatype Tcb = Tcb(id: nat, lines: seq<Text>, ip: nat)

  datatype Worker = Idle | Running(tcb: Tcb, exec: nat, quantum: nat)

  datatype Ending = Completed | Failed

  /** Besides queue and workers, the history of what was submitted, dispatched and executed. */
  datatype State = State(
    ready: seq<Tcb>,
    workers: seq<Worker>,
    programs: map<nat, seq<Text>>,
    executed: map<nat, seq<(Text, bool)>>,
    ended: map<nat, Ending>,
    enqueued: seq<nat>,
    dispatched: seq<nat>)

  datatype Step =
    | Submit(id: nat, lines: seq<Text>)
    | Dispatch(worker: nat, quantum: uint32)
    | Execute(executor: nat, ok: bool)
    | Exit(finisher: nat)

  function Start(workers: nat): State {
    State([], seq(workers, _ => Idle), map[], map[], map[], [], [])
  }

  function Ids(tcbs: seq<Tcb>): (ids: seq<nat>)
    ensures |ids| == |tcbs|
  {
    seq(|tcbs|, i requires 0 <= i < |tcbs| => tcbs[i].id)
  }

  predicate IsRunning(s: State, w: nat) {
    w < |s.workers| && s.workers[w].Running?
  }

  predicate Enabled(s: State, step: Step) {
    match step
    case Submit(id, _) => id !in s.programs
    case Dispatch(w, _) => w < |s.workers| && s.workers[w].Idle? && s.ready != []
    case Execute(w, _) => IsRunning(s, w) && s.workers[w].tcb.ip < |s.workers[w].tcb.lines|
    case Exit(w) => IsRunning(s, w) && s.workers[w].tcb.ip == |s.workers[w].tcb.lines|
  }

  function Enqueue(s: State, tcb: Tcb): State {
    s.(ready := s.ready + [tcb], enqueued := s.enqueued + [tcb.id])
  }

  function Release(s: State, w: nat): State
    requires w < |s.workers|
  {
    s.(workers := s.workers[w := Idle])
  }

  function End(s: State, w: nat, id: nat, ending: Ending): State
    requires w < |s.workers|
  {
    Release(s, w).(ended := s.ended[id := ending])
  }

  function Next(s: State, step: Step): State
    requires Enabled(s, step)
  {
    match step
    case Submit(id, lines) =>
      Enqueue(s.(programs := s.programs[id := lines], executed := s.executed[id := []]), Tcb(id, lines, 0))
    case Dispatch(w, q) =>
      s.(ready := s.ready[1..], dispatched := s.dispatched + [s.ready[0].id],
         workers := s.workers[w := Running(s.ready[0], 0, q)])
    case Execute(w, ok) =>
      var run := s.workers[w];
      var tcb := run.tcb.(ip := run.tcb.ip + 1);
      var logged := s.(executed := s.executed[tcb.id := LogOf(s, tcb.id) + [(run.tcb.lines[run.tcb.ip], ok)]]);
      if !ok then End(logged, w, tcb.id, Failed)
      else if run.exec + 1 == run.quantum && tcb.ip < |tcb.lines| then Enqueue(Release(logged, w), tcb)
      else logged.(workers := s.workers[w := Running(tcb, run.exec + 1, run.quantum)])
    case Exit(w) => End(s, w, s.workers[w].tcb.id, Completed)
  }

  /** The lines of a script that were executed, and whether each succeeded. */
  function LogOf(s: State, id: nat): seq<(Text, bool)> {
    if id in s.executed then s.executed[id] else []
  }

  // ---- the invariant ----

  /** A live script has run the lines before its instruction pointer, in order and with success, and no others. */
  predicate Consistent(s: State, tcb: Tcb) {
    && tcb.id in s.programs && tcb.id !in s.ended && tcb.lines == s.programs[tcb.id]
    && tcb.ip == |LogOf(s, tcb.id)| <= |tcb.lines|
    && forall i :: 0 <= i < tcb.ip ==> LogOf(s, tcb.id)[i] == (tcb.lines[i], true)
  }

  /** An ended script has run all its lines, or its lines up to the first that failed. */
  predicate EndedWell(s: State, id: nat) {
    && id in s.programs && id in s.ended && |LogOf(s, id)| <= |s.programs[id]|
    && (s.ended[id].Completed? ==> |LogOf(s, id)| == |s.programs[id]|)
    && (s.ended[id].Failed? ==> LogOf(s, id) != [])
    && forall i :: 0 <= i < |LogOf(s, id)| ==>
         LogOf(s, id)[i] == (s.programs[id][i], s.ended[id].Completed? || i < |LogOf(s, id)| - 1)
  }

  /** The quantum, when it is not zero, is never exceeded. */
  predicate WithinQuantum(w: Worker) {
    w.Running? && w.quantum > 0 ==> w.exec < w.quantum || (w.tcb.ip == |w.tcb.lines| && w.exec == w.quantum)
  }

  ghost predicate Once(s: State) {
    && (forall i, j :: 0 <= i < j < |s.ready| ==> s.ready[i].id != s.ready[j].id)
    && (forall v, w :: 0 <= v < w < |s.workers| && s.workers[v].Running? && s.workers[w].Running? ==>
          s.workers[v].tcb.id != s.workers[w].tcb.id)
    && (forall i, w :: 0 <= i < |s.ready| && 0 <= w < |s.workers| && s.workers[w].Running? ==>
          s.ready[i].id != s.workers[w].tcb.id)
  }

  ghost predicate InQueue(ready: seq<Tcb>, id: nat) {
    exists i :: 0 <= i < |ready| && ready[i].id == id
  }

  predicate Runs(w: Worker, id: nat) {
    w.Running? && w.tcb.id == id
  }

  ghost predicate AtWorker(workers: seq<Worker>, id: nat) {
    exists w :: 0 <= w < |workers| && Runs(workers[w], id)
  }

  ghost predicate Live(s: State, id: nat) {
    InQueue(s.ready, id) || AtWorker(s.workers, id)
  }

  /** A script that has not ended is somewhere. */
  ghost predicate NoneLost(s: State) {
    forall id {:trigger Live(s, id)} :: id in s.programs && id !in s.ended ==> Live(s, id)
  }

  /** Every script is what its history says. */
  ghost predicate Histories(s: State) {
    && (forall i :: 0 <= i < |s.ready| ==> Consistent(s, s.ready[i]))
    && (forall w :: 0 <= w < |s.workers| && s.workers[w].Running? ==> Consistent(s, s.workers[w].tcb))
    && (forall w :: 0 <= w < |s.workers| ==> WithinQuantum(s.workers[w]))
    && (forall id :: id in s.ended ==> EndedWell(s, id))
  }

  /** Scripts are dispatched in the order they were enqueued in. */
  predicate Fifo(s: State) {
    s.enqueued == s.dispatched + Ids(s.ready)
  }

  ghost predicate Inv(s: State) {
    Histories(s) && Once(s) && NoneLost(s) && Fifo(s)
  }

  lemma StartInv(workers: nat)
    ensures Inv(Start(workers))
  {
  }

  lemma QueueAppend(ready: seq<Tcb>, tcb: Tcb, id: nat)
    ensures InQueue(ready + [tcb], id) <==> InQueue(ready, id) || tcb.id == id
  {
    assert (ready + [tcb])[|ready|] == tcb;
    if InQueue(ready, id) {
      var i :| 0 <= i < |ready| && ready[i].id == id;
      assert (ready + [tcb])[i] == ready[i];
    }
  }

  lemma WorkerChange(workers: seq<Worker>, w: nat, worker: Worker, id: nat)
    requires w < |workers|
    ensures Runs(worker, id) ==> AtWorker(workers[w := worker], id)
    ensures AtWorker(workers, id) && !Runs(workers[w], id) ==> AtWorker(workers[w := worker], id)
  {
    assert workers[w := worker][w] == worker;
    if AtWorker(workers, id) && !Runs(workers[w], id) {
      var v :| 0 <= v < |workers| && Runs(workers[v], id);
      assert workers[w := worker][v] == workers[v];
    }
  }

  lemma SubmitFinds(s: State, id: nat, lines: seq<Text>)
    requires NoneLost(s) && Enabled(s, Submit(id, lines))
    ensures NoneLost(Next(s, Submit(id, lines)))
  {
    var s' := Next(s, Submit(id, lines));
    forall k | k in s'.programs && k !in s'.ended ensures Live(s', k) {
      QueueAppend(s.ready, Tcb(id, lines, 0), k);
      assert k != id ==> Live(s, k);
    }
  }

  lemma SubmitHistories(s: State, id: nat, lines: seq<Text>)
    requires Histories(s) && Enabled(s, Submit(id, lines))
    ensures Histories(Next(s, Submit(id, lines)))
  {
  }

  lemma SubmitInv(s: State, id: nat, lines: seq<Text>)
    requires Inv(s) && Enabled(s, Submit(id, lines))
    ensures Inv(Next(s, Submit(id, lines)))
  {
    SubmitFinds(s, id, lines);
    SubmitHistories(s, id, lines);
    assert Ids(s.ready + [Tcb(id, lines, 0)]) == Ids(s.ready) + [id];
  }

  lemma DispatchFinds(s: State, w: nat, q: uint32)
    requires NoneLost(s) && Enabled(s, Dispatch(w, q))
    ensures NoneLost(Next(s, Dispatch(w, q)))
  {
    var s' := Next(s, Dispatch(w, q));
    forall k | k in s'.programs && k !in s'.ended ensures Live(s', k) {
      assert Live(s, k);
      WorkerChange(s.workers, w, s'.workers[w], k);
    }
  }

  lemma DispatchHistories(s: State, w: nat, q: uint32)
    requires Histories(s) && Enabled(s, Dispatch(w, q))
    ensures Histories(Next(s, Dispatch(w, q)))
  {
  }

  lemma DispatchInv(s: State, w: nat, q: uint32)
    requires Inv(s) && Enabled(s, Dispatch(w, q))
    ensures Inv(Next(s, Dispatch(w, q)))
  {
    DispatchFinds(s, w, q);
    DispatchHistories(s, w, q);
    assert Ids(s.ready) == [s.ready[0].id] + Ids(s.ready[1..]);
  }

  lemma ExitFinds(s: State, w: nat)
    requires NoneLost(s) && Enabled(s, Exit(w))
    ensures NoneLost(Next(s, Exit(w)))
  {
    var s' := Next(s, Exit(w));
    forall k | k in s'.programs && k !in s'.ended ensures Live(s', k) {
      assert Live(s, k);
      WorkerChange(s.workers, w, Idle, k);
    }
  }

  lemma ExitInv(s: State, w: nat)
    requires Inv(s) && Enabled(s, Exit(w))
    ensures Inv(Next(s, Exit(w)))
  {
    ExitFinds(s, w);
  }

  lemma ExecuteFinds(s: State, w: nat, ok: bool)
    requires NoneLost(s) && Enabled(s, Execute(w, ok))
    ensures NoneLost(Next(s, Execute(w, ok)))
  {
    var s' := Next(s, Execute(w, ok));
    forall k | k in s'.programs && k !in s'.ended ensures Live(s', k) {
      assert Live(s, k);
      WorkerChange(s.workers, w, s'.workers[w], k);
      if s'.ready != s.ready {
        QueueAppend(s.ready, s'.ready[|s.ready|], k);
      }
    }
  }

  lemma ExecuteOnce(s: State, w: nat, ok: bool)
    requires Once(s) && Enabled(s, Execute(w, ok))
    ensures Once(Next(s, Execute(w, ok)))
  {
  }

  /** The script that ran a line. */
  lemma ExecutedOne(s: State, w: nat, ok: bool)
    requires Enabled(s, Execute(w, ok)) && Consistent(s, s.workers[w].tcb)
    ensures var s', tcb := Next(s, Execute(w, ok)), s.workers[w].tcb;
            && (ok ==> Consistent(s', tcb.(ip := tcb.ip + 1)))
            && (!ok ==> EndedWell(s', tcb.id))
            && forall id :: id != tcb.id ==> LogOf(s', id) == LogOf(s, id)
  {
  }

  lemma ExecuteHistories(s: State, w: nat, ok: bool)
    requires Histories(s) && Once(s) && Enabled(s, Execute(w, ok))
    ensures Histories(Next(s, Execute(w, ok)))
  {
    var s' := Next(s, Execute(w, ok));
    assert Consistent(s, s.workers[w].tcb);
    ExecutedOne(s, w, ok);
    forall id | id in s.ended {
      EndedStill(s, s', id);
    }
    forall i | 0 <= i < |s.ready| {
      ConsistentStill(s, s', s.ready[i]);
    }
    forall v | 0 <= v < |s.workers| && v != w && s.workers[v].Running? {
      ConsistentStill(s, s', s.workers[v].tcb);
    }
  }

  lemma EndedStill(s: State, s': State, id: nat)
    requires EndedWell(s, id) && s'.programs == s.programs && LogOf(s', id) == LogOf(s, id)
    requires id in s'.ended && s'.ended[id] == s.ended[id]
    ensures EndedWell(s', id)
  {
  }

  lemma ConsistentStill(s: State, s': State, tcb: Tcb)
    requires Consistent(s, tcb) && s'.programs == s.programs && LogOf(s', tcb.id) == LogOf(s, tcb.id)
             && tcb.id !in s'.ended
    ensures Consistent(s', tcb)
  {
  }

  lemma ExecuteInv(s: State, w: nat, ok: bool)
    requires Inv(s) && Enabled(s, Execute(w, ok))
    ensures Inv(Next(s, Execute(w, ok)))
  {
    ExecuteFinds(s, w, ok);
    ExecuteOnce(s, w, ok);
    ExecuteHistories(s, w, ok);
    var s' := Next(s, Execute(w, ok));
    if s'.ready != s.ready {
      assert Ids(s'.ready) == Ids(s.ready) + [s'.ready[|s.ready|].id];
    }
  }

  lemma StepInv(s: State, step: Step)
    requires Inv(s) && Enabled(s, step)
    ensures Inv(Next(s, step))
  {
    match step
    case Submit(id, lines) => SubmitInv(s, id, lines);
    case Dispatch(w, q) => DispatchInv(s, w, q);
    case Execute(w, ok) => ExecuteInv(s, w, ok);
    case Exit(w) => ExitInv(s, w);
  }

  // ---- all scripts end ----

  function Remaining(tcb: Tcb): nat {
    if tcb.ip <= |tcb.lines| then |tcb.lines| - tcb.ip else 0
  }

  function QueueWork(ready: seq<Tcb>): nat {
    if ready == [] then 0 else QueueWork(ready[..|ready| - 1]) + 3 * Remaining(ready[|ready| - 1]) + 2
  }

  function WorkerWork(w: Worker): nat {
    if w.Running? then 3 * Remaining(w.tcb) + 1 else 0
  }

  function WorkersWork(workers: seq<Worker>): nat {
    if workers == [] then 0 else WorkersWork(workers[..|workers| - 1]) + WorkerWork(workers[|workers| - 1])
  }

  /** Work left: lines to execute, and dispatches of what is queued. */
  function Work(s: State): nat {
    QueueWork(s.ready) + WorkersWork(s.workers)
  }

  lemma {:induction false} WorkersWorkUpdate(workers: seq<Worker>, w: nat, worker: Worker)
    requires w < |workers|
    ensures WorkersWork(workers[w := worker]) + WorkerWork(workers[w]) == WorkersWork(workers) + WorkerWork(worker)
  {
    var n := |workers| - 1;
    if w < n {
      WorkersWorkUpdate(workers[..n], w, worker);
      assert workers[w := worker][..n] == workers[..n][w := worker];
    } else {
      assert workers[w := worker][..n] == workers[..n];
    }
  }

  lemma {:induction false} QueueWorkTail(ready: seq<Tcb>)
    requires ready != []
    ensures QueueWork(ready) == 3 * Remaining(ready[0]) + 2 + QueueWork(ready[1..])
  {
    var n := |ready| - 1;
    if n > 0 {
      QueueWorkTail(ready[..n]);
      assert ready[..n][1..] == ready[1..][..n - 1];
    }
  }

  /** Every step but a submission leaves less work. */
  lemma StepDecreases(s: State, step: Step)
    requires Enabled(s, step) && !step.Submit?
    ensures Work(Next(s, step)) < Work(s)
  {
    var s' := Next(s, step);
    match step
    case Dispatch(w, q) =>
      QueueWorkTail(s.ready);
      WorkersWorkUpdate(s.workers, w, s'.workers[w]);
    case Execute(w, ok) =>
      WorkersWorkUpdate(s.workers, w, s'.workers[w]);
      if s'.ready != s.ready {
        assert s'.ready[..|s'.ready| - 1] == s.ready;
      }
    case Exit(w) => WorkersWorkUpdate(s.workers, w, Idle);
  }

  /** While a script has not ended, some worker has something to do. */
  lemma Progress(s: State, id: nat, q: uint32) returns (step: Step)
    requires Inv(s) && s.workers != [] && id in s.programs && id !in s.ended
    ensures Enabled(s, step) && !step.Submit?
  {
    assert Live(s, id);
    if w :| 0 <= w < |s.workers| && s.workers[w].Running? {
      assert Consistent(s, s.workers[w].tcb);
      step := if s.workers[w].tcb.ip < |s.workers[w].tcb.lines| then Execute(w, true) else Exit(w);
    } else {
      assert InQueue(s.ready, id);
      step := Dispatch(0, q);
    }
  }

  // ---- runs ----

  function Run(s: State, steps: seq<Step>): Option<State> {
    if steps == [] then Some(s)
    else
      var before, step := Run(s, steps[..|steps| - 1]), steps[|steps| - 1];
      if before.Some? && Enabled(before.value, step) then Some(Next(before.value, step)) else None
  }

  lemma {:induction false} RunInv(workers: nat, steps: seq<Step>)
    requires Run(Start(workers), steps).Some?
    ensures Inv(Run(Start(workers), steps).value)
  {
    if steps == [] {
      StartInv(workers);
    } else {
      RunInv(workers, steps[..|steps| - 1]);
      StepInv(Run(Start(workers), steps[..|steps| - 1]).value, steps[|steps| - 1]);
    }
  }

  /** Without new scripts a run cannot be longer than the work it started with. */
  lemma {:induction false} RunsAreBounded(s: State, steps: seq<Step>)
    requires Run(s, steps).Some? && forall i :: 0 <= i < |steps| ==> !steps[i].Submit?
    ensures |steps| + Work(Run(s, steps).value) <= Work(s)
  {
    if steps != [] {
      RunsAreBounded(s, steps[..|steps| - 1]);
      StepDecreases(Run(s, steps[..|steps| - 1]).value, steps[|steps| - 1]);
    }
  }

  /** A run after which no worker can do anything has ended every script, completely or at a failing line. */
  lemma QuietMeansEnded(workers: nat, steps: seq<Step>, id: nat)
    requires workers > 0 && Run(Start(workers), steps).Some?
    requires forall step :: Enabled(Run(Start(workers), steps).value, step) ==> step.Submit?
    requires id in Run(Start(workers), steps).value.programs
    ensures EndedWell(Run(Start(workers), steps).value, id)
  {
    var s := Run(Start(workers), steps).value;
    RunInv(workers, steps);
    WorkersStay(workers, steps);
    if id !in s.ended {
      var step := Progress(s, id, 1);
      assert false;
    }
  }

  lemma {:induction false} WorkersStay(workers: nat, steps: seq<Step>)
    requires Run(Start(workers), steps).Some?
    ensures |Run(Start(workers), steps).value.workers| == workers
  {
    if steps != [] {
      WorkersStay(workers, steps[..|steps| - 1]);
    }
  }

  // ---- one turn of a worker that nothing interrupts ----

  /** Which lines succeed, by script and number. */
  type Accepts = (nat, nat) -> bool

  /** The script has n more lines in its log, each with its result, and none after one that failed. */
  ghost predicate Logged(before: State, s: State, tcb: Tcb, accepts: Accepts, n: nat) {
    && tcb.ip == |LogOf(before, tcb.id)| && tcb.ip + n == |LogOf(s, tcb.id)| <= |tcb.lines|
    && (forall j :: 0 <= j < tcb.ip ==> LogOf(s, tcb.id)[j] == LogOf(before, tcb.id)[j])
    && (forall j :: tcb.ip <= j < tcb.ip + n ==> LogOf(s, tcb.id)[j] == (tcb.lines[j], accepts(tcb.id, j)))
    && (forall j :: tcb.ip <= j < tcb.ip + n - 1 ==> accepts(tcb.id, j))
    && (forall id :: id != tcb.id ==> LogOf(s, id) == LogOf(before, id))
  }

  /** The last of n lines failed. */
  predicate Stumbled(tcb: Tcb, accepts: Accepts, n: nat) {
    n > 0 && !accepts(tcb.id, tcb.ip + n - 1)
  }

  /** What else has changed: the script failed, or is put back last, or still runs. */
  ghost predicate Moved(before: State, s: State, tcb: Tcb, w: nat, q: uint32, n: nat, stumbled: bool)
    requires before.ready != [] && w < |before.workers|
  {
    && (q > 0 ==> n <= q)
    && s.programs == before.programs && s.dispatched == before.dispatched + [tcb.id]
    && |s.workers| == |before.workers| && s.workers == before.workers[w := s.workers[w]]
    && if stumbled then
         s.workers[w].Idle? && s.ready == before.ready[1..] && s.ended == before.ended[tcb.id := Failed]
       else if s.workers[w].Idle? then
         && s.ready == before.ready[1..] + [tcb.(ip := tcb.ip + n)] && s.ended == before.ended
         && n == q > 0 && tcb.ip + n < |tcb.lines|
       else
         && s.workers[w] == Running(tcb.(ip := tcb.ip + n), n, q) && s.ready == before.ready[1..]
         && s.ended == before.ended && (n == q > 0 ==> tcb.ip + n == |tcb.lines|)
  }

  ghost predicate TurnSoFar(before: State, s: State, w: nat, q: uint32, accepts: Accepts, n: nat)
    requires before.ready != [] && w < |before.workers|
  {
    var tcb := before.ready[0];
    Logged(before, s, tcb, accepts, n) && Moved(before, s, tcb, w, q, n, Stumbled(tcb, accepts, n))
  }

  lemma TurnStarts(before: State, w: nat, q: uint32, accepts: Accepts)
    requires Inv(before) && Enabled(before, Dispatch(w, q))
    ensures TurnSoFar(before, Next(before, Dispatch(w, q)), w, q, accepts, 0)
  {
    var tcb := before.ready[0];
    assert Consistent(before, tcb);
    assert tcb.(ip := tcb.ip + 0) == tcb;
  }

  lemma OneMoreLogged(before: State, s: State, s': State, tcb: Tcb, accepts: Accepts, n: nat)
    requires Logged(before, s, tcb, accepts, n) && !Stumbled(tcb, accepts, n) && tcb.ip + n < |tcb.lines|
    requires LogOf(s', tcb.id) == LogOf(s, tcb.id) + [(tcb.lines[tcb.ip + n], accepts(tcb.id, tcb.ip + n))]
    requires forall id :: id != tcb.id ==> LogOf(s', id) == LogOf(s, id)
    ensures Logged(before, s', tcb, accepts, n + 1)
  {
  }

  lemma LineLogged(s: State, w: nat, ok: bool)
    requires Enabled(s, Execute(w, ok))
    ensures var tcb := s.workers[w].tcb;
            && LogOf(Next(s, Execute(w, ok)), tcb.id) == LogOf(s, tcb.id) + [(tcb.lines[tcb.ip], ok)]
            && forall id :: id != tcb.id ==> LogOf(Next(s, Execute(w, ok)), id) == LogOf(s, id)
  {
  }

  lemma OneMoreMoved(before: State, s: State, w: nat, q: uint32, n: nat, ok: bool)
    requires before.ready != [] && w < |before.workers| && Moved(before, s, before.ready[0], w, q, n, false)
    requires Enabled(s, Execute(w, ok))
    ensures Moved(before, Next(s, Execute(w, ok)), before.ready[0], w, q, n + 1, !ok)
  {
  }

  lemma TurnContinues(before: State, s: State, w: nat, q: uint32, accepts: Accepts, n: nat)
    requires before.ready != [] && w < |before.workers| && TurnSoFar(before, s, w, q, accepts, n)
    requires var tcb := before.ready[0];
             Enabled(s, Execute(w, accepts(tcb.id, tcb.ip + n)))
    ensures var tcb := before.ready[0];
            TurnSoFar(before, Next(s, Execute(w, accepts(tcb.id, tcb.ip + n))), w, q, accepts, n + 1)
  {
    var tcb := before.ready[0];
    var ok := accepts(tcb.id, tcb.ip + n);
    LineLogged(s, w, ok);
    OneMoreMoved(before, s, w, q, n, ok);
    OneMoreLogged(before, s, Next(s, Execute(w, ok)), tcb, accepts, n);
  }

  lemma LineIsRun(before: State, s: State, w: nat, q: uint32, accepts: Accepts, n: nat, ok: bool)
    requires before.ready != [] && w < |before.workers| && Inv(s) && TurnSoFar(before, s, w, q, accepts, n)
    requires Enabled(s, Execute(w, ok)) && ok == accepts(s.workers[w].tcb.id, s.workers[w].tcb.ip)
    ensures Inv(Next(s, Execute(w, ok))) && TurnSoFar(before, Next(s, Execute(w, ok)), w, q, accepts, n + 1)
    ensures Work(Next(s, Execute(w, ok))) < Work(s)
  {
    StepInv(s, Execute(w, ok));
    StepDecreases(s, Execute(w, ok));
    TurnContinues(before, s, w, q, accepts, n);
  }

  /** What remains of a turn once its loop is over: a script that still runs has run its last line and completes. */
  function Left(s: State, w: nat): State
    requires w < |s.workers|
  {
    if Enabled(s, Exit(w)) then Next(s, Exit(w)) else s
  }

  lemma TurnLogs(before: State, s: State, w: nat, q: uint32, accepts: Accepts, n: nat)
    requires before.ready != [] && w < |before.workers| && TurnSoFar(before, s, w, q, accepts, n)
    ensures var tcb, log := before.ready[0], LogOf(Left(s, w), before.ready[0].id);
            && |log| == tcb.ip + n <= |tcb.lines| && (q > 0 ==> n <= q)
            && log[..tcb.ip] == LogOf(before, tcb.id)
            && (forall j :: tcb.ip <= j < tcb.ip + n ==> log[j] == (tcb.lines[j], accepts(tcb.id, j)))
            && (forall j :: tcb.ip <= j < tcb.ip + n - 1 ==> accepts(tcb.id, j))
    ensures forall id :: id != before.ready[0].id ==> LogOf(Left(s, w), id) == LogOf(before, id)
  {
    assert LogOf(Left(s, w), before.ready[0].id) == LogOf(s, before.ready[0].id);
  }

  lemma TurnEnds(before: State, s: State, w: nat, q: uint32, accepts: Accepts, n: nat)
    requires before.ready != [] && w < |before.workers| && before.workers[w].Idle?
    requires TurnSoFar(before, s, w, q, accepts, n)
    requires s.workers[w].Running? ==> |s.workers[w].tcb.lines| <= s.workers[w].tcb.ip
    ensures var s', tcb := Left(s, w), before.ready[0];
            if n > 0 && !accepts(tcb.id, tcb.ip + n - 1) then
              s'.ended == before.ended[tcb.id := Failed] && s'.ready == before.ready[1..]
            else if tcb.ip + n == |tcb.lines| then
              s'.ended == before.ended[tcb.id := Completed] && s'.ready == before.ready[1..]
            else
              && s'.ended == before.ended && n == q > 0
              && s'.ready == before.ready[1..] + [Tcb(tcb.id, tcb.lines, tcb.ip + n)]
    ensures var s' := Left(s, w);
            && s'.workers == before.workers && s'.programs == before.programs
            && s'.dispatched == before.dispatched + [before.ready[0].id]
  {
    assert before.workers[w := Idle] == before.workers;
  }

  class Kernel {
    var state: State

    constructor (workers: nat)
      ensures state == Start(workers)
    {
      state := Start(workers);
    }

    method AddScript(id: nat, lines: seq<Text>)
      requires Inv(state) && id !in state.programs
      modifies this
      ensures Inv(state) && state == Next(old(state), Submit(id, lines))
      ensures state.ready == old(state.ready) + [Tcb(id, lines, 0)] && state.workers == old(state.workers)
      ensures state.programs == old(state.programs)[id := lines] && LogOf(state, id) == []
      ensures state.ended == old(state.ended) && state.dispatched == old(state.dispatched)
    {
      SubmitInv(state, id, lines);
      state := Next(state, Submit(id, lines));
    }

    method Take(w: nat, q: uint32, ghost accepts: Accepts)
      requires Inv(state) && Enabled(state, Dispatch(w, q))
      modifies this
      ensures Inv(state) && TurnSoFar(old(state), state, w, q, accepts, 0) && IsRunning(state, w)
    {
      StepInv(state, Dispatch(w, q));
      TurnStarts(state, w, q, accepts);
      state := Next(state, Dispatch(w, q));
    }

    method RunLine(w: nat, q: uint32, accepts: Accepts, ghost before: State, ghost n: nat)
      requires before.ready != [] && w < |before.workers|
      requires Inv(state) && TurnSoFar(before, state, w, q, accepts, n)
      requires IsRunning(state, w) && state.workers[w].tcb.ip < |state.workers[w].tcb.lines|
      modifies this
      ensures Inv(state) && TurnSoFar(before, state, w, q, accepts, n + 1) && Work(state) < Work(old(state))
    {
      var ok := accepts(state.workers[w].tcb.id, state.workers[w].tcb.ip);
      LineIsRun(before, state, w, q, accepts, n, ok);
      state := Next(state, Execute(w, ok));
    }

    /** Line by line, until one fails, the quantum is over or there are no more. */
    method RunLines(w: nat, q: uint32, accepts: Accepts, ghost before: State) returns (n: nat)
      requires before.ready != [] && w < |before.workers|
      requires Inv(state) && TurnSoFar(before, state, w, q, accepts, 0)
      modifies this
      ensures Inv(state) && TurnSoFar(before, state, w, q, accepts, n)
      ensures state.workers[w].Running? ==> |state.workers[w].tcb.lines| <= state.workers[w].tcb.ip
    {
      n := 0;
      while state.workers[w].Running? && state.workers[w].tcb.ip < |state.workers[w].tcb.lines|
        invariant Inv(state) && TurnSoFar(before, state, w, q, accepts, n)
        decreases Work(state)
      {
        RunLine(w, q, accepts, before, n);
        n := n + 1;
      }
    }

    method Leave(w: nat)
      requires Inv(state) && w < |state.workers|
      modifies this
      ensures Inv(state) && state == Left(old(state), w)
    {
      if IsRunning(state, w) && state.workers[w].tcb.ip == |state.workers[w].tcb.lines| {
        StepInv(state, Exit(w));
        state := Next(state, Exit(w));
      }
    }

    /** The body of the worker loop: n lines of the first script are run. */
    method WorkerTurn(w: nat, q: uint32, accepts: Accepts) returns (n: nat)
      requires Inv(state) && Enabled(state, Dispatch(w, q))
      modifies this
      // each line has its result in the log, and none is run after one that fails
      ensures var tcb, log := old(state).ready[0], LogOf(state, old(state).ready[0].id);
              && |log| == tcb.ip + n <= |tcb.lines| && (q > 0 ==> n <= q)
              && log[..tcb.ip] == LogOf(old(state), tcb.id)
              && (forall j :: tcb.ip <= j < tcb.ip + n ==> log[j] == (tcb.lines[j], accepts(tcb.id, j)))
              && (forall j :: tcb.ip <= j < tcb.ip + n - 1 ==> accepts(tcb.id, j))
      // it fails with its last line, or completes with its last one, or is put back last when the quantum is over
      ensures var tcb := old(state).ready[0];
              if n > 0 && !accepts(tcb.id, tcb.ip + n - 1) then
                state.ended == old(state).ended[tcb.id := Failed] && state.ready == old(state).ready[1..]
              else if tcb.ip + n == |tcb.lines| then
                state.ended == old(state).ended[tcb.id := Completed] && state.ready == old(state).ready[1..]
              else
                && state.ended == old(state).ended && n == q > 0
                && state.ready == old(state).ready[1..] + [Tcb(tcb.id, tcb.lines, tcb.ip + n)]
      ensures Inv(state) && state.workers == old(state).workers && state.programs == old(state).programs
      ensures state.dispatched == old(state).dispatched + [old(state).ready[0].id]
      ensures forall id :: id != old(state).ready[0].id ==> LogOf(state, id) == LogOf(old(state), id)
    {
      ghost var before := state;
      Take(w, q, accepts);
      n := RunLines(w, q, accepts, before);
      TurnLogs(before, state, w, q, accepts, n);
      TurnEnds(before, state, w, q, accepts, n);
      Leave(w);
    }
  }
}
