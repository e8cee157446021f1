/**
 All workers of the thread pool at once: the atomic steps of `execute` that
 register a worker with the partition it works on.
 */
module Workers {
  import opened Wrappers

  /**
   Between tasks; about to give up the old partition, or to register, for a task
   of partition `par`; working on it; or finished.
   */
  datatype Phase = Ready | Switching(par: nat) | Joining(par: nat) | Working(par: nat) | Done

  /** `registered` is the variable of the loop, `queue` the partitions of the waiting tasks. */
  datatype Worker = Worker(registered: Option<nat>, phase: Phase, queue: seq<nat>, master: bool)

  /** `counters` holds `thread_counter` of each partition's global lock. */
  datatype State = State(counters: seq<nat>, workers: seq<Worker>, finished: bool)

  datatype Step = Submit(par: nat) | Stop | Pop | Leave | Join | Finish | Pause | Exit

  predicate Init(s: State) {
    && (forall p :: 0 <= p < |s.counters| ==> s.counters[p] == 0)
    && forall i :: 0 <= i < |s.workers| ==> s.workers[i].registered == None && s.workers[i].phase == Ready && s.workers[i].queue == []
  }

  /** With which partition's lock the worker is registered. */
  function Registration(w: Worker): Option<nat> {
    if w.phase.Joining? || w.phase.Done? then None else w.registered
  }

  predicate Enabled(s: State, w: Worker, step: Step) {
    match step
    case Submit(par) => par < |s.counters|
    case Stop => true
    case Pop => w.phase.Ready? && w.queue != []
    case Leave => w.phase.Switching? && w.registered.Some?
    case Join => w.phase.Joining?
    case Finish => w.phase.Working?
    case Pause => w.phase.Ready? && w.queue == [] && !w.master && !s.finished
    case Exit => w.phase.Ready? && w.queue == [] && (w.master || s.finished)
  }

  function NextWorker(w: Worker, step: Step): Worker {
    match step
    case Submit(par) => w.(queue := w.queue + [par])
    case Stop => w
    case Pop =>
      if w.queue == [] then w
      else
        var par := w.queue[0];
        var phase :=
          if w.registered == Some(par) then Working(par) else if w.registered.Some? then Switching(par) else Joining(par);
        w.(phase := phase, queue := w.queue[1..])
    case Leave => if w.phase.Switching? then w.(phase := Joining(w.phase.par)) else w
    case Join => if w.phase.Joining? then w.(phase := Working(w.phase.par), registered := Some(w.phase.par)) else w
    case Finish => w.(phase := Ready)
    case Pause => w.(registered := None)
    case Exit => w.(phase := Done)
  }

  /** One step of worker `i`: what changes of a counter is what changes of the worker's registration. */
  ghost predicate Next(s: State, t: State, i: nat, step: Step) {
    && i < |s.workers| && Enabled(s, s.workers[i], step)
    && t.workers == s.workers[i := NextWorker(s.workers[i], step)]
    && t.finished == (s.finished || step.Stop?)
    && |t.counters| == |s.counters|
    && forall p :: 0 <= p < |s.counters| ==>
         t.counters[p] == s.counters[p] + Change(s.workers[i], step, p)
  }

  /** `registerThread` adds one, `unregisterThread` takes one away. */
  function Change(w: Worker, step: Step, p: nat): int {
    match step
    case Join => if w.phase.Joining? && w.phase.par == p then 1 else 0
    case Leave => if w.registered == Some(p) then -1 else 0
    case Pause => if w.registered == Some(p) then -1 else 0
    case Exit => if w.registered == Some(p) then -1 else 0
    case _ => 0
  }

  function Tally(workers: seq<Worker>, p: nat): nat {
    if workers == [] then 0
    else Tally(workers[..|workers| - 1], p) + if Registration(workers[|workers| - 1]) == Some(p) then 1 else 0
  }

  lemma {:induction false} TallyUpdate(workers: seq<Worker>, p: nat, i: nat, w: Worker)
    requires i < |workers|
    ensures Tally(workers[i := w], p) == Tally(workers, p)
      - (if Registration(workers[i]) == Some(p) then 1 else 0) + (if Registration(w) == Some(p) then 1 else 0)
  {
    var last := |workers| - 1;
    if i == last {
      assert workers[i := w][..last] == workers[..last];
    } else {
      assert workers[i := w][..last] == workers[..last][i := w];
      TallyUpdate(workers[..last], p, i, w);
    }
  }

  lemma {:induction false} TallyNone(workers: seq<Worker>, p: nat)
    requires forall i :: 0 <= i < |workers| ==> Registration(workers[i]) == None
    ensures Tally(workers, p) == 0
  {
    if workers != [] {
      TallyNone(workers[..|workers| - 1], p);
    }
  }

  ghost predicate WorkerOk(w: Worker, parts: nat) {
    && (w.registered.Some? ==> w.registered.value < parts)
    && (forall k :: 0 <= k < |w.queue| ==> w.queue[k] < parts)
    && (w.phase.Switching? ==> w.registered.Some? && w.phase.par < parts)
    && (w.phase.Joining? ==> w.phase.par < parts)
    && (w.phase.Working? ==> w.registered == Some(w.phase.par))
  }

  /** Workers other than the master leave only once the pool is stopped. */
  ghost predicate LeftInTime(s: State) {
    forall i :: 0 <= i < |s.workers| && s.workers[i].phase.Done? ==> s.workers[i].master || s.finished
  }

  ghost predicate Inv(s: State) {
    && (forall i :: 0 <= i < |s.workers| ==> WorkerOk(s.workers[i], |s.counters|)) && LeftInTime(s)
    && forall p :: 0 <= p < |s.counters| ==> s.counters[p] == Tally(s.workers, p)
  }

  lemma InitInv(s: State)
    requires Init(s)
    ensures Inv(s)
  {
    forall p | 0 <= p < |s.counters|
      ensures s.counters[p] == Tally(s.workers, p)
    {
      TallyNone(s.workers, p);
    }
  }

  lemma NextInv(s: State, t: State, i: nat, step: Step)
    requires Inv(s) && Next(s, t, i, step)
    ensures Inv(t)
  {
    forall p | 0 <= p < |t.counters|
      ensures t.counters[p] == Tally(t.workers, p)
    {
      TallyUpdate(s.workers, p, i, t.workers[i]);
    }
    forall j | 0 <= j < |t.workers|
      ensures WorkerOk(t.workers[j], |t.counters|)
    {
      assert WorkerOk(s.workers[j], |s.counters|);
    }
  }

  ghost predicate IsRun(states: seq<State>, moves: seq<(nat, Step)>) {
    && |states| == |moves| + 1 && Init(states[0])
    && forall k :: 0 <= k < |moves| ==> Next(states[k], states[k + 1], moves[k].0, moves[k].1)
  }

  /**
   In every run, at every moment: each counter is the number of workers
   registered there, a worker on a task is registered with the task's partition,
   and one that has left the loop with none.
   */
  lemma {:induction false} CountersRight(states: seq<State>, moves: seq<(nat, Step)>, k: nat)
    requires IsRun(states, moves) && k < |states|
    ensures Inv(states[k])
    ensures forall p :: 0 <= p < |states[k].counters| ==> states[k].counters[p] == Tally(states[k].workers, p)
    ensures forall i :: 0 <= i < |states[k].workers| ==>
      var w := states[k].workers[i];
      (w.phase.Working? ==> Registration(w) == Some(w.phase.par)) && (w.phase.Done? ==> Registration(w) == None)
  {
    if k == 0 {
      InitInv(states[0]);
    } else {
      CountersRight(states, moves, k - 1);
      assert Next(states[k - 1], states[k], moves[k - 1].0, moves[k - 1].1);
      NextInv(states[k - 1], states[k], moves[k - 1].0, moves[k - 1].1);
    }
    forall i | 0 <= i < |states[k].workers|
      ensures states[k].workers[i].phase.Working? ==>
        Registration(states[k].workers[i]) == Some(states[k].workers[i].phase.par)
    {
      assert WorkerOk(states[k].workers[i], |states[k].counters|);
    }
  }

  // ---------------------------------------------------------------- no task is lost

  /** The tasks given to worker `i` in the first `k` moves of a run, by their partitions. */
  function Given(moves: seq<(nat, Step)>, k: nat, i: nat): seq<nat>
    requires k <= |moves|
  {
    if k == 0 then []
    else
      var (j, step) := moves[k - 1];
      Given(moves, k - 1, i) + if j == i && step.Submit? then [step.par] else []
  }

  /** Those it has taken from its queue. */
  function TakenUp(states: seq<State>, moves: seq<(nat, Step)>, k: nat, i: nat): seq<nat>
    requires k <= |moves| && |states| == |moves| + 1
  {
    if k == 0 then []
    else
      var (j, step) := moves[k - 1];
      TakenUp(states, moves, k - 1, i) +
        if j == i && step.Pop? && i < |states[k].workers| && TaskOf(states[k].workers[i]).Some? then
          [TaskOf(states[k].workers[i]).value]
        else []
  }

  /** The partition of the task a worker is at. */
  function TaskOf(w: Worker): Option<nat> {
    if w.phase.Switching? || w.phase.Joining? || w.phase.Working? then Some(w.phase.par) else None
  }

  /** Nothing is given to a worker that has left. */
  ghost predicate GivenInTime(states: seq<State>, moves: seq<(nat, Step)>) {
    |states| == |moves| + 1 &&
    forall k :: 0 <= k < |moves| && moves[k].1.Submit? && moves[k].0 < |states[k].workers| ==>
      !states[k].workers[moves[k].0].phase.Done?
  }

  lemma TaskKept(s: State, t: State, j: nat, step: Step, i: nat)
    requires Next(s, t, j, step) && i < |s.workers|
    ensures |t.workers| == |s.workers|
    ensures var before, after := s.workers[i].queue, t.workers[i].queue;
      if j == i && step.Submit? then after == before + [step.par]
      else if j == i && step.Pop? then TaskOf(t.workers[i]).Some? && before == [TaskOf(t.workers[i]).value] + after
      else after == before
  {
  }

  /** Every worker takes up its tasks in the order they were given, and those not taken up yet are in its queue. */
  lemma {:induction false} TasksKept(states: seq<State>, moves: seq<(nat, Step)>, k: nat, i: nat)
    requires IsRun(states, moves) && k < |states| && i < |states[k].workers|
    ensures Given(moves, k, i) == TakenUp(states, moves, k, i) + states[k].workers[i].queue
  {
    if k > 0 {
      var s, t, j, step := states[k - 1], states[k], moves[k - 1].0, moves[k - 1].1;
      TaskKept(s, t, j, step, i);
      TasksKept(states, moves, k - 1, i);
    }
  }

  /** A worker that has left has taken up all its tasks, as long as it is given none afterwards. */
  lemma {:induction false} NothingLeft(states: seq<State>, moves: seq<(nat, Step)>, k: nat, i: nat)
    requires IsRun(states, moves) && GivenInTime(states, moves) && k < |states| && i < |states[k].workers|
    requires states[k].workers[i].phase.Done?
    ensures states[k].workers[i].queue == [] && TakenUp(states, moves, k, i) == Given(moves, k, i)
    ensures states[k].workers[i].master || states[k].finished
  {
    CountersRight(states, moves, k);
    TasksKept(states, moves, k, i);
    if k > 0 {
      assert Next(states[k - 1], states[k], moves[k - 1].0, moves[k - 1].1);
      if states[k - 1].workers[i].phase.Done? {
        NothingLeft(states, moves, k - 1, i);
      }
    }
  }

  // ---------------------------------------------------------------- workers leave in the end

  /** How many steps of its own it takes a worker at most until it has left, once it may. */
  function StepsLeft(w: Worker): nat {
    4 * |w.queue| + match w.phase
      case Ready => 1
      case Switching(_) => 4
      case Joining(_) => 3
      case Working(_) => 2
      case Done => 0
  }

  /** The next of them. */
  function OwnStep(s: State, w: Worker): Step {
    match w.phase
    case Ready => if w.queue != [] then Pop else if w.master || s.finished then Exit else Pause
    case Switching(_) => Leave
    case Joining(_) => Join
    case Working(_) => Finish
    case Done => Exit
  }

  lemma {:induction false} TallySome(workers: seq<Worker>, p: nat, i: nat)
    requires i < |workers| && Registration(workers[i]) == Some(p)
    ensures Tally(workers, p) > 0
  {
    if i < |workers| - 1 {
      TallySome(workers[..|workers| - 1], p, i);
    }
  }

  /** A worker that has not left can always take a step. */
  lemma WorkerMoves(s: State, i: nat) returns (t: State)
    requires Inv(s) && i < |s.workers| && !s.workers[i].phase.Done?
    ensures Next(s, t, i, OwnStep(s, s.workers[i]))
  {
    var w, step := s.workers[i], OwnStep(s, s.workers[i]);
    assert WorkerOk(w, |s.counters|);
    forall p | 0 <= p < |s.counters|
      ensures s.counters[p] + Change(w, step, p) >= 0
    {
      if Change(w, step, p) < 0 {
        TallySome(s.workers, p, i);
      }
    }
    var counters: seq<nat> := seq(|s.counters|, p requires 0 <= p < |s.counters| => s.counters[p] + Change(w, step, p));
    t := State(counters, s.workers[i := NextWorker(w, step)], s.finished);
  }

  /**
   Once the pool is stopped, or for the master at any time: by steps of its own a
   worker gets through all its tasks and leaves.
   */
  lemma {:induction false} WorkerLeaves(s: State, i: nat) returns (states: seq<State>, steps: seq<Step>)
    requires Inv(s) && i < |s.workers| && (s.workers[i].master || s.finished)
    ensures |states| == |steps| + 1 && states[0] == s && |steps| <= StepsLeft(s.workers[i])
    ensures forall k :: 0 <= k < |steps| ==> Next(states[k], states[k + 1], i, steps[k])
    ensures var t := states[|steps|]; i < |t.workers| && t.workers[i].phase.Done?
    ensures forall k :: 0 <= k < |steps| ==> !steps[k].Submit? && !steps[k].Stop?
    decreases StepsLeft(s.workers[i])
  {
    var w := s.workers[i];
    if w.phase.Done? {
      states, steps := [s], [];
    } else {
      assert WorkerOk(w, |s.counters|);
      var step := OwnStep(s, w);
      var t := WorkerMoves(s, i);
      NextInv(s, t, i, step);
      var later, more := WorkerLeaves(t, i);
      states, steps := [s] + later, [step] + more;
      forall k | 0 <= k < |steps|
        ensures Next(states[k], states[k + 1], i, steps[k])
      {
        assert k > 0 ==> states[k] == later[k - 1] && steps[k] == more[k - 1];
      }
    }
  }

  /** When all workers have left, no lock counts anybody, and all tasks have been taken up in order. */
  lemma AllDone(states: seq<State>, moves: seq<(nat, Step)>, k: nat)
    requires IsRun(states, moves) && k < |states|
    requires forall i :: 0 <= i < |states[k].workers| ==> states[k].workers[i].phase.Done?
    ensures forall p :: 0 <= p < |states[k].counters| ==> states[k].counters[p] == 0
    ensures GivenInTime(states, moves) ==> forall i :: 0 <= i < |states[k].workers| ==>
      states[k].workers[i].queue == [] && TakenUp(states, moves, k, i) == Given(moves, k, i)
  {
    CountersRight(states, moves, k);
    forall p | 0 <= p < |states[k].counters|
      ensures states[k].counters[p] == 0
    {
      TallyNone(states[k].workers, p);
    }
    forall i | 0 <= i < |states[k].workers| && GivenInTime(states, moves)
      ensures states[k].workers[i].queue == [] && TakenUp(states, moves, k, i) == Given(moves, k, i)
    {
      NothingLeft(states, moves, k, i);
    }
  }
}
