/**
 The global lock, as atomic steps of any number of threads: a barrier that waits
 until every registered thread has arrived.
 */
module FastLock {

  /**
   Where a thread is. `Asked`, `Waiting`, `Passing` and `Leaving` are the inside
   of `lock_shared` (with `enter`) and of `unlock_shared`, which is the same code.
   */
  datatype PC =
    | Unregistered
    | Idle
    | Asked(enter: bool)
    | Waiting(enter: bool)
    | Passing(enter: bool)
    | Leaving(enter: bool)
    | Inside
    | Announced
    | Owner
    | Spin
    | SpinArrived(arrived: nat)
    | SpinCounter(counter: nat)
    | Won
    | Locked
    | Unlocking

  /** The fields of the lock and the places of the threads. */
  datatype State = State(lockRequested: bool, counter: nat, arrived: nat, threads: seq<PC>)

  datatype Step =
    | Register | Unregister
    | AskShared | AskLeave | Arrive | TakeShared | Depart | DropShared
    | Announce | TakeExclusive | Request | LoadArrived | CompareCounter | LoadCounter | CompareArrived | Win
    | Open | DropExclusive

  /** Which of the two counters the loop of `lock` loads first; the language leaves that open. */
  datatype Order = ArrivedFirst | CounterFirst

  // ---------------------------------------------------------------- steps

  predicate HoldsShared(pc: PC) {
    pc.Passing? || pc.Leaving?
  }

  predicate HoldsExclusive(pc: PC) {
    pc.Owner? || pc.Spin? || pc.SpinArrived? || pc.SpinCounter? || pc.Won? || pc.Locked? || pc.Unlocking?
  }

  predicate Registered(pc: PC) {
    !pc.Unregistered?
  }

  /** The threads that `arrived_threads` counts. */
  predicate HasArrived(pc: PC) {
    || pc.Waiting? || pc.Passing? || pc.Announced? || pc.Owner?
    || pc.Spin? || pc.SpinArrived? || pc.SpinCounter? || pc.Won?
  }

  predicate Requesting(pc: PC) {
    pc.Spin? || pc.SpinArrived? || pc.SpinCounter? || pc.Won? || pc.Locked?
  }

  predicate Init(s: State) {
    && !s.lockRequested && s.counter == 0 && s.arrived == 0
    && forall i :: 0 <= i < |s.threads| ==> s.threads[i] == Unregistered
  }

  predicate Enabled(s: State, i: nat, step: Step, order: Order)
    requires i < |s.threads|
  {
    var pc := s.threads[i];
    match step
    case Register => pc.Unregistered?
    case Unregister => pc.Idle?
    case AskShared => pc.Idle?
    case AskLeave => pc.Inside?
    case Arrive => pc.Asked?
    case TakeShared => pc.Waiting? && forall j :: 0 <= j < |s.threads| ==> !HoldsExclusive(s.threads[j])
    case Depart => pc.Passing?
    case DropShared => pc.Leaving?
    case Announce => pc.Idle?
    case TakeExclusive =>
      pc.Announced? && forall j :: 0 <= j < |s.threads| ==> !HoldsExclusive(s.threads[j]) && !HoldsShared(s.threads[j])
    case Request => pc.Owner?
    case LoadArrived => pc.Spin? && order == ArrivedFirst
    case CompareCounter => pc.SpinArrived?
    case LoadCounter => pc.Spin? && order == CounterFirst
    case CompareArrived => pc.SpinCounter?
    case Win => pc.Won?
    case Open => pc.Locked?
    case DropExclusive => pc.Unlocking?
  }

  /** Where the step takes the thread. */
  function NextPC(s: State, pc: PC, step: Step): PC {
    match step
    case Register => Idle
    case Unregister => Unregistered
    case AskShared => if s.lockRequested then Asked(true) else Inside
    case AskLeave => if s.lockRequested then Asked(false) else Idle
    case Arrive => if pc.Asked? then Waiting(pc.enter) else pc
    case TakeShared => if pc.Waiting? then Passing(pc.enter) else pc
    case Depart => if pc.Passing? then Leaving(pc.enter) else pc
    case DropShared => if pc.Leaving? && pc.enter then Inside else Idle
    case Announce => Announced
    case TakeExclusive => Owner
    case Request => Spin
    case LoadArrived => SpinArrived(s.arrived)
    case CompareCounter => if pc.SpinArrived? && pc.arrived < s.counter then Spin else Won
    case LoadCounter => SpinCounter(s.counter)
    case CompareArrived => if pc.SpinCounter? && s.arrived < pc.counter then Spin else Won
    case Win => Locked
    case Open => Unlocking
    case DropExclusive => Idle
  }

  /** One atomic step of thread `i`. */
  ghost predicate Next(s: State, t: State, i: nat, step: Step, order: Order) {
    && i < |s.threads| && Enabled(s, i, step, order)
    && t.threads == s.threads[i := NextPC(s, s.threads[i], step)]
    && t.lockRequested == (if step.Request? then true else if step.Open? then false else s.lockRequested)
    && t.counter == s.counter + (if step.Register? then 1 else if step.Unregister? then -1 else 0)
    && t.arrived == s.arrived + (if step.Arrive? || step.Announce? then 1 else if step.Depart? || step.Win? then -1 else 0)
  }

  // ---------------------------------------------------------------- counting threads

  function Tally(threads: seq<PC>, p: PC -> bool): (n: nat)
    ensures n <= |threads|
  {
    if threads == [] then 0
    else Tally(threads[..|threads| - 1], p) + if p(threads[|threads| - 1]) then 1 else 0
  }

  lemma {:induction false} TallyUpdate(threads: seq<PC>, p: PC -> bool, i: nat, pc: PC)
    requires i < |threads|
    ensures Tally(threads[i := pc], p) ==
      Tally(threads, p) - (if p(threads[i]) then 1 else 0) + (if p(pc) then 1 else 0)
  {
    var last := |threads| - 1;
    if i == last {
      assert threads[i := pc][..last] == threads[..last];
    } else {
      assert threads[i := pc][..last] == threads[..last][i := pc];
      TallyUpdate(threads[..last], p, i, pc);
    }
  }

  /** If all arrived threads are registered and no fewer have arrived, then all registered ones have. */
  lemma {:induction false} TallyFull(threads: seq<PC>)
    ensures Tally(threads, HasArrived) <= Tally(threads, Registered)
    ensures Tally(threads, HasArrived) >= Tally(threads, Registered) ==>
      forall i :: 0 <= i < |threads| && Registered(threads[i]) ==> HasArrived(threads[i])
  {
    if threads != [] {
      TallyFull(threads[..|threads| - 1]);
    }
  }

  lemma {:induction false} TallySame(threads: seq<PC>)
    requires forall i :: 0 <= i < |threads| && Registered(threads[i]) ==> HasArrived(threads[i])
    ensures Tally(threads, HasArrived) == Tally(threads, Registered)
  {
    if threads != [] {
      TallySame(threads[..|threads| - 1]);
    }
  }

  lemma {:induction false} TallyNone(threads: seq<PC>, p: PC -> bool)
    requires forall i :: 0 <= i < |threads| ==> !p(threads[i])
    ensures Tally(threads, p) == 0
  {
    if threads != [] {
      TallyNone(threads[..|threads| - 1], p);
    }
  }

  lemma {:induction false} TallySome(threads: seq<PC>, p: PC -> bool, i: nat)
    requires i < |threads| && p(threads[i])
    ensures Tally(threads, p) > 0
  {
    if i < |threads| - 1 {
      TallySome(threads[..|threads| - 1], p, i);
    }
  }

  // ---------------------------------------------------------------- invariant

  ghost predicate Counted(s: State) {
    s.counter == Tally(s.threads, Registered) && s.arrived == Tally(s.threads, HasArrived)
  }

  /** The mutex: one exclusive holder and no shared ones, or the other way round. */
  ghost predicate MutexOk(s: State) {
    forall i, j {:trigger s.threads[i], s.threads[j]} ::
      0 <= i < |s.threads| && 0 <= j < |s.threads| && i != j && HoldsExclusive(s.threads[i]) ==>
        !HoldsExclusive(s.threads[j]) && !HoldsShared(s.threads[j])
  }

  ghost predicate RequestOk(s: State) {
    && (forall i :: 0 <= i < |s.threads| && Requesting(s.threads[i]) ==> s.lockRequested)
    && (s.lockRequested ==> exists i :: 0 <= i < |s.threads| && Requesting(s.threads[i]))
  }

  /** What the loop has loaded so far is not outdated in the dangerous direction. */
  ghost predicate LoadsOk(s: State) {
    forall i :: 0 <= i < |s.threads| ==>
      && (s.threads[i].SpinArrived? ==> s.threads[i].arrived <= s.arrived)
      && (s.threads[i].SpinCounter? ==> s.counter <= s.threads[i].counter)
  }

  /** Whoever is out of the loop of `lock` is alone. */
  ghost predicate WinnerAlone(s: State) {
    forall i, j {:trigger s.threads[i], s.threads[j]} ::
      0 <= i < |s.threads| && 0 <= j < |s.threads| && (s.threads[i].Won? || s.threads[i].Locked?) ==>
        !s.threads[j].Inside?
  }

  ghost predicate Inv(s: State) {
    Counted(s) && MutexOk(s) && RequestOk(s) && LoadsOk(s) && WinnerAlone(s)
  }

  /** Once `lock` has returned, and until `unlock` begins, nobody is inside a shared section or has also locked. */
  ghost predicate Exclusion(s: State) {
    forall i, j {:trigger s.threads[i], s.threads[j]} ::
      0 <= i < |s.threads| && 0 <= j < |s.threads| && i != j && s.threads[i].Locked? ==>
        !s.threads[j].Inside? && !s.threads[j].Locked?
  }

  /** A thread registers while another one is between loading `thread_counter` and comparing it. */
  ghost predicate RegistersMidway(s: State, step: Step) {
    step.Register? && exists i :: 0 <= i < |s.threads| && s.threads[i].SpinCounter?
  }

  lemma InitInv(s: State)
    requires Init(s)
    ensures Inv(s)
  {
    TallyNone(s.threads, Registered);
    TallyNone(s.threads, HasArrived);
  }

  lemma CountedNext(s: State, t: State, i: nat, step: Step, order: Order)
    requires Counted(s) && Next(s, t, i, step, order)
    ensures Counted(t)
  {
    var pc := NextPC(s, s.threads[i], step);
    TallyUpdate(s.threads, Registered, i, pc);
    TallyUpdate(s.threads, HasArrived, i, pc);
  }

  lemma MutexNext(s: State, t: State, i: nat, step: Step, order: Order)
    requires MutexOk(s) && Next(s, t, i, step, order)
    ensures MutexOk(t)
  {
    forall j, k | 0 <= j < |t.threads| && 0 <= k < |t.threads| && j != k && HoldsExclusive(t.threads[j])
      ensures !HoldsExclusive(t.threads[k]) && !HoldsShared(t.threads[k])
    {
      assert j != i ==> t.threads[j] == s.threads[j];
      assert k != i ==> t.threads[k] == s.threads[k];
    }
  }

  lemma RequestNext(s: State, t: State, i: nat, step: Step, order: Order)
    requires RequestOk(s) && MutexOk(s) && Next(s, t, i, step, order)
    ensures RequestOk(t)
  {
    if t.lockRequested {
      if step.Request? {
        assert Requesting(t.threads[i]);
      } else {
        var k :| 0 <= k < |s.threads| && Requesting(s.threads[k]);
        assert Requesting(t.threads[k]);
      }
    }
  }

  /** While somebody holds the mutex exclusively, `arrived_threads` can only fall by the holder's own step. */
  lemma LoadsNext(s: State, t: State, i: nat, step: Step, order: Order)
    requires LoadsOk(s) && MutexOk(s) && Next(s, t, i, step, order) && !RegistersMidway(s, step)
    ensures LoadsOk(t)
  {
    forall k | 0 <= k < |t.threads|
      ensures t.threads[k].SpinArrived? ==> t.threads[k].arrived <= t.arrived
      ensures t.threads[k].SpinCounter? ==> t.counter <= t.threads[k].counter
    {
      if k != i {
        assert t.threads[k] == s.threads[k];
        assert HoldsExclusive(s.threads[k]) ==> !HoldsExclusive(s.threads[i]) && !HoldsShared(s.threads[i]);
      }
    }
  }

  /** The comparison that ends the loop sees every registered thread arrived. */
  lemma AllArrived(s: State, i: nat)
    requires Counted(s) && s.arrived >= s.counter
    ensures forall j :: 0 <= j < |s.threads| ==> !s.threads[j].Inside?
  {
    TallyFull(s.threads);
    forall j | 0 <= j < |s.threads|
      ensures !s.threads[j].Inside?
    {
      assert Registered(s.threads[j]) ==> HasArrived(s.threads[j]);
    }
  }

  lemma WinnerNext(s: State, t: State, i: nat, step: Step, order: Order)
    requires Inv(s) && Next(s, t, i, step, order)
    ensures WinnerAlone(t)
  {
    if t.threads[i].Won? && !s.threads[i].Won? {
      AllArrived(s, i);
    }
    forall j, k | 0 <= j < |t.threads| && 0 <= k < |t.threads| && (t.threads[j].Won? || t.threads[j].Locked?)
      ensures !t.threads[k].Inside?
    {
      if j != i {
        assert t.threads[j] == s.threads[j];
        assert s.lockRequested && (i != j ==> !HoldsShared(s.threads[i]));
      }
      assert k != i ==> t.threads[k] == s.threads[k];
    }
  }

  lemma NextInv(s: State, t: State, i: nat, step: Step, order: Order)
    requires Inv(s) && Next(s, t, i, step, order) && !RegistersMidway(s, step)
    ensures Inv(t)
  {
    CountedNext(s, t, i, step, order);
    MutexNext(s, t, i, step, order);
    RequestNext(s, t, i, step, order);
    LoadsNext(s, t, i, step, order);
    WinnerNext(s, t, i, step, order);
  }

  lemma InvExclusion(s: State)
    requires Inv(s)
    ensures Exclusion(s)
  {
  }

  /** An enabled step can be taken: no counter falls below zero. */
  lemma CanStep(s: State, i: nat, step: Step, order: Order) returns (t: State)
    requires Counted(s) && i < |s.threads| && Enabled(s, i, step, order)
    ensures Next(s, t, i, step, order)
  {
    if step.Unregister? {
      TallySome(s.threads, Registered, i);
    } else if step.Depart? || step.Win? {
      TallySome(s.threads, HasArrived, i);
    }
    t := State(
      if step.Request? then true else if step.Open? then false else s.lockRequested,
      s.counter + if step.Register? then 1 else if step.Unregister? then -1 else 0,
      s.arrived + if step.Arrive? || step.Announce? then 1 else if step.Depart? || step.Win? then -1 else 0,
      s.threads[i := NextPC(s, s.threads[i], step)]);
  }

  // ---------------------------------------------------------------- lock and unlock return

  /** Steps of thread `i` alone. */
  ghost predicate OwnSteps(states: seq<State>, steps: seq<Step>, i: nat, order: Order) {
    && |states| == |steps| + 1
    && forall k :: 0 <= k < |steps| ==> Next(states[k], states[k + 1], i, steps[k], order)
  }

  /** One more in front. */
  lemma OwnStepBefore(s: State, step: Step, states: seq<State>, steps: seq<Step>, i: nat, order: Order)
    requires OwnSteps(states, steps, i, order) && Next(s, states[0], i, step, order)
    ensures OwnSteps([s] + states, [step] + steps, i, order)
  {
    var longer, more := [s] + states, [step] + steps;
    forall k | 0 <= k < |more|
      ensures Next(longer[k], longer[k + 1], i, more[k], order)
    {
      assert k > 0 ==> longer[k] == states[k - 1] && more[k] == steps[k - 1];
    }
  }

  /** Every registered thread has announced itself, or waits to get in or out. */
  ghost predicate EveryoneArrived(s: State) {
    forall j :: 0 <= j < |s.threads| && Registered(s.threads[j]) ==> HasArrived(s.threads[j])
  }

  /** Somewhere in the loop of `lock`, or right behind it. */
  predicate InLoop(pc: PC) {
    pc.Spin? || pc.SpinArrived? || pc.SpinCounter? || pc.Won?
  }

  /** The counters show whether everyone has arrived. */
  lemma ArrivedCounts(s: State)
    requires Counted(s)
    ensures s.arrived <= s.counter && (s.arrived == s.counter <==> EveryoneArrived(s))
  {
    TallyFull(s.threads);
    if EveryoneArrived(s) {
      TallySame(s.threads);
    }
  }

  /** The loop goes on after comparing up-to-date counters if and only if some registered thread has not arrived. */
  lemma FreshComparison(s: State, t: State, i: nat, step: Step, order: Order)
    requires Inv(s) && Next(s, t, i, step, order)
    requires s.threads[i] == SpinArrived(s.arrived) || s.threads[i] == SpinCounter(s.counter)
    ensures t.threads[i] == (if EveryoneArrived(s) then Won else Spin)
  {
    ArrivedCounts(s);
  }

  /** How many steps of its own a thread in the loop needs at most, once everyone has arrived. */
  function StepsLeft(s: State, pc: PC): nat {
    match pc
    case Won => 1
    case Spin => 3
    case SpinArrived(arrived) => if arrived < s.counter then 4 else 2
    case SpinCounter(counter) => if s.arrived < counter then 4 else 2
    case _ => 0
  }

  /**
   Once everyone has arrived, a thread in the loop of `lock` is the only one
   that can take a step, unless another one registers; and each of its steps
   brings it closer to having the lock.
   */
  lemma LoopEnds(s: State, t: State, i: nat, j: nat, step: Step, order: Order)
    requires Inv(s) && EveryoneArrived(s) && i < |s.threads| && InLoop(s.threads[i])
    requires Next(s, t, j, step, order) && !step.Register?
    ensures j == i && Inv(t)
    ensures t.threads[i].Locked? || (EveryoneArrived(t) && InLoop(t.threads[i]))
    ensures StepsLeft(t, t.threads[i]) < StepsLeft(s, s.threads[i])
  {
    ArrivedCounts(s);
    NextInv(s, t, j, step, order);
    if j != i {
      assert HoldsExclusive(s.threads[i]);
      assert false;
    }
    forall k | 0 <= k < |t.threads| && Registered(t.threads[k]) && !t.threads[i].Locked?
      ensures HasArrived(t.threads[k])
    {
      assert k != i ==> t.threads[k] == s.threads[k];
    }
  }

  function LoopStep(pc: PC, order: Order): Step {
    match pc
    case Spin => if order.ArrivedFirst? then LoadArrived else LoadCounter
    case SpinArrived(_) => CompareCounter
    case SpinCounter(_) => CompareArrived
    case _ => Win
  }

  /** `lock` returns, in either order: at most four steps of its own lead out of the loop once everyone has arrived. */
  lemma {:induction false} LockReturns(s: State, i: nat, order: Order) returns (states: seq<State>, steps: seq<Step>)
    requires Inv(s) && EveryoneArrived(s) && i < |s.threads| && InLoop(s.threads[i])
    ensures OwnSteps(states, steps, i, order) && states[0] == s && |steps| <= StepsLeft(s, s.threads[i]) <= 4
    ensures i < |states[|steps|].threads| && states[|steps|].threads[i].Locked?
    decreases StepsLeft(s, s.threads[i])
  {
    var step := LoopStep(s.threads[i], order);
    var t := CanStep(s, i, step, order);
    LoopEnds(s, t, i, i, step, order);
    if t.threads[i].Locked? {
      states, steps := [s, t], [step];
    } else {
      states, steps := LockReturns(t, i, order);
      OwnStepBefore(s, step, states, steps, i, order);
      states, steps := [s] + states, [step] + steps;
    }
  }

  /** `unlock` returns, too, and takes the request back, so that shared sections are free to enter and to leave. */
  lemma UnlockReturns(s: State, i: nat, order: Order) returns (states: seq<State>, steps: seq<Step>)
    requires Inv(s) && i < |s.threads| && s.threads[i].Locked?
    ensures OwnSteps(states, steps, i, order) && states[0] == s && |steps| == 2
    ensures var t := states[2];
      && !t.lockRequested && t.threads == s.threads[i := Idle]
      && forall j :: 0 <= j < |t.threads| ==> !HoldsExclusive(t.threads[j])
  {
    var t := CanStep(s, i, Open, order);
    NextInv(s, t, i, Open, order);
    var u := CanStep(t, i, DropExclusive, order);
    states, steps := [s, t, u], [Open, DropExclusive];
    assert u.threads == s.threads[i := Idle];
    forall j | 0 <= j < |u.threads|
      ensures !HoldsExclusive(u.threads[j])
    {
      assert j != i ==> u.threads[j] == s.threads[j];
    }
  }

  /** Where `lock_shared` and `unlock_shared` take a thread that calls them, or is in the middle of them. */
  function SharedGoal(pc: PC): PC {
    match pc
    case Idle => Inside
    case Asked(enter) => if enter then Inside else Idle
    case Waiting(enter) => if enter then Inside else Idle
    case _ => Idle
  }

  function SharedStep(pc: PC): Step {
    match pc
    case Idle => AskShared
    case Inside => AskLeave
    case Asked(_) => Arrive
    case Waiting(_) => TakeShared
    case Passing(_) => Depart
    case _ => DropShared
  }

  /** The last two steps of a thread that has waited. */
  lemma SharedPasses(s: State, i: nat, order: Order) returns (t: State, u: State)
    requires Inv(s) && i < |s.threads| && s.threads[i].Passing?
    ensures Next(s, t, i, Depart, order) && Next(t, u, i, DropShared, order)
    ensures u.threads == s.threads[i := if s.threads[i].enter then Inside else Idle]
  {
    t := CanStep(s, i, Depart, order);
    NextInv(s, t, i, Depart, order);
    u := CanStep(t, i, DropShared, order);
    assert u.threads == s.threads[i := if s.threads[i].enter then Inside else Idle];
  }

  /**
   Shared sections are open while nobody has the mutex exclusively: a thread gets
   in or out in a single step, and one that has begun to wait in at most four.
   */
  lemma {:induction false} SharedReturns(s: State, i: nat, order: Order) returns (states: seq<State>, steps: seq<Step>)
    requires Inv(s) && i < |s.threads|
    requires s.threads[i].Idle? || s.threads[i].Inside? || s.threads[i].Asked? || s.threads[i].Waiting?
    requires forall j :: 0 <= j < |s.threads| ==> !HoldsExclusive(s.threads[j])
    ensures OwnSteps(states, steps, i, order) && states[0] == s
    ensures |steps| == if s.threads[i].Asked? then 4 else if s.threads[i].Waiting? then 3 else 1
    ensures states[|steps|].threads == s.threads[i := SharedGoal(s.threads[i])]
    decreases s.threads[i].Asked?
  {
    var step := SharedStep(s.threads[i]);
    var t := CanStep(s, i, step, order);
    NextInv(s, t, i, step, order);
    if s.threads[i].Asked? {
      states, steps := SharedReturns(t, i, order);
      OwnStepBefore(s, step, states, steps, i, order);
      states, steps := [s] + states, [step] + steps;
    } else if s.threads[i].Waiting? {
      var u, v := SharedPasses(t, i, order);
      states, steps := [s, t, u, v], [step, Depart, DropShared];
    } else {
      states, steps := [s, t], [step];
    }
    assert states[|steps|].threads == s.threads[i := SharedGoal(s.threads[i])];
  }

  // ---------------------------------------------------------------- runs

  /** A run: states, and the thread and step that lead from each to the next. */
  ghost predicate IsRun(states: seq<State>, moves: seq<(nat, Step)>, order: Order) {
    && |states| == |moves| + 1 && Init(states[0])
    && forall k :: 0 <= k < |moves| ==> Next(states[k], states[k + 1], moves[k].0, moves[k].1, order)
  }

  /** With the counters loaded left to right nobody is ever between loading the total and comparing. */
  lemma {:induction false} NoCounterLoaded(states: seq<State>, moves: seq<(nat, Step)>, k: nat)
    requires IsRun(states, moves, ArrivedFirst) && k < |states|
    ensures forall i :: 0 <= i < |states[k].threads| ==> !states[k].threads[i].SpinCounter?
  {
    if k > 0 {
      NoCounterLoaded(states, moves, k - 1);
      assert Next(states[k - 1], states[k], moves[k - 1].0, moves[k - 1].1, ArrivedFirst);
    }
  }

  lemma {:induction false} RunInv(states: seq<State>, moves: seq<(nat, Step)>, order: Order, k: nat)
    requires IsRun(states, moves, order) && k < |states|
    requires forall m :: 0 <= m < k ==> !RegistersMidway(states[m], moves[m].1)
    ensures Inv(states[k])
  {
    if k == 0 {
      InitInv(states[0]);
    } else {
      RunInv(states, moves, order, k - 1);
      assert Next(states[k - 1], states[k], moves[k - 1].0, moves[k - 1].1, order);
      NextInv(states[k - 1], states[k], moves[k - 1].0, moves[k - 1].1, order);
    }
  }

  /**
   Exclusion in every run of any number of threads, whatever they do in between,
   if `arrived_threads` is loaded first.
   */
  lemma Exclusive(states: seq<State>, moves: seq<(nat, Step)>, k: nat)
    requires IsRun(states, moves, ArrivedFirst) && k < |states|
    ensures Inv(states[k]) && Exclusion(states[k])
  {
    forall m | 0 <= m < k
      ensures !RegistersMidway(states[m], moves[m].1)
    {
      NoCounterLoaded(states, moves, m);
    }
    RunInv(states, moves, ArrivedFirst, k);
    InvExclusion(states[k]);
  }

  /** If `thread_counter` is loaded first: exclusion, as long as nobody registers between the two loads. */
  lemma ExclusiveUnlessMidway(states: seq<State>, moves: seq<(nat, Step)>, order: Order, k: nat)
    requires IsRun(states, moves, order) && k < |states|
    requires forall m :: 0 <= m < k ==> !RegistersMidway(states[m], moves[m].1)
    ensures Inv(states[k]) && Exclusion(states[k])
  {
    RunInv(states, moves, order, k);
    InvExclusion(states[k]);
  }

  /** The states that runs lead to. */
  ghost predicate Reachable(s: State, order: Order) {
    exists states, moves :: IsRun(states, moves, order) && states[|states| - 1] == s
  }

  lemma StartReachable(s: State, order: Order)
    requires Init(s)
    ensures Reachable(s, order)
  {
    assert IsRun([s], [], order);
  }

  lemma NextReachable(s: State, t: State, i: nat, step: Step, order: Order)
    requires Reachable(s, order) && Next(s, t, i, step, order)
    ensures Reachable(t, order)
  {
    var states, moves :| IsRun(states, moves, order) && states[|states| - 1] == s;
    var longer, more := states + [t], moves + [(i, step)];
    forall k | 0 <= k < |more|
      ensures Next(longer[k], longer[k + 1], more[k].0, more[k].1, order)
    {
    }
    assert IsRun(longer, more, order);
  }

  lemma {:induction false} OwnReachable(states: seq<State>, steps: seq<Step>, i: nat, order: Order, k: nat)
    requires OwnSteps(states, steps, i, order) && Reachable(states[0], order) && k < |states|
    ensures Reachable(states[k], order)
  {
    if k > 0 {
      OwnReachable(states, steps, i, order, k - 1);
      NextReachable(states[k - 1], states[k], i, steps[k - 1], order);
    }
  }

  lemma {:induction false} OwnSame(states: seq<State>, steps: seq<Step>, i: nat, order: Order, k: nat)
    requires OwnSteps(states, steps, i, order) && k < |states|
    ensures |states[k].threads| == |states[0].threads|
  {
    if k > 0 {
      OwnSame(states, steps, i, order, k - 1);
      assert Next(states[k - 1], states[k], i, steps[k - 1], order);
    }
  }

  /** One thread registers, announces itself, */
  lemma LockAnnounced(order: Order)
    ensures Reachable(State(false, 1, 1, [Announced]), order)
  {
    var s0, s1 := State(false, 0, 0, [Unregistered]), State(false, 1, 0, [Idle]);
    StartReachable(s0, order);
    NextReachable(s0, s1, 0, Register, order);
    NextReachable(s1, State(false, 1, 1, [Announced]), 0, Announce, order);
  }

  /** and takes the mutex; */
  lemma LockBegun(order: Order)
    ensures Reachable(State(true, 1, 1, [Spin]), order)
  {
    var s2, s3 := State(false, 1, 1, [Announced]), State(false, 1, 1, [Owner]);
    LockAnnounced(order);
    NextReachable(s2, s3, 0, TakeExclusive, order);
    NextReachable(s3, State(true, 1, 1, [Spin]), 0, Request, order);
  }

  lemma OneSpins()
    ensures Inv(State(true, 1, 1, [Spin]))
  {
    var threads := [Spin];
    TallyNone(threads[..0], Registered);
    TallyNone(threads[..0], HasArrived);
  }

  /** so in either order a thread can have the lock. */
  lemma LockReached(order: Order) returns (s: State)
    ensures Reachable(s, order) && |s.threads| == 1 && s.threads[0].Locked?
  {
    LockBegun(order);
    OneSpins();
    var states, steps := LockReturns(State(true, 1, 1, [Spin]), 0, order);
    OwnReachable(states, steps, 0, order, |steps|);
    OwnSame(states, steps, 0, order, |steps|);
    s := states[|steps|];
  }

  /** Two threads register, thread 1 enters a shared section, */
  lemma MidwayEnter()
    ensures Reachable(State(false, 2, 0, [Idle, Inside, Unregistered]), CounterFirst)
  {
    var u := Unregistered;
    var s0, s1 := State(false, 0, 0, [u, u, u]), State(false, 1, 0, [Idle, u, u]);
    var s2, s3 := State(false, 2, 0, [Idle, Idle, u]), State(false, 2, 0, [Idle, Inside, u]);
    StartReachable(s0, CounterFirst);
    NextReachable(s0, s1, 0, Register, CounterFirst);
    NextReachable(s1, s2, 1, Register, CounterFirst);
    NextReachable(s2, s3, 1, AskShared, CounterFirst);
  }

  /** thread 0 gets hold of the mutex */
  lemma MidwayOwn()
    ensures Reachable(State(false, 2, 1, [Owner, Inside, Unregistered]), CounterFirst)
  {
    var s3, s4 := State(false, 2, 0, [Idle, Inside, Unregistered]), State(false, 2, 1, [Announced, Inside, Unregistered]);
    MidwayEnter();
    NextReachable(s3, s4, 0, Announce, CounterFirst);
    NextReachable(s4, State(false, 2, 1, [Owner, Inside, Unregistered]), 0, TakeExclusive, CounterFirst);
  }

  /** and loads the total, */
  lemma MidwayLoad()
    ensures Reachable(State(true, 2, 1, [SpinCounter(2), Inside, Unregistered]), CounterFirst)
  {
    var s5, s6 := State(false, 2, 1, [Owner, Inside, Unregistered]), State(true, 2, 1, [Spin, Inside, Unregistered]);
    MidwayOwn();
    NextReachable(s5, s6, 0, Request, CounterFirst);
    NextReachable(s6, State(true, 2, 1, [SpinCounter(2), Inside, Unregistered]), 0, LoadCounter, CounterFirst);
  }

  /** thread 2 registers and arrives, */
  lemma MidwayArrive()
    ensures Reachable(State(true, 3, 2, [SpinCounter(2), Inside, Waiting(true)]), CounterFirst)
  {
    var s7, s8 := State(true, 2, 1, [SpinCounter(2), Inside, Unregistered]), State(true, 3, 1, [SpinCounter(2), Inside, Idle]);
    var s9 := State(true, 3, 1, [SpinCounter(2), Inside, Asked(true)]);
    MidwayLoad();
    NextReachable(s7, s8, 2, Register, CounterFirst);
    NextReachable(s8, s9, 2, AskShared, CounterFirst);
    NextReachable(s9, State(true, 3, 2, [SpinCounter(2), Inside, Waiting(true)]), 2, Arrive, CounterFirst);
  }

  /**
   and thread 0, which counts it as thread 1, has the lock while thread 1 is
   inside: with the total loaded first the condition above is needed.
   */
  lemma MidwayBreaks() returns (s: State)
    ensures Reachable(s, CounterFirst) && !Exclusion(s)
  {
    var won := State(true, 3, 2, [Won, Inside, Waiting(true)]);
    s := State(true, 3, 1, [Locked, Inside, Waiting(true)]);
    MidwayArrive();
    NextReachable(State(true, 3, 2, [SpinCounter(2), Inside, Waiting(true)]), won, 0, CompareArrived, CounterFirst);
    NextReachable(won, s, 0, Win, CounterFirst);
    assert s.threads[0].Locked? && s.threads[1].Inside?;
  }

  /** So the lock excludes in every reachable state if and only if `arrived_threads` is loaded first. */
  lemma ExcludesExactly(order: Order)
    ensures (forall s :: Reachable(s, order) ==> Exclusion(s)) <==> order == ArrivedFirst
  {
    if order == ArrivedFirst {
      forall s | Reachable(s, order)
        ensures Exclusion(s)
      {
        var states, moves :| IsRun(states, moves, order) && states[|states| - 1] == s;
        Exclusive(states, moves, |states| - 1);
      }
    } else {
      var s := MidwayBreaks();
      assert Reachable(s, order) && !Exclusion(s);
    }
  }
}
