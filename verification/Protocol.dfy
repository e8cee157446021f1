/**
 Leaf locks, versions and the global lock together, for any number of threads:
 nobody gets stuck, and an unchanged version means an unchanged leaf.
 */
module Protocol {
  import opened Wrappers
  import F = FastLock

  datatype Mode = Shared | Exclusive

  /** What a thread remembers of a leaf whose version it has read. */
  datatype Seen = Seen(leaf: nat, version: int, content: int)

  datatype Want = Want(leaf: nat, mode: Mode)

  /** The leaf locks of a thread, the leaves it has changed since, the lock it waits for, the version it has read. */
  datatype Local = Local(shared: set<nat>, exclusive: set<nat>, dirty: set<nat>, want: Option<Want>, seen: Option<Seen>)

  const NOTHING := Local({}, {}, {}, None, None)

  /** `contents` stands for the slots of each leaf, one number a leaf. */
  datatype State = State(lock: F.State, locals: seq<Local>, versions: seq<int>, contents: seq<int>)

  datatype Move =
    | Global(step: F.Step)
    | Ask(leaf: nat, mode: Mode)
    | Take
    | Write(leaf: nat, content: int)
    | Bump(leaf: nat)
    | Release(leaf: nat)
    | See(leaf: nat)
    | Rebuild(versions: seq<int>, contents: seq<int>)

  function LocksOf(l: Local): set<nat> {
    l.shared + l.exclusive
  }

  // ---------------------------------------------------------------- steps

  predicate Init(s: State) {
    && F.Init(s.lock) && |s.locals| == |s.lock.threads| && |s.versions| == |s.contents|
    && forall i :: 0 <= i < |s.locals| ==> s.locals[i] == NOTHING
  }

  /** Nobody else has the leaf in a way that excludes the mode. */
  ghost predicate Free(s: State, i: nat, want: Want) {
    forall j :: 0 <= j < |s.locals| && j != i ==>
      want.leaf !in s.locals[j].exclusive && (want.mode.Exclusive? ==> want.leaf !in s.locals[j].shared)
  }

  /** The thread's own part after a step that is not one of the global lock. */
  function NextLocal(s: State, l: Local, move: Move): Local {
    match move
    case Ask(leaf, mode) => l.(want := Some(Want(leaf, mode)))
    case Take =>
      if l.want.None? then l
      else if l.want.value.mode.Shared? then l.(shared := l.shared + {l.want.value.leaf}, want := None)
      else l.(exclusive := l.exclusive + {l.want.value.leaf}, want := None)
    case Write(leaf, _) => l.(dirty := l.dirty + {leaf})
    case Bump(leaf) => l.(dirty := l.dirty - {leaf})
    case Release(leaf) => l.(shared := l.shared - {leaf}, exclusive := l.exclusive - {leaf})
    case See(leaf) =>
      if leaf < |s.versions| && leaf < |s.contents| then l.(seen := Some(Seen(leaf, s.versions[leaf], s.contents[leaf])))
      else l
    case _ => l
  }

  /**
   What a thread may do inside a shared section. Leaf locks are asked for in
   ascending order; a changed leaf gets a new version before its lock is released.
   */
  ghost predicate EnabledInside(s: State, i: nat, move: Move)
    requires i < |s.locals|
  {
    var l := s.locals[i];
    match move
    case Ask(leaf, _) => l.want.None? && leaf < |s.contents| && forall held :: held in LocksOf(l) ==> held < leaf
    case Take => l.want.Some? && Free(s, i, l.want.value)
    case Write(leaf, _) => l.want.None? && leaf in l.exclusive
    case Bump(leaf) => l.want.None? && leaf in l.exclusive
    case Release(leaf) => l.want.None? && leaf in LocksOf(l) && leaf !in l.dirty
    case See(leaf) => l.want.None? && leaf < |s.versions|
    case _ => false
  }

  /** One atomic step of thread `i`. The global lock is used only with no leaf lock held. */
  ghost predicate Next(s: State, t: State, i: nat, move: Move, order: F.Order) {
    && i < |s.locals| && i < |s.lock.threads|
    && match move
       case Global(step) =>
         && F.Next(s.lock, t.lock, i, step, order)
         && LocksOf(s.locals[i]) == {} && s.locals[i].want.None?
         && t.locals == s.locals[i := NOTHING] && t.versions == s.versions && t.contents == s.contents
       case Rebuild(versions, contents) =>
         && s.lock.threads[i].Locked? && |versions| == |contents|
         && t == s.(versions := versions, contents := contents)
       case _ =>
         && s.lock.threads[i].Inside? && EnabledInside(s, i, move)
         && t.lock == s.lock && t.locals == s.locals[i := NextLocal(s, s.locals[i], move)]
         && t.versions == NextVersions(s, move) && t.contents == NextContents(s, move)
  }

  /** `release_locks` counts the version of a leaf up. */
  function NextVersions(s: State, move: Move): seq<int> {
    match move
    case Bump(leaf) => if leaf < |s.versions| then s.versions[leaf := s.versions[leaf] + 1] else s.versions
    case _ => s.versions
  }

  function NextContents(s: State, move: Move): seq<int> {
    match move
    case Write(leaf, content) => if leaf < |s.contents| then s.contents[leaf := content] else s.contents
    case _ => s.contents
  }

  // ---------------------------------------------------------------- invariant

  /** Leaf locks, and what goes with them, exist only inside shared sections. */
  ghost predicate LocalOk(s: State, i: nat)
    requires i < |s.locals| && i < |s.lock.threads|
  {
    var l := s.locals[i];
    && (!s.lock.threads[i].Inside? ==> l == NOTHING)
    && l.dirty <= l.exclusive
    && (forall leaf :: leaf in LocksOf(l) ==> leaf < |s.contents|)
    && (l.want.Some? ==> l.want.value.leaf < |s.contents| && forall leaf :: leaf in LocksOf(l) ==> leaf < l.want.value.leaf)
  }

  ghost predicate LocalsOk(s: State) {
    && |s.locals| == |s.lock.threads| && |s.versions| == |s.contents|
    && forall i :: 0 <= i < |s.locals| ==> LocalOk(s, i)
  }

  /** An exclusively held leaf is held by nobody else. */
  ghost predicate LeavesOk(s: State) {
    forall i, j {:trigger s.locals[i], s.locals[j]} :: 0 <= i < |s.locals| && 0 <= j < |s.locals| && i != j ==>
      s.locals[i].exclusive !! LocksOf(s.locals[j])
  }

  ghost predicate Dirty(s: State, leaf: nat) {
    exists j :: 0 <= j < |s.locals| && leaf in s.locals[j].dirty
  }

  /** A version read earlier is not newer than the leaf's, and as long as it is current the leaf is as it was. */
  ghost predicate SeenOk(s: State, seen: Seen) {
    && seen.leaf < |s.versions| == |s.contents|
    && seen.version <= s.versions[seen.leaf]
    && (seen.version == s.versions[seen.leaf] && !Dirty(s, seen.leaf) ==> s.contents[seen.leaf] == seen.content)
  }

  ghost predicate AllSeenOk(s: State) {
    forall i :: 0 <= i < |s.locals| && s.locals[i].seen.Some? ==> SeenOk(s, s.locals[i].seen.value)
  }

  ghost predicate Inv(s: State) {
    F.Inv(s.lock) && LocalsOk(s) && LeavesOk(s) && AllSeenOk(s)
  }

  lemma InitInv(s: State)
    requires Init(s)
    ensures Inv(s)
  {
    F.InitInv(s.lock);
  }

  lemma OwnNext(s: State, t: State, i: nat, move: Move, order: F.Order)
    requires LocalsOk(s) && Next(s, t, i, move, order) && !move.Rebuild?
    ensures i < |t.locals| && i < |t.lock.threads| && LocalOk(t, i)
  {
    assert LocalOk(s, i);
    var l, m := s.locals[i], t.locals[i];
    match move
    case Global(_) =>
    case Ask(leaf, mode) =>
      assert LocksOf(m) == LocksOf(l);
    case Take =>
      assert LocksOf(m) == LocksOf(l) + {l.want.value.leaf};
    case Write(_, _) =>
      assert LocksOf(m) == LocksOf(l);
    case Bump(_) =>
      assert LocksOf(m) == LocksOf(l);
    case Release(leaf) =>
      assert LocksOf(m) == LocksOf(l) - {leaf};
    case See(_) =>
      assert LocksOf(m) == LocksOf(l);
  }

  lemma LocalsNext(s: State, t: State, i: nat, move: Move, order: F.Order)
    requires Inv(s) && Next(s, t, i, move, order)
    ensures LocalsOk(t)
  {
    if move.Rebuild? {
      forall j | 0 <= j < |t.locals|
        ensures LocalOk(t, j)
      {
        assert LocalOk(s, j) && !s.lock.threads[j].Inside?;
      }
    } else {
      forall j | 0 <= j < |t.locals|
        ensures LocalOk(t, j)
      {
        assert LocalOk(s, j);
        if j != i {
          assert t.locals[j] == s.locals[j] && t.lock.threads[j] == s.lock.threads[j];
        } else {
          OwnNext(s, t, i, move, order);
        }
      }
    }
  }

  lemma LeavesNext(s: State, t: State, i: nat, move: Move, order: F.Order)
    requires Inv(s) && Next(s, t, i, move, order)
    ensures LeavesOk(t)
  {
    forall j, k | 0 <= j < |t.locals| && 0 <= k < |t.locals| && j != k
      ensures t.locals[j].exclusive !! LocksOf(t.locals[k])
    {
      assert s.locals[j].exclusive !! LocksOf(s.locals[k]);
      assert j != i ==> t.locals[j] == s.locals[j];
      assert k != i ==> t.locals[k] == s.locals[k];
    }
  }

  /** Whoever has locked globally is the only one that could remember anything, and does not. */
  lemma LockedAlone(s: State, i: nat)
    requires Inv(s) && i < |s.locals| && s.lock.threads[i].Locked?
    ensures forall j :: 0 <= j < |s.locals| ==> s.locals[j] == NOTHING
  {
    forall j | 0 <= j < |s.locals|
      ensures s.locals[j] == NOTHING
    {
      assert LocalOk(s, j) && !s.lock.threads[j].Inside?;
    }
  }

  /** A changed leaf stays marked until it gets a new version. */
  lemma DirtyNext(s: State, t: State, i: nat, move: Move, order: F.Order, j: nat, leaf: nat)
    requires LocalsOk(s) && Next(s, t, i, move, order) && !move.Rebuild?
    requires j < |s.locals| && leaf in s.locals[j].dirty
    ensures move == Bump(leaf) || Dirty(t, leaf)
  {
    assert LocalOk(s, j);
    assert leaf in LocksOf(s.locals[j]);
    if j != i {
      assert leaf in t.locals[j].dirty;
    } else if !move.Global? && move != Bump(leaf) {
      assert leaf in t.locals[i].dirty;
    }
  }

  /** A step keeps what another thread, or the same one, has seen before. */
  lemma SeenNext(s: State, t: State, i: nat, move: Move, order: F.Order, seen: Seen)
    requires Inv(s) && Next(s, t, i, move, order) && !move.Rebuild? && SeenOk(s, seen)
    ensures SeenOk(t, seen)
  {
    var leaf := seen.leaf;
    if Dirty(s, leaf) {
      var j :| 0 <= j < |s.locals| && leaf in s.locals[j].dirty;
      DirtyNext(s, t, i, move, order, j, leaf);
    }
    if move.Write? && move.leaf == leaf {
      assert leaf in t.locals[i].dirty;
    }
  }

  lemma AllSeenNext(s: State, t: State, i: nat, move: Move, order: F.Order)
    requires Inv(s) && Next(s, t, i, move, order)
    ensures AllSeenOk(t)
  {
    if move.Rebuild? {
      LockedAlone(s, i);
    } else {
      forall j | 0 <= j < |t.locals| && t.locals[j].seen.Some?
        ensures SeenOk(t, t.locals[j].seen.value)
      {
        if j != i || !move.See? {
          SeenNext(s, t, i, move, order, s.locals[j].seen.value);
        }
      }
    }
  }

  /** With `arrived_threads` loaded first, or nobody registering in between, every step keeps the invariant. */
  lemma NextInv(s: State, t: State, i: nat, move: Move, order: F.Order)
    requires Inv(s) && Next(s, t, i, move, order)
    requires move.Global? ==> !F.RegistersMidway(s.lock, move.step)
    ensures Inv(t)
  {
    if move.Global? {
      F.NextInv(s.lock, t.lock, i, move.step, order);
    }
    LocalsNext(s, t, i, move, order);
    LeavesNext(s, t, i, move, order);
    AllSeenNext(s, t, i, move, order);
  }

  /**
   When a thread can take the leaf it waits for: in shared mode whenever nobody
   else has it exclusively, so that readers do not wait for each other; in
   exclusive mode when nobody else has it at all.
   */
  lemma TakeExactly(s: State, i: nat, order: F.Order)
    requires Inv(s) && i < |s.locals| && s.lock.threads[i].Inside? && s.locals[i].want.Some?
    ensures (exists t :: Next(s, t, i, Take, order)) <==>
      var want := s.locals[i].want.value;
      forall j :: 0 <= j < |s.locals| && j != i ==>
        want.leaf !in (if want.mode.Shared? then s.locals[j].exclusive else LocksOf(s.locals[j]))
  {
    var want := s.locals[i].want.value;
    if Free(s, i, want) {
      var t := s.(locals := s.locals[i := NextLocal(s, s.locals[i], Take)]);
      assert Next(s, t, i, Take, order);
    }
  }

  // ---------------------------------------------------------------- runs

  /** A run: states, and the thread and move that lead from each to the next. */
  ghost predicate IsRun(states: seq<State>, moves: seq<(nat, Move)>, order: F.Order) {
    && |states| == |moves| + 1 && Init(states[0])
    && forall k :: 0 <= k < |moves| ==> Next(states[k], states[k + 1], moves[k].0, moves[k].1, order)
  }

  /** Nobody registers between another thread's loading the number of threads and comparing it. */
  ghost predicate NeverMidway(states: seq<State>, moves: seq<(nat, Move)>) {
    |states| == |moves| + 1 &&
    forall k :: 0 <= k < |moves| && moves[k].1.Global? ==> !F.RegistersMidway(states[k].lock, moves[k].1.step)
  }

  lemma {:induction false} RunInv(states: seq<State>, moves: seq<(nat, Move)>, order: F.Order, k: nat)
    requires IsRun(states, moves, order) && NeverMidway(states, moves) && k < |states|
    ensures Inv(states[k])
  {
    if k == 0 {
      InitInv(states[0]);
    } else {
      RunInv(states, moves, order, k - 1);
      assert Next(states[k - 1], states[k], moves[k - 1].0, moves[k - 1].1, order);
      NextInv(states[k - 1], states[k], moves[k - 1].0, moves[k - 1].1, order);
    }
  }

  /** If `arrived_threads` is loaded first, that cannot happen. */
  lemma {:induction false} ArrivedFirstNeverMidway(states: seq<State>, moves: seq<(nat, Move)>, k: nat)
    requires IsRun(states, moves, F.ArrivedFirst) && k < |states|
    ensures forall i :: 0 <= i < |states[k].lock.threads| ==> !states[k].lock.threads[i].SpinCounter?
  {
    if k > 0 {
      ArrivedFirstNeverMidway(states, moves, k - 1);
      assert Next(states[k - 1], states[k], moves[k - 1].0, moves[k - 1].1, F.ArrivedFirst);
    }
  }

  /** The runs for which the global lock excludes. */
  ghost predicate IsSafe(states: seq<State>, moves: seq<(nat, Move)>, order: F.Order) {
    IsRun(states, moves, order) && (order.ArrivedFirst? || NeverMidway(states, moves))
  }

  lemma SafeRun(states: seq<State>, moves: seq<(nat, Move)>, order: F.Order, k: nat)
    requires IsSafe(states, moves, order) && k < |states|
    ensures Inv(states[k])
  {
    if order.ArrivedFirst? {
      forall m | 0 <= m < |moves| && moves[m].1.Global?
        ensures !F.RegistersMidway(states[m].lock, moves[m].1.step)
      {
        ArrivedFirstNeverMidway(states, moves, m);
      }
    }
    RunInv(states, moves, order, k);
  }

  lemma SafeStep(states: seq<State>, moves: seq<(nat, Move)>, order: F.Order, n: nat)
    requires IsSafe(states, moves, order) && n < |moves|
    ensures Inv(states[n]) && Next(states[n], states[n + 1], moves[n].0, moves[n].1, order)
  {
    SafeRun(states, moves, order, n);
  }

  // ---------------------------------------------------------------- leaf locks and versions

  /**
   Version validation: a thread that has read a leaf's version and, in the same
   shared section, holds the leaf exclusively and finds the version again, finds
   the leaf as it was.
   */
  lemma Validated(states: seq<State>, moves: seq<(nat, Move)>, order: F.Order, k: nat, i: nat)
    requires IsSafe(states, moves, order) && k < |states| && i < |states[k].locals|
    ensures var s, l := states[k], states[k].locals[i];
      l.seen.Some? ==>
        var seen := l.seen.value;
        && seen.leaf < |s.versions| == |s.contents|
        && (seen.leaf in l.exclusive && seen.leaf !in l.dirty && s.versions[seen.leaf] == seen.version ==>
              s.contents[seen.leaf] == seen.content)
  {
    SafeRun(states, moves, order, k);
    var s, l := states[k], states[k].locals[i];
    if l.seen.Some? && l.seen.value.leaf in l.exclusive && l.seen.value.leaf !in l.dirty {
      OwnLeafClean(s, i, l.seen.value.leaf);
    }
  }

  lemma OwnLeafClean(s: State, i: nat, leaf: nat)
    requires Inv(s) && i < |s.locals| && leaf in s.locals[i].exclusive && leaf !in s.locals[i].dirty
    ensures !Dirty(s, leaf)
  {
    forall j | 0 <= j < |s.locals|
      ensures leaf !in s.locals[j].dirty
    {
      assert LocalOk(s, j);
      assert s.locals[j].dirty <= LocksOf(s.locals[j]);
      assert j != i ==> s.locals[i].exclusive !! LocksOf(s.locals[j]);
    }
  }

  /** Readers and writers of a leaf exclude each other, and nobody has a leaf while someone has locked globally. */
  lemma LeavesExclusive(states: seq<State>, moves: seq<(nat, Move)>, order: F.Order, k: nat, i: nat, j: nat)
    requires IsSafe(states, moves, order) && k < |states|
    requires i < |states[k].locals| && j < |states[k].locals| && i != j
    ensures |states[k].locals| == |states[k].lock.threads|
    ensures states[k].locals[i].exclusive !! LocksOf(states[k].locals[j])
    ensures states[k].lock.threads[i].Locked? ==> LocksOf(states[k].locals[j]) == {}
  {
    SafeRun(states, moves, order, k);
    if states[k].lock.threads[i].Locked? {
      LockedAlone(states[k], i);
    }
  }

  /** The leaf is held exclusively by thread `i`, and has this version and this content. */
  ghost predicate Holds(s: State, i: nat, leaf: nat, version: int, content: int) {
    && i < |s.locals| && leaf in s.locals[i].exclusive && leaf < |s.versions| == |s.contents|
    && s.versions[leaf] == version && s.contents[leaf] == content
  }

  /** Another thread's step leaves the leaf alone. */
  lemma HoldsNext(s: State, t: State, j: nat, move: Move, order: F.Order, i: nat, leaf: nat, version: int, content: int)
    requires Inv(s) && Next(s, t, j, move, order) && i != j && Holds(s, i, leaf, version, content)
    ensures Holds(t, i, leaf, version, content)
  {
    assert s.locals[i].exclusive !! LocksOf(s.locals[j]);
    if move.Rebuild? {
      LockedAlone(s, j);
      assert false;
    }
  }

  /**
   As long as a thread that holds a leaf exclusively does nothing itself, the leaf
   stays as it is: what lock acquisition has read from held leaves stays true.
   */
  lemma {:induction false} HeldLeafStays(states: seq<State>, moves: seq<(nat, Move)>, order: F.Order, k: nat, m: nat,
                                         i: nat, leaf: nat, version: int, content: int)
    requires IsSafe(states, moves, order) && k <= m < |states| && Holds(states[k], i, leaf, version, content)
    requires forall n :: k <= n < m ==> moves[n].0 != i
    ensures Holds(states[m], i, leaf, version, content)
  {
    if k < m {
      var n := m - 1;
      HeldLeafStays(states, moves, order, k, n, i, leaf, version, content);
      SafeStep(states, moves, order, n);
      HoldsNext(states[n], states[n + 1], moves[n].0, moves[n].1, order, i, leaf, version, content);
    }
  }

  // ---------------------------------------------------------------- an update goes through

  /** Look at a leaf, lock it, change it, give it a new version and unlock it. */
  function UpdateMoves(leaf: nat, content: int): seq<Move> {
    [See(leaf), Ask(leaf, Exclusive), Take, Write(leaf, content), Bump(leaf), Release(leaf)]
  }

  /** A thread that has seen the leaf as it is in `s` and waits for nothing. */
  function Onlooker(s: State, leaf: nat, exclusive: set<nat>, dirty: set<nat>): Local
    requires leaf < |s.versions| && leaf < |s.contents|
  {
    Local({}, exclusive, dirty, None, Some(Seen(leaf, s.versions[leaf], s.contents[leaf])))
  }

  /** The first three of these moves, */
  lemma UpdateBegins(s: State, i: nat, leaf: nat, order: F.Order) returns (s1: State, s2: State, t: State)
    requires Inv(s) && i < |s.locals| && s.lock.threads[i].Inside? && leaf < |s.contents|
    requires s.locals[i].want.None? && LocksOf(s.locals[i]) == {}
    requires forall j :: 0 <= j < |s.locals| ==> leaf !in LocksOf(s.locals[j])
    ensures Next(s, s1, i, See(leaf), order) && Next(s1, s2, i, Ask(leaf, Exclusive), order) && Next(s2, t, i, Take, order)
    ensures t == s.(locals := s.locals[i := Onlooker(s, leaf, {leaf}, {})])
  {
    assert LocalOk(s, i);
    var l := Onlooker(s, leaf, {}, {});
    assert s.locals[i].shared == {} && s.locals[i].exclusive == {} && s.locals[i].dirty == {};
    s1 := s.(locals := s.locals[i := l]);
    s2 := s.(locals := s.locals[i := l.(want := Some(Want(leaf, Exclusive)))]);
    t := s.(locals := s.locals[i := Onlooker(s, leaf, {leaf}, {})]);
    assert s1.locals[i := s2.locals[i]] == s2.locals && s2.locals[i := t.locals[i]] == t.locals;
    assert l.exclusive + {leaf} == {leaf};
  }

  /** and the others. */
  lemma UpdateEnds(s: State, t0: State, i: nat, leaf: nat, content: int, order: F.Order)
    returns (t1: State, t2: State, t: State)
    requires i < |s.locals| && i < |s.lock.threads| && s.lock.threads[i].Inside? && leaf < |s.versions| == |s.contents|
    requires t0 == s.(locals := s.locals[i := Onlooker(s, leaf, {leaf}, {})])
    ensures Next(t0, t1, i, Write(leaf, content), order) && Next(t1, t2, i, Bump(leaf), order)
    ensures Next(t2, t, i, Release(leaf), order)
    ensures t.contents == s.contents[leaf := content] && t.versions == s.versions[leaf := s.versions[leaf] + 1]
    ensures t.lock == s.lock && t.locals == s.locals[i := Onlooker(s, leaf, {}, {})]
  {
    t1 := t0.(locals := s.locals[i := Onlooker(s, leaf, {leaf}, {leaf})], contents := s.contents[leaf := content]);
    t2 := t1.(locals := t0.locals, versions := s.versions[leaf := s.versions[leaf] + 1]);
    t := t2.(locals := s.locals[i := Onlooker(s, leaf, {}, {})]);
    assert t0.locals[i := t1.locals[i]] == t1.locals && t1.locals[i := t2.locals[i]] == t2.locals;
    assert t2.locals[i := t.locals[i]] == t.locals;
    var none: set<nat> := {};
    assert none + {leaf} == {leaf} && {leaf} - {leaf} == none && none - {leaf} == none;
  }

  /** A leaf that nobody has can be updated: it gets the new content and the next version, and is free again. */
  lemma UpdateRuns(s: State, i: nat, leaf: nat, content: int, order: F.Order) returns (states: seq<State>)
    requires Inv(s) && i < |s.locals| && s.lock.threads[i].Inside? && leaf < |s.contents|
    requires s.locals[i].want.None? && LocksOf(s.locals[i]) == {}
    requires forall j :: 0 <= j < |s.locals| ==> leaf !in LocksOf(s.locals[j])
    ensures var moves := UpdateMoves(leaf, content);
      && |states| == |moves| + 1 && states[0] == s
      && forall k :: 0 <= k < |moves| ==> Next(states[k], states[k + 1], i, moves[k], order)
    ensures var t := states[|states| - 1];
      && t.contents == s.contents[leaf := content] && t.versions == s.versions[leaf := s.versions[leaf] + 1]
      && t.lock == s.lock && t.locals == s.locals[i := Onlooker(s, leaf, {}, {})]
  {
    var s1, s2, t0 := UpdateBegins(s, i, leaf, order);
    var t1, t2, t := UpdateEnds(s, t0, i, leaf, content, order);
    states := [s, s1, s2, t0, t1, t2, t];
  }

  // ---------------------------------------------------------------- nobody gets stuck

  /**
   A thread that cannot go on by itself: it waits for a mutex or a leaf that
   somebody else has in any mode, or for threads that have not arrived.
   */
  ghost predicate Blocked(s: State, i: nat)
    requires i < |s.locals| && i < |s.lock.threads|
  {
    var pc := s.lock.threads[i];
    || ((pc.Waiting? || pc.Announced?) && exists j :: 0 <= j < |s.lock.threads| && j != i && HasMutex(s.lock.threads[j]))
    || ((pc.Spin? || pc.SpinArrived? || pc.SpinCounter?) && s.lock.arrived < s.lock.counter)
    || (pc.Inside? && s.locals[i].want.Some?
          && exists j :: 0 <= j < |s.locals| && j != i && s.locals[i].want.value.leaf in LocksOf(s.locals[j]))
  }

  predicate HasMutex(pc: F.PC) {
    F.HoldsShared(pc) || F.HoldsExclusive(pc)
  }

  /** A step of the global lock that fits where the thread is. */
  function GlobalStep(pc: F.PC, order: F.Order): F.Step {
    match pc
    case Unregistered => F.Register
    case Idle => F.AskShared
    case Asked(_) => F.Arrive
    case Waiting(_) => F.TakeShared
    case Passing(_) => F.Depart
    case Leaving(_) => F.DropShared
    case Inside => F.AskLeave
    case Announced => F.TakeExclusive
    case Owner => F.Request
    case Spin => if order.ArrivedFirst? then F.LoadArrived else F.LoadCounter
    case SpinArrived(_) => F.CompareCounter
    case SpinCounter(_) => F.CompareArrived
    case Won => F.Win
    case Locked => F.Open
    case Unlocking => F.DropExclusive
  }

  /** A thread that is not blocked has a step it can take. */
  lemma UnblockedMoves(s: State, i: nat, order: F.Order) returns (t: State, move: Move)
    requires Inv(s) && i < |s.locals| && !Blocked(s, i)
    ensures Next(s, t, i, move, order)
  {
    assert LocalOk(s, i);
    var l := s.locals[i];
    if s.lock.threads[i].Inside? && (l.want.Some? || LocksOf(l) != {}) {
      move := if l.want.Some? then Take else LeafStep(l);
      t := s.(locals := s.locals[i := NextLocal(s, l, move)], versions := NextVersions(s, move));
    } else {
      var step := GlobalStep(s.lock.threads[i], order);
      move := Global(step);
      var lock := F.CanStep(s.lock, i, step, order);
      t := s.(lock := lock, locals := s.locals[i := NOTHING]);
    }
  }

  /** A thread with leaf locks can give one up, after a new version if it has changed the leaf. */
  ghost function LeafStep(l: Local): (move: Move)
    requires LocksOf(l) != {}
    ensures move.Bump? || move.Release?
    ensures move.leaf in LocksOf(l) && (move.Bump? <==> move.leaf in l.dirty)
  {
    var leaf :| leaf in LocksOf(l);
    if leaf in l.dirty then Bump(leaf) else Release(leaf)
  }

  /**
   Among threads inside, someone is not blocked: the holder of the leaf that one
   waits for waits itself, if at all, for a higher leaf.
   */
  lemma {:induction false} SomeoneInsideMoves(s: State, i: nat) returns (k: nat)
    requires Inv(s) && i < |s.locals| && s.lock.threads[i].Inside?
    ensures k < |s.locals| && !Blocked(s, k) && s.lock.threads[k].Inside?
    decreases if s.locals[i].want.Some? then |s.contents| - s.locals[i].want.value.leaf else 0
  {
    k := i;
    if Blocked(s, i) {
      var leaf := s.locals[i].want.value.leaf;
      assert LocalOk(s, i);
      var j :| 0 <= j < |s.locals| && j != i && leaf in LocksOf(s.locals[j]);
      assert LocalOk(s, j);
      if Blocked(s, j) {
        k := SomeoneInsideMoves(s, j);
      } else {
        k := j;
      }
    }
  }

  /** A registered thread in the middle of something. */
  predicate Active(pc: F.PC) {
    F.Registered(pc) && !pc.Idle?
  }

  predicate Spinning(pc: F.PC) {
    pc.Spin? || pc.SpinArrived? || pc.SpinCounter?
  }

  /** Somebody has the mutex and spins until more threads have arrived. */
  ghost predicate Awaited(s: State) {
    s.lock.arrived < s.lock.counter && exists j :: 0 <= j < |s.lock.threads| && Spinning(s.lock.threads[j])
  }

  /** Thread `k` is not blocked, and it is active, or else an idle one that a spinning `lock` waits for. */
  ghost predicate CanGoOn(s: State, k: nat) {
    && k < |s.locals| && k < |s.lock.threads| && !Blocked(s, k)
    && (Active(s.lock.threads[k]) || (s.lock.threads[k].Idle? && Awaited(s)))
  }

  /** With nobody inside: whoever has the mutex can go on, or waits for a registered thread that has not arrived. */
  lemma SomeoneOutsideMoves(s: State, i: nat) returns (k: nat)
    requires Inv(s) && i < |s.locals| && Active(s.lock.threads[i])
    requires forall j :: 0 <= j < |s.locals| ==> !s.lock.threads[j].Inside?
    ensures CanGoOn(s, k)
  {
    var pc := s.lock.threads[i];
    k := i;
    if (pc.Waiting? || pc.Announced?) && Blocked(s, i) {
      k :| 0 <= k < |s.lock.threads| && k != i && HasMutex(s.lock.threads[k]);
    }
    if Blocked(s, k) {
      assert Spinning(s.lock.threads[k]);
      k := MissingArrival(s);
    }
  }

  /** If fewer threads have arrived than are registered, one of them is on its way, and not blocked. */
  lemma MissingArrival(s: State) returns (k: nat)
    requires Inv(s) && Awaited(s)
    requires forall j :: 0 <= j < |s.locals| ==> !s.lock.threads[j].Inside?
    ensures CanGoOn(s, k)
  {
    if k0 :| 0 <= k0 < |s.lock.threads| && F.Registered(s.lock.threads[k0]) && !F.HasArrived(s.lock.threads[k0]) {
      k := k0;
    } else {
      F.TallySame(s.lock.threads);
      assert false;
    }
  }

  /**
   As long as some thread is active, an active thread has a step, or an idle one
   that a spinning `lock` waits for: active threads never wait only for each other.
   */
  lemma NobodyStuck(states: seq<State>, moves: seq<(nat, Move)>, order: F.Order, n: nat, i: nat)
    returns (k: nat, t: State, move: Move)
    requires IsSafe(states, moves, order) && n < |states|
    requires i < |states[n].locals| && i < |states[n].lock.threads| && Active(states[n].lock.threads[i])
    ensures CanGoOn(states[n], k) && Next(states[n], t, k, move, order)
  {
    SafeRun(states, moves, order, n);
    var s := states[n];
    if j :| 0 <= j < |s.locals| && s.lock.threads[j].Inside? {
      k := SomeoneInsideMoves(s, j);
    } else {
      k := SomeoneOutsideMoves(s, i);
    }
    t, move := UnblockedMoves(s, k, order);
  }
}
