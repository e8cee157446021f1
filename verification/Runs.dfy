/**
 Whole single-threaded runs, from the constructor on: the array stands for the
 graph that the same puts and deletes give, and the calls alone decide whether
 and when a run ends early.
 */
module Runs {
  import opened Slots
  import opened Calls
  import opened PackedCsr

  /** The number of vertices after the calls. */
  function Vertices(n: nat, ops: seq<Op>): nat {
    if ops == [] then n else StepVertices(Vertices(n, ops[..|ops| - 1]), ops[|ops| - 1])
  }

  /** The graph after the calls. */
  function Replayed(n: nat, ops: seq<Op>): Graph {
    if ops == [] then map[]
    else StepGraph(Replayed(n, ops[..|ops| - 1]), Vertices(n, ops[..|ops| - 1]), ops[|ops| - 1])
  }

  /** No reserved numbers, and removals only from existing vertices. */
  ghost predicate Allowed(n: nat, ops: seq<Op>) {
    forall i :: 0 <= i < |ops| ==>
      match ops[i]
      case AddEdge(_, dest, value) => dest != MAX && value != MAX
      case RemoveEdge(src, dest) => src < Vertices(n, ops[..i]) && dest != MAX
      case AddNode => Vertices(n, ops[..i]) < MAX
  }

  lemma NextOp(n: nat, ops: seq<Op>, i: nat)
    requires i < |ops|
    ensures Vertices(n, ops[..i + 1]) == StepVertices(Vertices(n, ops[..i]), ops[i])
    ensures Replayed(n, ops[..i + 1]) == StepGraph(Replayed(n, ops[..i]), Vertices(n, ops[..i]), ops[i])
  {
    assert ops[..i + 1][..i] == ops[..i];
  }

  /** One call on the object. */
  method Perform(g: PCSR, op: Op, junk: Edge)
    requires g.Valid() && g.held == {} && OpAllowed(g.Snapshot(), op)
    modifies g, g.items
    ensures g.items == old(g.items) || fresh(g.items)
    ensures g.Sound() && g.held == {}
    ensures g.Snapshot() == Step(old(g.Snapshot()), g.lockSearch, op)
    ensures g.Valid() <==> !OpStrands(old(g.Snapshot()), g.lockSearch, op)
  {
    match op
    case AddEdge(src, dest, value) => g.AddEdge(src, dest, value, 0, [], junk);
    case RemoveEdge(src, dest) => g.RemoveEdge(src, dest, junk);
    case AddNode => g.AddNode(junk);
  }

  /** What is known of a run after `done` calls. */
  ghost predicate Reached(s0: Image, lockSearch: bool, ops: seq<Op>, done: nat) {
    && done <= |ops|
    && forall k {:trigger After(s0, lockSearch, ops[..k])} :: 0 <= k < done ==>
         var s := After(s0, lockSearch, ops[..k]);
         Usable(s) && OpAllowed(s, ops[k]) && (k < done - 1 ==> !OpStrands(s, lockSearch, ops[k]))
  }

  /** One call more. */
  lemma ReachedNext(s0: Image, lockSearch: bool, ops: seq<Op>, done: nat)
    requires done < |ops| && Reached(s0, lockSearch, ops, done)
    requires var s := After(s0, lockSearch, ops[..done]);
      Usable(s) && OpAllowed(s, ops[done])
    requires done > 0 ==>
      var s := After(s0, lockSearch, ops[..done - 1]);
      Usable(s) && !OpStrands(s, lockSearch, ops[done - 1])
    ensures Reached(s0, lockSearch, ops, done + 1)
    ensures After(s0, lockSearch, ops[..done + 1]) == Step(After(s0, lockSearch, ops[..done]), lockSearch, ops[done])
  {
    AfterNext(s0, lockSearch, ops, done);
  }

  /** The call just made stranded an item, or else the state can be used. */
  ghost predicate EndsWell(s0: Image, lockSearch: bool, ops: seq<Op>, done: nat) {
    done <= |ops| &&
    (done == 0 ||
     var s := After(s0, lockSearch, ops[..done - 1]);
     Usable(s) && !OpStrands(s, lockSearch, ops[done - 1]))
  }

  /** Each call is allowed in the state it finds, as long as that can be used. */
  ghost predicate AllowedInTurn(s0: Image, lockSearch: bool, ops: seq<Op>) {
    forall i {:trigger After(s0, lockSearch, ops[..i])} :: 0 <= i < |ops| && Usable(After(s0, lockSearch, ops[..i])) ==>
      OpAllowed(After(s0, lockSearch, ops[..i]), ops[i])
  }

  /** What the next call of a run finds and leaves behind. */
  lemma NextCall(s0: Image, lockSearch: bool, ops: seq<Op>, done: nat, s: Image)
    requires done < |ops| && Reached(s0, lockSearch, ops, done) && EndsWell(s0, lockSearch, ops, done)
    requires AllowedInTurn(s0, lockSearch, ops) && s == After(s0, lockSearch, ops[..done]) && Usable(s)
    ensures OpAllowed(s, ops[done]) && Reached(s0, lockSearch, ops, done + 1)
    ensures EndsWell(s0, lockSearch, ops, done + 1) <==> !OpStrands(s, lockSearch, ops[done])
    ensures var t := After(s0, lockSearch, ops[..done + 1]);
      && t == Step(s, lockSearch, ops[done]) && t.n == StepVertices(s.n, ops[done])
      && GraphOf(Live(t.a)) == StepGraph(GraphOf(Live(s.a)), s.n, ops[done])
  {
    ReachedNext(s0, lockSearch, ops, done);
    StepFacts(s, lockSearch, ops[done]);
  }

  /** The object after `done` calls. */
  ghost predicate Running(g: PCSR, s0: Image, ops: seq<Op>, done: nat)
    reads g, g.items
  {
    && g.Sound() && g.N > 0 && g.held == {} && Reached(s0, g.lockSearch, ops, done)
    && g.Snapshot() == After(s0, g.lockSearch, ops[..done])
    && |g.nodes| == Vertices(s0.n, ops[..done]) && g.Content() == Replayed(s0.n, ops[..done])
    && (g.Valid() <==> EndsWell(s0, g.lockSearch, ops, done))
  }

  /** One call of a run. */
  method RunOnce(g: PCSR, ghost s0: Image, ops: seq<Op>, done: nat, junk: Edge)
    requires Running(g, s0, ops, done) && done < |ops| && g.Valid() && AllowedInTurn(s0, g.lockSearch, ops)
    modifies g, g.items
    ensures g.items == old(g.items) || fresh(g.items)
    ensures Running(g, s0, ops, done + 1)
  {
    ghost var s := g.Snapshot();
    NextOp(s0.n, ops, done);
    NextCall(s0, g.lockSearch, ops, done, s);
    Perform(g, ops[done], junk);
    assert g.Snapshot() == After(s0, g.lockSearch, ops[..done + 1]);
  }

  /** All calls of a run, or those up to the first one that strands an item. */
  method RunOn(g: PCSR, ghost s0: Image, ops: seq<Op>, junk: Edge) returns (done: nat)
    requires Running(g, s0, ops, 0) && AllowedInTurn(s0, g.lockSearch, ops)
    modifies g, g.items
    ensures Running(g, s0, ops, done)
    ensures done == |ops| || !EndsWell(s0, g.lockSearch, ops, done)
  {
    done := 0;
    while done < |ops| && IsNull(g.items[g.N - 1])
      invariant g.items == old(g.items) || fresh(g.items)
      invariant Running(g, s0, ops, done)
      decreases |ops| - done
    {
      RunOnce(g, s0, ops, done, junk);
      done := done + 1;
    }
  }

  /**
   A run from the constructor. It performs all calls, or ends with the first one
   that strands an item in the last slot, which the calls alone decide. After every
   call the array is that of `After` and stands for the replayed graph.
   */
  method Run(initN: nat, srcN: nat, lockSearch: bool, ops: seq<Op>, junk: Edge) returns (g: PCSR, done: nat)
    requires srcN <= MAX && AllowedInTurn(NewImage(initN, srcN), lockSearch, ops)
    ensures g.Sound() && Reached(NewImage(initN, srcN), lockSearch, ops, done)
    ensures g.Snapshot() == After(NewImage(initN, srcN), lockSearch, ops[..done])
    ensures |g.nodes| == Vertices(srcN, ops[..done]) && g.Content() == Replayed(srcN, ops[..done])
    ensures g.Valid() <==> EndsWell(NewImage(initN, srcN), lockSearch, ops, done)
    ensures done == |ops| || !EndsWell(NewImage(initN, srcN), lockSearch, ops, done)
  {
    g := new PCSR(initN, srcN, lockSearch);
    ghost var s0 := g.Snapshot();
    assert ops[..0] == [];
    done := RunOn(g, s0, ops, junk);
  }

  lemma VerticesNext(s0: Image, lockSearch: bool, ops: seq<Op>, i: nat)
    requires i < |ops|
    requires var s := After(s0, lockSearch, ops[..i]);
      Usable(s) && OpAllowed(s, ops[i])
    ensures After(s0, lockSearch, ops[..i + 1]).n == StepVertices(After(s0, lockSearch, ops[..i]).n, ops[i])
  {
    AfterNext(s0, lockSearch, ops, i);
    StepFacts(After(s0, lockSearch, ops[..i]), lockSearch, ops[i]);
  }

  /** The vertices of a run are counted by its calls alone. */
  lemma {:induction false} ReachedVertices(s0: Image, lockSearch: bool, ops: seq<Op>, k: nat)
    requires Reached(s0, lockSearch, ops, |ops|) && k <= |ops|
    ensures After(s0, lockSearch, ops[..k]).n == Vertices(s0.n, ops[..k])
  {
    if k > 0 {
      var i := k - 1;
      ReachedVertices(s0, lockSearch, ops, i);
      VerticesNext(s0, lockSearch, ops, i);
      NextOp(s0.n, ops, i);
    } else {
      assert ops[..0] == [];
    }
  }

  /** Calls that were all allowed in turn can be given to `Run`, and name only existing vertices. */
  lemma ReachedAllowed(s0: Image, lockSearch: bool, ops: seq<Op>)
    requires Reached(s0, lockSearch, ops, |ops|)
    ensures AllowedInTurn(s0, lockSearch, ops) && Allowed(s0.n, ops)
  {
    forall i | 0 <= i < |ops|
      ensures OpAllowed(After(s0, lockSearch, ops[..i]), ops[i])
      ensures After(s0, lockSearch, ops[..i]).n == Vertices(s0.n, ops[..i])
    {
      ReachedVertices(s0, lockSearch, ops, i);
    }
  }

  // ---------------------------------------------------------------- two vertices

  lemma NextAllowed(s: Image, srcN: nat, ops: seq<Op>, i: nat)
    requires Usable(s) && i < |ops| && Allowed(srcN, ops) && s.n == Vertices(srcN, ops[..i]) >= 2
    ensures OpAllowed(s, ops[i])
  {
    if ops[i].RemoveEdge? {
      TwoVerticesAllow(s, ops[i].src, ops[i].dest);
    }
  }

  /** A state that can be used comes from one that could be used, by an allowed call. */
  lemma {:induction false} TurnVertices(s0: Image, lockSearch: bool, ops: seq<Op>, k: nat)
    requires s0.n >= 2 && Allowed(s0.n, ops) && k <= |ops| && Usable(After(s0, lockSearch, ops[..k]))
    ensures After(s0, lockSearch, ops[..k]).n == Vertices(s0.n, ops[..k]) >= 2
  {
    if k > 0 {
      var i := k - 1;
      AfterNext(s0, lockSearch, ops, i);
      TurnVertices(s0, lockSearch, ops, i);
      NextAllowed(After(s0, lockSearch, ops[..i]), s0.n, ops, i);
      VerticesNext(s0, lockSearch, ops, i);
      NextOp(s0.n, ops, i);
    } else {
      assert ops[..0] == [];
    }
  }

  /** From two vertices on, calls that name existing vertices and no reserved numbers are allowed in turn. */
  lemma TwoVerticesRun(s0: Image, lockSearch: bool, ops: seq<Op>)
    requires s0.n >= 2 && Allowed(s0.n, ops)
    ensures AllowedInTurn(s0, lockSearch, ops)
  {
    forall i | 0 <= i < |ops| && Usable(After(s0, lockSearch, ops[..i]))
      ensures OpAllowed(After(s0, lockSearch, ops[..i]), ops[i])
    {
      TurnVertices(s0, lockSearch, ops, i);
      NextAllowed(After(s0, lockSearch, ops[..i]), s0.n, ops, i);
    }
  }
}
