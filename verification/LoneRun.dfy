/**
 A run with a single vertex that ends where the next removal halves an array of
 eight slots, which leaves no tree.
 */
module LoneRun {
  import opened Arithmetic
  import opened Slots
  import opened Calls
  import opened Runs
  import opened Limits
  import opened Halving

  /** The number of rounds that halve the array, from 2048 slots to 8. */
  const ROUNDS: nat := 8

  /** 8 is 2^EIGHT. */
  const EIGHT: nat := 3

  /** A new graph of one vertex on eight slots. */
  lemma EightLeft(s: Image, t: Image)
    requires s == Sparse(1, EIGHT) && t == Image(1, LONE, SMALL)
    ensures Usable(s) && s.n == 1 && SparseArray(s.a, 4, 1) && WideTree(s.g, 4, 1)
    ensures t == ImageOf(s.a[4 := FIRST_EDGE], 1)
  {
    Pow2Small();
    SparseImage(s, 1, EIGHT, 4);
    SmallGeometry();
    GeometryUnique(SMALL);
    LoneArray(s.a);
  }

  lemma LoneArray(a: seq<Edge>)
    requires SparseArray(a, 4, 1)
    ensures a[4 := FIRST_EDGE] == LONE
  {
  }

  /** Removing the edge would halve the array. */
  lemma LoneRefuses(s: Image, a: seq<Edge>)
    requires s == Image(1, LONE, SMALL) && Usable(s) && SparseArray(a, 4, 1) && LONE == a[4 := FIRST_EDGE]
    ensures PlaceOfEdge(s, 0, 1) == 4 && !RemovalAllowed(s, 0, 1)
  {
    SparsePlace(s, a, 4, 1, true);
    HalvingBelowEight();
    AllowedExactly(s, 0, 1, 4);
  }

  lemma LoneAdds(lockSearch: bool, s: Image, t: Image)
    requires s == Sparse(1, EIGHT) && t == Image(1, LONE, SMALL)
    ensures StepOk(s, lockSearch, AddEdge(0, 1, 1), t) && Usable(t)
    ensures PlaceOfEdge(t, 0, 1) == 4 && !RemovalAllowed(t, 0, 1)
  {
    EightLeft(s, t);
    RoundAdds(s, 4, 1, lockSearch, t);
    AddOk(s, lockSearch, 0, 1, 1, t);
    LoneRefuses(t, s.a);
  }

  /**
   From the constructor with one vertex: after the rounds and one more `add_edge`,
   all allowed and none stranding, removing that edge is the one call not allowed.
   */
  lemma LoneReached(lockSearch: bool, s0: Image, ops: seq<Op>, s: Image)
    requires s0 == NewImage(1, 1) && ops == Halvings(ROUNDS) + [AddEdge(0, 1, 1)] && s == Image(1, LONE, SMALL)
    ensures Runs.Reached(s0, lockSearch, ops, |ops|) && EndsWell(s0, lockSearch, ops, |ops|)
    ensures After(s0, lockSearch, ops) == s && Usable(s)
    ensures PlaceOfEdge(s, 0, 1) == 4 && !RemovalAllowed(s, 0, 1) && !OpAllowed(s, RemoveEdge(0, 1))
  {
    StartsSparse(1, Pow2(NEW));
    RoundsLead(1, ROUNDS, EIGHT, NEW, lockSearch, s0);
    LoneFrom(lockSearch, s0, Halvings(ROUNDS), s);
  }

  lemma LoneFrom(lockSearch: bool, s0: Image, ops: seq<Op>, t: Image)
    requires ops == Halvings(ROUNDS) && HalvedDown(lockSearch, 1, ROUNDS, EIGHT, s0) && t == Image(1, LONE, SMALL)
    ensures var more := ops + [AddEdge(0, 1, 1)];
      && Runs.Reached(s0, lockSearch, more, |more|) && EndsWell(s0, lockSearch, more, |more|)
      && After(s0, lockSearch, more) == t
    ensures Usable(t) && PlaceOfEdge(t, 0, 1) == 4 && !RemovalAllowed(t, 0, 1)
  {
    var s := Sparse(1, EIGHT);
    var states :| PathBetween(states, lockSearch, ops, s0, s);
    LoneAdds(lockSearch, s, t);
    PathGrows(states, lockSearch, ops, AddEdge(0, 1, 1), s0, s, t);
    PathReaches(states + [t], lockSearch, ops + [AddEdge(0, 1, 1)]);
  }
}
