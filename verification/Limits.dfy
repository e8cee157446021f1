/**
 Where the program fails: an item in the last slot, which no vertex's range
 reaches, and a halving that leaves no tree.
 */
module Limits {
  import opened Arithmetic
  import opened Geometries
  import opened Windows
  import opened Slots
  import opened Spreading
  import opened Insertion
  import opened Removal
  import opened Neighbourhood
  import opened Updates

  /** A vertex's neighbourhood is read from the slots before the last one: the edge stranded there is missing, and only that one. */
  lemma StrandedIsLost(b: seq<Edge>, n: nat)
    requires b != [] && WellFormed(Live(b), n) && !IsNull(b[|b| - 1]) && !IsSentinel(b[|b| - 1])
    ensures var e := b[|b| - 1];
      && (e.src, e.dest) in GraphOf(Live(b))
      && GraphOf(Live(b[..|b| - 1])) == GraphOf(Live(b)) - {(e.src, e.dest)}
  {
    var last := |b| - 1;
    ItemsLaidOut(b, n);
    SlotInGraph(b, last);
    var l := Live(b[..last]);
    forall k | 0 <= k < |l|
      ensures Before(l[k], b[last])
    {
      var i := LiveFrom(b[..last], k);
      assert Before(b[i], b[last]);
    }
    LastItem(l, b[last]);
    assert Live(b) == l + [b[last]];
  }

  lemma LastItem(l: seq<Edge>, e: Edge)
    requires !IsSentinel(e) && AllBefore(l, e)
    ensures GraphOf(l) == GraphOf(l + [e]) - {(e.src, e.dest)}
  {
    GraphOfRemove(l, e, []);
    assert l + [] == l && l + [e] + [] == l + [e];
  }

  // ---------------------------------------------------------------- halving

  /** A removal that halves the array leaves a tree of windows exactly when the array had more than 8 slots. */
  lemma HalvingKeepsGeometry(g: Geometry)
    requires GeometryOk(g)
    ensures g.N / 2 > 0 && g.N / 2 / LeafSize(g.N / 2) > 0
    ensures GeometryOk(Resize(g.N / 2)) <==> g.N > 8
  {
    GeometryFacts(g);
    if g.N > 8 {
      ResizeHalf(g);
    } else {
      FourSlotsCollapse();
    }
  }

  const SMALL := Geometry(8, 4, 1)

  const LONE := [SentinelOf(0)] + [EMPTY, EMPTY, EMPTY] + [Edge(0, 1, 1)] + [EMPTY, EMPTY, EMPTY]

  /** With a single vertex it happens: removing the only edge halves an array of 8 slots. */
  lemma HalvingBelowEight()
    ensures GeometryOk(SMALL) && TreeShape(SMALL) && WellFormed(Live(LONE), 1) && TailFree(LONE) && Tidy(LONE)
    ensures !IsNull(LONE[4]) && RemoveTarget(LONE, SMALL, 4).PastRoot?
  {
    SmallGeometry();
    LoneItems();
    LoneSlots();
    LonePlan();
  }

  lemma LoneItems()
    ensures WellFormed(Live(LONE), 1)
  {
    LoneLive();
    assert Live(LONE)[0] == SentinelOf(0);
    assert HasSentinel(Live(LONE), 0);
  }

  lemma LoneSlots()
    ensures TailFree(LONE) && Tidy(LONE) && !IsNull(LONE[4])
  {
  }

  lemma LoneLive()
    ensures Live(LONE) == [SentinelOf(0), Edge(0, 1, 1)]
  {
    var gap := [EMPTY, EMPTY, EMPTY];
    LiveOfEmpties(gap);
    LiveConcat([SentinelOf(0)] + gap + [Edge(0, 1, 1)], gap);
    LiveConcat3([SentinelOf(0)], gap, [Edge(0, 1, 1)]);
    LiveSingle(SentinelOf(0));
    LiveSingle(Edge(0, 1, 1));
  }

  lemma SmallGeometry()
    ensures GeometryOk(SMALL) && TreeShape(SMALL)
  {
    Pow2Small();
    BsrUnique(8, 3);
    BsrUnique(7, 2);
    assert LeafExponent(3) == 2;
    GeometryTree(SMALL);
  }

  lemma LonePlan()
    ensures TreeShape(SMALL) && RemoveTarget(LONE, SMALL, 4).PastRoot?
  {
    SmallGeometry();
    PairWindow(SMALL, 4);
    assert LONE[4..8] == [Edge(0, 1, 1)] + [EMPTY, EMPTY, EMPTY];
    assert LONE[0..8] == [SentinelOf(0)] + [EMPTY, EMPTY, EMPTY] + LONE[4..8];
    LiveOfEmpties([EMPTY, EMPTY, EMPTY]);
    LiveConcat([Edge(0, 1, 1)], [EMPTY, EMPTY, EMPTY]);
    LiveConcat3([SentinelOf(0)], [EMPTY, EMPTY, EMPTY], LONE[4..8]);
    LiveSingle(SentinelOf(0));
    LiveSingle(Edge(0, 1, 1));
    assert Count(LONE, 4, 4) == 1 && Count(LONE, 0, 8) == 2;
    DensityBounds(SMALL, 0, 4, 1);
    DensityBounds(SMALL, 1, 8, 0);
    RemovePlanExact(LONE, SMALL, 4);
  }
}
