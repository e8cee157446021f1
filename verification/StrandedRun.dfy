/**
 A run of the program that strands an edge: from the constructor, through calls
 that all keep the array usable, to a call that moves the last edge into the last slot.
 */
module StrandedRun {
  import opened Wrappers
  import opened Arithmetic
  import opened Geometries
  import opened Slots
  import opened Spreading
  import opened Windows
  import opened Insertion
  import opened Pointers
  import opened Search
  import opened Neighbourhood
  import opened Locking
  import opened Building
  import opened Calls
  import opened Runs
  import opened Limits
  import opened Halving

  // ---------------------------------------------------------------- the place behind all items

  /** An edge beyond all others of the last vertex goes into the last slot, unless the search stops early. */
  lemma LastPlace(s: Image, src: u32, dest: u32)
    requires Usable(s) && src + 1 == s.n && |s.a| >= 4
    requires forall k :: k in GraphOf(Live(s.a)) ==> k.1 < dest
    requires s.a[|s.a| - 3] == SentinelOf(src) || !IsNull(s.a[|s.a| - 2])
    ensures PlaceOfEdge(s, src, dest) == |s.a| - 1
  {
    ItemsLaidOut(s.a, s.n);
    NodeRangeProper(Table(s), s.a, src);
    BehindAll(Table(s), s.a, src, dest);
  }

  lemma BehindAll(nodes: seq<Node>, a: seq<Edge>, src: u32, dest: u32)
    requires LaidOut(a, |nodes|) && AllPoint(nodes, a) && src + 1 == |nodes| && |a| >= 4
    requires nodes[src].beginning < nodes[src].end
    requires forall k :: k in GraphOf(Live(a)) ==> k.1 < dest
    requires a[|a| - 3] == SentinelOf(src) || !IsNull(a[|a| - 2])
    ensures nodes[src].end < |a| && FoundSlot(nodes, a, src, dest) == |a| - 1
  {
    var last := |a| - 1;
    NodeRange(nodes, a, src);
    var b := nodes[src].beginning;
    forall i | b < i < last && !IsNull(a[i])
      ensures a[i].dest < dest
    {
      NodeEdge(nodes, a, src, i);
      SlotInGraph(a, i);
    }
    if a[last - 2] == SentinelOf(src) {
      SameKey(a, |nodes|, b, last - 2);
    }
    SearchBeyond(a, dest, b + 1, last);
  }

  // ---------------------------------------------------------------- two leaves of eight slots

  const GEO := Geometry(16, 8, 1)

  lemma SixteenSlots()
    ensures GeometryOk(GEO) && TreeShape(GEO) && GeometryOf(16) == GEO
    ensures IsWindow(GEO, 0, 8, 1) && IsWindow(GEO, 8, 8, 1)
    ensures LeafStart(GEO, 15) == 8 && PairStart(GEO, 15) == 0
    ensures forall count: nat :: count < 8 ==> !TooDense(GEO, count, 8, 1)
  {
    Pow2Small();
    assert Pow2(4) == 16;
    BsrUnique(16, 4);
    BsrUnique(9, 3);
    assert LeafExponent(4) == 3;
    GeometryTree(GEO);
    GeometryUnique(GEO);
    forall count: nat | count < 8
      ensures !TooDense(GEO, count, 8, 1)
    {
      DensityBounds(GEO, count, 8, 1);
    }
  }

  predicate AllItems(l: seq<Edge>) {
    forall i :: 0 <= i < |l| ==> !IsNull(l[i])
  }

  /** One item more at the free end of a spread leaf. */
  lemma AppendLive(l: seq<Edge>, e: Edge, len: nat)
    requires |l| < len && AllItems(l) && !IsNull(e)
    ensures IsNull(Spread(l, len)[len - 1]) && Live(Spread(l, len)) == l
    ensures Live(Spread(l, len)[len - 1 := e]) == l + [e]
  {
    var w := Spread(l, len);
    SpreadLive(l, len);
    SpreadShape(l, len);
    assert w == w[..len - 1] + [w[len - 1]] && w[len - 1 := e] == w[..len - 1] + [e];
    LiveConcat(w[..len - 1], [w[len - 1]]);
    LiveConcat(w[..len - 1], [e]);
    LiveSingle(w[len - 1]);
    LiveSingle(e);
  }

  lemma LeafCounts(front: seq<Edge>, back: seq<Edge>, b: seq<Edge>)
    requires |front| == |back| == 8 && b == front + back
    ensures Count(b, 8, 8) == |Live(back)| <= 8 && Count(b, 0, 8) == |Live(front)|
    ensures Live(b) == Live(front) + Live(back)
  {
    assert b[8..16] == back && b[0..8] == front;
    LiveConcat(front, back);
  }

  /** What settling makes of the two leaves: the second one is redistributed, */
  lemma SettleBack(front: seq<Edge>, back: seq<Edge>, b: seq<Edge>)
    requires |front| == |back| == 8 && b == front + back && |Live(back)| < 8
    ensures TreeShape(GEO) && SettledStart(b, GEO, 15) == 8 && Settle(b, GEO, 15) == front + Spread(Live(back), 8)
  {
    SixteenSlots();
    LeafCounts(front, back, b);
    assert b[8..16] == back && b[..8] == front && b[16..] == [];
  }

  /** or both, if it is full. */
  lemma SettleBoth(front: seq<Edge>, back: seq<Edge>, b: seq<Edge>)
    requires |front| == |back| == 8 && b == front + back && |Live(back)| == 8
    ensures |Live(b)| <= 16 && TreeShape(GEO) && SettledStart(b, GEO, 15) == 0 && Settle(b, GEO, 15) == Spread(Live(b), 16)
  {
    SixteenSlots();
    LeafCounts(front, back, b);
    assert b[..0] == [] && b[0..16] == b && b[16..] == [];
  }

  /** An item behind the others of the second leaf. */
  lemma Appended(front: seq<Edge>, l: seq<Edge>, e: Edge, a: seq<Edge>, b: seq<Edge>, c: seq<Edge>)
    requires |front| == 8 && |l| <= 6 && AllItems(l) && !IsNull(e)
    requires a == front + Spread(l, 8) && b == a[15 := e] && c == front + Spread(l + [e], 8)
    ensures IsNull(a[15]) && StaysLow(a, GEO, 15, c, 8) && c == Settle(b, GEO, 15) && SettledStart(b, GEO, 15) == 8
  {
    SixteenSlots();
    AppendLive(l, e, 8);
    assert b == front + Spread(l, 8)[7 := e];
    SettleBack(front, Spread(l, 8)[7 := e], b);
    SpreadLive(l + [e], 8);
    LeafCounts(front, Spread(l, 8), a);
    LeafCounts(front, Spread(l + [e], 8), c);
  }

  /** The item that fills the second leaf: both leaves are redistributed. */
  lemma Filled(front: seq<Edge>, l: seq<Edge>, e: Edge, m: seq<Edge>, a: seq<Edge>, b: seq<Edge>, c: seq<Edge>)
    requires |front| == 8 && |l| == 7 && AllItems(l) && !IsNull(e) && Live(front) == m && |m| < 7
    requires a == front + Spread(l, 8) && b == a[15 := e] && c == Spread(m + l + [e], 16)
    ensures IsNull(a[15]) && TreeShape(GEO) && c == Settle(b, GEO, 15) && SettledStart(b, GEO, 15) == 0
  {
    AppendLive(l, e, 8);
    var back := Spread(l, 8)[7 := e];
    assert b == front + back;
    SettleBoth(front, back, b);
    LeafCounts(front, back, b);
    assert m + l + [e] == m + (l + [e]);
  }

  lemma FilledStays(front: seq<Edge>, l: seq<Edge>, a: seq<Edge>, c: seq<Edge>)
    requires |front| == 8 && |l| == 7 && AllItems(l) && |Live(front)| < 7
    requires a == front + Spread(l, 8) && |c| == 16 && Count(c, 0, 8) < 8
    ensures StaysLow(a, GEO, 15, c, 0)
  {
    SixteenSlots();
    SpreadLive(l, 8);
    LeafCounts(front, Spread(l, 8), a);
  }

  // ---------------------------------------------------------------- the calls on sixteen slots

  /** A state in which the first leaf holds `front` and the second one the items `l`. */
  ghost predicate TwoLeaves(s: Image, n: nat, front: seq<Edge>, l: seq<Edge>) {
    && |front| == 8 && |l| <= 8 && AllItems(l)
    && s == Image(n, front + Spread(l, 8), GEO) && Usable(s)
  }

  /** `add_edge` of an edge beyond all others, on any sixteen slots. */
  lemma AddsLast(s: Image, lockSearch: bool, e: Edge, b: seq<Edge>, c: seq<Edge>, from: nat)
    requires Usable(s) && s.g == GEO && e.src + 1 == s.n && 0 < e.value < MAX && e.dest < MAX
    requires forall k :: k in GraphOf(Live(s.a)) ==> k.1 < e.dest
    requires s.a[13] == SentinelOf(e.src) || !IsNull(s.a[14])
    requires StaysLow(s.a, GEO, 15, c, from)
    requires IsNull(s.a[15]) && b == s.a[15 := e] && c == Settle(b, GEO, 15) && from == SettledStart(b, GEO, 15)
    ensures !AddStrands(s, lockSearch, e.src, e.dest, e.value, 0)
    ensures Added(s, lockSearch, e.src, e.dest, e.value, 0) == ImageOf(c, s.n) && Usable(ImageOf(c, s.n))
  {
    LastPlace(s, e.src, e.dest);
    AddSettles(s, lockSearch, e, 15, b, c, from);
  }

  lemma NowTwoLeaves(s: Image, n: nat, front: seq<Edge>, l: seq<Edge>)
    requires |front| == 8 && |l| <= 8 && AllItems(l) && s == ImageOf(front + Spread(l, 8), n) && Usable(s)
    ensures TwoLeaves(s, n, front, l)
  {
    SixteenSlots();
  }

  /** `add_edge` of an edge beyond all others. */
  lemma AddsEdge(s: Image, lockSearch: bool, n: nat, front: seq<Edge>, l: seq<Edge>, e: Edge, t: Image)
    requires TwoLeaves(s, n, front, l) && |l| <= 6 && e.src + 1 == n && 0 < e.value < MAX && e.dest < MAX
    requires forall k :: k in GraphOf(Live(s.a)) ==> k.1 < e.dest
    requires s.a[13] == SentinelOf(e.src) || !IsNull(s.a[14])
    requires t == ImageOf(front + Spread(l + [e], 8), n)
    ensures !AddStrands(s, lockSearch, e.src, e.dest, e.value, 0)
    ensures Added(s, lockSearch, e.src, e.dest, e.value, 0) == t && Usable(t)
  {
    var a, b, c := s.a, s.a[15 := e], t.a;
    Appended(front, l, e, a, b, c);
    AddsLast(s, lockSearch, e, b, c, 8);
  }

  /** `add_node`. */
  lemma AddsNode(s: Image, n: nat, front: seq<Edge>, l: seq<Edge>, t: Image)
    requires TwoLeaves(s, n, front, l) && |l| <= 6 && 0 < n < MAX
    requires t == ImageOf(front + Spread(l + [SentinelOf(n)], 8), n + 1)
    ensures NodeAdded(s) == t && Usable(t)
  {
    var a, b, c := s.a, s.a[15 := SentinelOf(n)], t.a;
    Appended(front, l, SentinelOf(n), a, b, c);
    NodeSettles(s, 15, b, c, 8);
  }

  /** `add_edge` of the edge that fills the second leaf. */
  lemma AddsFilling(s: Image, lockSearch: bool, n: nat, front: seq<Edge>, l: seq<Edge>, e: Edge, t: Image)
    requires TwoLeaves(s, n, front, l) && |l| == 7 && |Live(front)| < 7
    requires e.src + 1 == n && 0 < e.value < MAX && e.dest < MAX
    requires forall k :: k in GraphOf(Live(s.a)) ==> k.1 < e.dest
    requires s.a[13] == SentinelOf(e.src) || !IsNull(s.a[14])
    requires t == ImageOf(Spread(Live(front) + l + [e], 16), n) && Count(t.a, 0, 8) < 8
    ensures !AddStrands(s, lockSearch, e.src, e.dest, e.value, 0)
    ensures Added(s, lockSearch, e.src, e.dest, e.value, 0) == t && Usable(t)
  {
    var a, b, c := s.a, s.a[15 := e], t.a;
    Filled(front, l, e, Live(front), a, b, c);
    FilledStays(front, l, a, c);
    AddsLast(s, lockSearch, e, b, c, 0);
  }

  // ---------------------------------------------------------------- the even spreads of the run

  const S2 := SentinelOf(2)
  const S3 := SentinelOf(3)

  function Ten(k: nat): Edge
    requires k < 10
  {
    Edge(3, 10 * k, 1)
  }

  const FIRST: seq<Edge> := [S0, EMPTY, EMPTY, EMPTY, EMPTY, EMPTY, EMPTY, EMPTY]

  const FRONT: seq<Edge> := [S0, S1, EMPTY, S2, EMPTY, S3, EMPTY, Ten(1)]

  /** After halving down to sixteen slots. */
  lemma SpreadOfTwo()
    ensures Spread([S0, S1], 16) == FIRST + Spread([S1], 8)
  {
    var back := [S1, EMPTY, EMPTY, EMPTY, EMPTY, EMPTY, EMPTY, EMPTY];
    SpreadIs([S1], [0, 8], back);
    SpreadIs([S0, S1], [0, 8, 16], FIRST + back);
  }

  /** Behind the third sentinel of the second leaf there is one free slot before the last. */
  lemma SpreadOfThree()
    ensures Spread([S1, S2, S3], 8)[5] == S3
  {
    SpreadAt([S1, S2, S3], 2, 8);
  }

  /** With four to six items, the slot before the last is occupied. */
  lemma SpreadEnd(l: seq<Edge>)
    requires 4 <= |l| <= 7 && AllItems(l)
    ensures !IsNull(Spread(l, 8)[6])
  {
    var k := |l| - 1;
    SpreadAt(l, k, 8);
    LastTarget(|l|, k);
  }

  lemma LastTarget(j: nat, k: nat)
    requires 4 <= j <= 7 && k + 1 == j
    ensures (k * 8) / j == 6
  {
    DivUnique(k * 8, j, 6);
  }

  const NINE: seq<Edge> := [S0, S1, S2, S3, Ten(1), Ten(2), Ten(3), Ten(4), Ten(5)]

  const BACK: seq<Edge> := [Ten(2), EMPTY, Ten(3), EMPTY, Ten(4), EMPTY, Ten(5), EMPTY]

  lemma NineTargets()
    ensures Targets([0, 1, 3, 5, 7, 8, 10, 12, 14, 16], 9, 16)
  {
  }

  lemma NineHeld()
    ensures Holding(NINE, [0, 1, 3, 5, 7, 8, 10, 12, 14, 16], FRONT + BACK)
  {
  }

  /** After redistributing both leaves. */
  lemma SpreadOfNine()
    ensures Spread(NINE, 16) == FRONT + Spread([Ten(2), Ten(3), Ten(4), Ten(5)], 8)
  {
    SpreadIs([Ten(2), Ten(3), Ten(4), Ten(5)], [0, 2, 4, 6, 8], BACK);
    NineTargets();
    NineHeld();
    SpreadIs(NINE, [0, 1, 3, 5, 7, 8, 10, 12, 14, 16], FRONT + BACK);
  }

  const SEVEN: seq<Edge> := [Ten(2), Ten(3), Ten(4), Ten(5), Ten(6), Ten(7), Ten(8)]

  lemma SevenTargets()
    ensures Targets([0, 1, 2, 3, 4, 5, 6, 8], 7, 8)
  {
  }

  lemma SpreadOfSeven()
    ensures Spread(SEVEN, 8) == SEVEN + [EMPTY]
  {
    SevenTargets();
    SpreadIs(SEVEN, [0, 1, 2, 3, 4, 5, 6, 8], SEVEN + [EMPTY]);
  }

  // ---------------------------------------------------------------- filling sixteen slots

  function Tens(from: nat, k: nat): (l: seq<Edge>)
    requires k < 10
    ensures |l| == if k < from then 0 else k - from + 1
    ensures AllItems(l)
  {
    if k < from then [] else if k == from then [Ten(k)] else Tens(from, k - 1) + [Ten(k)]
  }

  ghost predicate EdgesUpTo(s: Image, d: nat) {
    forall k :: k in GraphOf(Live(s.a)) ==> k.1 <= d
  }

  /** The items of the second leaf after `k` edges; from the fifth on four items have moved to the first leaf. */
  function BackItems(k: nat): (l: seq<Edge>)
    requires k <= 8
    ensures AllItems(l) && |l| == if k <= 4 then k + 3 else k - 1
  {
    if k <= 4 then [S1, S2, S3] + Tens(1, k) else Tens(2, k)
  }

  ghost predicate Stage(k: nat, s: Image) {
    k <= 8 && TwoLeaves(s, 4, if k <= 4 then FIRST else FRONT, BackItems(k)) && EdgesUpTo(s, 10 * k)
  }

  /** Behind the items of a stage there is nothing for the search to stop at. */
  lemma StageEnd(k: nat, s: Image)
    requires k < 8 && Stage(k, s)
    ensures |s.a| == 16 && (s.a[13] == S3 || !IsNull(s.a[14]))
  {
    if k == 0 {
      SpreadOfThree();
      assert BackItems(0) == [S1, S2, S3];
    } else {
      SpreadEnd(BackItems(k));
    }
  }

  /** An edge beyond all others, if it does not fill the second leaf. */
  lemma Grows(s: Image, lockSearch: bool, front: seq<Edge>, l: seq<Edge>, d: nat, e: Edge, t: Image)
    requires TwoLeaves(s, 4, front, l) && |l| <= 6 && EdgesUpTo(s, d) && d < e.dest < MAX && e.src == 3 && e.value == 1
    requires s.a[13] == S3 || !IsNull(s.a[14])
    requires t == ImageOf(front + Spread(l + [e], 8), 4)
    ensures !AddStrands(s, lockSearch, 3, e.dest, 1, 0) && Added(s, lockSearch, 3, e.dest, 1, 0) == t && Usable(t)
    ensures EdgesUpTo(t, e.dest)
  {
    AddsEdge(s, lockSearch, 4, front, l, e, t);
    AddedUsable(s, lockSearch, 3, e.dest, 1, 0);
  }

  /** The edge that fills it. */
  lemma Overflows(s: Image, lockSearch: bool, front: seq<Edge>, l: seq<Edge>, d: nat, e: Edge, t: Image)
    requires TwoLeaves(s, 4, front, l) && |l| == 7 && |Live(front)| < 7
    requires EdgesUpTo(s, d) && d < e.dest < MAX && e.src == 3 && e.value == 1
    requires s.a[13] == S3 || !IsNull(s.a[14])
    requires t == ImageOf(Spread(Live(front) + l + [e], 16), 4) && Count(t.a, 0, 8) < 8
    ensures !AddStrands(s, lockSearch, 3, e.dest, 1, 0) && Added(s, lockSearch, 3, e.dest, 1, 0) == t && Usable(t)
    ensures EdgesUpTo(t, e.dest)
  {
    AddsFilling(s, lockSearch, 4, front, l, e, t);
    AddedUsable(s, lockSearch, 3, e.dest, 1, 0);
  }

  lemma BackGrows(k: nat)
    requires k < 8 && k != 4
    ensures BackItems(k) + [Ten(k + 1)] == BackItems(k + 1)
  {
  }

  /** The next edge. */
  lemma StageAdds(k: nat, lockSearch: bool, front: seq<Edge>, s: Image, t: Image)
    requires k < 8 && k != 4 && Stage(k, s) && front == (if k <= 4 then FIRST else FRONT)
    requires t == ImageOf(front + Spread(BackItems(k + 1), 8), 4)
    ensures !AddStrands(s, lockSearch, 3, 10 * (k + 1), 1, 0) && Added(s, lockSearch, 3, 10 * (k + 1), 1, 0) == t
    ensures Stage(k + 1, t)
  {
    StageEnd(k, s);
    BackGrows(k);
    Grows(s, lockSearch, front, BackItems(k), 10 * k, Ten(k + 1), t);
    NowTwoLeaves(t, 4, front, BackItems(k + 1));
  }

  lemma FirstLive()
    ensures Live(FIRST) == [S0]
  {
    assert FIRST == [S0] + Empties(7);
    LiveConcat([S0], Empties(7));
    LiveSingle(S0);
    LiveOfEmpties(Empties(7));
  }

  /** A leaf with an empty slot. */
  lemma NotFull(a: seq<Edge>, i: nat)
    requires |a| >= 8 && i < 8 && IsNull(a[i])
    ensures Count(a, 0, 8) < 8
  {
    LiveFull(a[0..8]);
    assert IsNull(a[0..8][i]);
  }

  lemma NineItems()
    ensures [S0] + BackItems(4) + [Ten(5)] == NINE && BackItems(5) == [Ten(2), Ten(3), Ten(4), Ten(5)]
  {
    assert Tens(1, 4) == [Ten(1), Ten(2), Ten(3), Ten(4)];
    assert Tens(2, 5) == [Ten(2), Ten(3), Ten(4), Ten(5)];
  }

  lemma FilledFacts(c: seq<Edge>)
    requires c == FRONT + Spread(BackItems(5), 8)
    ensures |Live(FIRST)| < 7 && |Live(FIRST) + BackItems(4) + [Ten(5)]| == 9
    ensures c == Spread(Live(FIRST) + BackItems(4) + [Ten(5)], 16) && Count(c, 0, 8) < 8
  {
    FirstLive();
    NineItems();
    SpreadOfNine();
    NotFull(c, 2);
  }

  /** The fifth edge fills the second leaf. */
  lemma StageFills(lockSearch: bool, s: Image, t: Image)
    requires Stage(4, s) && t == ImageOf(FRONT + Spread(BackItems(5), 8), 4)
    ensures !AddStrands(s, lockSearch, 3, 50, 1, 0) && Added(s, lockSearch, 3, 50, 1, 0) == t
    ensures Stage(5, t)
  {
    StageEnd(4, s);
    FilledFacts(t.a);
    Overflows(s, lockSearch, FIRST, BackItems(4), 40, Ten(5), t);
    NowTwoLeaves(t, 4, FRONT, BackItems(5));
  }

  // ---------------------------------------------------------------- the whole run

  /** `k` edges of the last vertex, after the calls `ops`. */
  function Fill(ops: seq<Op>, k: nat): seq<Op>
    requires k <= 8
  {
    if k == 0 then ops else Fill(ops, k - 1) + [AddEdge(3, 10 * k, 1)]
  }

  /** 16 is 2^SIXTEEN. */
  const SIXTEEN: nat := 4

  lemma SixteenLeft(s: Image)
    requires s == Sparse(2, SIXTEEN)
    ensures TwoLeaves(s, 2, FIRST, [S1])
  {
    SparseUsable(2, SIXTEEN);
    SixteenArray(s);
    NowTwoLeaves(s, 2, FIRST, [S1]);
  }

  lemma SixteenArray(s: Image)
    requires s == Sparse(2, SIXTEEN)
    ensures s == ImageOf(FIRST + Spread([S1], 8), 2)
  {
    SentinelsAre();
    SparseSpread(2, 8);
    SpreadOfTwo();
    Pow2Small();
  }

  lemma NoEdgesYet(s: Image, half: nat)
    requires half > 0 && s.a == SparseSentinels(2, half)
    ensures EdgesUpTo(s, 0)
  {
    SparseSpread(2, half);
    SentinelsGraph(2);
  }

  /** One vertex more. */
  lemma VertexStep(s: Image, lockSearch: bool, n: nat, front: seq<Edge>, l: seq<Edge>) returns (t: Image)
    requires TwoLeaves(s, n, front, l) && |l| <= 6 && 0 < n < MAX && EdgesUpTo(s, 0)
    ensures StepOk(s, lockSearch, AddNode, t)
    ensures TwoLeaves(t, n + 1, front, l + [SentinelOf(n)]) && EdgesUpTo(t, 0)
  {
    t := ImageOf(front + Spread(l + [SentinelOf(n)], 8), n + 1);
    AddsNode(s, n, front, l, t);
    NowTwoLeaves(t, n + 1, front, l + [SentinelOf(n)]);
    NodeUsable(s);
    NodeOk(s, lockSearch, t);
  }

  /** The next call of the run. */
  lemma FillStep(k: nat, lockSearch: bool, s: Image) returns (t: Image)
    requires k < 8 && Stage(k, s)
    ensures StepOk(s, lockSearch, AddEdge(3, 10 * (k + 1), 1), t) && Stage(k + 1, t)
  {
    var front := if k + 1 <= 4 then FIRST else FRONT;
    t := ImageOf(front + Spread(BackItems(k + 1), 8), 4);
    if k == 4 {
      StageFills(lockSearch, s, t);
    } else {
      StageAdds(k, lockSearch, front, s, t);
    }
    AddOk(s, lockSearch, 3, 10 * (k + 1), 1, t);
  }

  lemma VertexOn(states: seq<Image>, lockSearch: bool, ops: seq<Op>, s0: Image, s: Image, n: nat, l: seq<Edge>)
    returns (t: Image)
    requires PathBetween(states, lockSearch, ops, s0, s)
    requires TwoLeaves(s, n, FIRST, l) && |l| <= 6 && 0 < n < MAX && EdgesUpTo(s, 0)
    ensures PathBetween(states + [t], lockSearch, ops + [AddNode], s0, t)
    ensures TwoLeaves(t, n + 1, FIRST, l + [SentinelOf(n)]) && EdgesUpTo(t, 0)
  {
    t := VertexStep(s, lockSearch, n, FIRST, l);
    PathGrows(states, lockSearch, ops, AddNode, s0, s, t);
  }

  /** The calls `ops` and then `k` edges lead from `s0` to a state of the `k`-th stage. */
  ghost predicate Comes(lockSearch: bool, ops: seq<Op>, s0: Image, k: nat)
    requires k <= 8
  {
    exists states: seq<Image>, t: Image {:trigger PathBetween(states, lockSearch, Fill(ops, k), s0, t)} ::
      PathBetween(states, lockSearch, Fill(ops, k), s0, t) && Stage(k, t)
  }

  lemma ComesBy(states: seq<Image>, lockSearch: bool, ops: seq<Op>, s0: Image, t: Image, k: nat)
    requires k <= 8 && PathBetween(states, lockSearch, Fill(ops, k), s0, t) && Stage(k, t)
    ensures Comes(lockSearch, ops, s0, k)
  {
  }

  lemma EdgeStep(states: seq<Image>, lockSearch: bool, ops: seq<Op>, s0: Image, s: Image, j: nat, k: nat)
    returns (more: seq<Image>, t: Image)
    requires j + 1 == k <= 8 && PathBetween(states, lockSearch, Fill(ops, j), s0, s) && Stage(j, s)
    ensures PathBetween(more, lockSearch, Fill(ops, k), s0, t) && Stage(k, t)
  {
    t := FillStep(j, lockSearch, s);
    PathGrows(states, lockSearch, Fill(ops, j), AddEdge(3, 10 * k, 1), s0, s, t);
    more := states + [t];
  }

  lemma EdgeOn(lockSearch: bool, ops: seq<Op>, s0: Image, j: nat, k: nat)
    requires j + 1 == k <= 8 && Comes(lockSearch, ops, s0, j)
    ensures Comes(lockSearch, ops, s0, k)
  {
    var states, s :| PathBetween(states, lockSearch, Fill(ops, j), s0, s) && Stage(j, s);
    var more, t := EdgeStep(states, lockSearch, ops, s0, s, j, k);
    ComesBy(more, lockSearch, ops, s0, t, k);
  }

  lemma {:induction false} FillOn(lockSearch: bool, ops: seq<Op>, s0: Image, j: nat, k: nat)
    requires j < k <= 8 && Comes(lockSearch, ops, s0, j)
    ensures Comes(lockSearch, ops, s0, k)
    decreases k - j
  {
    EdgeOn(lockSearch, ops, s0, j, j + 1);
    if j + 1 < k {
      FillOn(lockSearch, ops, s0, j + 1, k);
    }
  }

  lemma VerticesOn(states: seq<Image>, lockSearch: bool, ops: seq<Op>, s0: Image, s: Image)
    requires PathBetween(states, lockSearch, ops, s0, s) && TwoLeaves(s, 2, FIRST, [S1]) && EdgesUpTo(s, 0)
    ensures Comes(lockSearch, ops + [AddNode] + [AddNode], s0, 0)
  {
    var t := VertexOn(states, lockSearch, ops, s0, s, 2, [S1]);
    var u := VertexOn(states + [t], lockSearch, ops + [AddNode], s0, t, 3, [S1] + [S2]);
    StartsFilling(u);
    ComesBy(states + [t] + [u], lockSearch, ops + [AddNode] + [AddNode], s0, u, 0);
  }

  lemma StartsFilling(s: Image)
    requires TwoLeaves(s, 4, FIRST, [S1] + [S2] + [S3]) && EdgesUpTo(s, 0)
    ensures Stage(0, s)
  {
    BackStarts();
  }

  lemma BackStarts()
    ensures [S1] + [S2] + [S3] == BackItems(0)
  {
  }

  // ---------------------------------------------------------------- where the run ends

  /** The second leaf is full but for the last slot; the first one has room, but not behind its last item. */
  const CROWDED: seq<Edge> := FRONT + (SEVEN + [EMPTY])

  /** The number of edges of the last vertex. */
  const EDGES: nat := 8

  lemma LastStage(s: Image)
    requires Stage(EDGES, s)
    ensures s == Image(4, CROWDED, GEO) && Usable(s)
  {
    SevenItems();
    SpreadOfSeven();
  }

  lemma SevenItems()
    ensures BackItems(EDGES) == SEVEN
  {
    assert Tens(2, 5) == [Ten(2), Ten(3), Ten(4), Ten(5)];
    assert Tens(2, 8) == Tens(2, 7) + [Ten(8)] && Tens(2, 7) == Tens(2, 6) + [Ten(7)] && Tens(2, 6) == Tens(2, 5) + [Ten(6)];
  }

  lemma CrowdedSlots()
    ensures |CROWDED| == 16 && CROWDED[5] == S3 && IsNull(CROWDED[6]) && CROWDED[7] == Ten(1) && CROWDED[8] == Ten(2)
    ensures CROWDED[10] == Ten(4) && CROWDED[14] == Ten(8) && CROWDED[15] == EMPTY
    ensures IsNull(CROWDED[2]) && IsNull(CROWDED[4]) && forall i :: 7 <= i < 15 ==> !IsNull(CROWDED[i])
  {
  }

  const NEXT := Edge(3, 5, 1)

  /** The search for the new edge ends at slot 7. */
  lemma NextSearch(nodes: seq<Node>, a: seq<Edge>)
    requires a == CROWDED && |nodes| == 4 && LaidOut(a, 4) && AllPoint(nodes, a)
    ensures nodes[3].end < |a| && FoundSlot(nodes, a, 3, 5) == 7
  {
    CrowdedSlots();
    NodeRange(nodes, a, 3);
    SameKey(a, 4, nodes[3].beginning, 5);
    assert SearchPlace(a, 5, 6, 7) == 7;
    assert SearchPlace(a, 5, 6, 8) == 7;
    assert SearchPlace(a, 5, 6, 10) == 7;
  }

  /** The slide runs to the last slot. */
  lemma NextSlides(a: seq<Edge>, b: seq<Edge>)
    requires a == CROWDED
    ensures FirstEmpty(a, 7) == 15 && (b == SlideInsert(a, 7, NEXT) ==> |b| == 16 && IsNull(b[2]) && b[15] == Ten(8))
  {
    CrowdedSlots();
    NotYetHole(a, 7, 14);
    SlideInsertSlots(a, 7, NEXT);
  }

  /** Two empty slots in a leaf. */
  lemma RoomOfTwo(a: seq<Edge>)
    requires |a| >= 8 && IsNull(a[2]) && IsNull(a[4])
    ensures Count(a, 0, 8) <= 6
  {
    var s := a[0..8];
    LiveAt(s, 3);
    LiveFull(s[..3]);
    LiveFull(s[3..]);
    assert s[..3][2] == a[2] && s[3..][1] == a[4];
  }

  lemma FirstLeaf(a: seq<Edge>, b: seq<Edge>)
    requires |a| == |b| == 16 && IsNull(a[2]) && IsNull(a[4]) && IsNull(b[2])
    ensures TreeShape(GEO) && LeafStart(GEO, 7) == 0 && PlanStart(a, GEO, 7) == 0 && SettledStart(b, GEO, 7) == 0
    ensures Settle(b, GEO, 7) == Rebalance(b, 0, 8) && StaysLow(a, GEO, 7, Settle(b, GEO, 7), 0)
  {
    SixteenSlots();
    RoomOfTwo(a);
    NotFull(b, 2);
    RebalanceCount(b, 0, 8, 0, 8);
  }

  /** Whatever lock acquisition finds out, only the first leaf is redistributed. */
  lemma NextTarget(a: seq<Edge>, info: Option<Info>, b: seq<Edge>, c: seq<Edge>)
    requires |a| == |b| == 16 && IsNull(a[2]) && IsNull(a[4]) && IsNull(b[2]) && TreeShape(GEO) && c == Rebalance(b, 0, 8)
    requires info == None || info == Some(InfoOf(InsertPlan(a, GEO, 7)))
    ensures Settle(b, GEO, 7) == c && InfoShape(GEO, info) && InsertTarget(b, GEO, 7, info) == Window(0, 8)
  {
    FirstLeaf(a, b);
    LowPlan(a, GEO, 7, c, 0);
    LowTarget(a, GEO, 7, info, b, c, 0);
  }

  lemma TightSlide(a: seq<Edge>, g: Geometry, p: nat, e: Edge, info: Option<Info>, b: seq<Edge>, c: seq<Edge>)
    requires TreeShape(g) && |a| == g.N && p < g.N && FirstEmpty(a, p) == g.N - 1 && LeafStart(g, p) + g.logN < g.N
    requires b == SlideInsert(a, p, e) && c == Settle(b, g, p) && InfoShape(g, info)
    requires InsertTarget(b, g, p, info) == Window(0, g.logN) && g.logN < g.N
    ensures Overrun(a, g, p, e, info) && Inserted(a, g, p, e, info) == c
  {
  }

  /** The edge that was in slot 14 ends in slot 15. */
  lemma NextOverruns(a: seq<Edge>, info: Option<Info>)
    requires a == CROWDED && TreeShape(GEO) && |a| == 16
    requires info == None || info == Some(InfoOf(InsertPlan(a, GEO, 7)))
    ensures FirstEmpty(a, 7) == 15 && InfoShape(GEO, info) && Overrun(a, GEO, 7, NEXT, info)
    ensures Inserted(a, GEO, 7, NEXT, info)[15] == Ten(8)
  {
    CrowdedSlots();
    NextSlides(a, SlideInsert(a, 7, NEXT));
    var b := SlideInsert(a, 7, NEXT);
    var c := Rebalance(b, 0, 8);
    NextTarget(a, info, b, c);
    FirstLeaf(a, b);
    RebalanceSlots(b, 0, 8);
    TightSlide(a, GEO, 7, NEXT, info, b, c);
  }

  /** The same for any state with that array. */
  lemma CrowdedStrands(s: Image, lockSearch: bool)
    requires s == Image(4, CROWDED, GEO) && Usable(s)
    ensures PlaceOfEdge(s, 3, 5) == 7 && AddStrands(s, lockSearch, 3, 5, 1, 0)
    ensures var t := Added(s, lockSearch, 3, 5, 1, 0);
      |t.a| == 16 && t.a[15] == Ten(8) && NothingHidden(t.a)
  {
    CrowdedSlots();
    ItemsLaidOut(s.a, 4);
    NextSearch(Table(s), s.a);
    var info := InsertInfo(s.a, GEO, 7, lockSearch, 0);
    HintIs(s.a, GEO, 7, StartNode(LeafOf(7, GEO.logN), lockSearch, None), 0);
    NextOverruns(s.a, info);
    StrandsExactly(s, lockSearch, 3, 5, 1, 0, 7, info);
    AddedIsPut(s, lockSearch, 3, 5, 1, 0, info);
    InsertedSame(s.a, GEO, 7, NEXT, info);
    AddedShows(s, lockSearch, 3, 5, 1, 0);
  }

  lemma InsertedSame(a: seq<Edge>, g: Geometry, p: nat, e: Edge, info: Option<Info>)
    requires TreeShape(g) && |a| == g.N && p < g.N && FirstEmpty(a, p) < g.N && InfoShape(g, info)
    requires Overrun(a, g, p, e, info)
    ensures |Inserted(a, g, p, e, info)| == g.N
  {
  }

  /** The number of rounds that halve the array, from 2048 slots to 16. */
  const ROUNDS: nat := 7

  /** All the calls: the rounds, two vertices, the edges. */
  function CrowdingCalls(): seq<Op> {
    Fill(Halvings(ROUNDS) + [AddNode] + [AddNode], EDGES)
  }

  lemma FilledFrom(lockSearch: bool, s0: Image, ops: seq<Op>)
    requires ops == Halvings(ROUNDS) && HalvedDown(lockSearch, 2, ROUNDS, SIXTEEN, s0)
    ensures Comes(lockSearch, ops + [AddNode] + [AddNode], s0, EDGES)
  {
    var s := Sparse(2, SIXTEEN);
    SixteenLeft(s);
    Pow2Small();
    NoEdgesYet(s, 8);
    var states :| PathBetween(states, lockSearch, ops, s0, s);
    VerticesOn(states, lockSearch, ops, s0, s);
    FillOn(lockSearch, ops + [AddNode] + [AddNode], s0, 0, EDGES);
  }

  /** They lead from the constructor to the crowded array; none of them is refused and none strands an item. */
  lemma CrowdedReached(lockSearch: bool, s0: Image, s: Image)
    requires s0 == NewImage(2, 2) && s == Image(4, CROWDED, GEO)
    ensures var ops := CrowdingCalls();
      Runs.Reached(s0, lockSearch, ops, |ops|) && EndsWell(s0, lockSearch, ops, |ops|) && After(s0, lockSearch, ops) == s
    ensures Usable(s)
  {
    StartsSparse(2, Pow2(NEW - 1));
    RoundsLead(2, ROUNDS, SIXTEEN, NEW, lockSearch, s0);
    FilledFrom(lockSearch, s0, Halvings(ROUNDS));
    CrowdedComes(lockSearch, Halvings(ROUNDS) + [AddNode] + [AddNode], s0, s);
  }

  lemma CrowdedComes(lockSearch: bool, ops: seq<Op>, s0: Image, s: Image)
    requires Comes(lockSearch, ops, s0, EDGES) && s == Image(4, CROWDED, GEO)
    ensures var more := Fill(ops, EDGES);
      Runs.Reached(s0, lockSearch, more, |more|) && EndsWell(s0, lockSearch, more, |more|)
      && After(s0, lockSearch, more) == s
    ensures Usable(s)
  {
    var states, t :| PathBetween(states, lockSearch, Fill(ops, EDGES), s0, t) && Stage(EDGES, t);
    LastStage(t);
    PathReaches(states, lockSearch, Fill(ops, EDGES));
  }

  /** What is known of a run up to its end, and one call more that strands an item. */
  lemma LastStep(s0: Image, lockSearch: bool, ops: seq<Op>, op: Op, s: Image)
    requires Runs.Reached(s0, lockSearch, ops, |ops|) && EndsWell(s0, lockSearch, ops, |ops|)
    requires s == After(s0, lockSearch, ops) && Usable(s) && OpAllowed(s, op) && OpStrands(s, lockSearch, op)
    ensures var more := ops + [op];
      && Runs.Reached(s0, lockSearch, more, |more|) && !EndsWell(s0, lockSearch, more, |more|)
      && After(s0, lockSearch, more) == Step(s, lockSearch, op)
  {
    var more := ops + [op];
    forall k | 0 <= k <= |ops|
      ensures more[..k] == ops[..k]
    {
    }
    assert ops[..|ops|] == ops && more[..|ops| + 1] == more;
    ReachedNext(s0, lockSearch, more, |ops|);
  }

  /** Edge (3, 80) is in the graph, but not in the slots that a neighbourhood is read from. */
  ghost predicate Lost(b: seq<Edge>) {
    && |b| == 16 && b[15] == Edge(3, 80, 1) && NothingHidden(b)
    && (3, 80) in GraphOf(Live(b)) && GraphOf(Live(b[..15])) == GraphOf(Live(b)) - {(3, 80)}
  }

  lemma CrowdedLoses(s: Image, lockSearch: bool, t: Image)
    requires s == Image(4, CROWDED, GEO) && Usable(s) && t == Added(s, lockSearch, 3, 5, 1, 0)
    ensures AddStrands(s, lockSearch, 3, 5, 1, 0) && Lost(t.a)
  {
    CrowdedStrands(s, lockSearch);
    StrandedWellFormed(s, lockSearch);
    StrandedIsLost(t.a, 4);
  }

  lemma StrandedWellFormed(s: Image, lockSearch: bool)
    requires Usable(s) && s.n == 4
    ensures WellFormed(Live(Added(s, lockSearch, 3, 5, 1, 0).a), 4)
  {
  }

  const LAST_CALL: Op := AddEdge(3, 5, 1)

  /**
   From the constructor on every call is allowed, and only the last one strands an
   item: edge (3, 80) ends in the last slot. It is missing from the neighbourhood
   of its source, while a search for it still succeeds.
   */
  lemma StrandingHappens(lockSearch: bool, s0: Image, ops: seq<Op>)
    requires s0 == NewImage(2, 2) && ops == CrowdingCalls() + [LAST_CALL]
    ensures Allowed(2, ops) && AllowedInTurn(s0, lockSearch, ops)
    ensures Runs.Reached(s0, lockSearch, ops, |ops|) && !EndsWell(s0, lockSearch, ops, |ops|)
    ensures Lost(After(s0, lockSearch, ops).a)
  {
    var s := Image(4, CROWDED, GEO);
    CrowdedReached(lockSearch, s0, s);
    var t := Added(s, lockSearch, 3, 5, 1, 0);
    CrowdedLoses(s, lockSearch, t);
    StrandsAtEnd(s0, lockSearch, CrowdingCalls(), LAST_CALL, s, t);
    ReachedAllowed(s0, lockSearch, ops);
  }

  lemma StrandsAtEnd(s0: Image, lockSearch: bool, ops: seq<Op>, op: Op, s: Image, t: Image)
    requires Runs.Reached(s0, lockSearch, ops, |ops|) && EndsWell(s0, lockSearch, ops, |ops|)
    requires s == After(s0, lockSearch, ops) && Usable(s)
    requires op == AddEdge(3, 5, 1) && AddStrands(s, lockSearch, 3, 5, 1, 0) && t == Added(s, lockSearch, 3, 5, 1, 0)
    ensures var more := ops + [op];
      && Runs.Reached(s0, lockSearch, more, |more|) && !EndsWell(s0, lockSearch, more, |more|)
      && After(s0, lockSearch, more) == t
  {
    LastStep(s0, lockSearch, ops, op, s);
  }
}
