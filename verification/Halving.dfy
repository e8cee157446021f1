/**
 Adding and removing an edge of a new graph with one or two vertices halves its
 array: runs of such rounds, as paths of states.
 */
module Halving {
  import opened Wrappers
  import opened Arithmetic
  import opened Geometries
  import opened Slots
  import opened Spreading
  import opened Windows
  import opened Insertion
  import opened Removal
  import opened Pointers
  import opened Search
  import opened Neighbourhood
  import opened Locking
  import opened Building
  import opened Calls
  import opened Runs

  // ---------------------------------------------------------------- insertions into a leaf with room

  lemma SlideIntoEmpty(a: seq<Edge>, p: nat, e: Edge)
    requires p < |a| && IsNull(a[p])
    ensures FirstEmpty(a, p) == p && SlideInsert(a, p, e) == a[p := e]
  {
  }

  /** Neither the climb planned before the insertion of an item into `a`, nor the one after it leaves its first window. */
  ghost predicate StaysLow(a: seq<Edge>, g: Geometry, p: nat, c: seq<Edge>, from: nat) {
    && TreeShape(g) && |a| == |c| == g.N && p < g.N && IsWindow(g, from, g.logN, g.H)
    && !TooDense(g, Count(a, PlanStart(a, g, p), g.logN) + 1, g.logN, g.H)
    && !TooDense(g, Count(c, from, g.logN), g.logN, g.H)
  }

  lemma LowPlan(a: seq<Edge>, g: Geometry, p: nat, c: seq<Edge>, from: nat)
    requires StaysLow(a, g, p, c, from)
    ensures InsertPlan(a, g, p) == Stop(PlanStart(a, g, p), g.logN, g.H)
    ensures InsertClimb(c, g, from, g.logN, g.H, 0) == Stop(from, g.logN, g.H)
  {
    PairWindow(g, p);
  }

  /** Then `insert` settles the leaf, and that is all. */
  lemma LowTarget(a: seq<Edge>, g: Geometry, p: nat, info: Option<Info>, b: seq<Edge>, c: seq<Edge>, from: nat)
    requires StaysLow(a, g, p, c, from) && (info == None || info == Some(InfoOf(InsertPlan(a, g, p))))
    requires |b| == g.N && c == Settle(b, g, p) && from == SettledStart(b, g, p)
    ensures InfoShape(g, info)
    ensures InsertTarget(b, g, p, info) == Window(if info.Some? then PlanStart(a, g, p) else from, g.logN)
  {
    LowPlan(a, g, p, c, from);
  }

  lemma LowInserted(a: seq<Edge>, g: Geometry, p: nat, e: Edge, info: Option<Info>, b: seq<Edge>, c: seq<Edge>, from: nat)
    requires StaysLow(a, g, p, c, from) && (info == None || info == Some(InfoOf(InsertPlan(a, g, p))))
    requires IsNull(a[p]) && b == a[p := e] && c == Settle(b, g, p) && from == SettledStart(b, g, p)
    ensures FirstEmpty(a, p) == p && InfoShape(g, info) && Inserted(a, g, p, e, info) == c
    ensures !Overrun(a, g, p, e, info)
  {
    SlideIntoEmpty(a, p, e);
    LowTarget(a, g, p, info, b, c, from);
    PairWindow(g, p);
  }

  /** `add_edge` of a new edge whose place is an empty slot. */
  lemma AddSettles(s: Image, lockSearch: bool, e: Edge, p: nat, b: seq<Edge>, c: seq<Edge>, from: nat)
    requires Usable(s) && e.src < s.n && e.dest != MAX && e.value != MAX && e.value != 0
    requires p == PlaceOfEdge(s, e.src, e.dest) && StaysLow(s.a, s.g, p, c, from)
    requires IsNull(s.a[p]) && b == s.a[p := e] && c == Settle(b, s.g, p) && from == SettledStart(b, s.g, p)
    ensures !AddStrands(s, lockSearch, e.src, e.dest, e.value, 0)
    ensures Added(s, lockSearch, e.src, e.dest, e.value, 0) == ImageOf(c, s.n) && Usable(ImageOf(c, s.n))
  {
    var info := InsertInfo(s.a, s.g, p, lockSearch, 0);
    HintIs(s.a, s.g, p, StartNode(LeafOf(p, s.g.logN), lockSearch, None), 0);
    LowInserted(s.a, s.g, p, e, info, b, c, from);
    AddedIsPut(s, lockSearch, e.src, e.dest, e.value, 0, info);
    StrandsExactly(s, lockSearch, e.src, e.dest, e.value, 0, p, info);
    AddedUsable(s, lockSearch, e.src, e.dest, e.value, 0);
  }

  /** `add_node`, likewise. */
  lemma NodeSettles(s: Image, p: nat, b: seq<Edge>, c: seq<Edge>, from: nat)
    requires Usable(s) && 0 < s.n < MAX && p == NewIndex(s.a, s.n) && StaysLow(s.a, s.g, p, c, from)
    requires b == s.a[p := SentinelOf(s.n)] && c == Settle(b, s.g, p) && from == SettledStart(b, s.g, p)
    ensures NodeAdded(s) == ImageOf(c, s.n + 1) && Usable(ImageOf(c, s.n + 1))
  {
    LowInserted(s.a, s.g, p, SentinelOf(s.n), None, b, c, from);
    WithVertexIs(s.a, s.g, s.n, c);
    NodeUsable(s);
  }

  // ---------------------------------------------------------------- what an even spread looks like

  /** `offs` are the targets of `j` items in `len` slots, and the end. */
  ghost predicate Targets(offs: seq<nat>, j: nat, len: nat) {
    0 < j <= len && |offs| == j + 1 && forall k {:trigger offs[k]} :: 0 <= k <= j ==> offs[k] == (k * len) / j
  }

  /** The items are at their targets, and nothing else is anywhere. */
  ghost predicate Holding(l: seq<Edge>, offs: seq<nat>, s: seq<Edge>) {
    && |offs| == |l| + 1
    && (forall k {:trigger l[k]} :: 0 <= k < |l| ==> offs[k] < |s| && s[offs[k]] == l[k])
    && (forall i :: 0 <= i < |s| && i !in offs ==> s[i] == EMPTY)
  }

  lemma GapIsEmpty(l: seq<Edge>, k: nat, offs: seq<nat>, s: seq<Edge>)
    requires Placing(offs, |l|, |s|) && k < |l| && Holding(l, offs, s)
    ensures offs[k] < offs[k + 1] <= |s| && s[offs[k] + 1..offs[k + 1]] == Empties(offs[k + 1] - offs[k] - 1)
  {
    var lo, hi := offs[k], offs[k + 1];
    assert hi <= offs[|l|];
    forall i | lo < i < hi
      ensures i !in offs
    {
      assert forall m :: 0 <= m <= k ==> offs[m] <= lo;
      assert forall m :: k < m < |offs| ==> hi <= offs[m];
    }
  }

  lemma {:induction false} SpreadFromIs(l: seq<Edge>, k: nat, offs: seq<nat>, s: seq<Edge>)
    requires Placing(offs, |l|, |s|) && k <= |l| && Holding(l, offs, s)
    ensures offs[k] <= |s| && SpreadFrom(l, k, offs, |s|) == s[offs[k]..]
    decreases |l| - k
  {
    assert offs[k] <= offs[|l|];
    if k < |l| {
      GapIsEmpty(l, k, offs, s);
      SpreadFromIs(l, k + 1, offs, s);
      CellAndRest(s, offs[k], offs[k + 1]);
    }
  }

  lemma CellAndRest(s: seq<Edge>, lo: nat, hi: nat)
    requires lo < hi <= |s|
    ensures s[lo..] == [s[lo]] + s[lo + 1..hi] + s[hi..]
  {
  }

  /** That is what the spread window looks like. */
  lemma SpreadIs(l: seq<Edge>, offs: seq<nat>, s: seq<Edge>)
    requires Targets(offs, |l|, |s|) && Holding(l, offs, s)
    ensures Spread(l, |s|) == s
  {
    OffsetsPlacing(|l|, |s|);
    forall k | 0 <= k <= |l|
      ensures Offsets(|l|, |s|)[k] == offs[k]
    {
      OffsetsAt(k, |l|, |s|);
    }
    assert Offsets(|l|, |s|) == offs;
    SpreadFromIs(l, 0, offs, s);
  }

  // ---------------------------------------------------------------- a sparse array

  const S0 := SentinelOf(0)
  const S1 := SentinelOf(1)

  /** The size of an array in which the first of one or two vertices has `half` slots. */
  function SparseSize(n: nat, half: nat): nat {
    if n == 2 then 2 * half else half
  }

  /** One sentinel, or two: in the first slot and in the middle. */
  function SparseSentinels(n: nat, half: nat): (a: seq<Edge>)
    ensures |a| == SparseSize(n, half)
  {
    seq(SparseSize(n, half), i => if i == 0 then S0 else if i == half then S1 else EMPTY)
  }

  lemma SentinelsAre()
    ensures Sentinels(1) == [S0] && Sentinels(2) == [S0, S1]
  {
    assert Sentinels(1) == Sentinels(0) + [S0];
  }

  lemma SparseSpread(n: nat, half: nat)
    requires 1 <= n <= 2 && half > 0
    ensures n <= SparseSize(n, half) && Spread(Sentinels(n), SparseSize(n, half)) == SparseSentinels(n, half)
    ensures Live(SparseSentinels(n, half)) == Sentinels(n)
  {
    SentinelsAre();
    if n == 1 {
      OneSpread(half, SparseSentinels(n, half));
    } else {
      TwoSpread(half, SparseSentinels(n, half));
    }
    SpreadLive(Sentinels(n), SparseSize(n, half));
  }

  lemma OneSpread(half: nat, a: seq<Edge>)
    requires half > 0 && a == SparseSentinels(1, half)
    ensures Spread([S0], half) == a
  {
    SpreadIs([S0], [0, half], a);
  }

  lemma TwoSpread(half: nat, a: seq<Edge>)
    requires half > 0 && a == SparseSentinels(2, half)
    ensures Spread([S0, S1], 2 * half) == a
  {
    SpreadIs([S0, S1], [0, half, 2 * half], a);
  }

  /** The array before a round; vertex 0 has `2 * w` slots. */
  ghost predicate SparseArray(a: seq<Edge>, w: nat, n: nat) {
    && 1 <= n <= 2 && w >= 4 && |a| == SparseSize(n, 2 * w) && a[0] == S0 && (n == 2 ==> a[2 * w] == S1)
    && forall i :: 0 <= i < |a| && i != 0 && i != 2 * w ==> a[i] == EMPTY
  }

  /** Its leaves have at least four slots for each vertex, and slot `w` begins one. */
  ghost predicate WideTree(g: Geometry, w: nat, n: nat) {
    TreeShape(g) && g.N == SparseSize(n, 2 * w) && 4 * n <= g.logN <= w && LeafStart(g, w) == w
  }

  lemma {:induction false} Pow2Outgrows(b: nat)
    requires b >= 5
    ensures Pow2(b - 1) > b * 2 + 1
    decreases b
  {
    Pow2Small();
    if b > 5 {
      Pow2Outgrows(b - 1);
    } else {
      assert Pow2(4) == 16;
    }
  }

  lemma {:induction false} PowersAligned(c: nat, d: nat)
    requires c <= d
    ensures WindowStart(Pow2(d), Pow2(c)) == Pow2(d)
    decreases d - c
  {
    if c < d {
      PowersAligned(c + 1, d);
      WindowStartParent(Pow2(d), Pow2(c));
    }
  }

  /** The smallest exponent for which the leaves are as a round needs them. */
  function LeastExponent(n: nat): nat {
    if n == 2 then 5 else 3
  }

  lemma LeafExponentWide(b: nat, n: nat)
    requires 1 <= n <= 2 && b >= LeastExponent(n)
    ensures n + 1 <= LeafExponent(b) <= b - n
  {
    var c := LeafExponent(b);
    LeafExponentBounds(b, c);
    if n == 2 {
      Pow2Small();
      Pow2Outgrows(b);
      assert c != b - 1 && c != 2;
    }
  }

  lemma SparseGeometry(b: nat, n: nat, g: Geometry, w: nat)
    requires 1 <= n <= 2 && b >= LeastExponent(n) && GeometryAt(g, b) && w == Pow2(b - n) && TreeShape(g)
    ensures WideTree(g, w, n) && w >= 4
  {
    var c := LeafExponent(b);
    LeafExponentWide(b, n);
    Pow2Small();
    Pow2Grows(n + 1, c);
    Pow2Grows(c, b - n);
    PowersAligned(c, b - n);
    assert Pow2(b) == 2 * Pow2(b - 1);
    assert n == 2 ==> Pow2(b - 1) == 2 * Pow2(b - 2);
  }

  /** A new graph of one or two vertices on 2^b slots. */
  function Sparse(n: nat, b: nat): Image
    requires 1 <= n <= 2 && b >= 3
  {
    ImageOf(SparseSentinels(n, Pow2(b - n + 1)), n)
  }

  lemma SparseUsable(n: nat, b: nat)
    requires 1 <= n <= 2 && b >= 3
    ensures Usable(Sparse(n, b)) && Sparse(n, b).n == n && GeometryAt(Sparse(n, b).g, b)
    ensures Live(Sparse(n, b).a) == Sentinels(n)
  {
    var half := Pow2(b - n + 1);
    Pow2Small();
    Pow2Grows(3, b);
    assert SparseSize(n, half) == Pow2(b);
    SparseSpread(n, half);
    ResizePow2(b);
    NewGraph(n, Pow2(b));
    ImageUsable(SparseSentinels(n, half), n, Resize(Pow2(b)));
  }

  lemma SparseImage(s: Image, n: nat, b: nat, w: nat)
    requires 1 <= n <= 2 && b >= LeastExponent(n) && w == Pow2(b - n) && s == Sparse(n, b)
    ensures Usable(s) && s.n == n && Live(s.a) == Sentinels(n) && SparseArray(s.a, w, n) && WideTree(s.g, w, n)
  {
    SparseUsable(n, b);
    SparseGeometry(b, n, s.g, w);
    assert Pow2(b - n + 1) == 2 * w;
  }

  // ---------------------------------------------------------------- adding the first edge

  const FIRST_EDGE := Edge(0, 1, 1)

  /** The search for the first edge, before and after it is added. */
  lemma SparseSearch(nodes: seq<Node>, a: seq<Edge>, w: nat, n: nat, edge: bool)
    requires SparseArray(a, w, n)
    requires var b := if edge then a[w := FIRST_EDGE] else a;
      |nodes| == n && LaidOut(b, n) && AllPoint(nodes, b)
    ensures var b := if edge then a[w := FIRST_EDGE] else a;
      nodes[0].end < |b| && FoundSlot(nodes, b, 0, 1) == w
  {
    var b := if edge then a[w := FIRST_EDGE] else a;
    var end := if n == 2 then 2 * w else 2 * w - 1;
    NodeRange(nodes, b, 0);
    assert nodes[0].beginning == 0 && nodes[0].end == end;
    assert (1 + end) / 2 == w;
    NearestGap(b, 1, end, w);
  }

  lemma RebalanceSame(a: seq<Edge>, index: nat, len: nat)
    requires index + len <= |a| && Spread(Live(a[index..index + len]), len) == a[index..index + len]
    ensures Rebalance(a, index, len) == a
  {
    SeqCut(a, index, index + len);
  }

  /** One item at the start of a leaf is where it belongs. */
  lemma SingleSpread(e: Edge, len: nat)
    requires len > 0
    ensures Spread([e], len) == [e] + Empties(len - 1)
  {
    SpreadIs([e], [0, len], [e] + Empties(len - 1));
  }

  /** The leaf of the new edge. */
  lemma SparseSlices(a: seq<Edge>, w: nat, n: nat, len: nat, b: seq<Edge>)
    requires SparseArray(a, w, n) && 0 < len <= w && b == a[w := FIRST_EDGE]
    ensures a[w..w + len] == Empties(len) && b[w..w + len] == [FIRST_EDGE] + Empties(len - 1)
  {
  }

  lemma SparseLeaf(a: seq<Edge>, w: nat, n: nat, len: nat, b: seq<Edge>)
    requires SparseArray(a, w, n) && 0 < len <= w && b == a[w := FIRST_EDGE]
    ensures Count(b, w, len) == 1 && Count(a, w, len) == 0
    ensures Spread(Live(b[w..w + len]), len) == b[w..w + len]
  {
    SparseSlices(a, w, n, len, b);
    LiveConcat([FIRST_EDGE], Empties(len - 1));
    LiveSingle(FIRST_EDGE);
    LiveOfEmpties(Empties(len - 1));
    LiveOfEmpties(Empties(len));
    assert Live(b[w..w + len]) == [FIRST_EDGE] && Live(a[w..w + len]) == [];
    SingleSpread(FIRST_EDGE, len);
  }

  /** Settling it changes nothing. */
  lemma SparseSettled(a: seq<Edge>, g: Geometry, w: nat, n: nat, b: seq<Edge>)
    requires SparseArray(a, w, n) && WideTree(g, w, n) && b == a[w := FIRST_EDGE]
    ensures Count(b, w, g.logN) == 1 && Count(a, w, g.logN) == 0
    ensures Settle(b, g, w) == b && SettledStart(b, g, w) == w && PlanStart(a, g, w) == w
  {
    SparseLeaf(a, w, n, g.logN, b);
    RebalanceSame(b, w, g.logN);
  }

  lemma SparseStays(a: seq<Edge>, g: Geometry, w: nat, n: nat, b: seq<Edge>)
    requires SparseArray(a, w, n) && WideTree(g, w, n) && b == a[w := FIRST_EDGE]
    ensures IsNull(a[w]) && StaysLow(a, g, w, b, w) && b == Settle(b, g, w) && w == SettledStart(b, g, w)
  {
    PairWindow(g, w);
    SparseSettled(a, g, w, n, b);
    OneIsNotDense(g, g.logN);
  }

  lemma OneIsNotDense(g: Geometry, len: nat)
    requires len > 1 && g.H > 0
    ensures !TooDense(g, 1, len, g.H)
  {
    DensityBounds(g, 1, len, g.H);
    MulMonotone(2, len, 4 * g.H);
    assert (3 * g.H + g.H) * len == len * (4 * g.H);
  }

  /** The place of the first edge. */
  lemma SparsePlace(s: Image, a: seq<Edge>, w: nat, n: nat, edge: bool)
    requires Usable(s) && s.n == n && SparseArray(a, w, n) && s.a == if edge then a[w := FIRST_EDGE] else a
    ensures PlaceOfEdge(s, 0, 1) == w
  {
    ItemsLaidOut(s.a, n);
    SparseSearch(Table(s), a, w, n, edge);
  }

  /** The first half of a round. */
  lemma RoundAdds(s: Image, w: nat, n: nat, lockSearch: bool, t: Image)
    requires Usable(s) && s.n == n && SparseArray(s.a, w, n) && WideTree(s.g, w, n)
    requires t == ImageOf(s.a[w := FIRST_EDGE], n)
    ensures Usable(t) && !AddStrands(s, lockSearch, 0, 1, 1, 0) && Added(s, lockSearch, 0, 1, 1, 0) == t
  {
    SparsePlace(s, s.a, w, n, false);
    SparseStays(s.a, s.g, w, n, t.a);
    AddSettles(s, lockSearch, FIRST_EDGE, w, t.a, t.a, w);
  }

  // ---------------------------------------------------------------- removing it again

  /** Removing the edge again leaves the leaf as it was. */
  lemma SparseVacated(a: seq<Edge>, g: Geometry, w: nat, n: nat, b: seq<Edge>)
    requires SparseArray(a, w, n) && WideTree(g, w, n) && b == a[w := FIRST_EDGE]
    ensures Vacated(b, g, w) == a
  {
    var len := g.logN;
    var c := Cleared(b, w);
    LiveOfEmpties(c[w..w + len]);
    assert a[w..w + len] == Empties(len) && c[..w] == a[..w] && c[w + len..] == a[w + len..];
    SeqCut(a, w, w + len);
  }

  /** The sentinels are too few for any window of two leaves or more. */
  lemma {:induction false} SparseClimb(a: seq<Edge>, g: Geometry, n: nat, start: nat, len: nat, level: nat)
    requires |a| == g.N && |Live(a)| <= n && IsWindow(g, start, len, level) && level < g.H && len >= 8 * n > 0
    ensures RemoveClimb(a, g, start, len, level, 0) == PastRoot
    decreases level
  {
    LiveCut(a, start, start + len);
    FewAreSparse(g, Count(a, start, len), n, len, level);
    if level > 0 {
      ParentWindow(g, start, len, level);
      SparseClimb(a, g, n, WindowStart(start, 2 * len), 2 * len, level - 1);
    }
  }

  lemma FewAreSparse(g: Geometry, count: nat, n: nat, len: nat, level: nat)
    requires count <= n && len >= 8 * n > 0 && level < g.H
    ensures TooSparse(g, count, len, level)
  {
    DensityBounds(g, count, len, level);
    SmallProduct(g.H, 2 * g.H - level, count, n, len);
  }

  lemma SmallProduct(h: nat, k: nat, count: nat, n: nat, len: nat)
    requires count <= n && len >= 8 * n > 0 && h < k
    ensures 8 * h * count < k * len
  {
    MulMonotone(8 * count, len, h);
    MulMonotone(h + 1, k, len);
    assert (8 * count) * h == 8 * h * count;
    assert len * h == h * len && (h + 1) * len == h * len + len;
  }

  lemma HalvedTo(b: seq<Edge>, g: Geometry, p: nat, c: seq<Edge>, half: nat)
    requires TreeShape(g) && |b| == g.N == 2 * half && p < g.N && !IsNull(b[p])
    requires c == Vacated(b, g, p) && RemoveTarget(b, g, p) == PastRoot
    ensures RemovalFits(b, g, p) && |Live(c)| <= half && Removed(b, g, p) == Spread(Live(c), half)
  {
    RemovalAlwaysFits(b, g, p);
    VacatedLive(b, g, p);
  }

  lemma NoneIsSparse(g: Geometry, len: nat)
    requires len > 0 && g.H > 0
    ensures TooSparse(g, 0, len, g.H)
  {
    DensityBounds(g, 0, len, g.H);
    MulMonotone(1, g.H, len);
    assert 2 * g.H - g.H == g.H;
  }

  lemma SparsePastRoot(a: seq<Edge>, g: Geometry, w: nat, n: nat)
    requires SparseArray(a, w, n) && WideTree(g, w, n) && IsWindow(g, w, g.logN, g.H) && |Live(a)| == n
    ensures RemoveClimb(a, g, w, g.logN, g.H, 0) == PastRoot
  {
    SparseLeaf(a, w, n, g.logN, a[w := FIRST_EDGE]);
    NoneIsSparse(g, g.logN);
    var up, upLen, upLevel := WindowStart(w, 2 * g.logN), 2 * g.logN, g.H - 1;
    RemoveClimbUp(a, g, w, g.logN, g.H, 0, up, upLen, upLevel);
    SparseClimb(a, g, n, up, upLen, upLevel);
  }

  lemma SparseTarget(a: seq<Edge>, g: Geometry, w: nat, n: nat, b: seq<Edge>)
    requires SparseArray(a, w, n) && WideTree(g, w, n) && b == a[w := FIRST_EDGE] && |Live(a)| == n
    ensures RemoveTarget(b, g, w) == PastRoot && Vacated(b, g, w) == a
  {
    SparseVacated(a, g, w, n, b);
    TargetFrom(b, g, w, a);
    SparsePastRoot(a, g, w, n);
  }

  /** So the removal halves the array. */
  lemma SparseHalves(a: seq<Edge>, g: Geometry, w: nat, n: nat, b: seq<Edge>)
    requires SparseArray(a, w, n) && WideTree(g, w, n) && b == a[w := FIRST_EDGE] && Live(a) == Sentinels(n)
    ensures RemoveTarget(b, g, w) == PastRoot && RemovalFits(b, g, w) && n <= SparseSize(n, w)
    ensures Removed(b, g, w) == Spread(Sentinels(n), SparseSize(n, w))
  {
    SparseTarget(a, g, w, n, b);
    HalvedTo(b, g, w, a, SparseSize(n, w));
  }

  /** The second half of a round. */
  lemma RoundRemoves(t: Image, a: seq<Edge>, w: nat, n: nat)
    requires Usable(t) && t.n == n && SparseArray(a, w, n) && WideTree(t.g, w, n) && t.g.N > 8
    requires t.a == a[w := FIRST_EDGE] && Live(a) == Sentinels(n)
    ensures RemovalAllowed(t, 0, 1) && n <= SparseSize(n, w)
    ensures Cut(t, 0, 1) == ImageOf(Spread(Sentinels(n), SparseSize(n, w)), n)
  {
    SparsePlace(t, a, w, n, true);
    SparseHalves(a, t.g, w, n, t.a);
    AllowedExactly(t, 0, 1, w);
    CutIsRemoved(t, 0, 1, w);
  }

  /** Adding and removing an edge halves the array of a new graph. */
  lemma Round(n: nat, b: nat, lockSearch: bool, s: Image, t: Image, u: Image)
    requires 1 <= n <= 2 && b > 3 && b >= LeastExponent(n) && s == Sparse(n, b) && u == Sparse(n, b - 1)
    requires Usable(s) && t == Added(s, lockSearch, 0, 1, 1, 0)
    ensures s.n == n && !AddStrands(s, lockSearch, 0, 1, 1, 0) && Usable(t) && t.n == n
    ensures RemovalAllowed(t, 0, 1) && Cut(t, 0, 1) == u
  {
    var w := Pow2(b - n);
    SparseImage(s, n, b, w);
    Pow2Small();
    Pow2Grows(4, b);
    RoundAdds(s, w, n, lockSearch, ImageOf(s.a[w := FIRST_EDGE], n));
    GeometryUnique(s.g);
    RoundRemoves(t, s.a, w, n);
    SparseSpread(n, w);
  }

  // ---------------------------------------------------------------- runs as paths of states

  /** A call that is allowed, strands nothing and leads from `s` to `t`. */
  ghost predicate StepOk(s: Image, lockSearch: bool, op: Op, t: Image) {
    Usable(s) && OpAllowed(s, op) && !OpStrands(s, lockSearch, op) && t == Step(s, lockSearch, op)
  }

  /** The states before, between and after such calls. */
  ghost predicate Path(states: seq<Image>, lockSearch: bool, ops: seq<Op>) {
    && |states| == |ops| + 1
    && forall i, j {:trigger StepOk(states[i], lockSearch, ops[i], states[j])} :: 0 <= i < |ops| && j == i + 1 ==>
         StepOk(states[i], lockSearch, ops[i], states[j])
  }

  /** One call more. */
  lemma PathOn(states: seq<Image>, lockSearch: bool, ops: seq<Op>, op: Op, s: Image, t: Image)
    requires Path(states, lockSearch, ops) && s == states[|ops|] && StepOk(s, lockSearch, op, t)
    ensures Path(states + [t], lockSearch, ops + [op])
  {
    var longer, more := states + [t], ops + [op];
    forall i, j | 0 <= i < |more| && j == i + 1
      ensures StepOk(longer[i], lockSearch, more[i], longer[j])
    {
      if i < |ops| {
        assert StepOk(states[i], lockSearch, ops[i], states[j]);
      }
    }
  }

  lemma StepNext(s0: Image, lockSearch: bool, ops: seq<Op>, i: nat, s: Image, t: Image)
    requires i < |ops| && After(s0, lockSearch, ops[..i]) == s && StepOk(s, lockSearch, ops[i], t)
    ensures After(s0, lockSearch, ops[..i + 1]) == t
  {
    AfterNext(s0, lockSearch, ops, i);
  }

  /** A path is a run to its end. */
  lemma {:induction false} PathRuns(states: seq<Image>, lockSearch: bool, ops: seq<Op>, k: nat)
    requires Path(states, lockSearch, ops) && k <= |ops|
    ensures After(states[0], lockSearch, ops[..k]) == states[k]
  {
    if k > 0 {
      var i := k - 1;
      PathRuns(states, lockSearch, ops, i);
      assert StepOk(states[i], lockSearch, ops[i], states[k]);
      StepNext(states[0], lockSearch, ops, i, states[i], states[k]);
    } else {
      assert ops[..0] == [];
    }
  }

  /** Every call of a path is allowed, and none strands an item. */
  lemma PathReaches(states: seq<Image>, lockSearch: bool, ops: seq<Op>)
    requires Path(states, lockSearch, ops)
    ensures Runs.Reached(states[0], lockSearch, ops, |ops|) && EndsWell(states[0], lockSearch, ops, |ops|)
    ensures After(states[0], lockSearch, ops) == states[|ops|]
  {
    forall k | 0 <= k < |ops|
      ensures var s := After(states[0], lockSearch, ops[..k]);
        Usable(s) && OpAllowed(s, ops[k]) && !OpStrands(s, lockSearch, ops[k])
    {
      PathRuns(states, lockSearch, ops, k);
      assert StepOk(states[k], lockSearch, ops[k], states[k + 1]);
    }
    PathRuns(states, lockSearch, ops, |ops|);
    assert ops[..|ops|] == ops;
  }

  /** `k` times an edge added and removed. */
  function Halvings(k: nat): seq<Op> {
    if k == 0 then [] else Halvings(k - 1) + [AddEdge(0, 1, 1)] + [RemoveEdge(0, 1)]
  }

  lemma AddOk(s: Image, lockSearch: bool, src: u32, dest: u32, value: u32, t: Image)
    requires Usable(s) && dest != MAX && value != MAX && !AddStrands(s, lockSearch, src, dest, value, 0)
    requires t == Added(s, lockSearch, src, dest, value, 0)
    ensures StepOk(s, lockSearch, AddEdge(src, dest, value), t)
  {
  }

  lemma RemoveOk(s: Image, lockSearch: bool, src: u32, dest: u32, t: Image)
    requires Usable(s) && src < s.n && dest != MAX && RemovalAllowed(s, src, dest) && t == Cut(s, src, dest)
    ensures StepOk(s, lockSearch, RemoveEdge(src, dest), t)
  {
  }

  lemma NodeOk(s: Image, lockSearch: bool, t: Image)
    requires Usable(s) && s.n < MAX && t == NodeAdded(s)
    ensures StepOk(s, lockSearch, AddNode, t)
  {
  }

  lemma RoundSteps(n: nat, b: nat, lockSearch: bool, s: Image, u: Image) returns (t: Image)
    requires 1 <= n <= 2 && b > 3 && b >= LeastExponent(n) && s == Sparse(n, b) && u == Sparse(n, b - 1)
    ensures StepOk(s, lockSearch, AddEdge(0, 1, 1), t) && StepOk(t, lockSearch, RemoveEdge(0, 1), u)
  {
    SparseUsable(n, b);
    t := Added(s, lockSearch, 0, 1, 1, 0);
    Round(n, b, lockSearch, s, t, u);
    AddOk(s, lockSearch, 0, 1, 1, t);
    RemoveOk(t, lockSearch, 0, 1, u);
  }

  /** A path from `s` to `t`. */
  ghost predicate PathBetween(states: seq<Image>, lockSearch: bool, ops: seq<Op>, s: Image, t: Image) {
    Path(states, lockSearch, ops) && states[0] == s && states[|ops|] == t
  }

  lemma PathTwoOn(states: seq<Image>, lockSearch: bool, ops: seq<Op>, op1: Op, op2: Op, s0: Image, s: Image, t: Image, u: Image)
    requires PathBetween(states, lockSearch, ops, s0, s)
    requires StepOk(s, lockSearch, op1, t) && StepOk(t, lockSearch, op2, u)
    ensures PathBetween(states + [t] + [u], lockSearch, ops + [op1] + [op2], s0, u)
  {
    PathOn(states, lockSearch, ops, op1, s, t);
    PathOn(states + [t], lockSearch, ops + [op1], op2, t, u);
  }

  /** One call more on a path. */
  lemma PathGrows(states: seq<Image>, lockSearch: bool, ops: seq<Op>, op: Op, s0: Image, s: Image, t: Image)
    requires PathBetween(states, lockSearch, ops, s0, s) && StepOk(s, lockSearch, op, t)
    ensures PathBetween(states + [t], lockSearch, ops + [op], s0, t)
  {
    PathOn(states, lockSearch, ops, op, s, t);
  }

  /** One round more. */
  lemma RoundOn(states: seq<Image>, lockSearch: bool, j: nat, n: nat, b: nat, s0: Image, s: Image, u: Image)
    returns (more: seq<Image>)
    requires 1 <= n <= 2 && b > 3 && b >= LeastExponent(n) && s == Sparse(n, b) && u == Sparse(n, b - 1)
    requires PathBetween(states, lockSearch, Halvings(j), s0, s)
    ensures PathBetween(more, lockSearch, Halvings(j + 1), s0, u)
  {
    var t := RoundSteps(n, b, lockSearch, s, u);
    PathTwoOn(states, lockSearch, Halvings(j), AddEdge(0, 1, 1), RemoveEdge(0, 1), s0, s, t, u);
    more := states + [t] + [u];
  }

  /** `j` rounds lead from `s0` to the new graph on 2^b slots. */
  ghost predicate HalvedDown(lockSearch: bool, n: nat, j: nat, b: nat, s0: Image)
    requires 1 <= n <= 2 && b >= 3
  {
    exists states {:trigger PathBetween(states, lockSearch, Halvings(j), s0, Sparse(n, b))} ::
      PathBetween(states, lockSearch, Halvings(j), s0, Sparse(n, b))
  }

  lemma RoundMore(lockSearch: bool, n: nat, j: nat, k: nat, b: nat, c: nat, s0: Image)
    requires 1 <= n <= 2 && b > 3 && b >= LeastExponent(n) && HalvedDown(lockSearch, n, j, b, s0)
    requires k == j + 1 && c == b - 1
    ensures HalvedDown(lockSearch, n, k, c, s0)
  {
    var s, u := Sparse(n, b), Sparse(n, c);
    var states :| PathBetween(states, lockSearch, Halvings(j), s0, s);
    var more := RoundOn(states, lockSearch, j, n, b, s0, s, u);
  }

  /** Each round halves the array: down to 16 slots for two vertices, to 8 for one. */
  lemma {:induction false} HalvingsOn(lockSearch: bool, n: nat, j: nat, top: nat, k: nat, b: nat, s0: Image)
    requires 1 <= n <= 2 && 3 <= b < top && b + 1 >= LeastExponent(n) && top + j == b + k
    requires HalvedDown(lockSearch, n, j, top, s0)
    ensures HalvedDown(lockSearch, n, k, b, s0)
    decreases top
  {
    if b + 1 == top {
      RoundMore(lockSearch, n, j, k, top, b, s0);
    } else {
      RoundMore(lockSearch, n, j, j + 1, top, top - 1, s0);
      HalvingsOn(lockSearch, n, j + 1, top - 1, k, b, s0);
    }
  }

  lemma NoRoundYet(lockSearch: bool, n: nat, b: nat, s0: Image)
    requires 1 <= n <= 2 && b >= 3 && s0 == Sparse(n, b)
    ensures HalvedDown(lockSearch, n, 0, b, s0)
  {
    assert PathBetween([s0], lockSearch, Halvings(0), s0, s0);
  }

  // ---------------------------------------------------------------- from the constructor

  /** A new array has 2^NEW slots. */
  const NEW: nat := 11

  lemma NewSlots(n: nat)
    requires n <= 1024
    ensures FirstSize(n) == Pow2(NEW) == 2 * Pow2(NEW - 1)
  {
    assert Pow2(5) == 32;
    Pow2Add(5, 5);
    BsrUnique(1024, 10);
  }

  /** A new graph of one or two vertices begins on 2048 slots. */
  lemma StartsSparse(n: nat, half: nat)
    requires 1 <= n <= 2 && half == Pow2(NEW - n + 1)
    ensures NewImage(n, n) == Sparse(n, NEW)
  {
    NewSlots(n + n);
    SparseSpread(n, half);
  }

  /** `k` rounds lead to the new graph on 2^b slots. */
  lemma RoundsLead(n: nat, k: nat, b: nat, top: nat, lockSearch: bool, s0: Image)
    requires 1 <= n <= 2 && b >= 3 && b + 1 >= LeastExponent(n) && b + k == top && k > 0 && s0 == Sparse(n, top)
    ensures HalvedDown(lockSearch, n, k, b, s0)
  {
    NoRoundYet(lockSearch, n, top, s0);
    HalvingsOn(lockSearch, n, 0, top, k, b, s0);
  }
}
