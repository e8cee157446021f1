/**
 The calls of the interface as functions of the state before them: array, vertex
 table and sizes. The methods of the class are proved to compute these.
 */
module Calls {
  import opened Wrappers
  import opened Arithmetic
  import opened Geometries
  import opened Slots
  import opened Spreading
  import opened Windows
  import opened Insertion
  import opened Removal
  import opened Pointers
  import opened Neighbourhood
  import opened Locking
  import opened Updates
  import opened Building

  /** All that a call depends on, apart from its arguments: the number of vertices, the array, the sizes. */
  datatype Image = Image(n: nat, a: seq<Edge>, g: Geometry)

  // ---------------------------------------------------------------- the array determines the rest

  function SlotOf(a: seq<Edge>, e: Edge, i: nat): (p: nat)
    requires i <= |a|
    ensures i <= p <= |a|
    ensures p < |a| ==> a[p] == e
    ensures forall k :: i <= k < p ==> a[k] != e
    decreases |a| - i
  {
    if i == |a| || a[i] == e then i else SlotOf(a, e, i + 1)
  }

  /** The vertex table that points at the sentinels of `n` vertices. */
  function TableOf(a: seq<Edge>, n: nat): (nodes: seq<Node>)
    requires n <= MAX && a != []
    ensures |nodes| == n
  {
    seq(n, v requires 0 <= v < n =>
      Node(SlotOf(a, SentinelOf(v), 0), if v == n - 1 then |a| - 1 else SlotOf(a, SentinelOf(v + 1), 0)))
  }

  lemma SlotFound(a: seq<Edge>, n: nat, v: nat, p: nat)
    requires Orderly(a, n) && v < MAX && p < |a| && a[p] == SentinelOf(v)
    ensures SlotOf(a, SentinelOf(v), 0) == p
  {
    var q := SlotOf(a, SentinelOf(v), 0);
    SameKey(a, n, p, q);
  }

  /** There is only one right vertex table, */
  lemma TableUnique(nodes: seq<Node>, a: seq<Edge>)
    requires LaidOut(a, |nodes|) && AllPoint(nodes, a) && a != []
    ensures nodes == TableOf(a, |nodes|)
  {
    var n := |nodes|;
    forall v | 0 <= v < n
      ensures nodes[v] == TableOf(a, n)[v]
    {
      NodeRange(nodes, a, v);
      SlotFound(a, n, v, nodes[v].beginning);
      if v + 1 < n {
        SlotFound(a, n, v + 1, nodes[v].end);
      }
    }
  }

  /** and this is it. */
  lemma TablePoints(a: seq<Edge>, n: nat)
    requires LaidOut(a, n) && a != []
    ensures AllPoint(TableOf(a, n), a)
  {
    var nodes := TableOf(a, n);
    forall p | 0 <= p < |a|
      ensures Points(nodes, a[p], p, |a|)
    {
      if !IsNull(a[p]) && IsSentinel(a[p]) {
        assert WellFormedItem(a[p], n);
        SlotFound(a, n, a[p].src, p);
      }
    }
  }

  function GeometryOf(size: nat): Geometry {
    if size > 0 && size / LeafSize(size) > 0 then Resize(size) else Geometry(0, 0, 0)
  }

  lemma GeometryUnique(g: Geometry)
    requires GeometryOk(g)
    ensures GeometryOf(g.N) == g
  {
    var b := Bsr(g.N);
    ResizePow2(b);
    ExponentOf(Resize(Pow2(b)), b);
  }

  function ImageOf(a: seq<Edge>, n: nat): Image {
    Image(n, a, GeometryOf(|a|))
  }

  // ---------------------------------------------------------------- usable states

  /** What every call starts from. */
  ghost predicate Usable(s: Image) {
    && GeometryOk(s.g) && TreeShape(s.g) && |s.a| == s.g.N > 0
    && TailFree(s.a) && WellFormed(Live(s.a), s.n) && Clean(s.a) && (s.n > 0 ==> Tidy(s.a))
  }

  /** The vertex table of a state. */
  ghost function Table(s: Image): (nodes: seq<Node>)
    requires Usable(s)
    ensures |nodes| == s.n && Layout(nodes, s.a)
  {
    ItemsLaidOut(s.a, s.n);
    TablePoints(s.a, s.n);
    var nodes: seq<Node> :| |nodes| == s.n && Layout(nodes, s.a);
    nodes
  }

  lemma TableIs(nodes: seq<Node>, s: Image)
    requires Usable(s) && |nodes| == s.n && Layout(nodes, s.a)
    ensures nodes == Table(s)
  {
    ItemsLaidOut(s.a, s.n);
    TableUnique(nodes, s.a);
    TableUnique(Table(s), s.a);
  }

  /** A well-formed array of a proper size is usable, if its last slot is free. */
  lemma ImageUsable(a: seq<Edge>, n: nat, g: Geometry)
    requires GeometryOk(g) && |a| == g.N > 0 && WellFormed(Live(a), n) && Clean(a) && (n > 0 ==> Tidy(a))
    ensures ImageOf(a, n).g == g
    ensures Usable(ImageOf(a, n)) <==> TailFree(a)
  {
    GeometryUnique(g);
    GeometryTree(g);
  }

  // ---------------------------------------------------------------- add_edge

  /** The slot where an edge goes. */
  ghost function PlaceOfEdge(s: Image, src: u32, dest: u32): (p: nat)
    requires Usable(s) && src < s.n
    ensures 0 < p < s.g.N && PlaceIn(Table(s), s.a, src, dest, p)
    ensures Table(s)[src].end < |s.a| && p == FoundSlot(Table(s), s.a, src, dest)
  {
    RangeSorted(Table(s), s.a, src);
    ReadInside(Table(s), s.a, src, dest);
    FoundSlot(Table(s), s.a, src, dest)
  }

  /** The search for the edge ends at slot `p`. */
  ghost predicate Found(s: Image, src: u32, dest: u32, p: nat) {
    Usable(s) && src < s.n && p == PlaceOfEdge(s, src, dest)
  }

  /** Lock acquisition for that slot passes `info` on to `insert`. */
  ghost predicate Told(s: Image, lockSearch: bool, retries: nat, p: nat, info: Option<Info>) {
    TreeShape(s.g) && |s.a| == s.g.N && p < s.g.N && info == InsertInfo(s.a, s.g, p, lockSearch, retries)
  }

  /** The insertions that strand an item in the last slot, told from the usable state before the call. */
  ghost predicate AddStrands(s: Image, lockSearch: bool, src: u32, dest: u32, value: u32, retries: nat) {
    && value != 0 && src < s.n
    && forall p: nat {:trigger Found(s, src, dest, p)} :: Found(s, src, dest, p) ==>
         exists info {:trigger Told(s, lockSearch, retries, p, info)} ::
           Told(s, lockSearch, retries, p, info) && Strands(s.a, s.g, p, Edge(src, dest, value), info)
  }

  /** There is one such slot, and one such hint. */
  lemma StrandsExactly(s: Image, lockSearch: bool, src: u32, dest: u32, value: u32, retries: nat, p: nat, info: Option<Info>)
    requires Found(s, src, dest, p) && Told(s, lockSearch, retries, p, info) && value != 0
    ensures AddStrands(s, lockSearch, src, dest, value, retries)
      <==> Strands(s.a, s.g, p, Edge(src, dest, value), info)
  {
  }

  /** Where an insertion strands an item, the slot before it is occupied. */
  lemma PutHidesNothing(a: seq<Edge>, g: Geometry, p: nat, elem: Edge, info: Option<Info>, b: seq<Edge>)
    requires TreeShape(g) && |a| == g.N && p < g.N && !IsNull(elem) && TailFree(a)
    requires FirstEmpty(a, p) < g.N && InfoShape(g, info) && InfoFits(a, g, p, info)
    requires b == Put(a, g, p, elem, info)
    ensures TailFree(b) || (|b| == g.N >= 2 && !IsNull(b[g.N - 2]))
  {
    if !Overwrites(a, p, elem) {
      LastTwoSlots(a, g, p, elem, info, b);
    }
  }

  /** The array after `add_edge`. */
  ghost function AddedArray(s: Image, lockSearch: bool, src: u32, dest: u32, value: u32, retries: nat): (b: seq<Edge>)
    requires Usable(s) && src < s.n && dest != MAX && value != MAX && value != 0
    ensures WellFormed(Live(b), s.n) && Tidy(b)
    ensures GraphOf(Live(b)) == GraphOf(Live(s.a))[(src, dest) := value]
    ensures TailFree(b) <==> !AddStrands(s, lockSearch, src, dest, value, retries)
  {
    var p, elem := PlaceOfEdge(s, src, dest), Edge(src, dest, value);
    var info := InsertInfo(s.a, s.g, p, lockSearch, retries);
    InsertInfoFits(s.a, s.g, p, lockSearch, retries);
    PutIsPut(Table(s), s.a, s.g, p, elem, info);
    StrandsExactly(s, lockSearch, src, dest, value, retries, p, info);
    Put(s.a, s.g, p, elem, info)
  }

  /** It is what `insert` makes of it when told what lock acquisition has found out. */
  lemma AddedIsPut(s: Image, lockSearch: bool, src: u32, dest: u32, value: u32, retries: nat, info: Option<Info>)
    requires Usable(s) && src < s.n && dest != MAX && value != MAX && value != 0
    requires info == InsertInfo(s.a, s.g, PlaceOfEdge(s, src, dest), lockSearch, retries)
    ensures var p := PlaceOfEdge(s, src, dest);
      && InfoFits(s.a, s.g, p, info) && FirstEmpty(s.a, p) < s.g.N && InfoShape(s.g, info)
      && AddedArray(s, lockSearch, src, dest, value, retries) == Put(s.a, s.g, p, Edge(src, dest, value), info)
  {
    var p := PlaceOfEdge(s, src, dest);
    InsertInfoFits(s.a, s.g, p, lockSearch, retries);
    PutIsPut(Table(s), s.a, s.g, p, Edge(src, dest, value), info);
  }

  /** Lock acquisition tells the insertion a window, which it then redistributes under leaf locks. */
  ghost predicate AddsLocally(s: Image, lockSearch: bool, src: u32, dest: u32, retries: nat)
    requires Usable(s) && src < s.n
  {
    var info := InsertInfo(s.a, s.g, PlaceOfEdge(s, src, dest), lockSearch, retries);
    info.Some? && !info.value.doubleList
  }

  /** The leaf versions after `add_edge`, with `b` the array: renewed under leaf locks, kept under the global one. */
  ghost predicate VersionsAdded(s: Image, lockSearch: bool, src: u32, dest: u32, value: u32, retries: nat,
                                b: seq<Edge>, before: seq<int>, after: seq<int>)
    requires Usable(s)
  {
    if value == 0 || src >= s.n then after == before
    else if AddsLocally(s, lockSearch, src, dest, retries) then Renewed(s.a, b, s.g.logN, before, after)
    else Grown(before, after)
  }

  /** The state after `add_edge`. */
  ghost function Added(s: Image, lockSearch: bool, src: u32, dest: u32, value: u32, retries: nat): Image
    requires Usable(s) && dest != MAX && value != MAX
  {
    if value == 0 || src >= s.n then s
    else ImageOf(AddedArray(s, lockSearch, src, dest, value, retries), s.n)
  }

  lemma LastTwoShow(b: seq<Edge>, g: Geometry)
    requires TreeShape(g) && (|b| == g.N || |b| == 2 * g.N)
    requires TailFree(b) || (|b| == g.N >= 2 && !IsNull(b[g.N - 2]))
    ensures NothingHidden(b)
  {
    SpanGrows(g.logN, g.H);
  }

  lemma PutShows(a: seq<Edge>, g: Geometry, p: nat, elem: Edge, info: Option<Info>, b: seq<Edge>)
    requires TreeShape(g) && |a| == g.N && p < g.N && !IsNull(elem) && TailFree(a)
    requires FirstEmpty(a, p) < g.N && InfoShape(g, info) && InfoFits(a, g, p, info)
    requires b == Put(a, g, p, elem, info)
    ensures NothingHidden(b)
  {
    PutHidesNothing(a, g, p, elem, info, b);
    PutLength(a, g, p, elem, info);
    LastTwoShow(b, g);
  }

  lemma PutArrayShows(s: Image, lockSearch: bool, src: u32, dest: u32, value: u32, retries: nat, b: seq<Edge>)
    requires Usable(s) && src < s.n && dest != MAX && value != MAX && value != 0
    requires b == AddedArray(s, lockSearch, src, dest, value, retries)
    ensures NothingHidden(b)
  {
    var p := PlaceOfEdge(s, src, dest);
    var info := InsertInfo(s.a, s.g, p, lockSearch, retries);
    AddedIsPut(s, lockSearch, src, dest, value, retries, info);
    PutShows(s.a, s.g, p, Edge(src, dest, value), info, b);
  }

  /** Searches still find every edge, the stranded one, too: only the last slot and the one before it matter. */
  lemma AddedShows(s: Image, lockSearch: bool, src: u32, dest: u32, value: u32, retries: nat)
    requires Usable(s) && dest != MAX && value != MAX
    ensures NothingHidden(Added(s, lockSearch, src, dest, value, retries).a)
  {
    if value == 0 || src >= s.n {
      LastTwoShow(s.a, s.g);
    } else {
      PutArrayShows(s, lockSearch, src, dest, value, retries, AddedArray(s, lockSearch, src, dest, value, retries));
    }
  }

  /** The size stays or doubles, and the state is usable again if and only if nothing is stranded. */
  lemma AddedUsable(s: Image, lockSearch: bool, src: u32, dest: u32, value: u32, retries: nat)
    requires Usable(s) && dest != MAX && value != MAX
    ensures var t := Added(s, lockSearch, src, dest, value, retries);
      && t.n == s.n
      && GraphOf(Live(t.a)) ==
           (if value == 0 || src >= s.n then GraphOf(Live(s.a)) else GraphOf(Live(s.a))[(src, dest) := value])
      && (Usable(t) <==> !AddStrands(s, lockSearch, src, dest, value, retries))
  {
    if value != 0 && src < s.n {
      var b := AddedArray(s, lockSearch, src, dest, value, retries);
      AddedSize(s, lockSearch, src, dest, value, retries);
      var g :| GeometryOk(g) && g.N == |b|;
      ImageUsable(b, s.n, g);
    }
  }

  lemma AddedSize(s: Image, lockSearch: bool, src: u32, dest: u32, value: u32, retries: nat)
    requires Usable(s) && src < s.n && dest != MAX && value != MAX && value != 0
    ensures var b := AddedArray(s, lockSearch, src, dest, value, retries);
      && (|b| == s.g.N || |b| == 2 * s.g.N)
      && exists g :: GeometryOk(g) && g.N == |b|
  {
    var p, elem := PlaceOfEdge(s, src, dest), Edge(src, dest, value);
    var info := InsertInfo(s.a, s.g, p, lockSearch, retries);
    InsertInfoFits(s.a, s.g, p, lockSearch, retries);
    PutIsPut(Table(s), s.a, s.g, p, elem, info);
    PutLength(s.a, s.g, p, elem, info);
    ResizeDouble(s.g);
    assert GeometryOk(s.g) && GeometryOk(Resize(2 * s.g.N));
  }

  // ---------------------------------------------------------------- remove_edge

  /** The climb of the removal at slot `p` ends with `t`. */
  ghost predicate Climbs(s: Image, p: nat, t: Climb) {
    TreeShape(s.g) && |s.a| == s.g.N && p < s.g.N && t == RemoveTarget(s.a, s.g, p)
  }

  /** The removal from a usable state does not halve the array below 8 slots. */
  ghost predicate RemovalAllowed(s: Image, src: u32, dest: u32) {
    forall p: nat {:trigger Found(s, src, dest, p)} :: Found(s, src, dest, p) ==>
      exists t {:trigger Climbs(s, p, t)} ::
        Climbs(s, p, t) && (Overwrites(s.a, p, Edge(src, dest, 1)) && t.PastRoot? ==> s.g.N > 8)
  }

  /** There is one such slot, and one such climb. */
  lemma AllowedExactly(s: Image, src: u32, dest: u32, p: nat)
    requires Found(s, src, dest, p)
    ensures RemovalAllowed(s, src, dest) <==> (Overwrites(s.a, p, Edge(src, dest, 1)) ==> KeepsTree(s.a, s.g, p))
  {
    assert Climbs(s, p, RemoveTarget(s.a, s.g, p));
  }

  /** With two vertices, or more than 8 slots, it never does. */
  lemma TwoVerticesAllow(s: Image, src: u32, dest: u32)
    requires Usable(s) && src < s.n && dest != MAX && (s.n >= 2 || s.g.N > 8)
    ensures RemovalAllowed(s, src, dest)
  {
    var p := PlaceOfEdge(s, src, dest);
    AllowedExactly(s, src, dest, p);
    if Overwrites(s.a, p, Edge(src, dest, 1)) && s.n >= 2 && RemoveTarget(s.a, s.g, p).PastRoot? {
      PlaceHolds(Table(s), s.a, Edge(src, dest, 1), p);
      ClearedWellFormed(s.a, p, s.n);
      HalvingKeepsEight(s.a, s.g, p, s.n);
    }
  }

  /** The array after `remove_edge`. */
  ghost function CutArray(s: Image, src: u32, dest: u32): (b: seq<Edge>)
    requires Usable(s) && src < s.n && dest != MAX && RemovalAllowed(s, src, dest)
    ensures WellFormed(Live(b), s.n) && Tidy(b) && TailFree(b)
    ensures GraphOf(Live(b)) == GraphOf(Live(s.a)) - {(src, dest)}
  {
    var p, elem := PlaceOfEdge(s, src, dest), Edge(src, dest, 1);
    AllowedExactly(s, src, dest, p);
    if Overwrites(s.a, p, elem) then
      RemovalAlwaysFits(s.a, s.g, p);
      RemovedIsDelete(Table(s), s.a, s.g, p, elem);
      Removed(s.a, s.g, p)
    else
      NothingToDelete(Table(s), s.a, p, elem);
      s.a
  }

  /** It is what `remove` makes of it. */
  lemma CutIsRemoved(s: Image, src: u32, dest: u32, p: nat)
    requires Usable(s) && src < s.n && dest != MAX && RemovalAllowed(s, src, dest) && p == PlaceOfEdge(s, src, dest)
    ensures if Overwrites(s.a, p, Edge(src, dest, 1))
            then KeepsTree(s.a, s.g, p) && RemovalFits(s.a, s.g, p) && CutArray(s, src, dest) == Removed(s.a, s.g, p)
            else CutArray(s, src, dest) == s.a
  {
    AllowedExactly(s, src, dest, p);
    if Overwrites(s.a, p, Edge(src, dest, 1)) {
      RemovalAlwaysFits(s.a, s.g, p);
    }
  }

  /** The leaf versions after `remove_edge`: renewed, but kept if nothing is removed or the array is halved. */
  ghost predicate VersionsCut(s: Image, src: u32, dest: u32, b: seq<Edge>, before: seq<int>, after: seq<int>)
    requires Usable(s) && src < s.n
  {
    if (src, dest) !in GraphOf(Live(s.a)) then after == before
    else if |b| == |s.a| then Renewed(s.a, b, s.g.logN, before, after)
    else Shortened(before, after)
  }

  ghost function Cut(s: Image, src: u32, dest: u32): Image
    requires Usable(s) && src < s.n && dest != MAX && RemovalAllowed(s, src, dest)
  {
    ImageOf(CutArray(s, src, dest), s.n)
  }

  lemma CutUsable(s: Image, src: u32, dest: u32)
    requires Usable(s) && src < s.n && dest != MAX && RemovalAllowed(s, src, dest)
    ensures var t := Cut(s, src, dest);
      Usable(t) && t.n == s.n && GraphOf(Live(t.a)) == GraphOf(Live(s.a)) - {(src, dest)}
  {
    var b, p := CutArray(s, src, dest), PlaceOfEdge(s, src, dest);
    AllowedExactly(s, src, dest, p);
    if Overwrites(s.a, p, Edge(src, dest, 1)) {
      RemovalAlwaysFits(s.a, s.g, p);
      RemovedSize(s.a, s.g, p);
      if s.g.N > 8 {
        ResizeHalf(s.g);
      }
    }
    var g := if |b| == s.g.N then s.g else Resize(s.g.N / 2);
    ImageUsable(b, s.n, g);
  }

  // ---------------------------------------------------------------- add_node

  /** The state after `add_node`. */
  ghost function NodeAdded(s: Image): Image
    requires Usable(s) && s.n < MAX
  {
    ImageOf(WithVertex(s.a, s.g, s.n), s.n + 1)
  }

  lemma NodeUsable(s: Image)
    requires Usable(s) && s.n < MAX
    ensures Usable(NodeAdded(s)) && NodeAdded(s).n == s.n + 1
    ensures GraphOf(Live(NodeAdded(s).a)) == GraphOf(Live(s.a))
  {
    VertexUsable(s.a, s.n, s.g);
  }

  lemma VertexUsable(a: seq<Edge>, n: nat, g: Geometry)
    requires GeometryOk(g) && TreeShape(g) && |a| == g.N && n < MAX
    requires TailFree(a) && WellFormed(Live(a), n) && Clean(a) && (n > 0 ==> Tidy(a))
    ensures Usable(ImageOf(WithVertex(a, g, n), n + 1)) && GraphOf(Live(WithVertex(a, g, n))) == GraphOf(Live(a))
  {
    GrownUsable(WithVertex(a, g, n), n + 1, g);
  }

  /** A well-formed array of the same or the double size. */
  lemma GrownUsable(b: seq<Edge>, n: nat, g: Geometry)
    requires GeometryOk(g) && (|b| == g.N || |b| == 2 * g.N)
    requires WellFormed(Live(b), n) && Tidy(b)
    ensures Usable(ImageOf(b, n)) <==> TailFree(b)
  {
    ResizeDouble(g);
    ImageUsable(b, n, if |b| == g.N then g else Resize(2 * g.N));
  }

  // ---------------------------------------------------------------- sequences of calls

  /** A new graph. */
  ghost function NewImage(initN: nat, srcN: nat): Image
    requires srcN <= MAX
  {
    NewSize(initN + srcN);
    ImageOf(Spread(Sentinels(srcN), FirstSize(initN + srcN)), srcN)
  }

  datatype Op =
    | AddEdge(src: u32, dest: u32, value: u32)
    | RemoveEdge(src: u32, dest: u32)
    | AddNode

  /** What a call asks of its caller: no reserved numbers, and removals only from existing vertices. */
  ghost predicate OpAllowed(s: Image, op: Op)
    requires Usable(s)
  {
    match op
    case AddEdge(_, dest, value) => dest != MAX && value != MAX
    case RemoveEdge(src, dest) => src < s.n && dest != MAX && RemovalAllowed(s, src, dest)
    case AddNode => s.n < MAX
  }

  ghost predicate OpStrands(s: Image, lockSearch: bool, op: Op)
    requires Usable(s)
  {
    op.AddEdge? && AddStrands(s, lockSearch, op.src, op.dest, op.value, 0)
  }

  /** The state after a call, and the graph and the number of vertices. */
  ghost function Step(s: Image, lockSearch: bool, op: Op): Image
    requires Usable(s) && OpAllowed(s, op)
  {
    match op
    case AddEdge(src, dest, value) => Added(s, lockSearch, src, dest, value, 0)
    case RemoveEdge(src, dest) => Cut(s, src, dest)
    case AddNode => NodeAdded(s)
  }

  function StepGraph(g: Graph, n: nat, op: Op): Graph {
    match op
    case AddEdge(src, dest, value) => if value != 0 && src < n then g[(src, dest) := value] else g
    case RemoveEdge(src, dest) => g - {(src, dest)}
    case AddNode => g
  }

  function StepVertices(n: nat, op: Op): nat {
    if op.AddNode? then n + 1 else n
  }

  /** A call does to the graph what it says, and the state is usable again exactly if nothing is stranded. */
  ghost predicate StepIs(s: Image, op: Op, strands: bool, t: Image) {
    && (Usable(t) <==> !strands)
    && GraphOf(Live(t.a)) == StepGraph(GraphOf(Live(s.a)), s.n, op) && t.n == StepVertices(s.n, op)
  }

  lemma PutIs(s: Image, src: u32, dest: u32, value: u32, strands: bool, t: Image)
    requires t.n == s.n && (Usable(t) <==> !strands)
    requires GraphOf(Live(t.a)) ==
      if value == 0 || src >= s.n then GraphOf(Live(s.a)) else GraphOf(Live(s.a))[(src, dest) := value]
    ensures StepIs(s, AddEdge(src, dest, value), strands, t)
  {
  }

  lemma AddIs(s: Image, lockSearch: bool, src: u32, dest: u32, value: u32, strands: bool, t: Image)
    requires Usable(s) && dest != MAX && value != MAX
    requires strands == AddStrands(s, lockSearch, src, dest, value, 0) && t == Added(s, lockSearch, src, dest, value, 0)
    ensures StepIs(s, AddEdge(src, dest, value), strands, t)
  {
    AddedUsable(s, lockSearch, src, dest, value, 0);
    PutIs(s, src, dest, value, strands, t);
  }

  lemma RemoveIs(s: Image, src: u32, dest: u32, t: Image)
    requires Usable(s) && src < s.n && dest != MAX && RemovalAllowed(s, src, dest) && t == Cut(s, src, dest)
    ensures StepIs(s, RemoveEdge(src, dest), false, t)
  {
    CutUsable(s, src, dest);
  }

  lemma StepFacts(s: Image, lockSearch: bool, op: Op)
    requires Usable(s) && OpAllowed(s, op)
    ensures StepIs(s, op, OpStrands(s, lockSearch, op), Step(s, lockSearch, op))
  {
    match op
    case AddEdge(src, dest, value) =>
      AddIs(s, lockSearch, src, dest, value, OpStrands(s, lockSearch, op), Step(s, lockSearch, op));
    case RemoveEdge(src, dest) => RemoveIs(s, src, dest, Step(s, lockSearch, op));
    case AddNode => NodeUsable(s);
  }

  /** The state after the calls; a state that cannot be used any more stays as it is. */
  ghost function After(s: Image, lockSearch: bool, ops: seq<Op>): Image {
    if ops == [] then s
    else
      var t, op := After(s, lockSearch, ops[..|ops| - 1]), ops[|ops| - 1];
      if Usable(t) && OpAllowed(t, op) then Step(t, lockSearch, op) else t
  }

  lemma AfterNext(s: Image, lockSearch: bool, ops: seq<Op>, i: nat)
    requires i < |ops|
    ensures var t := After(s, lockSearch, ops[..i]);
      After(s, lockSearch, ops[..i + 1]) == if Usable(t) && OpAllowed(t, ops[i]) then Step(t, lockSearch, ops[i]) else t
  {
    assert ops[..i + 1][..i] == ops[..i];
  }
}
