/**
 Which leaves a window covers, and what lock acquisition has to hold before an
 insertion or a removal may run.
 */
module Locking {
  import opened Wrappers
  import opened Arithmetic
  import opened Geometries
  import opened Slots
  import opened Spreading
  import opened Windows
  import opened Insertion
  import opened Removal
  import opened Pointers
  import opened Search
  import opened Neighbourhood

  /** Outcome of `acquire_insert_locks`. */
  datatype InsertLocks =
    | Acquired(minNode: nat, maxNode: nat, info: Info)
    | NeedGlobalWrite(hint: Option<Info>)
    | NeedRetry

  /** Outcome of `acquire_remove_locks`. */
  datatype RemoveLocks =
    | Held(minNode: nat, maxNode: nat)
    | NeedHalving
    | RemoveRetry
    | EdgeNotFound

  /** How a climb that takes locks on its way ends. */
  datatype LockClimb =
    | Reached(maxNode: nat, start: nat, len: nat)
    | GoLeft(maxNode: nat, leaf: nat)
    | Past(maxNode: nat)

  /**
   A climb that takes locks follows the climb `t`, unless it has to stop for a
   leaf left of those held; then the window that `t` ends at does not begin
   behind that leaf either.
   */
  ghost predicate LockClimbFits(c: LockClimb, t: Climb, g: Geometry, minNode: nat)
    requires g.logN > 0
  {
    match c
    case Reached(maxNode, s, len) =>
      t.Stop? && t.start == s && t.len == len && s + len <= g.N
      && Covers(minNode, maxNode, g.logN, t.start, t.start + t.len)
    case Past(maxNode) => t.PastRoot? && 0 < g.N && Covers(minNode, maxNode, g.logN, 0, g.N)
    case GoLeft(_, leaf) => leaf < minNode && (t.Stop? ==> LeafOf(t.start, g.logN) <= leaf)
  }

  /** The three ways in which the insertion climb ends. */
  lemma InsertGoesLeft(a: seq<Edge>, g: Geometry, start: nat, len: nat, level: nat, minNode: nat, m: nat)
    requires IsWindow(g, start, len, level) && |a| == g.N && g.logN > 0 && LeafOf(start, g.logN) < minNode
    ensures LockClimbFits(GoLeft(m, LeafOf(start, g.logN)), InsertClimb(a, g, start, len, level, 1), g, minNode)
    ensures RestartLeaf(a, g, start, len, level, minNode) == Some(LeafOf(start, g.logN))
  {
    InsertClimbStops(a, g, start, len, level, 1);
    var c := InsertClimb(a, g, start, len, level, 1);
    if c.Stop? {
      LeafOfMonotone(c.start, start, g.logN);
    }
  }

  lemma InsertReaches(a: seq<Edge>, g: Geometry, start: nat, len: nat, level: nat, minNode: nat, m: nat)
    requires IsWindow(g, start, len, level) && |a| == g.N && g.logN > 0
    requires !TooDense(g, Count(a, start, len) + 1, len, level) && Covers(minNode, m, g.logN, start, start + len)
    ensures LockClimbFits(Reached(m, start, len), InsertClimb(a, g, start, len, level, 1), g, minNode)
    ensures RestartLeaf(a, g, start, len, level, minNode) == None
  {
  }

  lemma InsertPasses(a: seq<Edge>, g: Geometry, start: nat, len: nat, level: nat, minNode: nat, m: nat)
    requires IsWindow(g, start, len, level) && |a| == g.N && g.logN > 0 && 2 * len > g.N
    requires TooDense(g, Count(a, start, len) + 1, len, level) && Covers(minNode, m, g.logN, start, start + len)
    ensures LockClimbFits(Past(m), InsertClimb(a, g, start, len, level, 1), g, minNode)
    ensures RestartLeaf(a, g, start, len, level, minNode) == None
  {
    LevelOfLength(g, start, len, level);
  }

  /** The three ways in which the removal climb ends. */
  lemma RemoveGoesLeft(a: seq<Edge>, g: Geometry, start: nat, len: nat, level: nat, minNode: nat, m: nat)
    requires IsWindow(g, start, len, level) && |a| == g.N && g.logN > 0 && LeafOf(start, g.logN) < minNode
    ensures LockClimbFits(GoLeft(m, LeafOf(start, g.logN)), RemoveClimb(a, g, start, len, level, 1), g, minNode)
  {
    RemoveClimbStops(a, g, start, len, level, 1);
    var c := RemoveClimb(a, g, start, len, level, 1);
    if c.Stop? {
      LeafOfMonotone(c.start, start, g.logN);
    }
  }

  lemma RemoveReaches(a: seq<Edge>, g: Geometry, start: nat, len: nat, level: nat, minNode: nat, m: nat)
    requires IsWindow(g, start, len, level) && |a| == g.N && g.logN > 0
    requires !TooSparse(g, Count(a, start, len) - 1, len, level) && Covers(minNode, m, g.logN, start, start + len)
    ensures LockClimbFits(Reached(m, start, len), RemoveClimb(a, g, start, len, level, 1), g, minNode)
  {
  }

  lemma RemovePasses(a: seq<Edge>, g: Geometry, start: nat, len: nat, level: nat, minNode: nat, m: nat)
    requires IsWindow(g, start, len, level) && |a| == g.N && g.logN > 0 && 2 * len > g.N
    requires TooSparse(g, Count(a, start, len) - 1, len, level) && Covers(minNode, m, g.logN, start, start + len)
    ensures LockClimbFits(Past(m), RemoveClimb(a, g, start, len, level, 1), g, minNode)
  {
    LevelOfLength(g, start, len, level);
  }

  /** The leaves from `lo` up to but not including `hi`. */
  ghost function Leaves(lo: nat, hi: nat): (s: set<nat>)
    ensures forall i :: i in s <==> lo <= i < hi
  {
    if hi <= lo then {} else Leaves(lo, hi - 1) + {hi - 1}
  }

  /** The leaves `lo..hi` have a new version, the others the old one. */
  ghost predicate Bumped(before: seq<int>, after: seq<int>, lo: nat, hi: nat) {
    && |after| == |before|
    && forall i :: 0 <= i < |after| ==> after[i] == before[i] + if lo <= i <= hi then 1 else 0
  }

  /** When the array doubles, leaves keep their versions and new ones start at 0. */
  ghost predicate Grown(before: seq<int>, after: seq<int>) {
    && |before| <= |after| && after[..|before|] == before
    && forall i :: |before| <= i < |after| ==> after[i] == 0
  }

  /** When it is halved, the leaves that are left keep their versions. */
  ghost predicate Shortened(before: seq<int>, after: seq<int>) {
    |after| <= |before| && after == before[..|after|]
  }

  /** The leaves held end at `first`, or with the slots before `end`. */
  predicate EndsWith(maxNode: nat, first: nat, end: nat, logN: nat)
    requires logN > 0
  {
    maxNode == first || (0 < end && maxNode == LeafOf(end - 1, logN))
  }

  /** The range begins and ends in the leaves `minNode..maxNode`. */
  predicate Covers(minNode: nat, maxNode: nat, logN: nat, lo: nat, hi: nat)
    requires logN > 0
  {
    lo < hi && minNode <= LeafOf(lo, logN) && LeafOf(hi - 1, logN) <= maxNode
  }

  /** Then every slot of the range lies in one of them. */
  lemma CoversSlot(minNode: nat, maxNode: nat, logN: nat, lo: nat, hi: nat, i: nat)
    requires logN > 0 && Covers(minNode, maxNode, logN, lo, hi) && lo <= i < hi
    ensures minNode <= LeafOf(i, logN) <= maxNode
  {
    LeafOfMonotone(lo, i, logN);
    LeafOfMonotone(i, hi - 1, logN);
  }

  lemma {:induction false} SpanInjective(a: nat, b: nat, k: nat)
    requires Span(a, k) == Span(b, k)
    ensures a == b
    decreases k
  {
    if k > 0 {
      SpanInjective(2 * a, 2 * b, k - 1);
    }
  }

  /** What is aligned to a larger window is aligned to its leaves. */
  lemma {:induction false} AlignedToLeaves(x: nat, len: nat, k: nat)
    requires len > 0 && Span(len, k) > 0 && WindowStart(x, Span(len, k)) == x
    ensures WindowStart(x, len) == x
    decreases k
  {
    if k > 0 {
      AlignedToLeaves(x, 2 * len, k - 1);
      WindowStartParent(x, len);
    }
  }

  /** A leaf boundary separates two consecutive leaves. */
  lemma {:induction false} BoundaryLeaves(x: nat, len: nat)
    requires len > 0 && x > 0 && WindowStart(x, len) == x
    ensures LeafOf(x, len) == LeafOf(x - 1, len) + 1
  {
    if x > len {
      BoundaryLeaves(x - len, len);
    }
  }

  /** A window consists of whole leaves. */
  lemma WindowLeaves(g: Geometry, start: nat, len: nat, level: nat)
    requires TreeShape(g) && IsWindow(g, start, len, level)
    ensures WindowStart(start, g.logN) == start && WindowStart(start + len, g.logN) == start + len
    ensures LeafOf(start + len, g.logN) == LeafOf(start + len - 1, g.logN) + 1
    ensures LeafOf(start, g.logN) <= LeafOf(start + len - 1, g.logN)
  {
    var k := g.H - level;
    SpanTwice(g.logN, k, level);
    SpanInjective(len, Span(g.logN, k), level);
    AlignedToLeaves(start, g.logN, k);
    assert WindowStart(start + len, len) == start + len;
    AlignedToLeaves(start + len, g.logN, k);
    BoundaryLeaves(start + len, g.logN);
    LeafOfMonotone(start, start + len - 1, g.logN);
  }

  /** The last leaf of a window that ends inside the array exists. */
  lemma WindowLastLeaf(g: Geometry, start: nat, len: nat, level: nat)
    requires TreeShape(g) && IsWindow(g, start, len, level)
    ensures LeafOf(start + len - 1, g.logN) < LeafCount(g)
    ensures LeafOf(start + len, g.logN) <= LeafCount(g)
  {
    LeafNumber(g, start + len - 1);
    WindowLeaves(g, start, len, level);
  }

  /** The last leaf of the array is leaf `LeafCount - 1`. */
  lemma LastLeaf(g: Geometry)
    requires TreeShape(g)
    ensures 0 < g.N && LeafOf(g.N - 1, g.logN) == LeafCount(g) - 1
    ensures LeafOf(g.N, g.logN) == LeafCount(g)
  {
    SpanPow2(g.logN, g.H);
    LeafOfProduct(LeafCount(g), g.logN);
    SpanGrows(g.logN, g.H);
    assert WindowStart(g.N, g.logN) == g.N by {
      WindowStartQuotient(g.N, g.logN);
    }
    BoundaryLeaves(g.N, g.logN);
  }

  /** Who holds the leaves of the root window holds them all. */
  lemma RootHeld(g: Geometry, minNode: nat, maxNode: nat)
    requires TreeShape(g) && Covers(minNode, maxNode, g.logN, 0, g.N) && maxNode < LeafCount(g)
    ensures minNode == 0 && maxNode == LeafCount(g) - 1
  {
    LastLeaf(g);
  }

  lemma {:induction false} LeafOfProduct(q: nat, len: nat)
    requires len > 0
    ensures LeafOf(len * q, len) == q
  {
    if q > 0 {
      assert len * q == len * (q - 1) + len;
      LeafOfProduct(q - 1, len);
    }
  }

  /** The slot after a slot is in the same leaf or, at a boundary, in the next. */
  lemma {:induction false} NextSlotLeaf(x: nat, len: nat)
    requires len > 0
    ensures x + 1 < WindowStart(x, len) + len ==> WindowStart(x + 1, len) == WindowStart(x, len) && LeafOf(x + 1, len) == LeafOf(x, len)
    ensures x + 1 >= WindowStart(x, len) + len ==> WindowStart(x + 1, len) == x + 1 && LeafOf(x + 1, len) == LeafOf(x, len) + 1
  {
    if x >= len {
      NextSlotLeaf(x - len, len);
    }
  }

  // ---------------------------------------------------------------- the footprint of an insertion is covered

  /** What `acquire_insert_locks` holds on success. */
  ghost predicate HoldsForInsert(a: seq<Edge>, g: Geometry, index: nat, minNode: nat, maxNode: nat, info: Info)
    requires TreeShape(g) && |a| == g.N && index < g.N
  {
    var p := InsertPlan(a, g, index);
    && !info.doubleList && p.Stop? && info == Info(false, p.len, p.start)
    && FirstEmpty(a, index) < g.N
    && minNode <= maxNode < LeafCount(g)
    && Covers(minNode, maxNode, g.logN, p.start, p.start + p.len)
    && Covers(minNode, maxNode, g.logN, index, FirstEmpty(a, index) + 1)
    && minNode <= LeafOf(PlanStart(a, g, index), g.logN)
  }

  /** A full leaf after the slide: the plan takes in the pair, or it starts at the leaf before. */
  lemma FullLeafPlan(a: seq<Edge>, g: Geometry, index: nat, elem: Edge)
    requires TreeShape(g) && |a| == g.N && index < g.N && FirstEmpty(a, index) < g.N && !IsNull(elem)
    requires LeafStart(g, index) + g.logN <= g.N
    requires Count(SlideInsert(a, index, elem), LeafStart(g, index), g.logN) == g.logN
    ensures var p := InsertPlan(a, g, index);
      p.Stop? && p.len <= g.logN ==>
        PlanStart(a, g, index) == PairStart(g, index) && PairStart(g, index) + g.logN == LeafStart(g, index)
  {
    PairWindow(g, index);
    SlideInsertCount(a, index, elem, LeafStart(g, index), g.logN);
    PlanFacts(a, g, index);
  }

  /** A leaf-sized window no later than the leaf of `index` ends in a held leaf. */
  lemma PlanLeafHeld(g: Geometry, index: nat, start: nat, maxNode: nat)
    requires TreeShape(g) && index < g.N && start <= LeafStart(g, index)
    requires IsWindow(g, start, g.logN, g.H) && LeafOf(index, g.logN) <= maxNode
    ensures LeafOf(start + g.logN - 1, g.logN) <= maxNode
  {
    PairWindow(g, index);
    LeafOfMonotone(start + g.logN - 1, LeafStart(g, index) + g.logN - 1, g.logN);
    SlotInLeaf(g, index, LeafStart(g, index) + g.logN - 1);
  }

  /** The leaf of `index` is a window, and it is held. */
  lemma LeafHeld(g: Geometry, index: nat, minNode: nat, maxNode: nat)
    requires TreeShape(g) && index < g.N && minNode <= LeafOf(index, g.logN) <= maxNode
    ensures IsWindow(g, LeafStart(g, index), g.logN, g.H)
    ensures Covers(minNode, maxNode, g.logN, LeafStart(g, index), LeafStart(g, index) + g.logN)
    ensures LeafOf(LeafStart(g, index) + g.logN - 1, g.logN) == LeafOf(index, g.logN)
  {
    PairWindow(g, index);
    LeafNumber(g, index);
    SlotInLeaf(g, index, LeafStart(g, index) + g.logN - 1);
    PlanLeafHeld(g, index, LeafStart(g, index), maxNode);
  }

  /** A slot of the leaf of `index` is in the leaf of `index`. */
  lemma SlotInLeaf(g: Geometry, index: nat, i: nat)
    requires TreeShape(g) && index < g.N && LeafStart(g, index) <= i < LeafStart(g, index) + g.logN
    ensures LeafOf(i, g.logN) == LeafOf(index, g.logN)
  {
    PairWindow(g, index);
    WindowStartInside(LeafStart(g, index), i, g.logN);
    LeafOfStart(i, g.logN);
    LeafOfStart(index, g.logN);
  }

  /** A slot of the pair is in the pair's first leaf or the next. */
  lemma SlotInPair(g: Geometry, index: nat, i: nat)
    requires TreeShape(g) && index < g.N
    requires PairStart(g, index) + g.logN == LeafStart(g, index)
    requires PairStart(g, index) <= i < PairStart(g, index) + 2 * g.logN
    ensures LeafOf(PairStart(g, index), g.logN) <= LeafOf(i, g.logN) <= LeafOf(index, g.logN)
  {
    PairWindow(g, index);
    LeafOfMonotone(PairStart(g, index), i, g.logN);
    if LeafStart(g, index) <= i {
      SlotInLeaf(g, index, i);
    } else {
      LeafOfMonotone(i, index, g.logN);
    }
  }

  /** The slots of the planned window and of the slide are held. */
  lemma PlannedCovered(a: seq<Edge>, g: Geometry, index: nat, minNode: nat, maxNode: nat, info: Info, i: nat)
    requires TreeShape(g) && |a| == g.N && index < g.N
    requires HoldsForInsert(a, g, index, minNode, maxNode, info)
    requires index <= i <= FirstEmpty(a, index) || info.nodeIndexFinal <= i < info.nodeIndexFinal + info.maxLen
    ensures minNode <= LeafOf(i, g.logN) <= maxNode
  {
    if index <= i <= FirstEmpty(a, index) {
      CoversSlot(minNode, maxNode, g.logN, index, FirstEmpty(a, index) + 1, i);
    } else {
      CoversSlot(minNode, maxNode, g.logN, info.nodeIndexFinal, info.nodeIndexFinal + info.maxLen, i);
    }
  }

  /** The pair that a full leaf spills into is held. */
  lemma PairCovered(a: seq<Edge>, g: Geometry, index: nat, elem: Edge, minNode: nat, maxNode: nat, info: Info, i: nat)
    requires TreeShape(g) && |a| == g.N && index < g.N && !IsNull(elem)
    requires HoldsForInsert(a, g, index, minNode, maxNode, info)
    requires LeafStart(g, index) + g.logN <= g.N
    requires Count(SlideInsert(a, index, elem), LeafStart(g, index), g.logN) == g.logN
    requires PairStart(g, index) <= i < PairStart(g, index) + 2 * g.logN
    ensures minNode <= LeafOf(i, g.logN) <= maxNode
  {
    FullLeafPlan(a, g, index, elem);
    PlanFacts(a, g, index);
    PlannedCovered(a, g, index, minNode, maxNode, info, index);
    if InsertPlan(a, g, index).len <= g.logN {
      SlotInPair(g, index, i);
    } else {
      PlannedCovered(a, g, index, minNode, maxNode, info, i);
    }
  }

  /** The footprint of an insertion that was told its window. */
  lemma FootprintParts(a: seq<Edge>, g: Geometry, index: nat, elem: Edge, info: Info, i: nat)
    requires TreeShape(g) && |a| == g.N && index < g.N && FirstEmpty(a, index) < g.N && !info.doubleList
    requires InfoShape(g, Some(info)) && InFootprint(a, g, index, elem, Some(info), i)
    ensures LeafStart(g, index) + g.logN <= g.N
    ensures
      || index <= i <= FirstEmpty(a, index)
      || info.nodeIndexFinal <= i < info.nodeIndexFinal + info.maxLen
      || LeafStart(g, index) <= i < LeafStart(g, index) + g.logN
      || (Count(SlideInsert(a, index, elem), LeafStart(g, index), g.logN) == g.logN
            && PairStart(g, index) <= i < PairStart(g, index) + 2 * g.logN)
  {
    PairWindow(g, index);
  }

  /** Every slot the insertion may write lies in a held leaf. */
  lemma FootprintCovered(a: seq<Edge>, g: Geometry, index: nat, elem: Edge, minNode: nat, maxNode: nat, info: Info, i: nat)
    requires TreeShape(g) && |a| == g.N && index < g.N && !IsNull(elem) && FirstEmpty(a, index) < g.N
    requires HoldsForInsert(a, g, index, minNode, maxNode, info) && InfoShape(g, Some(info))
    requires i < g.N && InFootprint(a, g, index, elem, Some(info), i)
    ensures minNode <= LeafOf(i, g.logN) <= maxNode
  {
    FootprintParts(a, g, index, elem, info, i);
    if index <= i <= FirstEmpty(a, index) || info.nodeIndexFinal <= i < info.nodeIndexFinal + info.maxLen {
      PlannedCovered(a, g, index, minNode, maxNode, info, i);
    } else if LeafStart(g, index) <= i < LeafStart(g, index) + g.logN {
      PlannedCovered(a, g, index, minNode, maxNode, info, index);
      SlotInLeaf(g, index, i);
    } else {
      PairCovered(a, g, index, elem, minNode, maxNode, info, i);
    }
  }

  // ---------------------------------------------------------------- what others write meanwhile

  /** The arrays have the same slots in the leaves `lo..hi`. */
  ghost predicate AgreeOn(a: seq<Edge>, b: seq<Edge>, logN: nat, lo: nat, hi: nat)
    requires logN > 0
  {
    |a| == |b| && forall i :: 0 <= i < |a| && lo <= LeafOf(i, logN) <= hi ==> a[i] == b[i]
  }

  /** They have the same slots from `from` up to but not including `to`. */
  ghost predicate Same(a: seq<Edge>, b: seq<Edge>, from: nat, to: nat) {
    |a| == |b| && to <= |a| && forall i :: from <= i < to ==> a[i] == b[i]
  }

  lemma SameStretch(a: seq<Edge>, b: seq<Edge>, logN: nat, lo: nat, hi: nat, from: nat, to: nat)
    requires logN > 0 && AgreeOn(a, b, logN, lo, hi) && Covers(lo, hi, logN, from, to) && to <= |a|
    ensures Same(a, b, from, to)
  {
    forall i | from <= i < to
      ensures a[i] == b[i]
    {
      CoversSlot(lo, hi, logN, from, to, i);
    }
  }

  /** A part of a stretch that is the same holds as many items. */
  lemma SamePart(a: seq<Edge>, b: seq<Edge>, from: nat, to: nat, s: nat, len: nat)
    requires Same(a, b, from, to) && from <= s && s + len <= to
    ensures Count(a, s, len) == Count(b, s, len)
  {
    assert a[s..s + len] == b[s..s + len];
  }

  predicate StopsAt(c: Climb, from: nat, to: nat) {
    c.Stop? && c.start == from && c.start + c.len == to
  }

  lemma ClimbAround(a: seq<Edge>, g: Geometry, start: nat, len: nat, level: nat, extra: nat)
    requires IsWindow(g, start, len, level) && |a| == g.N
    ensures var c := InsertClimb(a, g, start, len, level, extra);
      c.Stop? ==> c.start <= start && start + len <= c.start + c.len
  {
    InsertClimbStops(a, g, start, len, level, extra);
  }

  /** A climb depends on the window it ends at only. */
  lemma {:induction false} InsertClimbStays(a: seq<Edge>, b: seq<Edge>, g: Geometry, start: nat, len: nat, level: nat,
                                            extra: nat, from: nat, to: nat)
    requires IsWindow(g, start, len, level) && |a| == |b| == g.N && Same(a, b, from, to)
    requires StopsAt(InsertClimb(a, g, start, len, level, extra), from, to)
    ensures InsertClimb(b, g, start, len, level, extra) == InsertClimb(a, g, start, len, level, extra)
    decreases level
  {
    ClimbAround(a, g, start, len, level, extra);
    SamePart(a, b, from, to, start, len);
    if TooDense(g, Count(a, start, len) + extra, len, level) && level > 0 {
      var up, upLen, upLevel := WindowStart(start, 2 * len), 2 * len, level - 1;
      InsertClimbUp(a, g, start, len, level, extra, up, upLen, upLevel);
      InsertClimbUp(b, g, start, len, level, extra, up, upLen, upLevel);
      InsertClimbStays(a, b, g, up, upLen, upLevel, extra, from, to);
    }
  }

  lemma {:induction false} RemoveClimbStays(a: seq<Edge>, b: seq<Edge>, g: Geometry, start: nat, len: nat, level: nat,
                                            missing: nat, from: nat, to: nat)
    requires IsWindow(g, start, len, level) && |a| == |b| == g.N && Same(a, b, from, to)
    requires StopsAt(RemoveClimb(a, g, start, len, level, missing), from, to)
    ensures RemoveClimb(b, g, start, len, level, missing) == RemoveClimb(a, g, start, len, level, missing)
    decreases level
  {
    RemoveClimbStops(a, g, start, len, level, missing);
    SamePart(a, b, from, to, start, len);
    if TooSparse(g, Count(a, start, len) - missing, len, level) && level > 0 {
      var up, upLen, upLevel := WindowStart(start, 2 * len), 2 * len, level - 1;
      RemoveClimbUp(a, g, start, len, level, missing, up, upLen, upLevel);
      RemoveClimbUp(b, g, start, len, level, missing, up, upLen, upLevel);
      RemoveClimbStays(a, b, g, up, upLen, upLevel, missing, from, to);
    }
  }

  lemma {:induction false} FirstEmptyStays(a: seq<Edge>, b: seq<Edge>, i: nat)
    requires i <= |a| == |b| && FirstEmpty(a, i) < |a|
    requires forall k :: i <= k <= FirstEmpty(a, i) ==> a[k] == b[k]
    ensures FirstEmpty(b, i) == FirstEmpty(a, i)
    decreases |a| - i
  {
    if !IsNull(a[i]) {
      FirstEmptyStays(a, b, i + 1);
    }
  }

  lemma PlanStartStays(a: seq<Edge>, b: seq<Edge>, g: Geometry, index: nat, minNode: nat, maxNode: nat)
    requires TreeShape(g) && |a| == |b| == g.N && index < g.N && minNode <= LeafOf(index, g.logN) <= maxNode
    requires AgreeOn(a, b, g.logN, minNode, maxNode)
    ensures PlanStart(b, g, index) == PlanStart(a, g, index)
  {
    LeafHeld(g, index, minNode, maxNode);
    var s, e := LeafStart(g, index), LeafStart(g, index) + g.logN;
    SameStretch(a, b, g.logN, minNode, maxNode, s, e);
    SamePart(a, b, s, e, s, g.logN);
  }

  lemma PlannedWindow(a: seq<Edge>, g: Geometry, index: nat)
    requires TreeShape(g) && |a| == g.N && index < g.N
    ensures IsWindow(g, PlanStart(a, g, index), g.logN, g.H)
    ensures InsertPlan(a, g, index) == InsertClimb(a, g, PlanStart(a, g, index), g.logN, g.H, 1)
    ensures var p := InsertPlan(a, g, index); p.Stop? ==> p.start + p.len <= g.N
  {
    PairWindow(g, index);
    PlanFacts(a, g, index);
  }

  /** The plan is the same, whatever others write into leaves that are not held. */
  lemma PlanStays(a: seq<Edge>, b: seq<Edge>, g: Geometry, index: nat, minNode: nat, maxNode: nat, info: Info)
    requires TreeShape(g) && |a| == |b| == g.N && index < g.N && HoldsForInsert(a, g, index, minNode, maxNode, info)
    requires AgreeOn(a, b, g.logN, minNode, maxNode)
    ensures PlanStart(b, g, index) == PlanStart(a, g, index) && InsertPlan(b, g, index) == InsertPlan(a, g, index)
  {
    var p, start := InsertPlan(a, g, index), PlanStart(a, g, index);
    CoversSlot(minNode, maxNode, g.logN, index, FirstEmpty(a, index) + 1, index);
    PlanStartStays(a, b, g, index, minNode, maxNode);
    PlannedWindow(a, g, index);
    PlannedWindow(b, g, index);
    SameStretch(a, b, g.logN, minNode, maxNode, p.start, p.start + p.len);
    InsertClimbStays(a, b, g, start, g.logN, g.H, 1, p.start, p.start + p.len);
  }

  lemma HoleStays(a: seq<Edge>, b: seq<Edge>, g: Geometry, index: nat, minNode: nat, maxNode: nat)
    requires TreeShape(g) && |a| == |b| == g.N && index < g.N && FirstEmpty(a, index) < g.N
    requires Covers(minNode, maxNode, g.logN, index, FirstEmpty(a, index) + 1) && AgreeOn(a, b, g.logN, minNode, maxNode)
    ensures FirstEmpty(b, index) == FirstEmpty(a, index)
  {
    forall k | index <= k <= FirstEmpty(a, index)
      ensures a[k] == b[k]
    {
      CoversSlot(minNode, maxNode, g.logN, index, FirstEmpty(a, index) + 1, k);
    }
    FirstEmptyStays(a, b, index);
  }

  /** What is held for an insertion is still what it needs, whatever others write into leaves that are not held. */
  lemma HeldStaysEnough(a: seq<Edge>, b: seq<Edge>, g: Geometry, index: nat, minNode: nat, maxNode: nat, info: Info)
    requires TreeShape(g) && |a| == |b| == g.N && index < g.N && HoldsForInsert(a, g, index, minNode, maxNode, info)
    requires AgreeOn(a, b, g.logN, minNode, maxNode)
    ensures HoldsForInsert(b, g, index, minNode, maxNode, info)
  {
    PlanStays(a, b, g, index, minNode, maxNode, info);
    HoleStays(a, b, g, index, minNode, maxNode);
  }

  lemma PlannedRemoval(a: seq<Edge>, g: Geometry, index: nat)
    requires TreeShape(g) && |a| == g.N && index < g.N && !IsNull(a[index])
    ensures IsWindow(g, LeafStart(g, index), g.logN, g.H)
    ensures RemoveTarget(a, g, index) == RemoveClimb(a, g, LeafStart(g, index), g.logN, g.H, 1)
    ensures var t := RemoveTarget(a, g, index); t.Stop? ==> t.start <= index < t.start + t.len <= g.N
  {
    PairWindow(g, index);
    RemovePlanExact(a, g, index);
    RemoveClimbStops(a, g, LeafStart(g, index), g.logN, g.H, 1);
  }

  /** So is the window that is held for a removal. */
  lemma RemovalStays(a: seq<Edge>, b: seq<Edge>, g: Geometry, index: nat, minNode: nat, maxNode: nat)
    requires TreeShape(g) && |a| == |b| == g.N && index < g.N && !IsNull(a[index])
    requires var t := RemoveTarget(a, g, index);
      t.Stop? && Covers(minNode, maxNode, g.logN, t.start, t.start + t.len)
    requires AgreeOn(a, b, g.logN, minNode, maxNode)
    ensures b[index] == a[index] && RemoveTarget(b, g, index) == RemoveTarget(a, g, index)
  {
    var t := RemoveTarget(a, g, index);
    PlannedRemoval(a, g, index);
    CoversSlot(minNode, maxNode, g.logN, t.start, t.start + t.len, index);
    SameStretch(a, b, g.logN, minNode, maxNode, t.start, t.start + t.len);
    RemoveClimbStays(a, b, g, LeafStart(g, index), g.logN, g.H, 1, t.start, t.start + t.len);
    PlannedRemoval(b, g, index);
  }

  // ---------------------------------------------------------------- what lock acquisition finds out

  /** The leaf a climb that holds leaves from `minNode` on has to start again from, if any. */
  ghost function RestartLeaf(a: seq<Edge>, g: Geometry, start: nat, len: nat, level: nat, minNode: nat): Option<nat>
    requires IsWindow(g, start, len, level) && |a| == g.N && g.logN > 0
    decreases level
  {
    if LeafOf(start, g.logN) < minNode then Some(LeafOf(start, g.logN))
    else if level == 0 || !TooDense(g, Count(a, start, len) + 1, len, level) then None
    else
      ParentWindow(g, start, len, level);
      RestartLeaf(a, g, WindowStart(start, 2 * len), 2 * len, level - 1, minNode)
  }

  lemma RestartUp(a: seq<Edge>, g: Geometry, start: nat, len: nat, level: nat, minNode: nat,
                  up: nat, upLen: nat, upLevel: nat)
    requires IsWindow(g, start, len, level) && |a| == g.N && level > 0 && g.logN > 0
    requires minNode <= LeafOf(start, g.logN) && TooDense(g, Count(a, start, len) + 1, len, level)
    requires upLen == 2 * len && up == WindowStart(start, upLen) && upLevel == level - 1
    ensures IsWindow(g, up, upLen, upLevel)
    ensures RestartLeaf(a, g, start, len, level, minNode) == RestartLeaf(a, g, up, upLen, upLevel, minNode)
  {
    ParentWindow(g, start, len, level);
  }

  /** It has to if and only if the window that the climb ends at, or the whole array, begins left of those leaves. */
  lemma {:induction false} RestartExactly(a: seq<Edge>, g: Geometry, start: nat, len: nat, level: nat, minNode: nat)
    requires TreeShape(g) && IsWindow(g, start, len, level) && |a| == g.N
    ensures RestartLeaf(a, g, start, len, level, minNode).Some? <==>
      var c := InsertClimb(a, g, start, len, level, 1);
      LeafOf(if c.Stop? then c.start else 0, g.logN) < minNode
    decreases level
  {
    InsertClimbStops(a, g, start, len, level, 1);
    var c := InsertClimb(a, g, start, len, level, 1);
    LeafOfMonotone(if c.Stop? then c.start else 0, start, g.logN);
    if LeafOf(start, g.logN) >= minNode && TooDense(g, Count(a, start, len) + 1, len, level) {
      if level == 0 {
        assert start == 0;
      } else {
        ParentWindow(g, start, len, level);
        RestartExactly(a, g, WindowStart(start, 2 * len), 2 * len, level - 1, minNode);
      }
    }
  }

  /** The same for the climb of `acquire_insert_locks`. */
  ghost function InsertRestart(a: seq<Edge>, g: Geometry, index: nat, minNode: nat): Option<nat>
    requires TreeShape(g) && |a| == g.N && index < g.N
  {
    PairWindow(g, index);
    RestartLeaf(a, g, PlanStart(a, g, index), g.logN, g.H, minNode)
  }

  function RestartOf(c: LockClimb): Option<nat> {
    if c.GoLeft? then Some(c.leaf) else None
  }

  /** What an insertion is told when lock acquisition ends with the climb `c`. */
  function InfoOf(c: Climb): Info {
    if c.Stop? then Info(false, c.len, c.start) else Info(true, 0, 0)
  }

  /** What it is told in the end: after four restarts nothing. */
  ghost function Hint(a: seq<Edge>, g: Geometry, index: nat, minNode: nat, tries: nat): Option<Info>
    requires TreeShape(g) && |a| == g.N && index < g.N
    decreases 4 - tries
  {
    if tries > 3 then None
    else
      var restart := InsertRestart(a, g, index, minNode);
      if restart.Some? then Hint(a, g, index, restart.value, tries + 1) else Some(InfoOf(InsertPlan(a, g, index)))
  }

  /** The first leaf that is locked. */
  function StartNode(leaf: nat, lockSearch: bool, leftBound: Option<nat>): nat {
    if leftBound.Some? then leftBound.value else if leaf > 0 && !lockSearch then leaf - 1 else leaf
  }

  /** The first leaf held in the end: a window that begins further left is locked from its own first leaf on. */
  function Lower(first: nat, leaf: nat): nat {
    if leaf < first then leaf else first
  }

  /** The information an insertion at `index` gets, from the array before it; none under the global lock alone. */
  ghost function InsertInfo(a: seq<Edge>, g: Geometry, index: nat, lockSearch: bool, retries: nat): Option<Info>
    requires TreeShape(g) && |a| == g.N && index < g.N
  {
    if retries > 3 then None
    else Hint(a, g, index, StartNode(LeafOf(index, g.logN), lockSearch, None), 0)
  }

  /** It is told the plan at once if what is planned does not begin left of the first leaf that is locked. */
  lemma InfoAtOnce(a: seq<Edge>, g: Geometry, index: nat, lockSearch: bool, retries: nat)
    requires TreeShape(g) && |a| == g.N && index < g.N && retries <= 3
    ensures var t, first := InsertPlan(a, g, index), StartNode(LeafOf(index, g.logN), lockSearch, None);
      first <= LeafOf(if t.Stop? then t.start else 0, g.logN) ==>
        InsertInfo(a, g, index, lockSearch, retries) == Some(InfoOf(t))
  {
    PairWindow(g, index);
    RestartExactly(a, g, PlanStart(a, g, index), g.logN, g.H, StartNode(LeafOf(index, g.logN), lockSearch, None));
  }

  /** It is told nothing, or exactly the plan made before the insertion. */
  lemma {:induction false} HintIs(a: seq<Edge>, g: Geometry, index: nat, minNode: nat, tries: nat)
    requires TreeShape(g) && |a| == g.N && index < g.N
    ensures Hint(a, g, index, minNode, tries) == None
         || Hint(a, g, index, minNode, tries) == Some(InfoOf(InsertPlan(a, g, index)))
    decreases 4 - tries
  {
    if tries <= 3 {
      var restart := InsertRestart(a, g, index, minNode);
      if restart.Some? {
        HintIs(a, g, index, restart.value, tries + 1);
      }
    }
  }

  lemma {:induction false} HintFits(a: seq<Edge>, g: Geometry, index: nat, minNode: nat, tries: nat)
    requires TreeShape(g) && |a| == g.N && index < g.N
    ensures InfoFits(a, g, index, Hint(a, g, index, minNode, tries))
    decreases 4 - tries
  {
    if tries <= 3 {
      var restart := InsertRestart(a, g, index, minNode);
      if restart.Some? {
        HintFits(a, g, index, restart.value, tries + 1);
      }
    }
  }

  lemma InsertInfoFits(a: seq<Edge>, g: Geometry, index: nat, lockSearch: bool, retries: nat)
    requires TreeShape(g) && |a| == g.N && index < g.N
    ensures InfoFits(a, g, index, InsertInfo(a, g, index, lockSearch, retries))
  {
    if retries <= 3 {
      HintFits(a, g, index, StartNode(LeafOf(index, g.logN), lockSearch, None), 0);
    }
  }

  /** The attempt that is not disturbed, or the one under the global lock. */
  function LastAttempt(busy: seq<bool>, retries: nat): (last: nat)
    ensures retries <= last && (retries <= 4 ==> last <= 4)
    ensures retries < last ==> last <= |busy| && forall k :: retries <= k < last ==> busy[k]
    ensures last <= 3 && last < |busy| ==> !busy[last]
    decreases 4 - retries
  {
    if retries > 3 || retries >= |busy| || !busy[retries] then retries else LastAttempt(busy, retries + 1)
  }

  /** What the outcome tells the insertion. */
  function ToldBy(r: InsertLocks): Option<Info> {
    match r
    case Acquired(_, _, info) => Some(info)
    case NeedGlobalWrite(hint) => hint
    case NeedRetry => None
  }

  // ---------------------------------------------------------------- outcomes

  ghost function InsertHeld(r: InsertLocks): set<nat> {
    if r.Acquired? then Leaves(r.minNode, r.maxNode + 1) else {}
  }

  /**
   What the outcome of `acquire_insert_locks` says. `current` is whether the
   leaf of `index` still has the version seen by the search, `checked` whether
   the place was checked again.
   */
  ghost predicate InsertOutcome(r: InsertLocks, nodes: seq<Node>, a: seq<Edge>, g: Geometry,
                                index: nat, elem: Edge, current: bool, checked: bool)
    requires TreeShape(g) && |a| == g.N && index < g.N
  {
    match r
    case Acquired(minNode, maxNode, info) =>
      && current && HoldsForInsert(a, g, index, minNode, maxNode, info)
      && (checked ==> ChecksPass(|nodes|, a, elem.src, elem.dest, index))
      && (checked && !IsNull(a[index]) ==> PlaceIn(nodes, a, elem.src, elem.dest, index))
    case NeedGlobalWrite(Some(info)) => current && info.doubleList && InsertPlan(a, g, index).PastRoot?
    case NeedGlobalWrite(None) => true
    case NeedRetry => !(current && PlaceIn(nodes, a, elem.src, elem.dest, index))
  }

  /** An attempt starts again further left only if what is planned needs that leaf. */
  ghost predicate RestartNeeded(leaf: nat, minNode: nat, t: Climb, g: Geometry)
    requires g.logN > 0
  {
    leaf < minNode && (t.Stop? ==> LeafOf(t.start, g.logN) <= leaf)
  }

  /** The last leaf that the check of the place walks to: that of the slot or, if the slot is empty, of the next item. */
  ghost predicate CheckEnds(a: seq<Edge>, index: nat, logN: nat, maxNode: nat)
    requires logN > 0 && index < |a|
  {
    maxNode == LeafOf(index, logN) || (IsNull(a[index]) &&
      forall right: nat {:trigger IsNextItem(a, index + 1, right)} :: IsNextItem(a, index + 1, right) && right < |a| ==>
        maxNode == LeafOf(right, logN))
  }

  /** The leaves held for an insertion end with what is checked, with the planned window, or with the slide. */
  ghost predicate LocksEnd(r: InsertLocks, a: seq<Edge>, index: nat, logN: nat)
    requires logN > 0 && index < |a|
  {
    r.Acquired? ==>
      || CheckEnds(a, index, logN, r.maxNode)
      || EndsWith(r.maxNode, LeafOf(FirstEmpty(a, index), logN), r.info.nodeIndexFinal + r.info.maxLen, logN)
  }

  /** If searches take no locks, the leaf left of the insertion is held, too, and with it the slot before. */
  lemma StartHeld(r: InsertLocks, a: seq<Edge>, g: Geometry, index: nat, lockSearch: bool, leftBound: Option<nat>)
    requires TreeShape(g) && |a| == g.N && 0 < index < g.N
    requires r.Acquired? ==> HoldsForInsert(a, g, index, r.minNode, r.maxNode, r.info)
    requires r.Acquired? ==>
      r.minNode == Lower(StartNode(LeafOf(index, g.logN), lockSearch, leftBound), LeafOf(r.info.nodeIndexFinal, g.logN))
    ensures r.Acquired? && leftBound.None? && !lockSearch ==>
      && (LeafOf(index, g.logN) > 0 ==> r.minNode < LeafOf(index, g.logN))
      && LeafOf(index - 1, g.logN) in InsertHeld(r)
  {
    if r.Acquired? {
      NextSlotLeaf(index - 1, g.logN);
      CoversSlot(r.minNode, r.maxNode, g.logN, index, FirstEmpty(a, index) + 1, index);
    }
  }

  lemma AcquiredOutcome(nodes: seq<Node>, a: seq<Edge>, g: Geometry, index: nat, elem: Edge, checked: bool,
                        minNode: nat, c: LockClimb, maxNode: nat)
    requires TreeShape(g) && |a| == g.N && index < g.N && FirstEmpty(a, index) < g.N
    requires c.Reached? && minNode <= c.maxNode <= maxNode < LeafCount(g)
    requires LockClimbFits(c, InsertPlan(a, g, index), g, minNode)
    requires Covers(minNode, maxNode, g.logN, index, FirstEmpty(a, index) + 1)
    requires minNode <= LeafOf(PlanStart(a, g, index), g.logN)
    requires checked ==> ChecksPass(|nodes|, a, elem.src, elem.dest, index)
    requires checked && !IsNull(a[index]) ==> PlaceIn(nodes, a, elem.src, elem.dest, index)
    ensures InsertOutcome(Acquired(minNode, maxNode, Info(false, c.len, c.start)), nodes, a, g, index, elem, true, checked)
  {
  }

  ghost function RemoveHeld(r: RemoveLocks, leaves: nat): set<nat> {
    match r
    case Held(minNode, maxNode) => Leaves(minNode, maxNode + 1)
    case NeedHalving => Leaves(0, leaves)
    case _ => {}
  }

  /**
   What the outcome of `acquire_remove_locks` says: it knows whether `remove`
   is going to halve the array, and otherwise which window it redistributes.
   */
  ghost predicate RemoveOutcome(r: RemoveLocks, nodes: seq<Node>, a: seq<Edge>, g: Geometry,
                                index: nat, elem: Edge, current: bool)
    requires TreeShape(g) && |a| == g.N && index < g.N
  {
    var here := PlaceIn(nodes, a, elem.src, elem.dest, index);
    match r
    case Held(minNode, maxNode) =>
      && current && here && Overwrites(a, index, elem) && minNode <= maxNode < LeafCount(g)
      && var t := RemoveTarget(a, g, index);
         t.Stop? && Covers(minNode, maxNode, g.logN, t.start, t.start + t.len)
    case NeedHalving => current && here && Overwrites(a, index, elem) && RemoveTarget(a, g, index).PastRoot?
    case EdgeNotFound => current && !Overwrites(a, index, elem)
    case RemoveRetry => !(current && here)
  }

  lemma HeldOutcome(nodes: seq<Node>, a: seq<Edge>, g: Geometry, index: nat, elem: Edge, minNode: nat, c: LockClimb)
    requires TreeShape(g) && |a| == g.N && index < g.N && Overwrites(a, index, elem)
    requires PlaceIn(nodes, a, elem.src, elem.dest, index) && minNode <= c.maxNode < LeafCount(g)
    requires LockClimbFits(c, RemovePlan(a, g, index), g, minNode)
    ensures c.Reached? ==> RemoveOutcome(Held(minNode, c.maxNode), nodes, a, g, index, elem, true)
    ensures c.Past? ==> RemoveOutcome(NeedHalving, nodes, a, g, index, elem, true)
  {
    RemovePlanExact(a, g, index);
  }

  /** The leaves `minNode..maxNode` begin at `first`, or with the window that `remove` will redistribute, and end with it. */
  ghost predicate HeldFrom(minNode: nat, maxNode: nat, a: seq<Edge>, g: Geometry, index: nat, first: Option<nat>)
    requires TreeShape(g) && |a| == g.N && index < g.N
  {
    var t := RemoveTarget(a, g, index);
    && t.Stop? && 0 < t.start + t.len && maxNode == LeafOf(t.start + t.len - 1, g.logN)
    && (first == Some(minNode) || minNode == LeafOf(t.start, g.logN))
  }

  /** After starting again further left they begin with the window, */
  lemma HeldAfterRestart(nodes: seq<Node>, a: seq<Edge>, g: Geometry, index: nat, elem: Edge,
                         minNode: nat, maxNode: nat, bound: nat, restart: nat)
    requires TreeShape(g) && |a| == g.N && index < g.N && !IsNull(a[index])
    requires RemoveOutcome(Held(minNode, maxNode), nodes, a, g, index, elem, true)
    requires RestartNeeded(restart, bound, RemovePlan(a, g, index), g)
    requires HeldFrom(minNode, maxNode, a, g, index, Some(restart))
    ensures HeldFrom(minNode, maxNode, a, g, index, None)
  {
    RemovePlanExact(a, g, index);
  }

  /** and also if they begin with the leaf of the edge. */
  lemma HeldFromLeaf(nodes: seq<Node>, a: seq<Edge>, g: Geometry, index: nat, elem: Edge, minNode: nat, maxNode: nat)
    requires TreeShape(g) && |a| == g.N && index < g.N
    requires RemoveOutcome(Held(minNode, maxNode), nodes, a, g, index, elem, true)
    requires HeldFrom(minNode, maxNode, a, g, index, Some(LeafOf(index, g.logN)))
    ensures HeldFrom(minNode, maxNode, a, g, index, None)
  {
    PlannedRemoval(a, g, index);
    LeafOfMonotone(RemoveTarget(a, g, index).start, index, g.logN);
  }

  /** Where the climb for the locks ends is where that of `remove` will, around the edge. */
  lemma ClimbForRemoval(a: seq<Edge>, g: Geometry, index: nat, minNode: nat, c: LockClimb)
    requires TreeShape(g) && |a| == g.N && index < g.N && !IsNull(a[index]) && c.Reached?
    requires LockClimbFits(c, RemovePlan(a, g, index), g, minNode)
    ensures c.start <= index < c.start + c.len
    ensures var t := RemoveTarget(a, g, index); t.Stop? && t.start == c.start && t.len == c.len
  {
    PlannedRemoval(a, g, index);
    RemovePlanExact(a, g, index);
  }

  /** Nothing beyond the window has been locked. */
  lemma EndOfClimb(index: nat, logN: nat, minNode: nat, maxNode: nat, start: nat, len: nat)
    requires logN > 0 && start <= index < start + len && Covers(minNode, maxNode, logN, start, start + len)
    requires EndsWith(maxNode, LeafOf(index, logN), start + len, logN)
    ensures maxNode == LeafOf(start + len - 1, logN)
  {
    LeafOfMonotone(index, start + len - 1, logN);
  }

  /** So what the climb has locked ends with the window. */
  lemma HeldByClimb(a: seq<Edge>, g: Geometry, index: nat, minNode: nat, c: LockClimb)
    requires TreeShape(g) && |a| == g.N && index < g.N && !IsNull(a[index]) && c.Reached?
    requires LockClimbFits(c, RemovePlan(a, g, index), g, minNode)
    requires EndsWith(c.maxNode, LeafOf(index, g.logN), c.start + c.len, g.logN)
    ensures HeldFrom(minNode, c.maxNode, a, g, index, Some(minNode))
  {
    ClimbForRemoval(a, g, index, minNode, c);
    EndOfClimb(index, g.logN, minNode, c.maxNode, c.start, c.len);
  }
}
