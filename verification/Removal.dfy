/**
 What one removal makes of the edge array, as a function of its slots, and what
 that function keeps. `remove` is proved to compute exactly this.
 */
module Removal {
  import opened Arithmetic
  import opened Geometries
  import opened Slots
  import opened Spreading
  import opened Windows
  import opened Insertion

  /** The array once the slot's value and destination are zeroed; `src` stays behind. */
  function Cleared(a: seq<Edge>, index: nat): seq<Edge>
    requires index < |a|
  {
    a[index := Edge(a[index].src, 0, 0)]
  }

  ghost function Vacated(a: seq<Edge>, g: Geometry, index: nat): (c: seq<Edge>)
    requires TreeShape(g) && |a| == g.N && index < g.N
    ensures |c| == g.N
  {
    PairWindow(g, index);
    Rebalance(Cleared(a, index), LeafStart(g, index), g.logN)
  }

  /** The climb of `remove`, on the array after the leaf has been redistributed. */
  ghost function RemoveTarget(a: seq<Edge>, g: Geometry, index: nat): Climb
    requires TreeShape(g) && |a| == g.N && index < g.N
  {
    PairWindow(g, index);
    RemoveClimb(Vacated(a, g, index), g, LeafStart(g, index), g.logN, g.H, 0)
  }

  /** The climb of `acquire_remove_locks`, on the array before the removal. */
  ghost function RemovePlan(a: seq<Edge>, g: Geometry, index: nat): Climb
    requires TreeShape(g) && |a| == g.N && index < g.N
  {
    PairWindow(g, index);
    RemoveClimb(a, g, LeafStart(g, index), g.logN, g.H, 1)
  }

  /** If the array is to be halved, what is left fits; `HalvingFits` shows that it always does. */
  ghost predicate RemovalFits(a: seq<Edge>, g: Geometry, index: nat)
    requires TreeShape(g) && |a| == g.N && index < g.N
  {
    RemoveTarget(a, g, index).PastRoot? ==> |Live(Cleared(a, index))| <= g.N / 2
  }

  /** If the array is to be halved, it keeps at least 8 slots; see `Limits.HalvingKeepsGeometry`. */
  ghost predicate KeepsTree(a: seq<Edge>, g: Geometry, index: nat)
    requires TreeShape(g) && |a| == g.N && index < g.N
  {
    RemoveTarget(a, g, index).PastRoot? ==> g.N > 8
  }

  /** The array after removing the item at `index`. */
  ghost function Removed(a: seq<Edge>, g: Geometry, index: nat): seq<Edge>
    requires TreeShape(g) && |a| == g.N && index < g.N
    requires RemovalFits(a, g, index)
  {
    var c, t := Vacated(a, g, index), RemoveTarget(a, g, index);
    VacatedLive(a, g, index);
    RemoveTargetShape(a, g, index);
    Shrunk(c, t)
  }

  /** The last step of a removal: redistribute one window, or halve the array. */
  ghost function Shrunk(c: seq<Edge>, t: Climb): seq<Edge>
    requires t.PastRoot? ==> |Live(c)| <= |c| / 2
    requires t.Stop? ==> t.start + t.len <= |c|
  {
    if t.PastRoot? then Spread(Live(c), |c| / 2) else Rebalance(c, t.start, t.len)
  }

  lemma VacatedLive(a: seq<Edge>, g: Geometry, index: nat)
    requires TreeShape(g) && |a| == g.N && index < g.N
    ensures Live(Vacated(a, g, index)) == Live(Cleared(a, index))
  {
    PairWindow(g, index);
    RebalanceLive(Cleared(a, index), LeafStart(g, index), g.logN);
  }

  lemma RemoveTargetShape(a: seq<Edge>, g: Geometry, index: nat)
    requires TreeShape(g) && |a| == g.N && index < g.N
    ensures var t := RemoveTarget(a, g, index);
      t.Stop? ==> 0 < t.len && t.start + t.len <= g.N && t.start <= LeafStart(g, index)
                  && LeafStart(g, index) + g.logN <= t.start + t.len
  {
    PairWindow(g, index);
    RemoveClimbStops(Vacated(a, g, index), g, LeafStart(g, index), g.logN, g.H, 0);
  }

  lemma TargetFrom(b: seq<Edge>, g: Geometry, p: nat, c: seq<Edge>)
    requires TreeShape(g) && |b| == g.N && p < g.N && c == Vacated(b, g, p)
    ensures IsWindow(g, LeafStart(g, p), g.logN, g.H)
    ensures RemoveTarget(b, g, p) == RemoveClimb(c, g, LeafStart(g, p), g.logN, g.H, 0)
  {
    PairWindow(g, p);
  }

  /** Exactly the cleared item goes. */
  lemma ClearedLive(a: seq<Edge>, index: nat)
    requires index < |a| && !IsNull(a[index])
    ensures Live(a) == Live(a[..index]) + [a[index]] + Live(a[index + 1..])
    ensures Live(Cleared(a, index)) == Live(a[..index]) + Live(a[index + 1..])
  {
    var e := Edge(a[index].src, 0, 0);
    SeqSplit(a, index);
    SeqUpdate(a, index, e);
    LiveAround(a[..index], a[index], a[index + 1..]);
    LiveAround(a[..index], e, a[index + 1..]);
  }

  lemma RemovedLive(a: seq<Edge>, g: Geometry, index: nat)
    requires TreeShape(g) && |a| == g.N && index < g.N
    requires RemovalFits(a, g, index)
    ensures Live(Removed(a, g, index)) == Live(Cleared(a, index))
  {
    var c, t := Vacated(a, g, index), RemoveTarget(a, g, index);
    VacatedLive(a, g, index);
    RemoveTargetShape(a, g, index);
    if t.PastRoot? {
      LiveItems(c);
      SpreadLive(Live(c), g.N / 2);
    } else {
      RebalanceLive(c, t.start, t.len);
    }
  }

  // ---------------------------------------------------------------- the prediction of lock acquisition

  lemma ClearedCount(a: seq<Edge>, index: nat, s: nat, len: nat)
    requires index < |a| && !IsNull(a[index]) && s <= index < s + len <= |a|
    ensures Count(Cleared(a, index), s, len) == Count(a, s, len) - 1
  {
    var b := Cleared(a, index);
    assert b[s..s + len] == Cleared(a[s..s + len], index - s);
    ClearedLive(a[s..s + len], index - s);
  }

  lemma VacatedCount(a: seq<Edge>, g: Geometry, index: nat, start: nat, len: nat)
    requires TreeShape(g) && |a| == g.N && index < g.N && !IsNull(a[index])
    requires start <= LeafStart(g, index) && LeafStart(g, index) + g.logN <= start + len <= g.N
    ensures Count(Vacated(a, g, index), start, len) == Count(a, start, len) - 1
  {
    PairWindow(g, index);
    ClearedCount(a, index, start, len);
    RebalanceCount(Cleared(a, index), LeafStart(g, index), g.logN, start, len);
  }

  /** The windows around a leaf hold one item less in `b`. */
  ghost predicate OneLess(a: seq<Edge>, b: seq<Edge>, left: nat, right: nat) {
    && |a| == |b|
    && forall s: nat, len: nat {:trigger Count(b, s, len)} :: s <= left && right <= s + len <= |a| ==>
         Count(b, s, len) == Count(a, s, len) - 1
  }

  /** The climb before the removal, one item short, is the climb after it. */
  lemma {:induction false} RemoveClimbPredicted(a: seq<Edge>, b: seq<Edge>, g: Geometry, left: nat, right: nat,
                                                start: nat, len: nat, level: nat)
    requires TreeShape(g) && |a| == g.N && OneLess(a, b, left, right)
    requires IsWindow(g, start, len, level) && start <= left && right <= start + len
    ensures RemoveClimb(b, g, start, len, level, 0) == RemoveClimb(a, g, start, len, level, 1)
    decreases level
  {
    if TooSparse(g, Count(a, start, len) - 1, len, level) && level > 0 {
      ParentWindow(g, start, len, level);
      RemoveClimbPredicted(a, b, g, left, right, WindowStart(start, 2 * len), 2 * len, level - 1);
    }
  }

  /** `acquire_remove_locks` and `remove` find the same window, or both pass the root. */
  lemma RemovePlanExact(a: seq<Edge>, g: Geometry, index: nat)
    requires TreeShape(g) && |a| == g.N && index < g.N && !IsNull(a[index])
    ensures RemoveTarget(a, g, index) == RemovePlan(a, g, index)
  {
    PairWindow(g, index);
    var b, left, right := Vacated(a, g, index), LeafStart(g, index), LeafStart(g, index) + g.logN;
    forall s: nat, len: nat | s <= left && right <= s + len <= |a|
      ensures Count(b, s, len) == Count(a, s, len) - 1
    {
      VacatedCount(a, g, index, s, len);
    }
    RemoveClimbPredicted(a, b, g, left, right, left, g.logN, g.H);
  }

  /** The array is halved only when fewer than a quarter of its slots are used afterwards, so the items fit. */
  lemma HalvingFits(a: seq<Edge>, g: Geometry, index: nat)
    requires TreeShape(g) && |a| == g.N && index < g.N
    requires RemoveTarget(a, g, index).PastRoot?
    ensures 4 * |Live(Cleared(a, index))| < g.N
    ensures |Live(Cleared(a, index))| <= g.N / 2
  {
    PairWindow(g, index);
    RemoveClimbPastRoot(Vacated(a, g, index), g, LeafStart(g, index), g.logN, g.H, 0);
    VacatedLive(a, g, index);
  }

  // ---------------------------------------------------------------- shape

  lemma VacatedShape(a: seq<Edge>, g: Geometry, index: nat)
    requires TreeShape(g) && |a| == g.N && 0 < index < g.N
    requires Clean(a) && !IsNull(a[0]) && TailFree(a)
    ensures var c := Vacated(a, g, index); Clean(c) && !IsNull(c[0]) && TailFree(c)
  {
    PairWindow(g, index);
    var b := Cleared(a, index);
    assert b[0] == a[0] && TailFree(b);
    RebalancedShape(b, LeafStart(g, index), g.logN);
  }

  lemma RebalancedShape(b: seq<Edge>, s: nat, len: nat)
    requires 0 < len && s + len <= |b| && !IsNull(b[0]) && TailFree(b)
    requires forall i :: 0 <= i < |b| && !(s <= i < s + len) && IsNull(b[i]) ==> b[i] == EMPTY
    ensures var c := Rebalance(b, s, len); Clean(c) && !IsNull(c[0]) && TailFree(c)
  {
    RebalanceCleans(b, s, len);
    RebalanceKeepsShape(b, s, len);
    RebalanceTail(b, s, len);
  }

  /** Compacting fewer items than slots into an array of `n` slots. */
  lemma CompactedShape(c: seq<Edge>, n: nat)
    requires c != [] && !IsNull(c[0]) && |Live(c)| < n
    ensures var d := Spread(Live(c), n); Clean(d) && !IsNull(d[0]) && TailFree(d)
  {
    LiveItems(c);
    LiveSplit(c, 0);
    SpreadShape(Live(c), n);
  }

  /** Slot 0 stays occupied, empty slots fully cleared, the last slot empty. */
  lemma RemovedShape(a: seq<Edge>, g: Geometry, index: nat)
    requires TreeShape(g) && |a| == g.N && 0 < index < g.N
    requires RemovalFits(a, g, index)
    requires Clean(a) && !IsNull(a[0]) && TailFree(a)
    ensures var d := Removed(a, g, index); d != [] && TailFree(d) && !IsNull(d[0]) && Clean(d)
  {
    var c, t := Vacated(a, g, index), RemoveTarget(a, g, index);
    VacatedShape(a, g, index);
    RemoveTargetShape(a, g, index);
    if t.PastRoot? {
      HalvingFits(a, g, index);
      VacatedLive(a, g, index);
      CompactedShape(c, g.N / 2);
    } else {
      RebalancedShape(c, t.start, t.len);
    }
  }

  /** Outside the window that is redistributed last nothing changes. */
  lemma RemovedOutside(a: seq<Edge>, g: Geometry, index: nat, i: nat)
    requires TreeShape(g) && |a| == g.N && index < g.N
    requires RemoveTarget(a, g, index).Stop? && i < g.N
    requires var t := RemoveTarget(a, g, index); !(t.start <= i < t.start + t.len)
    ensures |Removed(a, g, index)| == g.N && Removed(a, g, index)[i] == a[i]
  {
    var t := RemoveTarget(a, g, index);
    PairWindow(g, index);
    RemoveTargetShape(a, g, index);
    RebalanceSlots(Cleared(a, index), LeafStart(g, index), g.logN);
    RebalanceSlots(Vacated(a, g, index), t.start, t.len);
  }

  /** What is left is well-formed. */
  lemma ClearedWellFormed(a: seq<Edge>, index: nat, n: nat)
    requires WellFormed(Live(a), n) && index < |a| && !IsNull(a[index]) && !IsSentinel(a[index])
    ensures WellFormed(Live(Cleared(a, index)), n)
  {
    ClearedLive(a, index);
    WellFormedRemove(Live(a[..index]), a[index], Live(a[index + 1..]), n);
  }

  /** With two vertices there are two sentinels, so the array is never halved below 8 slots. */
  lemma HalvingKeepsEight(a: seq<Edge>, g: Geometry, index: nat, n: nat)
    requires TreeShape(g) && |a| == g.N && index < g.N
    requires WellFormed(Live(Cleared(a, index)), n) && n >= 2
    requires RemoveTarget(a, g, index).PastRoot?
    ensures g.N > 8
  {
    var l := Live(Cleared(a, index));
    HalvingFits(a, g, index);
    assert HasSentinel(l, 0) && HasSentinel(l, 1);
    var i :| 0 <= i < |l| && l[i] == SentinelOf(0);
    var j :| 0 <= j < |l| && l[j] == SentinelOf(1);
    assert i != j;
  }

  /** What the last step of a removal needs. */
  lemma RemovalStep(a: seq<Edge>, g: Geometry, index: nat)
    requires TreeShape(g) && |a| == g.N && index < g.N && KeepsTree(a, g, index)
    ensures RemovalFits(a, g, index)
    ensures var t := RemoveTarget(a, g, index);
      && (t.Stop? ==> 0 < t.len && t.start + t.len <= g.N)
      && (t.PastRoot? ==> g.N > 8 && |Live(Vacated(a, g, index))| <= g.N / 2)
  {
    RemoveTargetShape(a, g, index);
    VacatedLive(a, g, index);
    RemovalAlwaysFits(a, g, index);
  }

  /** When a removal halves the array, what is left fits. */
  lemma RemovalAlwaysFits(a: seq<Edge>, g: Geometry, index: nat)
    requires TreeShape(g) && |a| == g.N && index < g.N
    ensures RemovalFits(a, g, index)
  {
    if RemoveTarget(a, g, index).PastRoot? {
      HalvingFits(a, g, index);
    }
  }

  lemma RemovedSize(a: seq<Edge>, g: Geometry, index: nat)
    requires TreeShape(g) && |a| == g.N && index < g.N && RemovalFits(a, g, index)
    ensures |Removed(a, g, index)| == if RemoveTarget(a, g, index).PastRoot? then g.N / 2 else g.N
  {
    RemoveTargetShape(a, g, index);
    VacatedLive(a, g, index);
  }
}
