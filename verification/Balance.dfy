/**
 What redistribution buys: after an insertion or a removal that redistributes a
 window of several leaves, both halves of that window are well within their own
 bounds, so that many updates have to follow before the window is touched again.
 */
module Balance {
  import opened Wrappers
  import opened Arithmetic
  import opened Geometries
  import opened Slots
  import opened Spreading
  import opened Windows
  import opened Insertion
  import opened Removal
  import opened Locking

  // ---------------------------------------------------------------- windows of several leaves

  lemma {:induction false} SpanDouble(x: nat, k: nat)
    ensures Span(2 * x, k) == 2 * Span(x, k)
    decreases k
  {
    if k > 0 {
      SpanDouble(2 * x, k - 1);
    }
  }

  /** A window has one level only. */
  lemma {:induction false} LevelUnique(len: nat, k: nat, more: nat)
    requires len > 0 && Span(len, k) == Span(len, k + more)
    ensures more == 0
    decreases k
  {
    if k > 0 {
      LevelUnique(2 * len, k - 1, more);
    } else {
      SpanGrows(len, more);
    }
  }

  lemma SameLevel(g: Geometry, start: nat, len: nat, i: nat, j: nat)
    requires IsWindow(g, start, len, i) && IsWindow(g, start, len, j)
    ensures i == j
  {
    if i < j {
      LevelUnique(len, i, j - i);
    } else {
      LevelUnique(len, j, i - j);
    }
  }

  /** A window longer than a leaf is not at the level of the leaves, and has two halves. */
  lemma TwoHalves(g: Geometry, start: nat, len: nat, level: nat)
    requires TreeShape(g) && IsWindow(g, start, len, level) && len > g.logN
    ensures level < g.H && len == 2 * (len / 2)
  {
    if level == g.H {
      SpanInjective(len, g.logN, g.H);
    }
    var k := g.H - level - 1;
    SpanTwice(g.logN, k + 1, level);
    SpanInjective(len, Span(g.logN, k + 1), level);
    SpanDouble(g.logN, k);
  }

  lemma PartOfPart(b: seq<Edge>, w: seq<Edge>, s: nat, x: nat, len: nat)
    requires x + len <= |w| && s + |w| <= |b| && b[s..s + |w|] == w
    ensures b[s + x..s + x + len] == w[x..x + len]
  {
    forall i | x <= i < x + len
      ensures w[i] == b[s + i]
    {
    }
  }

  /** The halves of a redistributed window are those of the spread items. */
  lemma HalfOf(c: seq<Edge>, start: nat, len: nat, half: nat)
    requires start + 2 * len <= |c| && half < 2
    ensures |Live(c[start..start + 2 * len])| <= 2 * len
    ensures var s := if half == 0 then start else start + len;
      Count(Rebalance(c, start, 2 * len), s, len) == HalfCount(Live(c[start..start + 2 * len]), len, half)
  {
    var size := 2 * len;
    var w := Spread(Live(c[start..start + size]), size);
    RebalanceSlots(c, start, size);
    PartOfPart(Rebalance(c, start, size), w, start, if half == 0 then 0 else len, len);
  }

  // ---------------------------------------------------------------- insertions

  /** The window an insertion redistributes last. */
  ghost predicate LastWindow(a: seq<Edge>, g: Geometry, index: nat, elem: Edge, info: Option<Info>, start: nat, len: nat)
    requires TreeShape(g) && |a| == g.N && index < g.N && FirstEmpty(a, index) < g.N
  {
    InsertTarget(SlideInsert(a, index, elem), g, index, info) == Window(start, len)
  }

  lemma ClimbedWithin(c: seq<Edge>, g: Geometry, from: nat, start: nat, len: nat) returns (level: nat)
    requires IsWindow(g, from, g.logN, g.H) && |c| == g.N
    requires ClimbTarget(InsertClimb(c, g, from, g.logN, g.H, 0)) == Window(start, len)
    ensures IsWindow(g, start, len, level) && !TooDense(g, Count(c, start, len), len, level)
  {
    InsertClimbStops(c, g, from, g.logN, g.H, 0);
    level := InsertClimb(c, g, from, g.logN, g.H, 0).level;
  }

  lemma FewerNotTooDense(g: Geometry, count: nat, more: nat, len: nat, level: nat)
    requires count <= more && level <= g.H && !TooDense(g, more, len, level)
    ensures !TooDense(g, count, len, level)
  {
    DensityBounds(g, count, len, level);
    DensityBounds(g, more, len, level);
    MulMonotone(count, more, 4 * g.H);
    assert 4 * g.H * count == count * (4 * g.H) && 4 * g.H * more == more * (4 * g.H);
  }

  lemma PlannedWithin(a: seq<Edge>, g: Geometry, index: nat, elem: Edge, start: nat, len: nat) returns (level: nat)
    requires TreeShape(g) && |a| == g.N && index < g.N && FirstEmpty(a, index) < g.N && !IsNull(elem) && len > g.logN
    requires InsertPlan(a, g, index).Stop? && ClimbTarget(InsertPlan(a, g, index)) == Window(start, len)
    ensures IsWindow(g, start, len, level)
    ensures !TooDense(g, Count(Settle(SlideInsert(a, index, elem), g, index), start, len), len, level)
  {
    PlanFacts(a, g, index);
    PairWindow(g, index);
    SlideInsertCount(a, index, elem, start, len);
    SettleCount(SlideInsert(a, index, elem), g, index, start, len);
    level := InsertPlan(a, g, index).level;
    FewerNotTooDense(g, Count(SlideInsert(a, index, elem), start, len), Count(a, start, len) + 1, len, level);
  }

  /** It is within its bound with the new item. */
  lemma TargetWithin(a: seq<Edge>, g: Geometry, index: nat, elem: Edge, info: Option<Info>, start: nat, len: nat,
                     c: seq<Edge>) returns (level: nat)
    requires TreeShape(g) && |a| == g.N && index < g.N && FirstEmpty(a, index) < g.N && !IsNull(elem) && len > g.logN
    requires InfoFits(a, g, index, info) && LastWindow(a, g, index, elem, info, start, len)
    requires c == Settle(SlideInsert(a, index, elem), g, index)
    ensures IsWindow(g, start, len, level) && !TooDense(g, Count(c, start, len), len, level)
  {
    if info.None? {
      PairWindow(g, index);
      level := ClimbedWithin(c, g, SettledStart(SlideInsert(a, index, elem), g, index), start, len);
    } else {
      level := PlannedWithin(a, g, index, elem, start, len);
    }
  }

  lemma InsertedIs(a: seq<Edge>, g: Geometry, index: nat, elem: Edge, info: Option<Info>, start: nat, len: nat, c: seq<Edge>)
    requires TreeShape(g) && |a| == g.N && index < g.N && FirstEmpty(a, index) < g.N && len > g.logN
    requires InfoShape(g, info) && LastWindow(a, g, index, elem, info, start, len)
    requires c == Settle(SlideInsert(a, index, elem), g, index) && start + len <= g.N
    ensures Inserted(a, g, index, elem, info) == Rebalance(c, start, len)
  {
  }

  /**
   After an insertion, the window redistributed last, if it is longer than a leaf,
   has in each half of `len` slots more than len/(8H) - 1 items less than the half's
   own upper bound. Multiplied by 4H.
   */
  lemma InsertedSlack(a: seq<Edge>, g: Geometry, index: nat, elem: Edge, info: Option<Info>, b: seq<Edge>,
                      start: nat, len: nat, level: nat, half: nat)
    requires TreeShape(g) && |a| == g.N && index < g.N && FirstEmpty(a, index) < g.N && !IsNull(elem)
    requires InfoShape(g, info) && InfoFits(a, g, index, info) && b == Inserted(a, g, index, elem, info)
    requires LastWindow(a, g, index, elem, info, start, 2 * len) && 2 * len > g.logN
    requires IsWindow(g, start, 2 * len, level) && half < 2
    ensures level < g.H && |b| == g.N
    ensures var s := if half == 0 then start else start + len;
      (3 * g.H + (level + 1)) * len - 4 * g.H * Count(b, s, len) > len - 4 * g.H
  {
    var c := Settle(SlideInsert(a, index, elem), g, index);
    var lv := TargetWithin(a, g, index, elem, info, start, 2 * len, c);
    SameLevel(g, start, 2 * len, lv, level);
    TwoHalves(g, start, 2 * len, level);
    InsertedIs(a, g, index, elem, info, start, 2 * len, c);
    SpreadSlack(c, g, start, len, level, half);
  }

  /** Every such window has two halves, and a level. */
  lemma LastWindowHalves(a: seq<Edge>, g: Geometry, index: nat, elem: Edge, info: Option<Info>, start: nat, size: nat)
    returns (level: nat)
    requires TreeShape(g) && |a| == g.N && index < g.N && FirstEmpty(a, index) < g.N && !IsNull(elem)
    requires InfoFits(a, g, index, info) && LastWindow(a, g, index, elem, info, start, size) && size > g.logN
    ensures IsWindow(g, start, size, level) && size == 2 * (size / 2)
  {
    level := TargetWithin(a, g, index, elem, info, start, size, Settle(SlideInsert(a, index, elem), g, index));
    TwoHalves(g, start, size, level);
  }

  lemma SpreadSlack(c: seq<Edge>, g: Geometry, start: nat, len: nat, level: nat, half: nat)
    requires start + 2 * len <= |c| && 0 < len && level < g.H && half < 2
    requires !TooDense(g, Count(c, start, 2 * len), 2 * len, level)
    ensures var b, s := Rebalance(c, start, 2 * len), if half == 0 then start else start + len;
      (3 * g.H + (level + 1)) * len - 4 * g.H * Count(b, s, len) > len - 4 * g.H
  {
    var l := Live(c[start..start + 2 * len]);
    LiveItems(c[start..start + 2 * len]);
    HalfOf(c, start, len, half);
    RebalanceSlack(l, g, len, level, half);
  }

  // ---------------------------------------------------------------- removals

  lemma ClimbedFilled(c: seq<Edge>, g: Geometry, from: nat, t: Climb)
    requires IsWindow(g, from, g.logN, g.H) && |c| == g.N
    requires t == RemoveClimb(c, g, from, g.logN, g.H, 0) && t.Stop?
    ensures IsWindow(g, t.start, t.len, t.level) && !TooSparse(g, Count(c, t.start, t.len), t.len, t.level)
  {
    RemoveClimbStops(c, g, from, g.logN, g.H, 0);
  }

  lemma RemovedIs(a: seq<Edge>, g: Geometry, index: nat, c: seq<Edge>, t: Climb)
    requires TreeShape(g) && |a| == g.N && index < g.N && RemovalFits(a, g, index)
    requires c == Vacated(a, g, index) && t == RemoveTarget(a, g, index) && t.Stop?
    ensures IsWindow(g, t.start, t.len, t.level) && !TooSparse(g, Count(c, t.start, t.len), t.len, t.level)
    ensures Removed(a, g, index) == Rebalance(c, t.start, t.len)
  {
    TargetFrom(a, g, index, c);
    ClimbedFilled(c, g, LeafStart(g, index), t);
    RemovedShrinks(a, g, index, c, t);
  }

  lemma RemovedShrinks(a: seq<Edge>, g: Geometry, index: nat, c: seq<Edge>, t: Climb)
    requires TreeShape(g) && |a| == g.N && index < g.N && RemovalFits(a, g, index)
    requires c == Vacated(a, g, index) && t == RemoveTarget(a, g, index) && t.Stop? && t.start + t.len <= g.N
    ensures Removed(a, g, index) == Rebalance(c, t.start, t.len)
  {
    VacatedLive(a, g, index);
  }

  /**
   After a removal, the window redistributed last, if it is longer than a leaf, has
   in each half of `len` slots at least len/(16H) - 1 items more than the half's own
   lower bound. Multiplied by 8H.
   */
  lemma RemovedReserve(a: seq<Edge>, g: Geometry, index: nat, b: seq<Edge>, t: Climb, half: nat)
    requires TreeShape(g) && |a| == g.N && index < g.N && RemovalFits(a, g, index) && b == Removed(a, g, index)
    requires t == RemoveTarget(a, g, index) && t.Stop? && t.len > g.logN && half < 2
    ensures t.level < g.H && |b| == g.N && t.len == 2 * (t.len / 2) && t.start + t.len <= g.N
    ensures var len := t.len / 2; var s := if half == 0 then t.start else t.start + len;
      8 * g.H * Count(b, s, len) - (2 * g.H - (t.level + 1)) * len >= len - 8 * g.H
  {
    var c := Vacated(a, g, index);
    RemovedIs(a, g, index, c, t);
    TwoHalves(g, t.start, t.len, t.level);
    SpreadReserve(c, g, t.start, t.len / 2, t.level, half);
  }

  lemma SpreadReserve(c: seq<Edge>, g: Geometry, start: nat, len: nat, level: nat, half: nat)
    requires start + 2 * len <= |c| && 0 < len && level < g.H && half < 2
    requires !TooSparse(g, Count(c, start, 2 * len), 2 * len, level)
    ensures var b, s := Rebalance(c, start, 2 * len), if half == 0 then start else start + len;
      8 * g.H * Count(b, s, len) - (2 * g.H - (level + 1)) * len >= len - 8 * g.H
  {
    var l := Live(c[start..start + 2 * len]);
    LiveItems(c[start..start + 2 * len]);
    HalfOf(c, start, len, half);
    RebalanceReserve(l, g, len, level, half);
  }
}
