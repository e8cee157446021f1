/**
 What one insertion makes of the edge array, as a function of its slots, and
 what that function keeps. `insert` is proved to compute exactly this.
 */
module Insertion {
  import opened Wrappers
  import opened Arithmetic
  import opened Geometries
  import opened Slots
  import opened Spreading
  import opened Windows

  /** `insertion_info_t`: what lock acquisition tells the insertion to redistribute. */
  datatype Info = Info(doubleList: bool, maxLen: nat, nodeIndexFinal: nat)

  /** The last step of an insertion: redistribute one window, or double the array. */
  datatype Target = Window(start: nat, len: nat) | Grow

  // ---------------------------------------------------------------- sliding

  /** The first empty slot at or after `i`, or the length of the array. */
  function FirstEmpty(a: seq<Edge>, i: nat): (p: nat)
    requires i <= |a|
    ensures i <= p <= |a|
    ensures forall k :: i <= k < p ==> !IsNull(a[k])
    ensures p < |a| ==> IsNull(a[p])
    decreases |a| - i
  {
    if i == |a| || IsNull(a[i]) then i else FirstEmpty(a, i + 1)
  }

  lemma FirstEmptyBefore(a: seq<Edge>, i: nat, k: nat)
    requires i <= k < |a| && IsNull(a[k])
    ensures FirstEmpty(a, i) <= k
  {
  }

  lemma NotYetHole(a: seq<Edge>, i: nat, k: nat)
    requires i <= k < |a| && k <= FirstEmpty(a, i) && !IsNull(a[k])
    ensures k < FirstEmpty(a, i)
  {
  }

  /** The array after the items from `index` up to the first hole move right and `elem` takes the slot. */
  function SlideInsert(a: seq<Edge>, index: nat, elem: Edge): (b: seq<Edge>)
    requires index <= |a| && FirstEmpty(a, index) < |a|
    ensures |b| == |a|
  {
    var p := FirstEmpty(a, index);
    a[..index] + [elem] + a[index..p] + a[p + 1..]
  }

  /** The new item enters between the items before `index` and those from it on. */
  lemma SlideInsertLive(a: seq<Edge>, index: nat, elem: Edge)
    requires index <= |a| && FirstEmpty(a, index) < |a| && !IsNull(elem)
    ensures Live(SlideInsert(a, index, elem)) == Live(a[..index]) + [elem] + Live(a[index..])
  {
    var p := FirstEmpty(a, index);
    var left, run, rest := a[..index], a[index..p], a[p + 1..];
    SuffixSplit(a, index, p);
    SlideParts(left, elem, run, a[p], rest);
    assert SlideInsert(a, index, elem) == left + [elem] + run + rest && a[index..] == run + [a[p]] + rest;
  }

  lemma SlideParts(left: seq<Edge>, elem: Edge, run: seq<Edge>, hole: Edge, rest: seq<Edge>)
    requires !IsNull(elem) && IsNull(hole)
    ensures Live(left + [elem] + run + rest) == Live(left) + [elem] + Live(run + [hole] + rest)
  {
    LiveConcat(left + [elem] + run, rest);
    LiveConcat3(left, [elem], run);
    LiveConcat3(run, [hole], rest);
    LiveSingle(elem);
    LiveSingle(hole);
  }

  lemma SlideInsertSlots(a: seq<Edge>, index: nat, elem: Edge)
    requires index <= |a| && FirstEmpty(a, index) < |a|
    ensures var b, p := SlideInsert(a, index, elem), FirstEmpty(a, index);
      && b[index] == elem
      && (forall i :: 0 <= i < |a| && (i < index || p < i) ==> b[i] == a[i])
      && (forall i :: index < i <= p ==> b[i] == a[i - 1])
  {
  }

  lemma TakeInRun(l: seq<Edge>, e: Edge, run: seq<Edge>, rest: seq<Edge>, k: nat)
    requires k <= |run|
    ensures (l + [e] + run + rest)[..|l| + 1 + k] == l + [e] + run[..k]
  {
  }

  lemma TakePastRun(l: seq<Edge>, e: Edge, run: seq<Edge>, rest: seq<Edge>, k: nat)
    requires k <= |rest|
    ensures (l + [e] + run + rest)[..|l| + 1 + |run| + k] == l + [e] + (run + rest[..k])
  {
  }

  lemma TakeItems(a: seq<Edge>, index: nat, i: nat)
    requires index < i <= |a|
    ensures a[..i] == a[..index] + a[index..i - 1] + [a[i - 1]]
  {
  }

  lemma TakeThrough(a: seq<Edge>, index: nat, p: nat, i: nat)
    requires index <= p < i <= |a|
    ensures a[..i] == a[..index] + (a[index..p] + [a[p]] + a[p + 1..i])
  {
  }

  /** The items of the first slots: short of the hole one item is still to come, */
  lemma RunIndex(l: seq<Edge>, elem: Edge, run: seq<Edge>, rest: seq<Edge>, k: nat)
    requires !IsNull(elem) && k < |run| && !IsNull(run[k])
    ensures |Live((l + [elem] + run + rest)[..|l| + 1 + k])| == |Live(l + run[..k] + [run[k]])|
  {
    TakeInRun(l, elem, run, rest, k);
    LiveConcat3(l, [elem], run[..k]);
    LiveConcat3(l, run[..k], [run[k]]);
    LiveSingle(elem);
    LiveSingle(run[k]);
  }

  /** past it there is one more. */
  lemma PastRunIndex(l: seq<Edge>, elem: Edge, run: seq<Edge>, hole: Edge, rest: seq<Edge>, k: nat)
    requires !IsNull(elem) && IsNull(hole) && k <= |rest|
    ensures |Live((l + [elem] + run + rest)[..|l| + 1 + |run| + k])| == |Live(l + (run + [hole] + rest[..k]))| + 1
  {
    TakePastRun(l, elem, run, rest, k);
    LiveConcat3(l, [elem], run + rest[..k]);
    LiveConcat(run, rest[..k]);
    LiveConcat(l, run + [hole] + rest[..k]);
    LiveConcat3(run, [hole], rest[..k]);
    LiveSingle(elem);
    LiveSingle(hole);
  }

  /** How many items precede a slot after the insertion: up to the hole as many, */
  lemma RunSlotIndex(a: seq<Edge>, index: nat, elem: Edge, i: nat)
    requires index < |a| && index < i <= FirstEmpty(a, index) < |a| && !IsNull(elem)
    ensures ItemIndex(SlideInsert(a, index, elem), i) == ItemIndex(a, i)
  {
    var p := FirstEmpty(a, index);
    RunIndex(a[..index], elem, a[index..p], a[p + 1..], i - 1 - index);
    TakeItems(a, index, i);
    SliceTake(a, index, p, i - 1 - index);
  }

  /** behind it one more. */
  lemma PastSlotIndex(a: seq<Edge>, index: nat, elem: Edge, i: nat)
    requires index < |a| && FirstEmpty(a, index) < i <= |a| && !IsNull(elem)
    ensures ItemIndex(SlideInsert(a, index, elem), i) == ItemIndex(a, i) + 1
  {
    var p := FirstEmpty(a, index);
    PastRunIndex(a[..index], elem, a[index..p], a[p], a[p + 1..], i - p - 1);
    TakeThrough(a, index, p, i);
    DropTake(a, p + 1, i - p - 1);
  }

  lemma SlideInsertIndex(a: seq<Edge>, index: nat, elem: Edge, i: nat)
    requires index < |a| && FirstEmpty(a, index) < |a| && !IsNull(elem) && i <= |a|
    ensures ItemIndex(SlideInsert(a, index, elem), i) == ItemIndex(a, i) + if FirstEmpty(a, index) < i then 1 else 0
  {
    if i <= index {
      assert SlideInsert(a, index, elem)[..i] == a[..i];
    } else if i <= FirstEmpty(a, index) {
      RunSlotIndex(a, index, elem, i);
    } else {
      PastSlotIndex(a, index, elem, i);
    }
  }

  /** A window that holds `index` gains the item unless it pushes one out at its end. */
  lemma SlideInsertCount(a: seq<Edge>, index: nat, elem: Edge, s: nat, len: nat)
    requires index < |a| && FirstEmpty(a, index) < |a| && !IsNull(elem)
    requires s <= index < s + len <= |a|
    ensures Count(SlideInsert(a, index, elem), s, len) ==
      Count(a, s, len) + if FirstEmpty(a, index) < s + len then 1 else 0
  {
    SlideInsertIndex(a, index, elem, s);
    SlideInsertIndex(a, index, elem, s + len);
    PartCount(a, s, len);
    PartCount(SlideInsert(a, index, elem), s, len);
  }

  // ---------------------------------------------------------------- rebalancing, once more

  /** A window is full exactly when it has no empty slot. */
  lemma CountFull(a: seq<Edge>, start: nat, len: nat)
    requires start + len <= |a|
    ensures Count(a, start, len) == len <==> forall i :: start <= i < start + len ==> !IsNull(a[i])
  {
    var s := a[start..start + len];
    LiveFull(s);
    if forall i :: 0 <= i < |s| ==> !IsNull(s[i]) {
      forall i | start <= i < start + len
        ensures !IsNull(a[i])
      {
        assert a[i] == s[i - start];
      }
    }
  }

  /** Redistributing a window does not change how many items precede a slot outside it. */
  lemma RebalanceIndex(a: seq<Edge>, index: nat, len: nat, i: nat)
    requires index + len <= |a| && i <= |a| && (i <= index || index + len <= i)
    ensures ItemIndex(Rebalance(a, index, len), i) == ItemIndex(a, i)
  {
    if i <= index {
      assert Rebalance(a, index, len)[..i] == a[..i];
    } else {
      RebalancePrefix(a, index, len, i);
      RebalanceLive(a[..i], index, len);
    }
  }

  lemma RebalancePrefix(a: seq<Edge>, index: nat, len: nat, i: nat)
    requires index + len <= i <= |a|
    ensures Rebalance(a, index, len)[..i] == Rebalance(a[..i], index, len)
  {
    assert a[..i][index..index + len] == a[index..index + len];
    var s := Spread(Live(a[index..index + len]), len);
    assert (a[..index] + s + a[index + len..])[..i] == a[..i][..index] + s + a[..i][index + len..];
  }

  /** Redistributing part of a window keeps the window's items. */
  lemma RebalanceCount(a: seq<Edge>, index: nat, len: nat, s: nat, m: nat)
    requires s <= index && index + len <= s + m <= |a|
    ensures Count(Rebalance(a, index, len), s, m) == Count(a, s, m)
  {
    RebalanceIndex(a, index, len, s);
    RebalanceIndex(a, index, len, s + m);
    PartCount(a, s, m);
    PartCount(Rebalance(a, index, len), s, m);
  }

  /** Redistributing a full window changes nothing. */
  lemma RebalanceFull(a: seq<Edge>, index: nat, len: nat)
    requires index + len <= |a| && Count(a, index, len) == len
    ensures Rebalance(a, index, len) == a
  {
    var s := a[index..index + len];
    LiveFull(s);
    LiveOfItems(s);
    SpreadFull(s);
  }

  lemma SpreadFull(l: seq<Edge>)
    ensures Spread(l, |l|) == l
  {
    forall k | 0 <= k < |l|
      ensures Spread(l, |l|)[k] == l[k]
    {
      SpreadAt(l, k, |l|);
      DivUnique(k * |l|, |l|, k);
    }
  }

  ghost predicate TailFree(a: seq<Edge>) {
    a != [] && IsNull(a[|a| - 1])
  }

  /** An empty last slot stays empty; a window with room that reaches the end empties it. */
  lemma RebalanceTail(a: seq<Edge>, index: nat, len: nat)
    requires 0 < len && index + len <= |a|
    ensures TailFree(a) ==> TailFree(Rebalance(a, index, len))
    ensures index + len == |a| && Count(a, index, len) < len ==> TailFree(Rebalance(a, index, len))
    ensures index + len < |a| ==> (TailFree(Rebalance(a, index, len)) <==> TailFree(a))
  {
    RebalanceShape(a, index, len);
    RebalanceSlots(a, index, len);
    CountFull(a, index, len);
  }

  // ---------------------------------------------------------------- insertion

  function LeafStart(g: Geometry, index: nat): nat
    requires g.logN > 0
  {
    WindowStart(index, g.logN)
  }

  function PairStart(g: Geometry, index: nat): nat
    requires g.logN > 0
  {
    WindowStart(LeafStart(g, index), 2 * g.logN)
  }

  /** The two leaves around `index`. */
  lemma PairWindow(g: Geometry, index: nat)
    requires TreeShape(g) && index < g.N
    ensures IsWindow(g, LeafStart(g, index), g.logN, g.H)
    ensures LeafStart(g, index) <= index < LeafStart(g, index) + g.logN
    ensures IsWindow(g, PairStart(g, index), 2 * g.logN, g.H - 1)
    ensures IsWindow(g, PairStart(g, index), g.logN, g.H)
    ensures PairStart(g, index) == LeafStart(g, index) || PairStart(g, index) + g.logN == LeafStart(g, index)
  {
    LeafWindow(g, index);
    ParentWindow(g, LeafStart(g, index), g.logN, g.H);
    WindowStartParent(LeafStart(g, index), g.logN);
  }

  predicate InfoShape(g: Geometry, info: Option<Info>) {
    info.Some? && !info.value.doubleList ==>
      0 < info.value.maxLen && info.value.nodeIndexFinal + info.value.maxLen <= g.N
  }

  /** Redistribution of the leaf, or of two leaves when the leaf is completely full. */
  ghost function Settle(b: seq<Edge>, g: Geometry, index: nat): (c: seq<Edge>)
    requires TreeShape(g) && |b| == g.N && index < g.N
    ensures |c| == g.N
  {
    PairWindow(g, index);
    if Count(b, LeafStart(g, index), g.logN) == g.logN then Rebalance(b, PairStart(g, index), 2 * g.logN)
    else Rebalance(b, LeafStart(g, index), g.logN)
  }

  /** Where the climb starts after the leaf has been settled. */
  function SettledStart(b: seq<Edge>, g: Geometry, index: nat): nat
    requires TreeShape(g) && |b| == g.N && index < g.N
  {
    PairWindow(g, index);
    if Count(b, LeafStart(g, index), g.logN) == g.logN then PairStart(g, index) else LeafStart(g, index)
  }

  ghost function ClimbTarget(c: Climb): Target {
    if c.Stop? then Window(c.start, c.len) else Grow
  }

  /** The window redistributed last: from the climb, or from what lock acquisition found out. */
  ghost function InsertTarget(b: seq<Edge>, g: Geometry, index: nat, info: Option<Info>): Target
    requires TreeShape(g) && |b| == g.N && index < g.N
  {
    PairWindow(g, index);
    if info.Some? then
      if info.value.doubleList then Grow else Window(info.value.nodeIndexFinal, info.value.maxLen)
    else
      ClimbTarget(InsertClimb(Settle(b, g, index), g, SettledStart(b, g, index), g.logN, g.H, 0))
  }

  ghost function Finish(c: seq<Edge>, g: Geometry, t: Target): seq<Edge>
    requires |c| == g.N
    requires t.Window? ==> t.start + t.len <= g.N
  {
    if t.Grow? then Spread(Live(c), 2 * g.N)
    else if t.len > g.logN then Rebalance(c, t.start, t.len)
    else c
  }

  lemma InsertTargetShape(b: seq<Edge>, g: Geometry, index: nat, info: Option<Info>)
    requires TreeShape(g) && |b| == g.N && index < g.N && InfoShape(g, info)
    ensures var t := InsertTarget(b, g, index, info); t.Window? ==> 0 < t.len && t.start + t.len <= g.N
  {
    PairWindow(g, index);
    if info.None? {
      InsertClimbStops(Settle(b, g, index), g, SettledStart(b, g, index), g.logN, g.H, 0);
    }
  }

  /** The array after inserting `elem` at `index`. */
  ghost function Inserted(a: seq<Edge>, g: Geometry, index: nat, elem: Edge, info: Option<Info>): seq<Edge>
    requires TreeShape(g) && |a| == g.N && index < g.N && FirstEmpty(a, index) < g.N && InfoShape(g, info)
  {
    var b := SlideInsert(a, index, elem);
    InsertTargetShape(b, g, index, info);
    Finish(Settle(b, g, index), g, InsertTarget(b, g, index, info))
  }

  lemma SettleKeeps(b: seq<Edge>, g: Geometry, index: nat)
    requires TreeShape(g) && |b| == g.N && index < g.N
    ensures Live(Settle(b, g, index)) == Live(b)
  {
    PairWindow(g, index);
    if Count(b, LeafStart(g, index), g.logN) == g.logN {
      RebalanceLive(b, PairStart(g, index), 2 * g.logN);
    } else {
      RebalanceLive(b, LeafStart(g, index), g.logN);
    }
  }

  lemma FinishKeeps(c: seq<Edge>, g: Geometry, t: Target)
    requires |c| == g.N
    requires t.Window? ==> t.start + t.len <= g.N
    ensures Live(Finish(c, g, t)) == Live(c)
  {
    if t.Grow? {
      LiveItems(c);
      SpreadLive(Live(c), 2 * g.N);
    } else {
      RebalanceLive(c, t.start, t.len);
    }
  }

  /**
   Insertion changes the items by exactly the new one, at its place; slide,
   spill, every climb and the doubling keep all others in order.
   */
  lemma InsertedLive(a: seq<Edge>, g: Geometry, index: nat, elem: Edge, info: Option<Info>)
    requires TreeShape(g) && |a| == g.N && index < g.N && FirstEmpty(a, index) < g.N && InfoShape(g, info)
    requires !IsNull(elem)
    ensures Live(Inserted(a, g, index, elem, info)) == Live(a[..index]) + [elem] + Live(a[index..])
  {
    var b := SlideInsert(a, index, elem);
    SlideInsertLive(a, index, elem);
    SettleKeeps(b, g, index);
    InsertTargetShape(b, g, index, info);
    FinishKeeps(Settle(b, g, index), g, InsertTarget(b, g, index, info));
  }

  /** The slots an insertion may write when it does not double the array. */
  ghost predicate InFootprint(a: seq<Edge>, g: Geometry, index: nat, elem: Edge, info: Option<Info>, i: nat)
    requires TreeShape(g) && |a| == g.N && index < g.N && FirstEmpty(a, index) < g.N && InfoShape(g, info)
  {
    PairWindow(g, index);
    var b := SlideInsert(a, index, elem);
    var t := InsertTarget(b, g, index, info);
    || index <= i <= FirstEmpty(a, index)
    || LeafStart(g, index) <= i < LeafStart(g, index) + g.logN
    || (Count(b, LeafStart(g, index), g.logN) == g.logN && PairStart(g, index) <= i < PairStart(g, index) + 2 * g.logN)
    || (t.Window? && t.len > g.logN && t.start <= i < t.start + t.len)
  }

  /** No slot outside the footprint changes. */
  lemma InsertedOutside(a: seq<Edge>, g: Geometry, index: nat, elem: Edge, info: Option<Info>, i: nat)
    requires TreeShape(g) && |a| == g.N && index < g.N && FirstEmpty(a, index) < g.N && InfoShape(g, info)
    requires InsertTarget(SlideInsert(a, index, elem), g, index, info).Window?
    requires i < g.N && !InFootprint(a, g, index, elem, info, i)
    ensures |Inserted(a, g, index, elem, info)| == g.N && Inserted(a, g, index, elem, info)[i] == a[i]
  {
    var b := SlideInsert(a, index, elem);
    var t := InsertTarget(b, g, index, info);
    PairWindow(g, index);
    InsertTargetShape(b, g, index, info);
    SlideInsertSlots(a, index, elem);
    var c := Settle(b, g, index);
    assert c[i] == b[i] by {
      RebalanceSlots(b, LeafStart(g, index), g.logN);
      RebalanceSlots(b, PairStart(g, index), 2 * g.logN);
    }
    RebalanceSlots(c, t.start, t.len);
  }

  // ---------------------------------------------------------------- what lock acquisition predicts

  /** The climb of `acquire_insert_locks`, on the array before the insertion. */
  ghost function InsertPlan(a: seq<Edge>, g: Geometry, index: nat): Climb
    requires TreeShape(g) && |a| == g.N && index < g.N
  {
    PairWindow(g, index);
    InsertClimb(a, g, PlanStart(a, g, index), g.logN, g.H, 1)
  }

  function PlanStart(a: seq<Edge>, g: Geometry, index: nat): (start: nat)
    requires TreeShape(g) && |a| == g.N && index < g.N
    ensures start + g.logN <= g.N
  {
    PairWindow(g, index);
    if Count(a, LeafStart(g, index), g.logN) + 1 == g.logN then PairStart(g, index) else LeafStart(g, index)
  }

  /** `info` is absent, asks for doubling, or carries the planned window. */
  ghost predicate InfoFits(a: seq<Edge>, g: Geometry, index: nat, info: Option<Info>)
    requires TreeShape(g) && |a| == g.N && index < g.N
  {
    info.Some? && !info.value.doubleList ==>
      InsertPlan(a, g, index).Stop? &&
      ClimbTarget(InsertPlan(a, g, index)) == Window(info.value.nodeIndexFinal, info.value.maxLen)
  }

  /** A window around the leaf, or around the first leaf of its pair. */
  lemma AroundLeaf(g: Geometry, index: nat, from: nat, c: Climb)
    requires TreeShape(g) && index < g.N && (from == LeafStart(g, index) || from == PairStart(g, index))
    requires c.Stop? && Around(c, from, g.logN)
    ensures c.start <= LeafStart(g, index)
    ensures c.len > g.logN ==>
      2 * g.logN <= c.len && c.start <= PairStart(g, index) && PairStart(g, index) + 2 * g.logN <= c.start + c.len
    ensures c.len <= g.logN ==> c.len == g.logN && c.start == from
  {
    PairWindow(g, index);
    WindowStartParent(PairStart(g, index), g.logN);
  }

  /** The planned window holds the leaf or, before any climb, starts the pair the leaf is in. */
  lemma PlanFacts(a: seq<Edge>, g: Geometry, index: nat)
    requires TreeShape(g) && |a| == g.N && index < g.N
    ensures var c := InsertPlan(a, g, index); c.Stop? ==>
      && IsWindow(g, c.start, c.len, c.level) && c.start <= LeafStart(g, index)
      && !TooDense(g, Count(a, c.start, c.len) + 1, c.len, c.level)
      && (c.len > g.logN ==> 2 * g.logN <= c.len && c.start <= PairStart(g, index)
                             && PairStart(g, index) + 2 * g.logN <= c.start + c.len)
      && (c.len <= g.logN ==> c.len == g.logN && c.start == PlanStart(a, g, index))
    ensures Count(a, PlanStart(a, g, index), g.logN) + 1 >= g.logN ==>
      var c := InsertPlan(a, g, index); c.Stop? ==> c.len > g.logN
  {
    var from, c := PlanStart(a, g, index), InsertPlan(a, g, index);
    PairWindow(g, index);
    InsertClimbStops(a, g, from, g.logN, g.H, 1);
    if c.Stop? {
      AroundLeaf(g, index, from, c);
      if Count(a, from, g.logN) + 1 >= g.logN {
        FullLeafTooDense(g, Count(a, from, g.logN) + 1);
      }
    }
  }

  // ---------------------------------------------------------------- the first and the cleared slots

  lemma RebalanceKeepsShape(a: seq<Edge>, index: nat, len: nat)
    requires 0 < len && index + len <= |a|
    ensures !IsNull(a[0]) ==> !IsNull(Rebalance(a, index, len)[0])
    ensures Clean(a) ==> Clean(Rebalance(a, index, len))
  {
    RebalanceSlots(a, index, len);
    RebalanceShape(a, index, len);
    if Clean(a) {
      RebalanceCleans(a, index, len);
    }
  }

  /** Whatever the empty slots of the window held, afterwards they are cleared. */
  lemma RebalanceCleans(a: seq<Edge>, index: nat, len: nat)
    requires 0 < len && index + len <= |a|
    requires forall i :: 0 <= i < |a| && !(index <= i < index + len) && IsNull(a[i]) ==> a[i] == EMPTY
    ensures Clean(Rebalance(a, index, len))
  {
    var b := Rebalance(a, index, len);
    RebalanceSlots(a, index, len);
    RebalanceShape(a, index, len);
    forall i | index <= i < index + len && IsNull(b[i])
      ensures b[i] == EMPTY
    {
      assert b[i] == b[index..index + len][i - index];
    }
  }

  /** Slot 0 stays occupied and empty slots stay fully cleared. */
  lemma InsertedShape(a: seq<Edge>, g: Geometry, index: nat, elem: Edge, info: Option<Info>)
    requires TreeShape(g) && |a| == g.N && index < g.N && FirstEmpty(a, index) < g.N && InfoShape(g, info)
    requires !IsNull(elem) && Clean(a) && (index > 0 ==> !IsNull(a[0]))
    ensures Inserted(a, g, index, elem, info) != []
    ensures !IsNull(Inserted(a, g, index, elem, info)[0]) && Clean(Inserted(a, g, index, elem, info))
  {
    var b := SlideInsert(a, index, elem);
    SlideInsertSlots(a, index, elem);
    InsertTargetShape(b, g, index, info);
    SettleShape(b, g, index);
    FinishShape(Settle(b, g, index), g, InsertTarget(b, g, index, info));
  }

  lemma SettleShape(b: seq<Edge>, g: Geometry, index: nat)
    requires TreeShape(g) && |b| == g.N && index < g.N && Clean(b) && !IsNull(b[0])
    ensures Clean(Settle(b, g, index)) && !IsNull(Settle(b, g, index)[0])
  {
    PairWindow(g, index);
    RebalanceKeepsShape(b, PairStart(g, index), 2 * g.logN);
    RebalanceKeepsShape(b, LeafStart(g, index), g.logN);
  }

  lemma SettleFirst(b: seq<Edge>, g: Geometry, index: nat)
    requires TreeShape(g) && |b| == g.N && index < g.N && !IsNull(b[0])
    ensures !IsNull(Settle(b, g, index)[0])
  {
    PairWindow(g, index);
    RebalanceKeepsShape(b, PairStart(g, index), 2 * g.logN);
    RebalanceKeepsShape(b, LeafStart(g, index), g.logN);
  }

  lemma FinishShape(c: seq<Edge>, g: Geometry, t: Target)
    requires |c| == g.N && 0 < g.N && Clean(c) && !IsNull(c[0])
    requires t.Window? ==> 0 < t.len && t.start + t.len <= g.N
    ensures Finish(c, g, t) != []
    ensures Clean(Finish(c, g, t)) && !IsNull(Finish(c, g, t)[0])
  {
    if t.Grow? {
      LiveItems(c);
      LiveSplit(c, 0);
      SpreadShape(Live(c), 2 * g.N);
    } else {
      RebalanceKeepsShape(c, t.start, t.len);
    }
  }

  // ---------------------------------------------------------------- the last slot

  /**
   The insertions that end with an item in the last slot, where no vertex's
   range reaches it: the slide runs to the last slot from an earlier leaf and
   the window redistributed last stops short of it.
   */
  ghost predicate Overrun(a: seq<Edge>, g: Geometry, index: nat, elem: Edge, info: Option<Info>)
    requires TreeShape(g) && |a| == g.N && index < g.N && FirstEmpty(a, index) < g.N
  {
    var t := InsertTarget(SlideInsert(a, index, elem), g, index, info);
    && FirstEmpty(a, index) == g.N - 1
    && LeafStart(g, index) + g.logN < g.N
    && t.Window? && t.start + t.len < g.N
  }

  /** A window that, past the leaf, holds both leaves of the pair and has room in `c`. */
  ghost predicate RoomyWindow(c: seq<Edge>, g: Geometry, index: nat, start: nat, len: nat)
    requires TreeShape(g) && |c| == g.N && index < g.N
  {
    && 0 < len && start <= LeafStart(g, index) && start + len <= g.N
    && (len > g.logN ==>
          && start <= PairStart(g, index) && PairStart(g, index) + 2 * g.logN <= start + len
          && Count(c, start, len) < len)
    && (len <= g.logN ==> start + len <= LeafStart(g, index) + g.logN)
  }

  /** The window redistributed last always has room. */
  lemma TargetRoom(a: seq<Edge>, g: Geometry, index: nat, elem: Edge, info: Option<Info>)
    requires TreeShape(g) && |a| == g.N && index < g.N && FirstEmpty(a, index) < g.N && !IsNull(elem)
    requires InfoFits(a, g, index, info)
    ensures var b := SlideInsert(a, index, elem); var t := InsertTarget(b, g, index, info);
      t.Window? ==> RoomyWindow(Settle(b, g, index), g, index, t.start, t.len)
  {
    if info.None? {
      var b := SlideInsert(a, index, elem);
      SettledStartPair(b, g, index);
      ClimbRoom(Settle(b, g, index), g, index, SettledStart(b, g, index));
    } else if !info.value.doubleList {
      PlanRoom(a, g, index, elem);
    }
  }

  lemma SettledStartPair(b: seq<Edge>, g: Geometry, index: nat)
    requires TreeShape(g) && |b| == g.N && index < g.N
    ensures var from := SettledStart(b, g, index);
      && IsWindow(g, from, g.logN, g.H) && from <= LeafStart(g, index)
      && WindowStart(from, 2 * g.logN) == PairStart(g, index)
  {
    PairWindow(g, index);
  }

  lemma ClimbRoom(c: seq<Edge>, g: Geometry, index: nat, from: nat)
    requires TreeShape(g) && |c| == g.N && index < g.N && IsWindow(g, from, g.logN, g.H)
    requires from <= LeafStart(g, index) && WindowStart(from, 2 * g.logN) == PairStart(g, index)
    ensures var t := InsertClimb(c, g, from, g.logN, g.H, 0);
      t.Stop? ==> RoomyWindow(c, g, index, t.start, t.len)
  {
    PairWindow(g, index);
    InsertClimbStops(c, g, from, g.logN, g.H, 0);
    var t := InsertClimb(c, g, from, g.logN, g.H, 0);
    if t.Stop? {
      NotTooDenseHasRoom(g, Count(c, t.start, t.len), t.len, t.level);
    }
  }

  lemma PlanRoom(a: seq<Edge>, g: Geometry, index: nat, elem: Edge)
    requires TreeShape(g) && |a| == g.N && index < g.N && FirstEmpty(a, index) < g.N && !IsNull(elem)
    ensures var p := InsertPlan(a, g, index);
      p.Stop? ==> RoomyWindow(Settle(SlideInsert(a, index, elem), g, index), g, index, p.start, p.len)
  {
    PairWindow(g, index);
    PlanFacts(a, g, index);
    var p := InsertPlan(a, g, index);
    if p.Stop? && p.len > g.logN {
      var b := SlideInsert(a, index, elem);
      SlideInsertCount(a, index, elem, p.start, p.len);
      SettleCount(b, g, index, p.start, p.len);
      NotTooDenseHasRoom(g, Count(a, p.start, p.len) + 1, p.len, p.level);
    }
  }

  /** Settling does not change what a window around the pair holds. */
  lemma SettleCount(b: seq<Edge>, g: Geometry, index: nat, s: nat, len: nat)
    requires TreeShape(g) && |b| == g.N && index < g.N
    requires s <= PairStart(g, index) && PairStart(g, index) + 2 * g.logN <= s + len <= g.N
    ensures Count(Settle(b, g, index), s, len) == Count(b, s, len)
  {
    PairWindow(g, index);
    if Count(b, LeafStart(g, index), g.logN) == g.logN {
      RebalanceCount(b, PairStart(g, index), 2 * g.logN, s, len);
    } else {
      RebalanceCount(b, LeafStart(g, index), g.logN, s, len);
    }
  }

  /** After settling, an occupied last slot was occupied before, and its leaf was not the one settled unless the pair is full. */
  lemma SettleTail(b: seq<Edge>, g: Geometry, index: nat)
    requires TreeShape(g) && |b| == g.N && index < g.N
    requires forall i :: index <= i < g.N - 1 ==> !IsNull(b[i])
    ensures TailFree(b) ==> TailFree(Settle(b, g, index))
    ensures !TailFree(b) && LeafStart(g, index) + g.logN < g.N ==> !TailFree(Settle(b, g, index))
    ensures LeafStart(g, index) + g.logN == g.N && !TailFree(Settle(b, g, index)) ==>
      PairStart(g, index) + 2 * g.logN == g.N && Count(b, LeafStart(g, index), g.logN) == g.logN
  {
    PairWindow(g, index);
    if Count(b, LeafStart(g, index), g.logN) == g.logN {
      SettlePairTail(b, PairStart(g, index), LeafStart(g, index), g.logN, index);
    } else {
      RebalanceTail(b, LeafStart(g, index), g.logN);
    }
  }

  lemma SettlePairTail(b: seq<Edge>, pair: nat, leaf: nat, len: nat, index: nat)
    requires 0 < len && leaf <= index < leaf + len <= |b| && pair + 2 * len <= |b|
    requires pair == leaf || pair + len == leaf
    requires forall i :: index <= i < |b| - 1 ==> !IsNull(b[i])
    requires Count(b, leaf, len) == len
    ensures var c := Rebalance(b, pair, 2 * len);
      && (TailFree(b) ==> TailFree(c))
      && (!TailFree(b) && leaf + len < |b| ==> !TailFree(c))
  {
    if TailFree(b) || pair + 2 * len < |b| {
      RebalanceTail(b, pair, 2 * len);
    } else if leaf + len < |b| {
      SettleFullPair(b, pair, leaf, len, index);
    }
  }

  /** A full leaf and no hole behind it: the last pair is full and stays as it is. */
  lemma SettleFullPair(b: seq<Edge>, pair: nat, leaf: nat, len: nat, index: nat)
    requires 0 < len && leaf <= index < leaf + len < |b| == pair + 2 * len
    requires pair == leaf || pair + len == leaf
    requires forall i :: index <= i < |b| ==> !IsNull(b[i])
    requires Count(b, leaf, len) == len
    ensures !TailFree(Rebalance(b, pair, 2 * len))
  {
    CountFull(b, leaf, len);
    FullToTheEnd(b, pair, 2 * len);
  }

  lemma FullToTheEnd(b: seq<Edge>, pair: nat, len: nat)
    requires pair + len == |b| && 0 < len
    requires forall i :: pair <= i < |b| ==> !IsNull(b[i])
    ensures Rebalance(b, pair, len) == b && !TailFree(b)
  {
    CountFull(b, pair, len);
    RebalanceFull(b, pair, len);
  }

  /** In the last leaf: if settling leaves the last slot occupied, both leaves of the pair are full. */
  lemma FullPair(b: seq<Edge>, g: Geometry, index: nat)
    requires TreeShape(g) && |b| == g.N && index < g.N
    requires forall i :: index <= i < g.N - 1 ==> !IsNull(b[i])
    requires LeafStart(g, index) + g.logN == g.N && !TailFree(Settle(b, g, index))
    ensures Settle(b, g, index) == b && SettledStart(b, g, index) == PairStart(g, index)
    ensures PairStart(g, index) + g.logN == LeafStart(g, index)
    ensures Count(b, LeafStart(g, index), g.logN) == g.logN
    ensures forall i :: PairStart(g, index) <= i < g.N ==> !IsNull(b[i])
  {
    PairWindow(g, index);
    SettleTail(b, g, index);
    RebalanceTail(b, PairStart(g, index), 2 * g.logN);
    RebalanceFull(b, PairStart(g, index), 2 * g.logN);
    CountFull(b, PairStart(g, index), 2 * g.logN);
  }

  /** ... and then the window redistributed last is larger than a leaf: found by climbing, */
  lemma FullPairClimbs(b: seq<Edge>, g: Geometry, pair: nat)
    requires TreeShape(g) && |b| == g.N && IsWindow(g, pair, g.logN, g.H)
    requires forall i :: pair <= i < g.N ==> !IsNull(b[i])
    ensures var t := InsertClimb(b, g, pair, g.logN, g.H, 0); t.Stop? ==> t.len > g.logN
  {
    CountFull(b, pair, g.logN);
    FullLeafTooDense(g, Count(b, pair, g.logN));
    InsertClimbStops(b, g, pair, g.logN, g.H, 0);
  }

  /** or planned before the insertion. */
  lemma FullPairPlan(a: seq<Edge>, g: Geometry, index: nat, elem: Edge)
    requires TreeShape(g) && |a| == g.N && index < g.N && !IsNull(elem)
    requires FirstEmpty(a, index) == g.N - 1 && LeafStart(g, index) + g.logN == g.N
    requires PairStart(g, index) + g.logN == LeafStart(g, index)
    requires var b := SlideInsert(a, index, elem);
      && Count(b, LeafStart(g, index), g.logN) == g.logN
      && forall i :: PairStart(g, index) <= i < g.N ==> !IsNull(b[i])
    ensures var p := InsertPlan(a, g, index); p.Stop? ==> p.len > g.logN
  {
    PairWindow(g, index);
    SlideInsertSlots(a, index, elem);
    SlideInsertCount(a, index, elem, LeafStart(g, index), g.logN);
    CountFull(a, PairStart(g, index), g.logN);
    PlanFacts(a, g, index);
  }

  lemma FinishTail(c: seq<Edge>, g: Geometry, t: Target)
    requires |c| == g.N && 0 < g.N
    requires t.Window? ==> 0 < t.len && t.start + t.len <= g.N
    ensures t.Grow? || TailFree(c) ==> TailFree(Finish(c, g, t))
    ensures t.Window? && t.len > g.logN && t.start + t.len == g.N && Count(c, t.start, t.len) < t.len
      ==> TailFree(Finish(c, g, t))
    ensures t.Window? && !TailFree(c) && (t.start + t.len < g.N || t.len <= g.logN) ==> !TailFree(Finish(c, g, t))
  {
    if t.Grow? {
      LiveItems(c);
      SpreadShape(Live(c), 2 * g.N);
    } else {
      RebalanceTail(c, t.start, t.len);
    }
  }

  /** A slide that runs to the last slot: what is there at the end. */
  lemma TightTail(a: seq<Edge>, g: Geometry, index: nat, elem: Edge, info: Option<Info>)
    requires TreeShape(g) && |a| == g.N && index < g.N && !IsNull(elem)
    requires InfoShape(g, info) && InfoFits(a, g, index, info)
    requires FirstEmpty(a, index) == g.N - 1
    ensures TailFree(Inserted(a, g, index, elem, info)) <==> !Overrun(a, g, index, elem, info)
  {
    var b := SlideInsert(a, index, elem);
    SlideInsertSlots(a, index, elem);
    PairWindow(g, index);
    TargetRoom(a, g, index, elem, info);
    SettleTail(b, g, index);
    var c, t := Settle(b, g, index), InsertTarget(b, g, index, info);
    if LeafStart(g, index) + g.logN == g.N && !TailFree(c) {
      FullPair(b, g, index);
      FullPairClimbs(b, g, PairStart(g, index));
      FullPairPlan(a, g, index, elem);
    }
    FinishTail(c, g, t);
  }

  /** From an array whose last slot is empty, insertion leaves it empty unless it overruns, and only then. */
  lemma InsertedTail(a: seq<Edge>, g: Geometry, index: nat, elem: Edge, info: Option<Info>)
    requires TreeShape(g) && |a| == g.N && index < g.N && !IsNull(elem)
    requires TailFree(a) && InfoFits(a, g, index, info)
    ensures FirstEmpty(a, index) < g.N && InfoShape(g, info)
    ensures TailFree(Inserted(a, g, index, elem, info)) <==> !Overrun(a, g, index, elem, info)
  {
    FirstEmptyBefore(a, index, g.N - 1);
    TargetRoom(a, g, index, elem, info);
    if FirstEmpty(a, index) == g.N - 1 {
      TightTail(a, g, index, elem, info);
    } else {
      var b := SlideInsert(a, index, elem);
      SlideInsertSlots(a, index, elem);
      SettleKeepsTail(b, g, index);
      FinishTail(Settle(b, g, index), g, InsertTarget(b, g, index, info));
    }
  }

  lemma SettleKeepsTail(b: seq<Edge>, g: Geometry, index: nat)
    requires TreeShape(g) && |b| == g.N && index < g.N && TailFree(b)
    ensures TailFree(Settle(b, g, index))
  {
    PairWindow(g, index);
    RebalanceTail(b, LeafStart(g, index), g.logN);
    RebalanceTail(b, PairStart(g, index), 2 * g.logN);
  }

  /** A window that ends before the array does ends at least two slots before it. */
  lemma WindowEnds(g: Geometry, start: nat, len: nat, level: nat)
    requires TreeShape(g) && IsWindow(g, start, len, level) && len >= 2 && start + len < g.N
    ensures start + len <= g.N - 2
  {
    WindowAt(g, start + len, len, level);
  }

  lemma RebalanceLastTwo(b: seq<Edge>, g: Geometry, start: nat, len: nat, level: nat)
    requires TreeShape(g) && |b| == g.N >= 2 && IsWindow(g, start, len, level) && len >= 2 && start + len < g.N
    ensures Rebalance(b, start, len)[g.N - 2] == b[g.N - 2]
  {
    WindowEnds(g, start, len, level);
    RebalanceSlots(b, start, len);
  }

  /** A pair with a full leaf and no hole behind it. */
  lemma PairLastTwo(b: seq<Edge>, g: Geometry, index: nat)
    requires TreeShape(g) && |b| == g.N >= 2 && index < g.N && LeafStart(g, index) + g.logN < g.N
    requires forall i :: index <= i < g.N ==> !IsNull(b[i])
    requires LeafStart(g, index) <= index && PairStart(g, index) + 2 * g.logN <= g.N
    requires Count(b, LeafStart(g, index), g.logN) == g.logN
    ensures !IsNull(Rebalance(b, PairStart(g, index), 2 * g.logN)[g.N - 2])
  {
    PairWindow(g, index);
    if PairStart(g, index) + 2 * g.logN < g.N {
      RebalanceLastTwo(b, g, PairStart(g, index), 2 * g.logN, g.H - 1);
    } else {
      CountFull(b, LeafStart(g, index), g.logN);
      FullToTheEnd(b, PairStart(g, index), 2 * g.logN);
    }
  }

  /** Settling after a slide to the last slot leaves the last two slots occupied, unless it redistributes the last leaf. */
  lemma SettleLastTwo(b: seq<Edge>, g: Geometry, index: nat)
    requires TreeShape(g) && |b| == g.N && index < g.N && LeafStart(g, index) + g.logN < g.N
    requires forall i :: index <= i < g.N ==> !IsNull(b[i])
    ensures !IsNull(Settle(b, g, index)[g.N - 2])
  {
    PairWindow(g, index);
    if Count(b, LeafStart(g, index), g.logN) < g.logN {
      RebalanceLastTwo(b, g, LeafStart(g, index), g.logN, g.H);
      WindowEnds(g, LeafStart(g, index), g.logN, g.H);
    } else {
      PairLastTwo(b, g, index);
    }
  }

  /** The window redistributed last is one of the tree. */
  lemma TargetWindow(a: seq<Edge>, g: Geometry, index: nat, elem: Edge, info: Option<Info>)
    requires TreeShape(g) && |a| == g.N && index < g.N && FirstEmpty(a, index) < g.N
    requires InfoFits(a, g, index, info)
    ensures var t := InsertTarget(SlideInsert(a, index, elem), g, index, info);
      t.Window? ==> t.len >= 2 && exists level :: IsWindow(g, t.start, t.len, level)
  {
    PairWindow(g, index);
    if info.Some? {
      PlanFacts(a, g, index);
    } else {
      var b := SlideInsert(a, index, elem);
      SettledStartPair(b, g, index);
      InsertClimbStops(Settle(b, g, index), g, SettledStart(b, g, index), g.logN, g.H, 0);
    }
  }

  /** An insertion that overruns leaves the slot before the last one occupied, too. */
  lemma OverrunCrowds(a: seq<Edge>, g: Geometry, index: nat, elem: Edge, info: Option<Info>)
    requires TreeShape(g) && |a| == g.N && index < g.N && FirstEmpty(a, index) < g.N && !IsNull(elem)
    requires InfoShape(g, info) && InfoFits(a, g, index, info) && Overrun(a, g, index, elem, info)
    ensures var b := Inserted(a, g, index, elem, info); |b| == g.N >= 2 && !IsNull(b[g.N - 2])
  {
    var b := SlideInsert(a, index, elem);
    SlideInsertSlots(a, index, elem);
    SettleLastTwo(b, g, index);
    TargetWindow(a, g, index, elem, info);
    var c, t := Settle(b, g, index), InsertTarget(b, g, index, info);
    var level :| IsWindow(g, t.start, t.len, level);
    WindowEnds(g, t.start, t.len, level);
    RebalanceSlots(c, t.start, t.len);
  }

  lemma LastTwoSlots(a: seq<Edge>, g: Geometry, index: nat, elem: Edge, info: Option<Info>, b: seq<Edge>)
    requires TreeShape(g) && |a| == g.N && index < g.N && !IsNull(elem) && TailFree(a)
    requires FirstEmpty(a, index) < g.N && InfoShape(g, info) && InfoFits(a, g, index, info)
    requires b == Inserted(a, g, index, elem, info)
    ensures TailFree(b) || (|b| == g.N >= 2 && !IsNull(b[g.N - 2]))
  {
    InsertedTail(a, g, index, elem, info);
    if !TailFree(b) {
      OverrunCrowds(a, g, index, elem, info);
    }
  }

  // ---------------------------------------------------------------- room

  /** The empty slots of a window are empty slots of the array. */
  lemma CountRoom(a: seq<Edge>, s: nat, len: nat)
    requires s + len <= |a|
    ensures |Live(a)| + len <= |a| + Count(a, s, len)
  {
    LiveCut(a, s, s + len);
  }

  lemma PlannedRoom(a: seq<Edge>, g: Geometry, index: nat)
    requires TreeShape(g) && |a| == g.N && index < g.N && InsertPlan(a, g, index).Stop?
    ensures |Live(a)| + 1 < g.N
  {
    var p := InsertPlan(a, g, index);
    PlanFacts(a, g, index);
    NotTooDenseHasRoom(g, Count(a, p.start, p.len) + 1, p.len, p.level);
    CountRoom(a, p.start, p.len);
  }

  lemma ClimbedRoom(c: seq<Edge>, g: Geometry, from: nat)
    requires TreeShape(g) && |c| == g.N && IsWindow(g, from, g.logN, g.H)
    requires InsertClimb(c, g, from, g.logN, g.H, 0).Stop?
    ensures |Live(c)| < g.N
  {
    var t := InsertClimb(c, g, from, g.logN, g.H, 0);
    InsertClimbStops(c, g, from, g.logN, g.H, 0);
    NotTooDenseHasRoom(g, Count(c, t.start, t.len), t.len, t.level);
    CountRoom(c, t.start, t.len);
  }

  /** After an insertion the array always has an empty slot, wherever that is. */
  lemma InsertedRoom(a: seq<Edge>, g: Geometry, index: nat, elem: Edge, info: Option<Info>)
    requires TreeShape(g) && |a| == g.N && index < g.N && FirstEmpty(a, index) < g.N && !IsNull(elem)
    requires InfoShape(g, info) && InfoFits(a, g, index, info)
    ensures |Live(Inserted(a, g, index, elem, info))| < |Inserted(a, g, index, elem, info)|
  {
    var b := SlideInsert(a, index, elem);
    var c, t := Settle(b, g, index), InsertTarget(b, g, index, info);
    InsertTargetShape(b, g, index, info);
    FinishKeeps(c, g, t);
    if info.None? && t.Window? {
      SettledStartPair(b, g, index);
      ClimbedRoom(c, g, SettledStart(b, g, index));
    } else if t.Window? {
      PlannedRoom(a, g, index);
      InsertedLive(a, g, index, elem, info);
      LiveAt(a, index);
    }
  }
}
