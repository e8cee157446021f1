/**
 Steps of the in-place loops that move sentinels, seen on the array as a
 sequence together with the vertex table.
 */
module Moves {
  import opened Slots
  import opened Spreading
  import opened Pointers
  import opened Insertion
  import opened Removal

  /**
   The array while a slide has reached slot `q`: the items from `index` on have
   moved right by one, and item `q - 1` is in hand.
   */
  ghost function Sliding(a: seq<Edge>, index: nat, q: nat): (b: seq<Edge>)
    requires index < q <= |a|
    ensures |b| == |a|
  {
    a[..index] + [EMPTY] + a[index..q - 1] + a[q..]
  }

  /** Putting the item in hand into slot `q` and fixing its owner keeps the table right. */
  lemma SlideStep(a: seq<Edge>, n: nat, index: nat, q: nat, nodes: seq<Node>)
    requires Orderly(a, n) && |nodes| == n && index < q < |a| && !IsNull(a[q - 1])
    requires AllPoint(nodes, Sliding(a, index, q))
    ensures IsSentinel(a[q - 1]) ==> Owner(a[q - 1]) < n && (a[q - 1].value != MAX ==> a[q - 1].value > 0)
    ensures AllPoint(FixedNodes(nodes, a[q - 1], q, |a|), Sliding(a, index, q)[q := a[q - 1]])
  {
    var b := Sliding(a, index, q);
    var c := b[q := a[q - 1]];
    SlidingOrderly(a, n, index, q);
    FixedNodesPoint(nodes, c, q);
    forall p | 0 <= p < |c|
      ensures Points(FixedNodes(nodes, a[q - 1], q, |a|), c[p], p, |c|)
    {
      if p != q {
        assert Points(nodes, b[p], p, |b|);
      }
    }
  }

  lemma SlidingOrderly(a: seq<Edge>, n: nat, index: nat, q: nat)
    requires Orderly(a, n) && index < q < |a| && !IsNull(a[q - 1])
    ensures Orderly(Sliding(a, index, q)[q := a[q - 1]], n)
  {
    var c := Sliding(a, index, q)[q := a[q - 1]];
    forall i, j | 0 <= i < j < |c| && !IsNull(c[i]) && !IsNull(c[j])
      ensures Before(c[i], c[j])
    {
      assert Before(a[if index < i <= q then i - 1 else i], a[if index < j <= q then j - 1 else j]);
    }
    forall i | 0 <= i < |c| && !IsNull(c[i])
      ensures WellFormedItem(c[i], n)
    {
      assert WellFormedItem(a[if index < i <= q then i - 1 else i], n);
    }
  }

  lemma SlidingNext(a: seq<Edge>, index: nat, q: nat)
    requires index < q < |a|
    ensures Sliding(a, index, q)[q] == a[q]
    ensures Sliding(a, index, q)[q := a[q - 1]] == Sliding(a, index, q + 1)
  {
  }

  lemma DoubledLive(a: seq<Edge>, b: seq<Edge>)
    requires |b| == 2 * |a| && b[..|a|] == a
    requires forall i :: |a| <= i < |b| ==> IsNull(b[i])
    ensures Live(b) == Live(a) && Rebalance(b, 0, |b|) == Spread(Live(a), |b|)
  {
    assert b == a + b[|a|..];
    LiveConcat(a, b[|a|..]);
    LiveOfEmpties(b[|a|..]);
    assert b[0..|b|] == b;
  }

  lemma HalvedLive(a: seq<Edge>, packed: seq<Edge>, b: seq<Edge>, j: nat)
    requires |b| <= |a| == |packed| && j <= |b| && packed[..j] == Live(a)
    requires forall i :: j <= i < |b| ==> IsNull(packed[i])
    requires forall i :: 0 <= i < |b| ==> b[i] == packed[i]
    ensures Live(b) == Live(a) && Rebalance(b, 0, |b|) == Spread(Live(a), |b|)
    ensures Live(a) != [] ==> |b| > 0 && !IsNull(b[0])
  {
    LiveItems(a);
    assert b[..j] == Live(a) by {
      assert b[..j] == packed[..j];
    }
    FrontLive(b, Live(a));
    assert b[0..|b|] == b;
    assert Live(a) != [] ==> b[0] == Live(a)[0];
  }

  /** Items at the front, nothing behind. */
  lemma FrontLive(b: seq<Edge>, l: seq<Edge>)
    requires |l| <= |b| && b[..|l|] == l
    requires forall i :: 0 <= i < |l| ==> !IsNull(l[i])
    requires forall i :: |l| <= i < |b| ==> IsNull(b[i])
    ensures Live(b) == l
  {
    LiveAt(b, |l|);
    LiveOfItems(l);
    LiveOfEmpties(b[|l|..]);
  }

  /** The window once its items are packed and the rest is cleared. */
  ghost function PackedWindow(a: seq<Edge>, index: nat, len: nat): Redistribution
    requires index + len <= |a| && Live(a[index..index + len]) != []
  {
    var l := Live(a[index..index + len]);
    Redistribution(a[..index], l, Offsets(|l|, len), len, a[index + len..])
  }

  lemma PackedWindowOk(a: seq<Edge>, index: nat, len: nat, n: nat)
    requires index + len <= |a| && Live(a[index..index + len]) != [] && WellFormed(Live(a), n)
    ensures var w := PackedWindow(a, index, len);
      && w.Ok(n)
      && w.Stage(|w.l|) == PackedArray(a, index, len)
      && Rebalance(a, index, len) == w.left + Spread(w.l, len) + w.right
  {
    var l := Live(a[index..index + len]);
    OffsetsPlacing(|l|, len);
    LiveItems(a[index..index + len]);
    LiveCut(a, index, index + len);
    HalfSpreadStart(l, Offsets(|l|, len), len);
  }

  /** Packing disturbs the table for no slot outside the packed items. */
  lemma PackedPointers(nodes: seq<Node>, a: seq<Edge>, index: nat, len: nat)
    requires index + len <= |a| && PointOutside(nodes, a, index, index + len)
    ensures PointOutside(nodes, PackedArray(a, index, len), index, index + Count(a, index, len))
  {
    PackedSlots(a, index, len);
    var b := PackedArray(a, index, len);
    forall p | 0 <= p < |b| && !(index <= p < index + Count(a, index, len))
      ensures Points(nodes, b[p], p, |b|)
    {
      if !(index <= p < index + len) {
        assert Points(nodes, a[p], p, |a|);
      }
    }
  }

  /** A window under redistribution: what is left and right of it, its items and their targets. */
  datatype Redistribution = Redistribution(left: seq<Edge>, l: seq<Edge>, offs: seq<nat>, len: nat, right: seq<Edge>) {

    ghost predicate Ok(n: nat) {
      && l != [] && Placing(offs, |l|, len)
      && (forall i :: 0 <= i < |l| ==> !IsNull(l[i]))
      && WellFormed(Live(left) + l + Live(right), n)
    }

    /** The whole array while items `k..` are in place. */
    ghost function Stage(k: nat): (a: seq<Edge>)
      requires Placing(offs, |l|, len) && k <= |l|
      ensures |a| == |left| + len + |right|
    {
      left + HalfSpread(l, k, offs, len) + right
    }
  }

  /** The table is right about every sentinel outside the given slots. */
  ghost predicate PointOutside(nodes: seq<Node>, a: seq<Edge>, lo: nat, hi: nat) {
    forall p {:trigger Points(nodes, a[p], p, |a|)} :: 0 <= p < |a| && !(lo <= p < hi) ==> Points(nodes, a[p], p, |a|)
  }

  lemma MoveStep(a: seq<Edge>, k: nat, w: Redistribution, n: nat)
    requires w.Ok(n) && 0 < k < |w.l| && a == w.Stage(k + 1)
    ensures var at, to := |w.left| + k, |w.left| + w.offs[k];
      && at <= to < |a|
      && !IsNull(a[at]) && (at < to ==> IsNull(a[to]))
      && a[at := a[to]][to := a[at]] == w.Stage(k)
    ensures LaidOut(w.Stage(k), n)
  {
    SwapStep(a, w.left, w.l, k, w.offs, w.len, w.right);
    StageLaidOut(w, k, n);
  }

  lemma MovePoints(nodes: seq<Node>, a: seq<Edge>, lo: nat, at: nat, to: nat)
    requires at <= to < |a| && !IsNull(a[at]) && (at < to ==> IsNull(a[to]))
    requires PointOutside(nodes, a, lo, at + 1)
    requires LaidOut(a[at := a[to]][to := a[at]], |nodes|)
    ensures IsSentinel(a[at]) ==> Owner(a[at]) < |nodes| && (a[at].value != MAX ==> a[at].value > 0)
    ensures PointOutside(FixedNodes(nodes, a[at], to, |a|), a[at := a[to]][to := a[at]], lo, at)
  {
    var b := a[at := a[to]][to := a[at]];
    FixedNodesPoint(nodes, b, to);
    var fixed := FixedNodes(nodes, b[to], to, |b|);
    forall p | 0 <= p < |b| && !(lo <= p < at)
      ensures Points(fixed, b[p], p, |b|)
    {
      if p != to && p != at {
        assert Points(nodes, a[p], p, |a|);
      }
    }
  }

  lemma LastStep(a: seq<Edge>, nodes: seq<Node>, w: Redistribution)
    requires w.Ok(|nodes|) && w.offs == Offsets(|w.l|, w.len)
    requires a == w.Stage(1) && PointOutside(nodes, a, |w.left|, |w.left| + 1)
    ensures var at := |w.left|;
      && at < |a|
      && (IsSentinel(a[at]) ==> Owner(a[at]) < |nodes| && (a[at].value != MAX ==> a[at].value > 0))
      && AllPoint(FixedNodes(nodes, a[at], at, |a|), a)
    ensures |w.l| <= w.len && a == w.left + Spread(w.l, w.len) + w.right
  {
    assert w.offs[0] + |w.l| <= w.offs[|w.l|];
    HalfSpreadEnd(w.l, w.len);
    StageLaidOut(w, 1, |nodes|);
    assert HalfSpread(w.l, 1, w.offs, w.len)[0] == w.l[0];
    FixedNodesPoint(nodes, a, |w.left|);
    var fixed := FixedNodes(nodes, a[|w.left|], |w.left|, |a|);
    forall p | 0 <= p < |a|
      ensures Points(fixed, a[p], p, |a|)
    {
      if p != |w.left| {
        assert Points(nodes, a[p], p, |a|);
      }
    }
  }

  /** Items that move inside the window keep the array in order. */
  lemma StageLaidOut(w: Redistribution, k: nat, n: nat)
    requires w.Ok(n) && k <= |w.l|
    ensures LaidOut(w.Stage(k), n)
  {
    HalfSpreadLive(w.l, k, w.offs, w.len);
    LiveConcat3(w.left, HalfSpread(w.l, k, w.offs, w.len), w.right);
    ItemsLaidOut(w.Stage(k), n);
  }

  /** Storing the new item in a slot that was empty, */
  lemma PlacedInHole(a: seq<Edge>, index: nat, elem: Edge)
    requires index < |a| && IsNull(a[index])
    ensures FirstEmpty(a, index) == index && a[index := elem] == SlideInsert(a, index, elem)
  {
    StoreAt(a, index, elem);
  }

  /** or where the slide made room. */
  lemma PlacedAfterSlide(a: seq<Edge>, index: nat, elem: Edge)
    requires index < |a| && FirstEmpty(a, index) < |a|
    ensures Sliding(a, index, FirstEmpty(a, index) + 1)[index := elem] == SlideInsert(a, index, elem)
  {
    var p := FirstEmpty(a, index);
    StoreBetween(a[..index], EMPTY, a[index..p], a[p + 1..], elem);
  }

  lemma StoreAt(a: seq<Edge>, i: nat, e: Edge)
    requires i < |a|
    ensures a[i := e] == a[..i] + [e] + a[i..i] + a[i + 1..]
  {
  }

  lemma StoreBetween(l: seq<Edge>, x: Edge, m: seq<Edge>, r: seq<Edge>, e: Edge)
    ensures (l + [x] + m + r)[|l| := e] == l + [e] + m + r
  {
  }

  lemma PointersAfterStore(nodes: seq<Node>, b: seq<Edge>, index: nat, elem: Edge)
    requires index < |b| && AllPoint(nodes, b)
    ensures PointOutside(nodes, b[index := elem], index, index + 1)
  {
    var c := b[index := elem];
    forall p | 0 <= p < |c| && !(index <= p < index + 1)
      ensures Points(nodes, c[p], p, |c|)
    {
      assert Points(nodes, b[p], p, |b|);
    }
  }

  /** A slot that is emptied needs no pointer. */
  lemma PointersAfterClear(nodes: seq<Node>, a: seq<Edge>, index: nat)
    requires index < |a| && AllPoint(nodes, a)
    ensures AllPoint(nodes, Cleared(a, index))
  {
    var b := Cleared(a, index);
    forall p | 0 <= p < |b|
      ensures Points(nodes, b[p], p, |b|)
    {
      assert Points(nodes, a[p], p, |a|);
    }
  }
}
