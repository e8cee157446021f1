/**
 The vertex table: for each vertex the slot of its sentinel and the exclusive
 end of its range, kept in step with sentinels that move.
 */
module Pointers {
  import opened Slots
  import opened Insertion

  datatype Node = Node(beginning: nat, end: nat)

  /**
   A sentinel's slot is where the table says: the owner begins there, the
   previous vertex ends there, and the last vertex ends at the last slot.
   */
  ghost predicate Points(nodes: seq<Node>, e: Edge, pos: nat, size: nat) {
    !IsNull(e) && IsSentinel(e) ==>
      && e.src < |nodes|
      && nodes[e.src].beginning == pos
      && (e.src > 0 ==> nodes[e.src - 1].end == pos)
      && (e.src == |nodes| - 1 ==> nodes[e.src].end == size - 1)
  }

  ghost predicate AllPoint(nodes: seq<Node>, a: seq<Edge>) {
    forall p {:trigger Points(nodes, a[p], p, |a|)} :: 0 <= p < |a| ==> Points(nodes, a[p], p, |a|)
  }

  /** The vertex a sentinel points back to. */
  function Owner(e: Edge): nat {
    if e.value == MAX then 0 else e.value
  }

  /** The table once the sentinel is at `pos`, entry by entry. */
  function FixedNodes(nodes: seq<Node>, e: Edge, pos: nat, size: nat): (fixed: seq<Node>)
    requires IsSentinel(e) ==> Owner(e) < |nodes| && (e.value != MAX ==> e.value > 0) && 0 < size
    ensures |fixed| == |nodes|
  {
    if !IsSentinel(e) then nodes
    else
      var v := Owner(e);
      seq(|nodes|, i requires 0 <= i < |nodes| => Node(
        if i == v then pos else nodes[i].beginning,
        if i == v == |nodes| - 1 then size - 1 else if i + 1 == v then pos else nodes[i].end))
  }

  /** Fixing one sentinel makes its own entries right ... */
  lemma FixedNodesOwn(nodes: seq<Node>, e: Edge, pos: nat, size: nat)
    requires WellFormedItem(e, |nodes|) && 0 < size
    ensures IsSentinel(e) ==> Owner(e) < |nodes| && (e.value != MAX ==> e.value > 0)
    ensures Points(FixedNodes(nodes, e, pos, size), e, pos, size)
  {
  }

  /** ... and disturbs no other's. */
  lemma FixedNodesOther(nodes: seq<Node>, e: Edge, pos: nat, other: Edge, p: nat, size: nat)
    requires WellFormedItem(e, |nodes|) && 0 < size
    requires IsNull(other) || (WellFormedItem(other, |nodes|) && (Before(e, other) || Before(other, e)))
    requires Points(nodes, other, p, size)
    ensures IsSentinel(e) ==> Owner(e) < |nodes| && (e.value != MAX ==> e.value > 0)
    ensures Points(FixedNodes(nodes, e, pos, size), other, p, size)
  {
  }

  lemma FixedNodesPoint(nodes: seq<Node>, a: seq<Edge>, pos: nat)
    requires Orderly(a, |nodes|) && pos < |a| && !IsNull(a[pos])
    ensures IsSentinel(a[pos]) ==> Owner(a[pos]) < |nodes| && (a[pos].value != MAX ==> a[pos].value > 0)
    ensures Points(FixedNodes(nodes, a[pos], pos, |a|), a[pos], pos, |a|)
    ensures forall p | 0 <= p < |a| && p != pos && Points(nodes, a[p], p, |a|) ::
      Points(FixedNodes(nodes, a[pos], pos, |a|), a[p], p, |a|)
  {
    assert WellFormedItem(a[pos], |nodes|);
    FixedNodesOwn(nodes, a[pos], pos, |a|);
    forall p | 0 <= p < |a| && p != pos && Points(nodes, a[p], p, |a|)
      ensures Points(FixedNodes(nodes, a[pos], pos, |a|), a[p], p, |a|)
    {
      assert IsNull(a[p]) || WellFormedItem(a[p], |nodes|);
      assert IsNull(a[p]) || if p < pos then Before(a[p], a[pos]) else Before(a[pos], a[p]);
      FixedNodesOther(nodes, a[pos], pos, a[p], p, |a|);
    }
  }

  // ---------------------------------------------------------------- what the table says

  lemma SentinelPoints(nodes: seq<Node>, a: seq<Edge>, v: nat)
    requires LaidOut(a, |nodes|) && AllPoint(nodes, a) && v < |nodes|
    ensures nodes[v].beginning < |a| && a[nodes[v].beginning] == SentinelOf(v)
    ensures v > 0 ==> nodes[v - 1].end == nodes[v].beginning
    ensures v == |nodes| - 1 ==> nodes[v].end == |a| - 1
  {
    assert HasSentinel(a, v);
    var p :| 0 <= p < |a| && a[p] == SentinelOf(v);
    assert Points(nodes, a[p], p, |a|);
  }

  lemma NodeRange(nodes: seq<Node>, a: seq<Edge>, v: nat)
    requires LaidOut(a, |nodes|) && AllPoint(nodes, a) && v < |nodes|
    ensures nodes[v].beginning < |a| && a[nodes[v].beginning] == SentinelOf(v)
    ensures v + 1 < |nodes| ==>
      && nodes[v].beginning < nodes[v].end < |a|
      && a[nodes[v].end] == SentinelOf(v + 1)
    ensures v + 1 == |nodes| ==> nodes[v].end == |a| - 1
  {
    SentinelPoints(nodes, a, v);
    if v + 1 < |nodes| {
      SentinelPoints(nodes, a, v + 1);
      assert !Before(a[nodes[v].end], a[nodes[v].beginning]);
    }
  }

  /** With a free last slot every vertex has a proper range that ends inside the array. */
  lemma NodeRangeProper(nodes: seq<Node>, a: seq<Edge>, v: nat)
    requires LaidOut(a, |nodes|) && AllPoint(nodes, a) && v < |nodes| && TailFree(a)
    ensures nodes[v].beginning < nodes[v].end < |a|
  {
    NodeRange(nodes, a, v);
  }

  /** The items of a vertex's range are its edges. */
  lemma NodeEdge(nodes: seq<Node>, a: seq<Edge>, v: nat, p: nat)
    requires LaidOut(a, |nodes|) && AllPoint(nodes, a) && v < |nodes|
    requires nodes[v].beginning < p < nodes[v].end && p < |a| && !IsNull(a[p])
    ensures a[p].src == v && !IsSentinel(a[p]) && WellFormedItem(a[p], |nodes|)
  {
    NodeRange(nodes, a, v);
    assert WellFormedItem(a[p], |nodes|);
    assert Before(a[nodes[v].beginning], a[p]);
    assert v + 1 < |nodes| ==> Before(a[p], a[nodes[v].end]);
  }

  /** Every edge of a vertex is in its range, unless it sits in the last slot. */
  lemma EdgeInRange(nodes: seq<Node>, a: seq<Edge>, v: nat, p: nat)
    requires LaidOut(a, |nodes|) && AllPoint(nodes, a) && v < |nodes|
    requires p < |a| && !IsNull(a[p]) && !IsSentinel(a[p]) && a[p].src == v
    ensures nodes[v].beginning < p
    ensures p < nodes[v].end || (p == |a| - 1 && v == |nodes| - 1)
  {
    NodeRange(nodes, a, v);
    var b, e := nodes[v].beginning, nodes[v].end;
    assert !Before(a[p], a[b]);
    assert v + 1 < |nodes| ==> !Before(a[e], a[p]);
  }
}
