/**
 From the place a search finds to the graph: what storing, overwriting and
 clearing there does to it.
 */
module Neighbourhood {
  import opened Slots
  import opened Insertion
  import opened Removal
  import opened Pointers
  import opened Search

  /** A vertex table and an array that belong together, with the last slot free. */
  ghost predicate Layout(nodes: seq<Node>, a: seq<Edge>) {
    LaidOut(a, |nodes|) && AllPoint(nodes, a) && TailFree(a)
  }

  /** `index` is the place of `dest` among the edges of `src`. */
  ghost predicate PlaceIn(nodes: seq<Node>, a: seq<Edge>, src: nat, dest: u32, index: nat) {
    && src < |nodes|
    && PlaceOf(a, dest, nodes[src].beginning + 1, nodes[src].end, index)
  }

  /** The edges of a vertex are a sorted range. */
  lemma RangeSorted(nodes: seq<Node>, a: seq<Edge>, v: nat)
    requires Layout(nodes, a) && v < |nodes|
    ensures nodes[v].beginning + 1 <= nodes[v].end < |a|
    ensures SortedRange(a, nodes[v].beginning + 1, nodes[v].end)
  {
    NodeRangeProper(nodes, a, v);
    var s, e := nodes[v].beginning + 1, nodes[v].end;
    forall i, j | s <= i < j < e && !IsNull(a[i]) && !IsNull(a[j])
      ensures a[i].dest < a[j].dest
    {
      NodeEdge(nodes, a, v, i);
      NodeEdge(nodes, a, v, j);
      assert Before(a[i], a[j]);
    }
  }

  /** Everything before the place is smaller than the edge ... */
  lemma PlaceBefore(nodes: seq<Node>, a: seq<Edge>, elem: Edge, index: nat, i: nat)
    requires Layout(nodes, a) && PlaceIn(nodes, a, elem.src, elem.dest, index) && !IsSentinel(elem)
    requires i < index && !IsNull(a[i])
    ensures Before(a[i], elem)
  {
    NodeRange(nodes, a, elem.src);
    var b := nodes[elem.src].beginning;
    if i < b {
      assert Before(a[i], a[b]);
    } else if b < i {
      NodeEdge(nodes, a, elem.src, i);
    }
  }

  /** ... and everything from it on is larger, or the edge itself. */
  lemma PlaceAfter(nodes: seq<Node>, a: seq<Edge>, elem: Edge, index: nat, i: nat)
    requires Layout(nodes, a) && PlaceIn(nodes, a, elem.src, elem.dest, index) && !IsSentinel(elem)
    requires index <= i < |a| && !IsNull(a[i])
    ensures Before(elem, a[i]) || (i == index && a[i].src == elem.src && a[i].dest == elem.dest && !IsSentinel(a[i]))
  {
    NodeRange(nodes, a, elem.src);
    var e := nodes[elem.src].end;
    if i < e {
      NodeEdge(nodes, a, elem.src, i);
    } else if e < i {
      if elem.src + 1 < |nodes| {
        assert Before(a[e], a[i]);
      }
    }
  }

  /** The place is never the first slot, and an item with the destination there is the edge. */
  lemma PlaceHolds(nodes: seq<Node>, a: seq<Edge>, elem: Edge, index: nat)
    requires Layout(nodes, a) && PlaceIn(nodes, a, elem.src, elem.dest, index) && !IsSentinel(elem)
    ensures 0 < index < |a|
    ensures !IsNull(a[index]) && a[index].dest == elem.dest ==> a[index].src == elem.src && !IsSentinel(a[index])
  {
    RangeSorted(nodes, a, elem.src);
    NodeRange(nodes, a, elem.src);
    if !IsNull(a[index]) && index < nodes[elem.src].end {
      NodeEdge(nodes, a, elem.src, index);
    }
  }

  /** The edge is nowhere but at its place. */
  lemma PlaceUnique(nodes: seq<Node>, a: seq<Edge>, elem: Edge, index: nat, i: nat)
    requires Layout(nodes, a) && PlaceIn(nodes, a, elem.src, elem.dest, index) && !IsSentinel(elem)
    requires i < |a| && !IsNull(a[i]) && !IsSentinel(a[i]) && a[i].src == elem.src && a[i].dest == elem.dest
    ensures i == index
  {
    EdgeInRange(nodes, a, elem.src, i);
  }

  /** Items before and after the place, as sequences. */
  lemma PlaceParts(nodes: seq<Node>, a: seq<Edge>, elem: Edge, index: nat)
    requires Layout(nodes, a) && PlaceIn(nodes, a, elem.src, elem.dest, index) && !IsSentinel(elem)
    ensures 0 < index < |a|
    ensures AllBefore(Live(a[..index]), elem)
    ensures AllAfter(elem, Live(a[index + 1..]))
    ensures Overwrites(a, index, elem) || IsNull(a[index]) || Before(elem, a[index])
  {
    PlaceHolds(nodes, a, elem, index);
    var l, r := a[..index], a[index + 1..];
    forall k | 0 <= k < |Live(l)|
      ensures Before(Live(l)[k], elem)
    {
      var i := LiveFrom(l, k);
      PlaceBefore(nodes, a, elem, index, i);
    }
    forall k | 0 <= k < |Live(r)|
      ensures Before(elem, Live(r)[k])
    {
      var i := LiveFrom(r, k);
      assert r[i] == a[index + 1 + i];
      PlaceAfter(nodes, a, elem, index, index + 1 + i);
    }
    if !IsNull(a[index]) {
      PlaceAfter(nodes, a, elem, index, index);
    }
  }

  /** Storing a new edge at its place is a put. */
  lemma StoreIsPut(nodes: seq<Node>, a: seq<Edge>, elem: Edge, index: nat)
    requires Layout(nodes, a) && WellFormed(Live(a), |nodes|)
    requires PlaceIn(nodes, a, elem.src, elem.dest, index) && !IsSentinel(elem) && !IsNull(elem)
    requires index < |a| && !Overwrites(a, index, elem)
    ensures FirstEmpty(a, index) < |a|
    ensures WellFormed(Live(SlideInsert(a, index, elem)), |nodes|)
    ensures Live(SlideInsert(a, index, elem)) == Live(a[..index]) + [elem] + Live(a[index..])
    ensures GraphOf(Live(a[..index]) + [elem] + Live(a[index..])) == GraphOf(Live(a))[(elem.src, elem.dest) := elem.value]
  {
    FirstEmptyBefore(a, index, |a| - 1);
    PlaceParts(nodes, a, elem, index);
    SlideInsertLive(a, index, elem);
    var l, r := Live(a[..index]), Live(a[index..]);
    LiveAt(a, index);
    SuffixAfter(a, index, elem);
    WellFormedInsert(l, elem, r, |nodes|);
    GraphOfInsert(l, elem, r);
  }

  lemma SuffixAfter(a: seq<Edge>, index: nat, elem: Edge)
    requires index < |a| && (IsNull(a[index]) || Before(elem, a[index]))
    requires AllAfter(elem, Live(a[index + 1..]))
    ensures AllAfter(elem, Live(a[index..]))
  {
    LiveSplit(a[index..], 0);
    assert a[index..][1..] == a[index + 1..];
  }

  /** Overwriting the value is a put. */
  lemma OverwriteIsPut(nodes: seq<Node>, a: seq<Edge>, elem: Edge, index: nat)
    requires Layout(nodes, a) && WellFormed(Live(a), |nodes|)
    requires PlaceIn(nodes, a, elem.src, elem.dest, index) && !IsSentinel(elem) && !IsNull(elem)
    requires index < |a| && Overwrites(a, index, elem)
    ensures var b := a[index := a[index].(value := elem.value)];
      && WellFormed(Live(b), |nodes|)
      && GraphOf(Live(b)) == GraphOf(Live(a))[(elem.src, elem.dest) := elem.value]
  {
    PlaceHolds(nodes, a, elem, index);
    PlaceParts(nodes, a, elem, index);
    var l, r := Live(a[..index]), Live(a[index + 1..]);
    ReplacedLive(a, index, elem);
    assert WellFormedItem(a[index], |nodes|);
    WellFormedRemove(l, a[index], r, |nodes|);
    WellFormedInsert(l, elem, r, |nodes|);
    GraphOfInsert(l, a[index], r);
    GraphOfInsert(l, elem, r);
  }

  lemma ReplacedLive(a: seq<Edge>, index: nat, elem: Edge)
    requires index < |a| && !IsNull(a[index]) && !IsNull(elem)
    ensures Live(a) == Live(a[..index]) + [a[index]] + Live(a[index + 1..])
    ensures Live(a[index := elem]) == Live(a[..index]) + [elem] + Live(a[index + 1..])
  {
    SeqSplit(a, index);
    SeqUpdate(a, index, elem);
    LiveAround(a[..index], a[index], a[index + 1..]);
    LiveAround(a[..index], elem, a[index + 1..]);
  }

  /** Clearing the edge's slot is a delete. */
  lemma ClearIsDelete(nodes: seq<Node>, a: seq<Edge>, elem: Edge, index: nat)
    requires Layout(nodes, a) && WellFormed(Live(a), |nodes|)
    requires PlaceIn(nodes, a, elem.src, elem.dest, index) && !IsSentinel(elem)
    requires index < |a| && Overwrites(a, index, elem)
    ensures GraphOf(Live(Cleared(a, index))) == GraphOf(Live(a)) - {(elem.src, elem.dest)}
  {
    PlaceHolds(nodes, a, elem, index);
    PlaceParts(nodes, a, elem, index);
    ClearedLive(a, index);
    GraphOfRemove(Live(a[..index]), a[index], Live(a[index + 1..]));
  }

  /** If the place does not hold the edge, the graph does not have it. */
  lemma PlaceDecides(nodes: seq<Node>, a: seq<Edge>, elem: Edge, index: nat)
    requires Layout(nodes, a) && WellFormed(Live(a), |nodes|)
    requires PlaceIn(nodes, a, elem.src, elem.dest, index) && !IsSentinel(elem)
    requires index < |a|
    ensures Overwrites(a, index, elem) <==> (elem.src, elem.dest) in GraphOf(Live(a))
    ensures Overwrites(a, index, elem) ==> GraphOf(Live(a))[(elem.src, elem.dest)] == a[index].value
  {
    PlaceHolds(nodes, a, elem, index);
    if Overwrites(a, index, elem) {
      GraphOfSlot(a, |nodes|, index);
    }
    if (elem.src, elem.dest) in GraphOf(Live(a)) {
      var i := GraphSlot(a, elem.src, elem.dest);
      PlaceUnique(nodes, a, elem, index, i);
    }
  }

  /** Whether the slot holds the edge: what `insert` overwrites and `remove` clears. */
  ghost predicate Overwrites(a: seq<Edge>, index: nat, elem: Edge)
    requires index < |a|
  {
    !IsNull(a[index]) && !IsSentinel(elem) && a[index].dest == elem.dest
  }

  // ---------------------------------------------------------------- checking a place by its neighbours

  /** The checks of `got_correct_insertion_index` on an occupied slot itself. */
  predicate HereOk(n: nat, src: nat, dest: u32, e: Edge) {
    if IsSentinel(e) then
      if src != n - 1 then e.src == src + 1 else e.value == MAX
    else e.src == src && e.dest >= dest
  }

  /** Its checks on the next item. */
  predicate RightOk(n: nat, src: nat, dest: u32, e: Edge) {
    if IsSentinel(e) then
      if src != n - 1 then e.value == src + 1 else e.value != MAX
    else e.src == src ==> e.dest >= dest
  }

  /** Its checks on the previous item. */
  predicate LeftOk(src: nat, dest: u32, e: Edge) {
    if IsSentinel(e) then
      if src == 0 then e.value == MAX else e.value == src
    else e.src == src ==> e.dest < dest
  }

  /** The previous item of a place passes. */
  lemma PlaceLeftOk(nodes: seq<Node>, a: seq<Edge>, src: nat, dest: u32, index: nat, left: nat)
    requires Layout(nodes, a) && PlaceIn(nodes, a, src, dest, index) && IsPrevItem(a, index, left)
    ensures LeftOk(src, dest, a[left])
  {
    RangeSorted(nodes, a, src);
    NodeRange(nodes, a, src);
    if nodes[src].beginning < left {
      NodeEdge(nodes, a, src, left);
    }
  }

  /** So do the place itself and the next item. */
  lemma PlaceHereOk(nodes: seq<Node>, a: seq<Edge>, src: nat, dest: u32, index: nat)
    requires Layout(nodes, a) && PlaceIn(nodes, a, src, dest, index) && index < |a| && !IsNull(a[index])
    ensures HereOk(|nodes|, src, dest, a[index])
  {
    RangeSorted(nodes, a, src);
    NodeRange(nodes, a, src);
    if index < nodes[src].end {
      NodeEdge(nodes, a, src, index);
    }
  }

  lemma PlaceRightOk(nodes: seq<Node>, a: seq<Edge>, src: nat, dest: u32, index: nat, right: nat)
    requires Layout(nodes, a) && PlaceIn(nodes, a, src, dest, index) && index < |a| && IsNull(a[index])
    requires IsNextItem(a, index + 1, right) && right < |a|
    ensures RightOk(|nodes|, src, dest, a[right])
  {
    RangeSorted(nodes, a, src);
    NodeRange(nodes, a, src);
    if right < nodes[src].end {
      NodeEdge(nodes, a, src, right);
    }
  }

  /** An occupied slot whose neighbours pass the checks is the place. */
  lemma ChecksFindPlace(nodes: seq<Node>, a: seq<Edge>, src: nat, dest: u32, index: nat, left: nat)
    requires Layout(nodes, a) && src < |nodes| && 0 < index < |a| && !IsNull(a[index]) && !IsNull(a[0])
    requires IsPrevItem(a, index, left) && HereOk(|nodes|, src, dest, a[index]) && LeftOk(src, dest, a[left])
    ensures PlaceIn(nodes, a, src, dest, index)
  {
    NodeRange(nodes, a, src);
    RangeSorted(nodes, a, src);
    CheckedInRange(nodes, a, src, dest, index);
    var b, e := nodes[src].beginning, nodes[src].end;
    if b < left {
      NodeEdge(nodes, a, src, left);
    }
    if index < e {
      NodeEdge(nodes, a, src, index);
    }
    forall i | b < i < index && !IsNull(a[i])
      ensures a[i].dest < dest
    {
      NodeEdge(nodes, a, src, i);
    }
    forall i | index <= i < e && !IsNull(a[i])
      ensures dest <= a[i].dest && (i != index ==> dest < a[i].dest)
    {
      NodeEdge(nodes, a, src, i);
    }
  }

  lemma CheckedInRange(nodes: seq<Node>, a: seq<Edge>, src: nat, dest: u32, index: nat)
    requires Layout(nodes, a) && src < |nodes| && 0 < index < |a| && !IsNull(a[index]) && !IsNull(a[0])
    requires HereOk(|nodes|, src, dest, a[index])
    ensures nodes[src].beginning < index <= nodes[src].end
  {
    assert WellFormedItem(a[index], |nodes|);
    assert Before(a[0], a[index]);
    if IsSentinel(a[index]) {
      NodeRange(nodes, a, src);
      assert Points(nodes, a[index], index, |a|);
    } else {
      EdgeInRange(nodes, a, src, index);
    }
  }

  /** All checks of `got_correct_insertion_index`. */
  ghost predicate ChecksPass(n: nat, a: seq<Edge>, src: nat, dest: u32, index: nat) {
    && (forall left: nat :: IsPrevItem(a, index, left) ==> LeftOk(src, dest, a[left]))
    && index < |a|
    && if IsNull(a[index]) then
         forall right: nat :: IsNextItem(a, index + 1, right) && right < |a| ==> RightOk(n, src, dest, a[right])
       else HereOk(n, src, dest, a[index])
  }

  /** The checks reject no place, and for an occupied slot they decide. */
  lemma ChecksDecide(nodes: seq<Node>, a: seq<Edge>, src: nat, dest: u32, index: nat, left: nat)
    requires Layout(nodes, a) && src < |nodes| && 0 < index < |a| && !IsNull(a[0]) && IsPrevItem(a, index, left)
    ensures PlaceIn(nodes, a, src, dest, index) ==> ChecksPass(|nodes|, a, src, dest, index)
    ensures !IsNull(a[index]) && ChecksPass(|nodes|, a, src, dest, index) ==> PlaceIn(nodes, a, src, dest, index)
  {
    if PlaceIn(nodes, a, src, dest, index) {
      PlacePasses(nodes, a, src, dest, index);
    } else if !IsNull(a[index]) && ChecksPass(|nodes|, a, src, dest, index) {
      ChecksFindPlace(nodes, a, src, dest, index, left);
    }
  }

  lemma PlacePasses(nodes: seq<Node>, a: seq<Edge>, src: nat, dest: u32, index: nat)
    requires Layout(nodes, a) && PlaceIn(nodes, a, src, dest, index) && index < |a|
    ensures ChecksPass(|nodes|, a, src, dest, index)
  {
    forall left: nat | IsPrevItem(a, index, left)
      ensures LeftOk(src, dest, a[left])
    {
      PlaceLeftOk(nodes, a, src, dest, index, left);
    }
    if !IsNull(a[index]) {
      PlaceHereOk(nodes, a, src, dest, index);
    } else {
      forall right: nat | IsNextItem(a, index + 1, right) && right < |a|
        ensures RightOk(|nodes|, src, dest, a[right])
      {
        PlaceRightOk(nodes, a, src, dest, index, right);
      }
    }
  }

  /** There is only one previous and one next item, so it is enough to look at them. */
  lemma ChecksByNeighbours(n: nat, a: seq<Edge>, src: nat, dest: u32, index: nat, left: nat, right: nat)
    requires index < |a| && IsPrevItem(a, index, left) && (IsNull(a[index]) ==> IsNextItem(a, index + 1, right))
    ensures ChecksPass(n, a, src, dest, index) <==>
      && LeftOk(src, dest, a[left])
      && if IsNull(a[index]) then right < |a| ==> RightOk(n, src, dest, a[right]) else HereOk(n, src, dest, a[index])
  {
    forall l: nat | IsPrevItem(a, index, l)
      ensures l == left
    {
      assert !(l < left) && !(left < l);
    }
    if IsNull(a[index]) {
      NextItemOnly(a, index + 1, right);
    }
  }

  /**
   An empty slot that passes the checks is the place exactly when it is in the
   range of the vertex and the edge is not right behind it: edges of other
   vertices around it are not looked at.
   */
  lemma EmptySlotAccepted(nodes: seq<Node>, a: seq<Edge>, src: nat, dest: u32, index: nat, left: nat, right: nat)
    requires Layout(nodes, a) && src < |nodes| && index < |a| && IsNull(a[index])
    requires IsPrevItem(a, index, left) && LeftOk(src, dest, a[left])
    requires IsNextItem(a, index + 1, right) && (right < |a| ==> RightOk(|nodes|, src, dest, a[right]))
    ensures PlaceIn(nodes, a, src, dest, index) <==>
      nodes[src].beginning < index <= nodes[src].end && !(right < |a| && right < nodes[src].end && a[right].dest == dest)
  {
    RangeSorted(nodes, a, src);
    NodeRange(nodes, a, src);
    var b, e := nodes[src].beginning, nodes[src].end;
    if b < index <= e {
      forall i | b < i < index && !IsNull(a[i])
        ensures a[i].dest < dest
      {
        BeforeHole(nodes, a, src, dest, index, left, i);
      }
      forall i | index <= i < e && !IsNull(a[i])
        ensures dest <= a[i].dest && (a[i].dest == dest ==> i == right)
      {
        BehindHole(nodes, a, src, dest, index, right, i);
      }
    }
  }

  /** The neighbours of an empty slot in the range of the vertex pass if the edge fits between them. */
  lemma CheckedInside(nodes: seq<Node>, a: seq<Edge>, src: nat, dest: u32, index: nat, left: nat, right: nat)
    requires Layout(nodes, a) && src < |nodes| && index < |a| && IsNull(a[index])
    requires IsPrevItem(a, index, left) && IsNextItem(a, index + 1, right)
    requires nodes[src].beginning < index <= nodes[src].end
    ensures LeftOk(src, dest, a[left]) <==> IsSentinel(a[left]) || a[left].dest < dest
    ensures right < |a| ==> (RightOk(|nodes|, src, dest, a[right]) <==> IsSentinel(a[right]) || a[right].dest >= dest)
  {
    NodeRange(nodes, a, src);
    if nodes[src].beginning < left {
      NodeEdge(nodes, a, src, left);
    }
    if right < nodes[src].end {
      NodeEdge(nodes, a, src, right);
    }
  }

  /** Those of one outside pass if they are edges; for the last vertex a sentinel may follow, too. */
  lemma CheckedOutside(nodes: seq<Node>, a: seq<Edge>, src: nat, dest: u32, index: nat, left: nat, right: nat)
    requires Layout(nodes, a) && src < |nodes| && 0 < index < |a| && IsNull(a[index]) && !IsNull(a[0])
    requires IsPrevItem(a, index, left) && IsNextItem(a, index + 1, right)
    requires !(nodes[src].beginning < index <= nodes[src].end)
    ensures LeftOk(src, dest, a[left]) <==> !IsSentinel(a[left])
    ensures right < |a| ==> (RightOk(|nodes|, src, dest, a[right]) <==> src == |nodes| - 1 || !IsSentinel(a[right]))
  {
    NodeRange(nodes, a, src);
    assert WellFormedItem(a[left], |nodes|);
    if IsSentinel(a[left]) {
      assert Points(nodes, a[left], left, |a|);
    } else if a[left].src == src {
      EdgeInRange(nodes, a, src, left);
    }
    if right < |a| {
      assert WellFormedItem(a[right], |nodes|) && Before(a[0], a[right]);
      if IsSentinel(a[right]) {
        assert Points(nodes, a[right], right, |a|);
      } else if a[right].src == src {
        EdgeInRange(nodes, a, src, right);
      }
    }
  }

  /**
   Which empty slots the checks accept, exactly. In the range of the vertex: those
   between whose neighbours the edge fits. Outside: those between two edges of
   other vertices, or behind the last item; for the last vertex those behind an
   edge.
   */
  lemma EmptySlotChecked(nodes: seq<Node>, a: seq<Edge>, src: nat, dest: u32, index: nat, left: nat, right: nat)
    requires Layout(nodes, a) && src < |nodes| && 0 < index < |a| && IsNull(a[index]) && !IsNull(a[0])
    requires IsPrevItem(a, index, left) && IsNextItem(a, index + 1, right)
    ensures ChecksPass(|nodes|, a, src, dest, index) <==>
      if nodes[src].beginning < index <= nodes[src].end then
        && (IsSentinel(a[left]) || a[left].dest < dest)
        && (right >= |a| || IsSentinel(a[right]) || a[right].dest >= dest)
      else
        !IsSentinel(a[left]) && (src == |nodes| - 1 || right >= |a| || !IsSentinel(a[right]))
  {
    ChecksByNeighbours(|nodes|, a, src, dest, index, left, right);
    if nodes[src].beginning < index <= nodes[src].end {
      CheckedInside(nodes, a, src, dest, index, left, right);
    } else {
      CheckedOutside(nodes, a, src, dest, index, left, right);
    }
  }

  lemma BeforeHole(nodes: seq<Node>, a: seq<Edge>, src: nat, dest: u32, index: nat, left: nat, i: nat)
    requires Layout(nodes, a) && src < |nodes| && index < |a|
    requires IsPrevItem(a, index, left) && LeftOk(src, dest, a[left])
    requires nodes[src].beginning < i < index <= nodes[src].end && !IsNull(a[i])
    ensures a[i].dest < dest
  {
    NodeRange(nodes, a, src);
    NodeEdge(nodes, a, src, i);
    NodeEdge(nodes, a, src, left);
    assert i < left ==> Before(a[i], a[left]);
  }

  lemma BehindHole(nodes: seq<Node>, a: seq<Edge>, src: nat, dest: u32, index: nat, right: nat, i: nat)
    requires Layout(nodes, a) && src < |nodes| && index < |a| && IsNull(a[index])
    requires IsNextItem(a, index + 1, right) && right < |a| && RightOk(|nodes|, src, dest, a[right])
    requires nodes[src].beginning < index <= i < nodes[src].end < |a| && !IsNull(a[i])
    ensures dest <= a[i].dest && (a[i].dest == dest ==> i == right)
  {
    NodeEdge(nodes, a, src, i);
    NodeEdge(nodes, a, src, right);
    assert right < i ==> Before(a[right], a[i]);
  }

  // ---------------------------------------------------------------- reading a neighbourhood

  /** The destinations of the items in a range of slots. */
  function Destinations(a: seq<Edge>, from: nat, to: nat): seq<u32>
    requires to <= |a| || to <= from
  {
    if to <= from then []
    else if IsNull(a[to - 1]) then Destinations(a, from, to - 1)
    else Destinations(a, from, to - 1) + [a[to - 1].dest]
  }

  ghost predicate Increasing(r: seq<u32>) {
    forall i, j :: 0 <= i < j < |r| ==> r[i] < r[j]
  }

  /** Exactly the neighbours of a vertex, in increasing order. */
  ghost predicate IsNeighbourhood(neighbours: seq<u32>, src: nat, graph: Graph) {
    && src < MAX
    && Increasing(neighbours)
    && (forall d: u32 :: d in neighbours <==> (src, d) in graph)
  }

  /** The destination has an item in the range. */
  ghost predicate Reaches(a: seq<Edge>, from: nat, to: nat, d: u32) {
    exists i :: from <= i < to <= |a| && !IsNull(a[i]) && a[i].dest == d
  }

  lemma {:induction false} DestinationsReach(a: seq<Edge>, from: nat, to: nat, d: u32)
    requires to <= |a| && from <= to
    ensures d in Destinations(a, from, to) <==> Reaches(a, from, to, d)
  {
    if from < to {
      DestinationsReach(a, from, to - 1, d);
      if Reaches(a, from, to - 1, d) {
        var i :| from <= i < to - 1 && !IsNull(a[i]) && a[i].dest == d;
      }
    }
  }

  lemma IncreasingMore(r: seq<u32>, d: u32)
    requires Increasing(r) && forall i :: 0 <= i < |r| ==> r[i] < d
    ensures Increasing(r + [d])
  {
  }

  lemma {:induction false} DestinationsSorted(a: seq<Edge>, from: nat, to: nat)
    requires SortedRange(a, from, to) && from <= to
    ensures Increasing(Destinations(a, from, to))
  {
    if from < to {
      DestinationsSorted(a, from, to - 1);
      if !IsNull(a[to - 1]) {
        var r := Destinations(a, from, to - 1);
        forall i | 0 <= i < |r|
          ensures r[i] < a[to - 1].dest
        {
          DestinationsReach(a, from, to - 1, r[i]);
        }
        IncreasingMore(r, a[to - 1].dest);
      }
    }
  }

  /** The range of a vertex holds its edges, except one that is in the last slot of the array. */
  lemma RangeIsNeighbourhood(nodes: seq<Node>, a: seq<Edge>, src: nat, to: nat)
    requires a != [] && WellFormed(Live(a), |nodes|) && AllPoint(nodes, a) && src < |nodes|
    requires to == if nodes[src].beginning + 1 <= nodes[src].end then nodes[src].end else nodes[src].beginning + 1
    requires to <= |a|
    ensures IsNeighbourhood(Destinations(a, nodes[src].beginning + 1, to), src, GraphOf(Live(a[..|a| - 1])))
  {
    ItemsLaidOut(a, |nodes|);
    NodeRange(nodes, a, src);
    assert WellFormedItem(SentinelOf(src), |nodes|);
    var from, b := nodes[src].beginning + 1, a[..|a| - 1];
    var r := Destinations(a, from, to);
    RangeIsSorted(nodes, a, src, from, to);
    DestinationsSorted(a, from, to);
    forall d: u32
      ensures d in r <==> (src, d) in GraphOf(Live(b))
    {
      DestinationsReach(a, from, to, d);
      ReachesGraph(nodes, a, src, from, to, d);
    }
  }

  lemma ReachesGraph(nodes: seq<Node>, a: seq<Edge>, src: nat, from: nat, to: nat, d: u32)
    requires a != [] && LaidOut(a, |nodes|) && AllPoint(nodes, a) && src < |nodes| && src < MAX
    requires from == nodes[src].beginning + 1 && (from < to ==> to == nodes[src].end)
    requires nodes[src].end <= to <= |a|
    ensures Reaches(a, from, to, d) <==> (src, d) in GraphOf(Live(a[..|a| - 1]))
  {
    var b := a[..|a| - 1];
    NodeRange(nodes, a, src);
    if Reaches(a, from, to, d) {
      var i :| from <= i < to && !IsNull(a[i]) && a[i].dest == d;
      NodeEdge(nodes, a, src, i);
      assert b[i] == a[i];
      SlotInGraph(b, i);
    }
    if (src, d) in GraphOf(Live(b)) {
      var i := GraphSlot(b, src, d);
      assert a[i] == b[i];
      EdgeInRange(nodes, a, src, i);
    }
  }

  lemma RangeIsSorted(nodes: seq<Node>, a: seq<Edge>, src: nat, from: nat, to: nat)
    requires LaidOut(a, |nodes|) && AllPoint(nodes, a) && src < |nodes|
    requires from == nodes[src].beginning + 1 && to <= |a| && (from < to ==> to <= nodes[src].end)
    ensures SortedRange(a, from, to)
  {
    forall i, j | from <= i < j < to && !IsNull(a[i]) && !IsNull(a[j])
      ensures a[i].dest < a[j].dest
    {
      NodeEdge(nodes, a, src, i);
      NodeEdge(nodes, a, src, j);
      assert Before(a[i], a[j]);
    }
  }

  /** An occupied edge slot is in the graph. */
  lemma SlotInGraph(a: seq<Edge>, i: nat)
    requires i < |a| && !IsNull(a[i]) && !IsSentinel(a[i])
    ensures (a[i].src, a[i].dest) in GraphOf(Live(a))
  {
    LiveSplit(a, i);
    GraphOfItems(Live(a));
    assert Live(a)[ItemIndex(a, i)] == a[i];
  }

  /** With a free last slot nothing is left out. */
  lemma LastSlotFree(a: seq<Edge>)
    requires TailFree(a)
    ensures Live(a[..|a| - 1]) == Live(a)
  {
    LiveSplit(a, |a| - 1);
  }

  // ---------------------------------------------------------------- reading one edge

  /** The slot the search for an edge returns. */
  ghost function FoundSlot(nodes: seq<Node>, a: seq<Edge>, src: nat, dest: u32): nat
    requires src < |nodes| && nodes[src].end < |a|
  {
    SearchPlace(a, dest, nodes[src].beginning + 1, nodes[src].end)
  }

  /** The slot holds the edge, as far as a read looks at it. */
  ghost predicate Shows(a: seq<Edge>, p: nat, dest: u32) {
    p < |a| && !IsNull(a[p]) && !IsSentinel(a[p]) && a[p].dest == dest
  }

  /** The edge is in the last slot, and the search does not get there. */
  ghost predicate Hidden(nodes: seq<Node>, a: seq<Edge>, src: nat, dest: u32) {
    && src < |nodes| && |a| >= 2 && Shows(a, |a| - 1, dest) && a[|a| - 1].src == src
    && IsNull(a[|a| - 2]) && nodes[src].beginning + 3 != |a|
  }

  /** The last slot is free, or the one before it is occupied, too. */
  ghost predicate NothingHidden(a: seq<Edge>) {
    |a| >= 2 && (IsNull(a[|a| - 1]) || !IsNull(a[|a| - 2]))
  }

  lemma NoneIsHidden(nodes: seq<Node>, a: seq<Edge>, src: nat, dest: u32)
    requires NothingHidden(a)
    ensures !Hidden(nodes, a, src, dest)
  {
  }

  /** A search in a vertex's range decides for all edges of the range. */
  lemma ReadInside(nodes: seq<Node>, a: seq<Edge>, src: nat, dest: u32)
    requires LaidOut(a, |nodes|) && AllPoint(nodes, a) && src < |nodes| && nodes[src].end < |a|
    requires nodes[src].beginning < nodes[src].end
    ensures PlaceIn(nodes, a, src, dest, FoundSlot(nodes, a, src, dest))
  {
    var s, e := nodes[src].beginning + 1, nodes[src].end;
    RangeIsSorted(nodes, a, src, s, e);
    SearchFindsPlace(a, dest, s, e);
  }

  /** The search for the edge in the last slot reaches it unless it is hidden. */
  lemma ReadLast(nodes: seq<Node>, a: seq<Edge>, src: nat, dest: u32)
    requires LaidOut(a, |nodes|) && AllPoint(nodes, a) && src < |nodes| && |a| >= 2
    requires Shows(a, |a| - 1, dest) && a[|a| - 1].src == src
    ensures src == |nodes| - 1 && nodes[src].beginning < nodes[src].end == |a| - 1
    ensures FoundSlot(nodes, a, src, dest) == |a| - 1 <==> !Hidden(nodes, a, src, dest)
  {
    var last := |a| - 1;
    NodeRange(nodes, a, src);
    EdgeInRange(nodes, a, src, last);
    var b := nodes[src].beginning;
    forall i | b < i < last && !IsNull(a[i])
      ensures a[i].dest < dest
    {
      NodeEdge(nodes, a, src, i);
      assert Before(a[i], a[last]);
    }
    SearchBeyond(a, dest, b + 1, last);
  }

  /** The read of an edge that is in slot `i`. */
  lemma ReadSlot(nodes: seq<Node>, a: seq<Edge>, src: nat, dest: u32, i: nat)
    requires LaidOut(a, |nodes|) && AllPoint(nodes, a) && src < |nodes| && |a| >= 2 && nodes[src].end < |a|
    requires Shows(a, i, dest) && a[i].src == src
    ensures Shows(a, FoundSlot(nodes, a, src, dest), dest) <==> !Hidden(nodes, a, src, dest)
  {
    var p := FoundSlot(nodes, a, src, dest);
    EdgeInRange(nodes, a, src, i);
    if i == |a| - 1 {
      ReadLast(nodes, a, src, dest);
      if Shows(a, p, dest) {
        ReadIsEdge(nodes, a, src, dest);
        SameKey(a, |nodes|, i, p);
      }
    } else {
      ReadInside(nodes, a, src, dest);
      if Hidden(nodes, a, src, dest) {
        SameKey(a, |nodes|, i, |a| - 1);
      }
    }
  }

  /** What a read sees, whether or not the last slot is free: every edge of the graph but a hidden one. */
  lemma ReadSees(nodes: seq<Node>, a: seq<Edge>, src: nat, dest: u32)
    requires WellFormed(Live(a), |nodes|) && LaidOut(a, |nodes|) && AllPoint(nodes, a) && src < |nodes| && |a| >= 2
    ensures src < MAX && nodes[src].end < |a|
    ensures var p := FoundSlot(nodes, a, src, dest);
      && (Shows(a, p, dest) <==> (src, dest) in GraphOf(Live(a)) && !Hidden(nodes, a, src, dest))
      && (Shows(a, p, dest) ==> GraphOf(Live(a))[(src, dest)] == a[p].value)
  {
    NodeRange(nodes, a, src);
    assert WellFormedItem(SentinelOf(src), |nodes|);
    var p := FoundSlot(nodes, a, src, dest);
    if Shows(a, p, dest) {
      ReadIsEdge(nodes, a, src, dest);
      ReadSlot(nodes, a, src, dest, p);
      GraphOfSlot(a, |nodes|, p);
    } else if (src, dest) in GraphOf(Live(a)) {
      var i := GraphSlot(a, src, dest);
      ReadSlot(nodes, a, src, dest, i);
    }
  }

  /** What a read takes for the edge is the edge. */
  lemma ReadIsEdge(nodes: seq<Node>, a: seq<Edge>, src: nat, dest: u32)
    requires LaidOut(a, |nodes|) && AllPoint(nodes, a) && src < |nodes| && |a| >= 2 && nodes[src].end < |a|
    requires Shows(a, FoundSlot(nodes, a, src, dest), dest)
    ensures a[FoundSlot(nodes, a, src, dest)].src == src
  {
    var p := FoundSlot(nodes, a, src, dest);
    NodeRange(nodes, a, src);
    if nodes[src].beginning < nodes[src].end {
      ReadInside(nodes, a, src, dest);
      if p < nodes[src].end {
        NodeEdge(nodes, a, src, p);
      } else {
        assert WellFormedItem(a[p], |nodes|);
        assert Before(a[nodes[src].beginning], a[p]);
      }
    }
  }

  lemma SameKey(a: seq<Edge>, n: nat, i: nat, j: nat)
    requires Orderly(a, n) && i < |a| && j < |a| && !IsNull(a[i]) && !IsNull(a[j])
    requires a[i].src == a[j].src && Key(a[i]) == Key(a[j])
    ensures i == j
  {
    assert !Before(a[i], a[j]) && !Before(a[j], a[i]);
  }
}
