/**
 One insertion or removal at its place, seen from the graph: a put or a delete,
 on an array that stays well-formed.
 */
module Updates {
  import opened Wrappers
  import opened Geometries
  import opened Slots
  import opened Spreading
  import opened Windows
  import opened Insertion
  import opened Removal
  import opened Pointers
  import opened Neighbourhood
  import opened Locking
  import opened Arithmetic

  /** The first slot is occupied and the empty ones are fully cleared. */
  ghost predicate Tidy(a: seq<Edge>) {
    a != [] && !IsNull(a[0]) && Clean(a)
  }

  /** Inserting a new edge at its place is a put; the last slot stays free exactly when it is not overrun. */
  lemma InsertedIsPut(nodes: seq<Node>, a: seq<Edge>, g: Geometry, index: nat, elem: Edge, info: Option<Info>)
    requires TreeShape(g) && |a| == g.N && index < g.N
    requires Layout(nodes, a) && WellFormed(Live(a), |nodes|) && Tidy(a)
    requires PlaceIn(nodes, a, elem.src, elem.dest, index) && !IsSentinel(elem) && !IsNull(elem)
    requires !Overwrites(a, index, elem) && InfoFits(a, g, index, info)
    ensures FirstEmpty(a, index) < g.N && InfoShape(g, info)
    ensures WellFormed(Live(SlideInsert(a, index, elem)), |nodes|)
    ensures var b := Inserted(a, g, index, elem, info);
      && WellFormed(Live(b), |nodes|) && Tidy(b)
      && GraphOf(Live(b)) == GraphOf(Live(a))[(elem.src, elem.dest) := elem.value]
      && (TailFree(b) <==> !Overrun(a, g, index, elem, info))
  {
    InsertedTail(a, g, index, elem, info);
    StoreIsPut(nodes, a, elem, index);
    InsertedLive(a, g, index, elem, info);
    InsertedShape(a, g, index, elem, info);
  }

  /** Overwriting an edge at its place is a put and disturbs nothing. */
  lemma OverwrittenIsPut(nodes: seq<Node>, a: seq<Edge>, index: nat, elem: Edge)
    requires Layout(nodes, a) && WellFormed(Live(a), |nodes|) && Tidy(a) && index < |a|
    requires PlaceIn(nodes, a, elem.src, elem.dest, index) && !IsSentinel(elem) && !IsNull(elem)
    requires Overwrites(a, index, elem)
    ensures var b := a[index := a[index].(value := elem.value)];
      && WellFormed(Live(b), |nodes|) && Tidy(b) && TailFree(b)
      && GraphOf(Live(b)) == GraphOf(Live(a))[(elem.src, elem.dest) := elem.value]
  {
    OverwriteIsPut(nodes, a, elem, index);
  }

  /** The array after `insert` of an edge at its place. */
  ghost function Put(a: seq<Edge>, g: Geometry, index: nat, elem: Edge, info: Option<Info>): seq<Edge>
    requires TreeShape(g) && |a| == g.N && index < g.N && FirstEmpty(a, index) < g.N && InfoShape(g, info)
  {
    if Overwrites(a, index, elem) then a[index := a[index].(value := elem.value)] else Inserted(a, g, index, elem, info)
  }

  /** The insertions that strand an item in the last slot: exactly those of a new edge that overrun the array. */
  ghost predicate Strands(a: seq<Edge>, g: Geometry, index: nat, elem: Edge, info: Option<Info>) {
    && TreeShape(g) && |a| == g.N && index < g.N && FirstEmpty(a, index) < g.N
    && !Overwrites(a, index, elem) && Overrun(a, g, index, elem, info)
  }

  /** Inserting an edge at its place is a put. */
  lemma PutIsPut(nodes: seq<Node>, a: seq<Edge>, g: Geometry, index: nat, elem: Edge, info: Option<Info>)
    requires TreeShape(g) && |a| == g.N && index < g.N
    requires Layout(nodes, a) && WellFormed(Live(a), |nodes|) && Tidy(a)
    requires PlaceIn(nodes, a, elem.src, elem.dest, index) && !IsSentinel(elem) && !IsNull(elem)
    requires InfoFits(a, g, index, info)
    ensures FirstEmpty(a, index) < g.N && InfoShape(g, info)
    ensures !Overwrites(a, index, elem) ==> WellFormed(Live(SlideInsert(a, index, elem)), |nodes|)
    ensures var b := Put(a, g, index, elem, info);
      && WellFormed(Live(b), |nodes|) && Tidy(b)
      && GraphOf(Live(b)) == GraphOf(Live(a))[(elem.src, elem.dest) := elem.value]
      && (TailFree(b) <==> !Strands(a, g, index, elem, info))
  {
    if Overwrites(a, index, elem) {
      InsertedTail(a, g, index, elem, info);
      OverwrittenIsPut(nodes, a, index, elem);
    } else {
      InsertedIsPut(nodes, a, g, index, elem, info);
    }
  }

  /** Only slots of the leaves `lo..hi` differ. */
  ghost predicate ChangesWithin(a: seq<Edge>, b: seq<Edge>, logN: nat, lo: nat, hi: nat)
    requires logN > 0
  {
    |a| == |b| && forall i :: 0 <= i < |a| && a[i] != b[i] ==> lo <= LeafOf(i, logN) <= hi
  }

  /** Every leaf with a slot that differs has a new version, and no version has been counted up twice. */
  ghost predicate Renewed(a: seq<Edge>, b: seq<Edge>, logN: nat, before: seq<int>, after: seq<int>)
    requires logN > 0
  {
    && |a| == |b| && |before| == |after|
    && (forall leaf :: 0 <= leaf < |before| ==> after[leaf] == before[leaf] || after[leaf] == before[leaf] + 1)
    && forall i :: 0 <= i < |a| && a[i] != b[i] ==>
         LeafOf(i, logN) < |before| && after[LeafOf(i, logN)] == before[LeafOf(i, logN)] + 1
  }

  /** So it is if the leaves `lo..hi` are renewed and nothing else has changed. */
  lemma BumpedRenews(a: seq<Edge>, b: seq<Edge>, logN: nat, before: seq<int>, after: seq<int>, lo: nat, hi: nat)
    requires logN > 0 && ChangesWithin(a, b, logN, lo, hi) && Bumped(before, after, lo, hi) && hi < |before|
    ensures Renewed(a, b, logN, before, after)
  {
  }

  /** What lock acquisition found out fits the array it was found on. */
  lemma HeldInfoFits(a: seq<Edge>, g: Geometry, index: nat, minNode: nat, maxNode: nat, info: Info)
    requires TreeShape(g) && |a| == g.N && index < g.N
    requires HoldsForInsert(a, g, index, minNode, maxNode, info)
    ensures !info.doubleList && InfoFits(a, g, index, Some(info)) && InfoShape(g, Some(info))
  {
    PlanFacts(a, g, index);
  }

  /** With the locks held that an insertion acquires, it changes nothing outside the held leaves. */
  lemma PutInside(a: seq<Edge>, g: Geometry, index: nat, elem: Edge, minNode: nat, maxNode: nat, info: Info)
    requires TreeShape(g) && |a| == g.N && index < g.N && !IsNull(elem) && FirstEmpty(a, index) < g.N
    requires HoldsForInsert(a, g, index, minNode, maxNode, info) && InfoShape(g, Some(info))
    ensures ChangesWithin(a, Put(a, g, index, elem, Some(info)), g.logN, minNode, maxNode)
  {
    InsertedLength(a, g, index, elem, info);
    forall i | 0 <= i < g.N && a[i] != Put(a, g, index, elem, Some(info))[i]
      ensures minNode <= LeafOf(i, g.logN) <= maxNode
    {
      PutInsideAt(a, g, index, elem, minNode, maxNode, info, i);
    }
  }

  lemma PutInsideAt(a: seq<Edge>, g: Geometry, index: nat, elem: Edge, minNode: nat, maxNode: nat, info: Info, i: nat)
    requires TreeShape(g) && |a| == g.N && index < g.N && !IsNull(elem) && FirstEmpty(a, index) < g.N
    requires HoldsForInsert(a, g, index, minNode, maxNode, info) && InfoShape(g, Some(info)) && i < g.N
    ensures var b := Put(a, g, index, elem, Some(info));
      |b| == g.N && (b[i] != a[i] ==> minNode <= LeafOf(i, g.logN) <= maxNode)
  {
    if Overwrites(a, index, elem) {
      if i == index {
        PlannedCovered(a, g, index, minNode, maxNode, info, index);
      }
    } else if InFootprint(a, g, index, elem, Some(info), i) {
      FootprintCovered(a, g, index, elem, minNode, maxNode, info, i);
      InsertedLength(a, g, index, elem, info);
    } else {
      InsertedOutside(a, g, index, elem, Some(info), i);
    }
  }

  lemma InsertedLength(a: seq<Edge>, g: Geometry, index: nat, elem: Edge, info: Info)
    requires TreeShape(g) && |a| == g.N && index < g.N && FirstEmpty(a, index) < g.N && !info.doubleList
    requires InfoShape(g, Some(info))
    ensures |Inserted(a, g, index, elem, Some(info))| == g.N
  {
  }

  /** Removing an edge at its place is a delete. */
  lemma RemovedIsDelete(nodes: seq<Node>, a: seq<Edge>, g: Geometry, index: nat, elem: Edge)
    requires TreeShape(g) && |a| == g.N && 0 < index < g.N && RemovalFits(a, g, index)
    requires Layout(nodes, a) && WellFormed(Live(a), |nodes|) && Tidy(a)
    requires PlaceIn(nodes, a, elem.src, elem.dest, index) && Overwrites(a, index, elem)
    ensures var b := Removed(a, g, index);
      && WellFormed(Live(b), |nodes|) && Tidy(b) && TailFree(b)
      && GraphOf(Live(b)) == GraphOf(Live(a)) - {(elem.src, elem.dest)}
  {
    PlaceHolds(nodes, a, elem, index);
    ClearIsDelete(nodes, a, elem, index);
    RemovedLive(a, g, index);
    ClearedWellFormed(a, index, |nodes|);
    RemovedShape(a, g, index);
  }

  /** With the locks held that a removal acquires, it changes nothing outside the held leaves. */
  lemma RemovedInside(nodes: seq<Node>, a: seq<Edge>, g: Geometry, index: nat, elem: Edge, minNode: nat, maxNode: nat)
    requires TreeShape(g) && |a| == g.N && index < g.N
    requires RemoveOutcome(Held(minNode, maxNode), nodes, a, g, index, elem, true)
    ensures RemovalFits(a, g, index) && ChangesWithin(a, Removed(a, g, index), g.logN, minNode, maxNode)
  {
    var b := Removed(a, g, index);
    RemovedLength(a, g, index);
    forall i | 0 <= i < g.N && a[i] != b[i]
      ensures minNode <= LeafOf(i, g.logN) <= maxNode
    {
      RemovedInsideAt(a, g, index, minNode, maxNode, i);
    }
  }

  lemma RemovedLength(a: seq<Edge>, g: Geometry, index: nat)
    requires TreeShape(g) && |a| == g.N && index < g.N && RemoveTarget(a, g, index).Stop?
    ensures |Removed(a, g, index)| == g.N
  {
    RemoveTargetShape(a, g, index);
  }

  lemma RemovedInsideAt(a: seq<Edge>, g: Geometry, index: nat, minNode: nat, maxNode: nat, i: nat)
    requires TreeShape(g) && |a| == g.N && index < g.N && i < g.N
    requires var t := RemoveTarget(a, g, index); t.Stop? && Covers(minNode, maxNode, g.logN, t.start, t.start + t.len)
    ensures |Removed(a, g, index)| == g.N
    ensures Removed(a, g, index)[i] != a[i] ==> minNode <= LeafOf(i, g.logN) <= maxNode
  {
    var t := RemoveTarget(a, g, index);
    RemoveTargetShape(a, g, index);
    if t.start <= i < t.start + t.len {
      CoversSlot(minNode, maxNode, g.logN, t.start, t.start + t.len, i);
    } else {
      RemovedOutside(a, g, index, i);
    }
  }

  /** If the slot does not hold the edge, there is nothing to delete. */
  lemma NothingToDelete(nodes: seq<Node>, a: seq<Edge>, index: nat, elem: Edge)
    requires Layout(nodes, a) && WellFormed(Live(a), |nodes|) && index < |a|
    requires PlaceIn(nodes, a, elem.src, elem.dest, index) && !IsSentinel(elem) && !Overwrites(a, index, elem)
    ensures GraphOf(Live(a)) - {(elem.src, elem.dest)} == GraphOf(Live(a))
  {
    PlaceDecides(nodes, a, elem, index);
  }

  /** An insertion keeps the size of the array or doubles it. */
  lemma InsertedSize(a: seq<Edge>, g: Geometry, index: nat, elem: Edge, info: Option<Info>)
    requires TreeShape(g) && |a| == g.N && index < g.N && FirstEmpty(a, index) < g.N && InfoShape(g, info)
    ensures |Inserted(a, g, index, elem, info)| ==
      if InsertTarget(SlideInsert(a, index, elem), g, index, info).Grow? then 2 * g.N else g.N
  {
    InsertTargetShape(SlideInsert(a, index, elem), g, index, info);
  }

  lemma PutLength(a: seq<Edge>, g: Geometry, index: nat, elem: Edge, info: Option<Info>)
    requires TreeShape(g) && |a| == g.N && index < g.N && FirstEmpty(a, index) < g.N && InfoShape(g, info)
    ensures |Put(a, g, index, elem, info)| == g.N || |Put(a, g, index, elem, info)| == 2 * g.N
  {
    if !Overwrites(a, index, elem) {
      InsertedSize(a, g, index, elem, info);
    }
  }
}
