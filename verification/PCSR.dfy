/**
 The packed graph as an object: the edge array and the vertex table are
 overwritten in place, as in the original.
 */
module PackedCsr {
  import opened Wrappers
  import opened Arithmetic
  import opened Geometries
  import opened Slots
  import opened Spreading
  import opened Windows
  import opened Insertion
  import opened Removal
  import opened Pointers
  import opened Moves
  import opened Search
  import opened Neighbourhood
  import opened Locking
  import opened Updates
  import opened Building
  import opened Calls

  class PCSR {
    var items: array<Edge>
    var nodes: seq<Node>
    var N: nat
    var logN: nat
    var H: nat

    /** The version counter of each leaf lock. */
    var versions: seq<int>

    /** The leaf locks this thread holds exclusively. */
    var held: set<nat>

    /** `lock_bsearch`: leaves are locked shared during searches. */
    const lockSearch: bool

    function Geo(): Geometry
      reads this
    {
      Geometry(N, logN, H)
    }

    // -------------------------------------------------------------- moving sentinels

    /**
     `fix_sentinel`: the owner of the sentinel begins at `pos` and the vertex before it ends
     there, the last vertex ends at the last slot, and all else stays.
     */
    method FixSentinel(sentinel: Edge, pos: nat)
      requires IsSentinel(sentinel) ==> Owner(sentinel) < |nodes| && (sentinel.value != MAX ==> sentinel.value > 0)
      requires 0 < N
      modifies this`nodes
      ensures |nodes| == old(|nodes|)
      ensures !IsSentinel(sentinel) ==> nodes == old(nodes)
      ensures IsSentinel(sentinel) ==> var v := Owner(sentinel);
        && (forall i :: 0 <= i < |nodes| ==> nodes[i].beginning == if i == v then pos else old(nodes)[i].beginning)
        && (forall i :: 0 <= i < |nodes| - 1 ==> nodes[i].end == if i + 1 == v then pos else old(nodes)[i].end)
        && nodes[|nodes| - 1].end == if v == |nodes| - 1 then N - 1 else old(nodes)[|nodes| - 1].end
      ensures nodes == FixedNodes(old(nodes), sentinel, pos, N)
    {
      if !IsSentinel(sentinel) {
        return;
      }
      var nodeIndex := sentinel.value as nat;
      if nodeIndex == MAX {
        nodeIndex := 0;
      } else {
        nodes := nodes[nodeIndex - 1 := nodes[nodeIndex - 1].(end := pos)];
      }
      nodes := nodes[nodeIndex := nodes[nodeIndex].(beginning := pos)];
      if nodeIndex == |nodes| - 1 {
        nodes := nodes[nodeIndex := nodes[nodeIndex].(end := N - 1)];
      }
    }

    // -------------------------------------------------------------- redistribution

    /** The first loop of `redistribute`: pack the items of the window at its left end. */
    method Pack(index: nat, len: nat) returns (j: nat)
      requires index + len <= items.Length
      modifies items
      ensures Packed(items[..], old(items[..]), index, index + len, j)
    {
      j := 0;
      ghost var was := items[..];
      for i := index to index + len
        invariant Packed(items[..], was, index, i, j)
      {
        ghost var b := items[..];
        PackStep(b, was, index, i, j);
        items[index + j] := items[i];
        assert items[..] == b[index + j := b[i]];
        if !IsNull(items[index + j]) {
          j := j + 1;
        }
      }
    }

    /** The second loop: clear the slots behind the packed items. */
    method Clear(from: nat, end: nat)
      requires from <= end <= items.Length
      modifies items
      ensures items[..] == old(items[..from]) + Empties(end - from) + old(items[end..])
    {
      ghost var was := items[..];
      for i := from to end
        invariant items[..from] == was[..from]
        invariant forall k :: from <= k < i ==> items[k] == EMPTY
        invariant items[i..] == was[i..]
      {
        items[i] := EMPTY;
      }
      assert items[from..end] == Empties(end - from);
      assert items[..] == items[..from] + items[from..end] + items[end..];
    }

    /** The body of the last loop: swap an item to its place and fix its owner's pointers. */
    method SwapItem(i: nat, to: nat)
      requires items.Length == N && i <= to < N
      requires var e := items[i];
        IsSentinel(e) ==> Owner(e) < |nodes| && (e.value != MAX ==> e.value > 0)
      modifies this`nodes, items
      ensures items[..] == old(items[..])[i := old(items[to])][to := old(items[i])]
      ensures nodes == FixedNodes(old(nodes), old(items[i]), to, N)
    {
      items[to], items[i] := items[i], items[to];
      FixSentinel(items[to], to);
    }

    /** One round of the last loop. */
    method MoveItem(i: nat, to: nat, ghost k: nat, ghost w: Redistribution)
      requires w.Ok(|nodes|) && items.Length == N
      requires 0 < k < |w.l| && i == |w.left| + k && to == |w.left| + w.offs[k]
      requires items[..] == w.Stage(k + 1) && PointOutside(nodes, items[..], |w.left|, |w.left| + k + 1)
      modifies this`nodes, items
      ensures items[..] == w.Stage(k) && PointOutside(nodes, items[..], |w.left|, |w.left| + k)
      ensures |nodes| == old(|nodes|)
    {
      MoveStep(items[..], k, w, |nodes|);
      MovePoints(nodes, items[..], |w.left|, i, to);
      SwapItem(i, to);
    }

    /** The statement after the last loop: item 0 of the window never moves. */
    method FixFirst(index: nat, ghost w: Redistribution)
      requires w.Ok(|nodes|) && items.Length == N
      requires index == |w.left| && w.offs == Offsets(|w.l|, w.len)
      requires items[..] == w.Stage(1) && PointOutside(nodes, items[..], index, index + 1)
      modifies this`nodes
      ensures |w.l| <= w.len && items[..] == w.left + Spread(w.l, w.len) + w.right
      ensures |nodes| == old(|nodes|) && AllPoint(nodes, items[..])
    {
      LastStep(items[..], nodes, w);
      FixSentinel(items[index], index);
    }

    /** The loop counter `index_d` of the last item is `index + d / j`, exactly. */
    method LastStepped(j: nat, len: nat) returns (d: nat)
      requires 0 < j
      ensures d == Times(j - 1, len)
    {
      d := (j - 1) * len;
      TimesProduct(j - 1, len);
    }

    /** The counter's integral part. */
    method Truncate(d: nat, j: nat, ghost len: nat, ghost k: nat) returns (offset: nat)
      requires 0 < j && k <= j && d == Times(k, len)
      ensures offset == Offsets(j, len)[k]
    {
      offset := d / j;
      StepsTarget(k, j, len);
    }

    /** The last loop: move the packed items to their places, last one first. */
    method SpreadOut(index: nat, len: nat, j: nat, ghost w: Redistribution)
      requires w.Ok(|nodes|) && items.Length == N
      requires 0 < j == |w.l| && index == |w.left| && len == w.len && w.offs == Offsets(j, len)
      requires items[..] == w.Stage(j) && PointOutside(nodes, items[..], index, index + j)
      modifies this`nodes, items
      ensures items[..] == w.Stage(1) && PointOutside(nodes, items[..], index, index + 1)
      ensures |nodes| == old(|nodes|)
    {
      var d := LastStepped(j, len);
      var i := index + j - 1;
      ghost var k: nat := j - 1;
      while i > index
        invariant i == index + k && k < j
        invariant d == Times(k, len)
        invariant items[..] == w.Stage(k + 1)
        invariant PointOutside(nodes, items[..], index, index + k + 1)
        invariant |nodes| == old(|nodes|)
      {
        var offset := Truncate(d, j, len, k);
        MoveItem(i, index + offset, k, w);
        d := d - len;
        i := i - 1;
        k := k - 1;
      }
    }

    /** The first two loops: the window's items packed, the rest cleared. */
    method PackAndClear(index: nat, len: nat) returns (j: nat)
      requires index + len <= items.Length
      modifies items
      ensures j == Count(old(items[..]), index, len) && items[..] == PackedArray(old(items[..]), index, len)
    {
      ghost var was := items[..];
      j := Pack(index, len);
      ghost var b := items[..];
      Clear(index + j, index + len);
      PackEnd(b, items[..], was, index, len, j);
    }

    /** The last loop and the statement after it, on a packed window. */
    method SpreadPacked(index: nat, len: nat, j: nat, ghost was: seq<Edge>)
      requires items.Length == N == |was| && 0 < len && index + len <= N
      requires 0 < j == Count(was, index, len) && WellFormed(Live(was), |nodes|)
      requires items[..] == PackedArray(was, index, len)
      requires PointOutside(nodes, items[..], index, index + j)
      modifies this`nodes, items
      ensures items[..] == Rebalance(was, index, len)
      ensures |nodes| == old(|nodes|) && AllPoint(nodes, items[..])
    {
      ghost var w := PackedWindow(was, index, len);
      PackedWindowOk(was, index, len, |nodes|);
      SpreadOut(index, len, j, w);
      FixFirst(index, w);
    }

    /**
     `redistribute`: the items of the window keep their order and take the
     places `Rebalance` gives them; nothing outside is written, and afterwards
     every sentinel's slot is in the table.
     */
    method Redistribute(index: nat, len: nat)
      requires items.Length == N && 0 < len && index + len <= N
      requires index == 0 ==> !IsNull(items[0])
      requires WellFormed(Live(items[..]), |nodes|) && PointOutside(nodes, items[..], index, index + len)
      modifies this`nodes, items
      ensures items[..] == Rebalance(old(items[..]), index, len)
      ensures |nodes| == old(|nodes|) && AllPoint(nodes, items[..])
    {
      ghost var was := items[..];
      PackedPointers(nodes, was, index, len);
      var j := PackAndClear(index, len);
      if j > 0 {
        SpreadPacked(index, len, j, was);
      } else {
        PackedSlots(was, index, len);
        FixSentinel(items[index], index);
      }
    }

    // -------------------------------------------------------------- sliding

    /** Store the item in hand and fix its owner. */
    method ShiftInto(q: nat, el: Edge, ghost index: nat, ghost was: seq<Edge>)
      requires items.Length == N && index < q < N == |was| && el == was[q - 1] && !IsNull(el)
      requires items[..] == Sliding(was, index, q)
      requires Orderly(was, |nodes|) && AllPoint(nodes, items[..])
      modifies this`nodes, items
      ensures items[..] == Sliding(was, index, q)[q := el]
      ensures |nodes| == old(|nodes|) && AllPoint(nodes, items[..])
    {
      SlideStep(was, |nodes|, index, q, nodes);
      items[q] := el;
      if !IsNull(el) {
        FixSentinel(el, q);
      }
    }

    /**
     `slide_right` up to the first empty slot at or after `index`; with the last
     slot empty there is one.
     */
    method SlideRight(index: nat)
      requires items.Length == N && index < N && FirstEmpty(items[..], index) < N && !IsNull(items[index])
      requires Orderly(items[..], |nodes|) && AllPoint(nodes, items[..])
      modifies this`nodes, items
      ensures items[..] == Sliding(old(items[..]), index, FirstEmpty(old(items[..]), index) + 1)
      ensures |nodes| == old(|nodes|) && AllPoint(nodes, items[..])
    {
      ghost var was := items[..];
      ghost var p := FirstEmpty(was, index);
      var el := items[index];
      items[index] := EMPTY;
      var q := index + 1;
      assert items[..] == Sliding(was, index, q);
      while q < N && !IsNull(items[q])
        invariant index < q <= p
        invariant el == was[q - 1] && items[..] == Sliding(was, index, q)
        invariant |nodes| == old(|nodes|) && AllPoint(nodes, items[..])
      {
        var temp := items[q];
        ShiftInto(q, el, index, was);
        SlidingNext(was, index, q);
        el := temp;
        q := q + 1;
      }
      SlidingNext(was, index, q);
      assert q == p;
      ShiftInto(q, el, index, was);
    }

    // -------------------------------------------------------------- resizing

    /** The geometry is that of an array of N slots, the array has them and each leaf has its lock. */
    ghost predicate Framed()
      reads this
    {
      GeometryOk(Geo()) && Shaped()
    }

    /** The part of this that the tree of windows needs. */
    ghost predicate Shaped()
      reads this
    {
      TreeShape(Geo()) && items.Length == N && |versions| == LeafCount(Geo())
    }

    /**
     `resizeEdgeArray`, which is only called for powers of two: leaves longer than log2 N
     and at most twice that, a power of two that divides N at least twice.
     */
    method ResizeEdgeArray(newSize: nat)
      requires newSize >= 8 && PowerOfTwo(newSize)
      modifies this`N, this`logN, this`H
      ensures N == newSize && GeometryOk(Geo())
      ensures Bsr(N) < logN <= 2 * Bsr(N) && PowerOfTwo(logN) && logN * LeafCount(Geo()) == N && H >= 1
    {
      Pow2Small();
      Pow2Exponent(Bsr(newSize) + 1, 3);
      ResizePow2(Bsr(newSize));
      N := newSize;
      logN := Pow2(Bsr(Bsr(N) * 2 + 1));
      H := Bsr(N / logN);
      assert Geo() == Resize(newSize);
      GeometryFacts(Geo());
      GeometryPowers(Geo());
    }

    /** `realloc`: a fresh array with the old contents up to the shorter length; `junk` is whatever memory held. */
    method Reallocate(size: nat, junk: Edge)
      modifies this`items
      ensures fresh(items) && items.Length == size
      ensures forall i :: 0 <= i < size && i < old(items.Length) ==> items[i] == old(items[i])
    {
      var a := items;
      items := new Edge[size](i requires 0 <= i reads a => if i < a.Length then a[i] else junk);
    }

    /** The part of `double_list` before the items: the new size and the locks of new leaves. */
    method DoubleFrame()
      requires GeometryOk(Geo()) && TreeShape(Geo()) && |versions| == LeafCount(Geo())
      modifies this`N, this`logN, this`H, this`versions
      ensures GeometryOk(Geo()) && TreeShape(Geo()) && N == 2 * old(N) && |versions| == LeafCount(Geo())
      ensures Grown(old(versions), versions)
    {
      ghost var g := Geo();
      GeometryFacts(g);
      ResizeDouble(g);
      GeometryPowers(Resize(2 * N));
      var prevLocks := N / logN;
      ResizeEdgeArray(2 * N);
      GeometryTree(Geo());
      GeometryFacts(Geo());
      LeafCountDoubles(g, Geo());
      var newLocks := N / logN;
      GrowLocks(prevLocks, newLocks);
    }

    /** New leaves get locks whose version counters start at 0. */
    method GrowLocks(prevLocks: nat, newLocks: nat)
      requires prevLocks == |versions| <= newLocks
      modifies this`versions
      ensures |versions| == newLocks && Grown(old(versions), versions)
    {
      versions := versions + seq(newLocks - prevLocks, _ => 0);
    }

    /** `double_list` */
    method DoubleList(junk: Edge)
      requires Framed() && WellFormed(Live(items[..]), |nodes|) && 0 < items.Length && !IsNull(items[0])
      modifies this, items
      ensures held == old(held)
      ensures fresh(items) && Framed() && N == 2 * old(N)
      ensures items[..] == Spread(Live(old(items[..])), 2 * old(N))
      ensures |nodes| == old(|nodes|) && AllPoint(nodes, items[..])
      ensures Grown(old(versions), versions)
    {
      ghost var was := items[..];
      DoubleFrame();
      Reallocate(N, junk);
      assert items[..|was|] == was;
      ClearUpper(N / 2, N);
      DoubledLive(was, items[..]);
      Redistribute(0, N);
    }

    /** The loops of `double_list` and `half_list` that set the slots behind the items to null. */
    method ClearUpper(from: nat, to: nat)
      requires from <= to <= items.Length
      modifies items
      ensures items[..from] == old(items[..from]) && items[to..] == old(items[to..])
      ensures forall i :: from <= i < to ==> IsNull(items[i]) && items[i].dest == 0
    {
      for i := from to to
        invariant items[..from] == old(items[..from]) && items[to..] == old(items[to..])
        invariant forall k :: from <= k < i ==> IsNull(items[k]) && items[k].dest == 0
      {
        items[i] := items[i].(value := 0, dest := 0);
      }
    }

    /** The loop of `half_list` that moves all items to the front. */
    method CompactAll() returns (j: nat)
      modifies items
      ensures j <= items.Length && items[..j] == Live(old(items[..]))
    {
      ghost var was := items[..];
      j := 0;
      for i := 0 to items.Length
        invariant j <= i && items[..j] == Live(was[..i])
        invariant forall k :: i <= k < items.Length ==> items[k] == was[k]
      {
        assert was[..i + 1][..i] == was[..i];
        if !IsNull(items[i]) {
          ghost var l := items[..j];
          items[j] := items[i];
          assert items[..j + 1] == l + [was[i]];
          j := j + 1;
        }
      }
      assert was[..items.Length] == was;
    }

    /** The part of `half_list` that concerns size and locks. */
    method HalfFrame()
      requires GeometryOk(Geo()) && TreeShape(Geo()) && |versions| == LeafCount(Geo()) && N > 8
      modifies this`N, this`logN, this`H, this`versions
      ensures GeometryOk(Geo()) && TreeShape(Geo()) && N == old(N) / 2 && |versions| == LeafCount(Geo())
      ensures Shortened(old(versions), versions)
    {
      ghost var g := Geo();
      ResizeHalf(g);
      GeometryPowers(Resize(N / 2));
      ResizeEdgeArray(N / 2);
      GeometryTree(Geo());
      GeometryFacts(Geo());
      LeafCountDoubles(Geo(), g);
      var newLocks := N / logN;
      versions := versions[..newLocks];
    }

    /** The middle of `half_list`: the items moved to the front of a shorter array. */
    method Compact(size: nat, junk: Edge)
      requires 0 < size <= items.Length && |Live(items[..])| <= size && !IsNull(items[0])
      modifies this`items, items
      ensures fresh(items) && items.Length == size && !IsNull(items[0])
      ensures Live(items[..]) == Live(old(items[..]))
      ensures Rebalance(items[..], 0, size) == Spread(Live(old(items[..])), size)
    {
      ghost var was := items[..];
      var j := CompactAll();
      ClearUpper(j, size);
      ghost var packed := items[..];
      Reallocate(size, junk);
      LiveSplit(was, 0);
      HalvedLive(was, packed, items[..], j);
    }

    /** The part of `half_list` after the size is set. */
    method HalfItems(junk: Edge)
      requires 0 < N <= items.Length && |Live(items[..])| <= N && !IsNull(items[0])
      requires WellFormed(Live(items[..]), |nodes|)
      modifies this`items, this`nodes, items
      ensures fresh(items) && items.Length == N && |Live(old(items[..]))| <= N
      ensures items[..] == Spread(Live(old(items[..])), N)
      ensures |nodes| == old(|nodes|) && AllPoint(nodes, items[..])
    {
      Compact(N, junk);
      Redistribute(0, N);
    }

    /** `half_list`: reached only when the items fit into half of the slots. */
    method HalfList(junk: Edge)
      requires Framed() && WellFormed(Live(items[..]), |nodes|) && 0 < items.Length && !IsNull(items[0])
      requires N > 8 && |Live(items[..])| <= N / 2
      modifies this, items
      ensures held == old(held)
      ensures fresh(items) && Framed() && N == old(N) / 2
      ensures |Live(old(items[..]))| <= N && items[..] == Spread(Live(old(items[..])), N)
      ensures |nodes| == old(|nodes|) && AllPoint(nodes, items[..])
      ensures Shortened(old(versions), versions)
    {
      HalfFrame();
      ghost var h := Geo();
      HalfItems(junk);
      assert Geo() == h;
    }

    // -------------------------------------------------------------- densities and climbs

    /** The numerator of `get_density`. */
    method CountFull(index: nat, len: nat) returns (full: nat)
      requires index + len <= items.Length
      ensures full == Count(items[..], index, len)
    {
      full := 0;
      ghost var a := items[..];
      for i := index to index + len
        invariant full == |Live(a[index..i])|
      {
        assert a[index..i + 1][..i - index] == a[index..i];
        if !IsNull(items[i]) {
          full := full + 1;
        }
      }
    }

    /** The loop of `insert`: go up to the first window within its upper bound, or past the root. */
    method ClimbInsert(start: nat) returns (t: Target)
      requires items.Length == N && IsWindow(Geo(), start, logN, H)
      ensures t == ClimbTarget(InsertClimb(items[..], Geo(), start, logN, H, 0))
    {
      var nodeIndex: nat, len: nat, level: nat := start, logN, H;
      var count := CountFull(nodeIndex, len);
      ghost var a, g := items[..], Geo();
      while TooDense(Geo(), count, len, level)
        invariant IsWindow(g, nodeIndex, len, level)
        invariant count == Count(a, nodeIndex, len)
        invariant InsertClimb(a, g, start, logN, H, 0) == InsertClimb(a, g, nodeIndex, len, level, 0)
        decreases level
      {
        LevelOfLength(g, nodeIndex, len, level);
        if 2 * len <= N {
          ParentWindow(g, nodeIndex, len, level);
          len := 2 * len;
          level := level - 1;
          nodeIndex := FindNode(nodeIndex, len);
          count := CountFull(nodeIndex, len);
        } else {
          return Grow;
        }
      }
      return Window(nodeIndex, len);
    }

    /** The loop of `remove`: go up to the first window within its lower bound, or past the root. */
    method ClimbRemove(start: nat) returns (c: Climb)
      requires items.Length == N && IsWindow(Geo(), start, logN, H)
      ensures c == RemoveClimb(items[..], Geo(), start, logN, H, 0)
    {
      var nodeIndex: nat, len: nat, level: nat := start, logN, H;
      var count := CountFull(nodeIndex, len);
      ghost var a, g := items[..], Geo();
      while TooSparse(Geo(), count, len, level)
        invariant IsWindow(g, nodeIndex, len, level)
        invariant count == Count(a, nodeIndex, len)
        invariant RemoveClimb(a, g, start, logN, H, 0) == RemoveClimb(a, g, nodeIndex, len, level, 0)
        decreases level
      {
        LevelOfLength(g, nodeIndex, len, level);
        if 2 * len <= N {
          ParentWindow(g, nodeIndex, len, level);
          len := 2 * len;
          level := level - 1;
          nodeIndex := FindNode(nodeIndex, len);
          count := CountFull(nodeIndex, len);
        } else {
          return PastRoot;
        }
      }
      return Stop(nodeIndex, len, level);
    }

    // -------------------------------------------------------------- insertion

    /** The leaf of `index`, or the pair of leaves when the leaf is completely full, redistributed. */
    method SettleLeaf(index: nat) returns (start: nat)
      requires TreeShape(Geo()) && items.Length == N && index < N
      requires WellFormed(Live(items[..]), |nodes|) && !IsNull(items[0])
      requires PointOutside(nodes, items[..], index, index + 1)
      modifies this`nodes, items
      ensures items[..] == Settle(old(items[..]), Geo(), index)
      ensures start == SettledStart(old(items[..]), Geo(), index)
      ensures |nodes| == old(|nodes|) && AllPoint(nodes, items[..])
    {
      PairWindow(Geo(), index);
      start := FindNode(index, logN);
      var full := CountFull(start, logN);
      if full == logN {
        start := FindNode(start, 2 * logN);
        Redistribute(start, 2 * logN);
      } else {
        Redistribute(start, logN);
      }
    }

    /** The first statements of `insert` for a new item: make room and store it. */
    method PlaceItem(index: nat, elem: Edge)
      requires items.Length == N && index < N && FirstEmpty(items[..], index) < N
      requires Orderly(items[..], |nodes|) && AllPoint(nodes, items[..])
      modifies this`nodes, items
      ensures items[..] == SlideInsert(old(items[..]), index, elem)
      ensures |nodes| == old(|nodes|) && PointOutside(nodes, items[..], index, index + 1)
    {
      ghost var was := items[..];
      if !IsNull(items[index]) {
        if index == N - 1 {
          // double_list and a new search: unreachable, the slot is occupied and the last one
          assert false;
        }
        SlideRight(index);
        PlacedAfterSlide(was, index, elem);
      } else {
        PlacedInHole(was, index, elem);
      }
      PointersAfterStore(nodes, items[..], index, elem);
      ghost var b := items[..];
      items[index] := elem;
      assert items[..] == b[index := elem];
    }

    /** The end of `insert`: double the array or redistribute one window more. */
    method FinishInsert(t: Target, junk: Edge)
      requires Framed() && (t.Window? ==> 0 < t.len && t.start + t.len <= N)
      requires WellFormed(Live(items[..]), |nodes|) && !IsNull(items[0]) && AllPoint(nodes, items[..])
      modifies this, items
      ensures held == old(held)
      ensures Framed() && N == (if t.Grow? then 2 * old(N) else old(N))
      ensures items == old(items) || fresh(items)
      ensures items[..] == Finish(old(items[..]), old(Geo()), t)
      ensures |nodes| == old(|nodes|) && AllPoint(nodes, items[..])
      ensures t.Window? ==> items == old(items) && versions == old(versions)
      ensures Grown(old(versions), versions)
    {
      match t
      case Grow => DoubleList(junk);
      case Window(start, len) =>
        if len > logN {
          Redistribute(start, len);
        }
    }

    /** The window redistributed last: known from lock acquisition or found by climbing. */
    method ChooseTarget(start: nat, info: Option<Info>) returns (t: Target)
      requires items.Length == N && IsWindow(Geo(), start, logN, H)
      ensures t == if info.Some? then
          if info.value.doubleList then Grow else Window(info.value.nodeIndexFinal, info.value.maxLen)
        else ClimbTarget(InsertClimb(items[..], Geo(), start, logN, H, 0))
    {
      match info
      case Some(known) =>
        t := if known.doubleList then Grow else Window(known.nodeIndexFinal, known.maxLen);
      case None =>
        t := ClimbInsert(start);
    }

    /** The branch of `insert` for an edge that is already there. */
    method Overwrite(index: nat, elem: Edge)
      requires items.Length == N && index < N && Overwrites(items[..], index, elem) && !IsNull(elem)
      requires Orderly(items[..], |nodes|) && AllPoint(nodes, items[..])
      modifies items
      ensures items[..] == old(items[..])[index := old(items[index]).(value := elem.value)]
      ensures AllPoint(nodes, items[..])
    {
      ghost var was := items[..];
      assert WellFormedItem(was[index], |nodes|);
      items[index] := items[index].(value := elem.value);
      forall p | 0 <= p < N
        ensures Points(nodes, items[..][p], p, N)
      {
        assert Points(nodes, was[p], p, N);
      }
    }

    /** `insert` up to the first redistribution. */
    method PlaceAndSettle(index: nat, elem: Edge) returns (start: nat)
      requires TreeShape(Geo()) && items.Length == N
      requires index < N && FirstEmpty(items[..], index) < N && !IsNull(elem)
      requires Orderly(items[..], |nodes|) && AllPoint(nodes, items[..])
      requires index > 0 ==> !IsNull(items[0])
      requires WellFormed(Live(SlideInsert(items[..], index, elem)), |nodes|)
      modifies this`nodes, items
      ensures |nodes| == old(|nodes|) && AllPoint(nodes, items[..])
      ensures WellFormed(Live(items[..]), |nodes|) && 0 < N && !IsNull(items[0])
      ensures var b := SlideInsert(old(items[..]), index, elem);
        && items[..] == Settle(b, Geo(), index)
        && start == SettledStart(b, Geo(), index) && IsWindow(Geo(), start, logN, H)
    {
      ghost var b, g := SlideInsert(items[..], index, elem), Geo();
      SlideInsertSlots(items[..], index, elem);
      PlaceItem(index, elem);
      start := SettleLeaf(index);
      PairWindow(g, index);
      SettleKeeps(b, g, index);
      SettleFirst(b, g, index);
    }

    /** `insert` up to its last step. */
    method PlaceAndChoose(index: nat, elem: Edge, info: Option<Info>) returns (t: Target)
      requires TreeShape(Geo()) && items.Length == N && InfoShape(Geo(), info)
      requires index < N && FirstEmpty(items[..], index) < N && !IsNull(elem)
      requires Orderly(items[..], |nodes|) && AllPoint(nodes, items[..])
      requires index > 0 ==> !IsNull(items[0])
      requires WellFormed(Live(SlideInsert(items[..], index, elem)), |nodes|)
      modifies this`nodes, items
      ensures |nodes| == old(|nodes|) && AllPoint(nodes, items[..])
      ensures WellFormed(Live(items[..]), |nodes|) && 0 < N && !IsNull(items[0])
      ensures t.Window? ==> 0 < t.len && t.start + t.len <= N
      ensures var b := SlideInsert(old(items[..]), index, elem);
        items[..] == Settle(b, Geo(), index) && t == InsertTarget(b, Geo(), index, info)
    {
      ghost var b, g := SlideInsert(items[..], index, elem), Geo();
      var start := PlaceAndSettle(index, elem);
      t := ChooseTarget(start, info);
      InsertTargetShape(b, g, index, info);
    }

    /** The rest of `insert`: a new item. */
    method InsertNew(index: nat, elem: Edge, info: Option<Info>, junk: Edge)
      requires Framed() && index < N && FirstEmpty(items[..], index) < N && !IsNull(elem) && InfoShape(Geo(), info)
      requires Orderly(items[..], |nodes|) && AllPoint(nodes, items[..])
      requires index > 0 ==> !IsNull(items[0])
      requires WellFormed(Live(SlideInsert(items[..], index, elem)), |nodes|)
      modifies this, items
      ensures held == old(held)
      ensures Framed() && |nodes| == old(|nodes|) && AllPoint(nodes, items[..])
      ensures items == old(items) || fresh(items)
      ensures items[..] == Inserted(old(items[..]), old(Geo()), index, elem, info)
      ensures var t := InsertTarget(SlideInsert(old(items[..]), index, elem), old(Geo()), index, info);
        && N == (if t.Grow? then 2 * old(N) else old(N))
        && (t.Window? ==> items == old(items) && versions == old(versions))
      ensures Grown(old(versions), versions)
    {
      ghost var g := Geo();
      var t := PlaceAndChoose(index, elem, info);
      assert Geo() == g;
      FinishInsert(t, junk);
    }

    /** `insert` */
    method Insert(index: nat, elem: Edge, info: Option<Info>, junk: Edge)
      requires Framed() && index < N && FirstEmpty(items[..], index) < N && !IsNull(elem) && InfoShape(Geo(), info)
      requires Orderly(items[..], |nodes|) && AllPoint(nodes, items[..])
      requires index > 0 ==> !IsNull(items[0])
      requires !Overwrites(items[..], index, elem) ==> WellFormed(Live(SlideInsert(items[..], index, elem)), |nodes|)
      modifies this, items
      ensures held == old(held)
      ensures Framed() && |nodes| == old(|nodes|) && AllPoint(nodes, items[..])
      ensures items == old(items) || fresh(items)
      ensures old(Overwrites(items[..], index, elem)) ==>
        && items[..] == old(items[..])[index := old(items[index]).(value := elem.value)]
        && items == old(items) && Geo() == old(Geo()) && versions == old(versions)
      ensures !old(Overwrites(items[..], index, elem)) ==>
        && items[..] == Inserted(old(items[..]), old(Geo()), index, elem, info)
        && (var t := InsertTarget(SlideInsert(old(items[..]), index, elem), old(Geo()), index, info);
            && N == (if t.Grow? then 2 * old(N) else old(N))
            && (t.Window? ==> items == old(items) && versions == old(versions)))
      ensures Grown(old(versions), versions)
    {
      if !IsNull(items[index]) && !IsSentinel(elem) && items[index].dest == elem.dest {
        Overwrite(index, elem);
      } else {
        InsertNew(index, elem, info, junk);
      }
    }

    // -------------------------------------------------------------- removal

    /** `remove` up to the first redistribution: clear the slot, redistribute its leaf. */
    method Vacate(index: nat)
      requires TreeShape(Geo()) && items.Length == N && 0 < index < N
      requires WellFormed(Live(items[..]), |nodes|) && AllPoint(nodes, items[..]) && !IsNull(items[0])
      requires !IsNull(items[index]) && !IsSentinel(items[index])
      modifies this`nodes, items
      ensures items[..] == Vacated(old(items[..]), Geo(), index)
      ensures |nodes| == old(|nodes|) && AllPoint(nodes, items[..])
      ensures WellFormed(Live(items[..]), |nodes|) && 0 < N && !IsNull(items[0])
      ensures WellFormed(Live(Cleared(old(items[..]), index)), |nodes|)
    {
      ghost var a, g := items[..], Geo();
      PairWindow(g, index);
      ClearSlot(index);
      ghost var b := Cleared(a, index);
      assert items[..] == b;
      RebalanceKeepsShape(b, LeafStart(g, index), logN);
      VacatedLive(a, g, index);
      Redistribute(FindNode(index, logN), logN);
      assert items[..] == Vacated(a, g, index);
    }

    /** The first statements of `remove`: zero the slot's value and destination. */
    method ClearSlot(index: nat)
      requires items.Length == N && 0 < index < N
      requires WellFormed(Live(items[..]), |nodes|) && AllPoint(nodes, items[..])
      requires !IsNull(items[index]) && !IsSentinel(items[index])
      modifies items
      ensures items[..] == Cleared(old(items[..]), index) && items[0] == old(items[0])
      ensures AllPoint(nodes, items[..]) && WellFormed(Live(items[..]), |nodes|)
    {
      ghost var a := items[..];
      items[index] := items[index].(value := 0, dest := 0);
      assert items[..] == Cleared(a, index);
      ClearedWellFormed(a, index, |nodes|);
      PointersAfterClear(nodes, a, index);
    }

    /** `remove` up to the end of its loop. */
    method VacateAndClimb(index: nat) returns (c: Climb)
      requires TreeShape(Geo()) && items.Length == N && 0 < index < N
      requires WellFormed(Live(items[..]), |nodes|) && AllPoint(nodes, items[..]) && !IsNull(items[0])
      requires !IsNull(items[index]) && !IsSentinel(items[index])
      modifies this`nodes, items
      ensures items[..] == Vacated(old(items[..]), Geo(), index)
      ensures c == RemoveTarget(old(items[..]), Geo(), index)
      ensures |nodes| == old(|nodes|) && AllPoint(nodes, items[..])
      ensures WellFormed(Live(items[..]), |nodes|) && 0 < N && !IsNull(items[0])
      ensures WellFormed(Live(Cleared(old(items[..]), index)), |nodes|)
    {
      Vacate(index);
      PairWindow(Geo(), index);
      c := ClimbRemove(FindNode(index, logN));
    }

    /** The end of `remove`: halve the array or redistribute the window found. */
    method FinishRemove(c: Climb, junk: Edge)
      requires Framed() && (c.Stop? ==> 0 < c.len && c.start + c.len <= N)
      requires c.PastRoot? ==> N > 8 && |Live(items[..])| <= items.Length / 2
      requires WellFormed(Live(items[..]), |nodes|) && !IsNull(items[0]) && AllPoint(nodes, items[..])
      modifies this, items
      ensures held == old(held)
      ensures Framed() && N == (if c.PastRoot? then old(N) / 2 else old(N))
      ensures items == old(items) || fresh(items)
      ensures c.Stop? ==> items == old(items) && versions == old(versions)
      ensures Shortened(old(versions), versions)
      ensures items[..] == Shrunk(old(items[..]), c)
      ensures |nodes| == old(|nodes|) && AllPoint(nodes, items[..])
    {
      match c
      case PastRoot => HalfList(junk);
      case Stop(start, len, _) => Redistribute(start, len);
    }

    /** `remove`, once the edge has been found in its slot. */
    method RemoveFound(index: nat, junk: Edge)
      requires Framed() && 0 < index < N && KeepsTree(items[..], Geo(), index)
      requires WellFormed(Live(items[..]), |nodes|) && AllPoint(nodes, items[..]) && !IsNull(items[0])
      requires !IsNull(items[index]) && !IsSentinel(items[index])
      modifies this, items
      ensures held == old(held)
      ensures Framed() && |nodes| == old(|nodes|) && AllPoint(nodes, items[..])
      ensures items == old(items) || fresh(items)
      ensures RemovalFits(old(items[..]), old(Geo()), index)
      ensures var c := RemoveTarget(old(items[..]), old(Geo()), index);
        && N == (if c.PastRoot? then old(N) / 2 else old(N))
        && (c.Stop? ==> items == old(items) && versions == old(versions))
      ensures Shortened(old(versions), versions)
      ensures items[..] == Removed(old(items[..]), old(Geo()), index)
    {
      ghost var a, g := items[..], Geo();
      var c := VacateAndClimb(index);
      RemovalStep(a, g, index);
      FinishRemove(c, junk);
    }

    /** `remove` */
    method Remove(index: nat, elem: Edge, junk: Edge)
      requires Framed() && 0 < index < N
      requires Overwrites(items[..], index, elem) ==> KeepsTree(items[..], Geo(), index)
      requires WellFormed(Live(items[..]), |nodes|) && AllPoint(nodes, items[..]) && !IsNull(items[0])
      modifies this, items
      ensures held == old(held)
      ensures Framed() && |nodes| == old(|nodes|) && AllPoint(nodes, items[..])
      ensures items == old(items) || fresh(items)
      ensures !old(Overwrites(items[..], index, elem)) ==>
        items == old(items) && items[..] == old(items[..]) && Geo() == old(Geo()) && versions == old(versions)
      ensures old(Overwrites(items[..], index, elem)) ==>
        && RemovalFits(old(items[..]), old(Geo()), index)
        && (var c := RemoveTarget(old(items[..]), old(Geo()), index);
            && N == (if c.PastRoot? then old(N) / 2 else old(N))
            && (c.Stop? ==> items == old(items) && versions == old(versions)))
        && items[..] == Removed(old(items[..]), old(Geo()), index)
      ensures Shortened(old(versions), versions)
    {
      if IsNull(items[index]) || IsSentinel(elem) || items[index].dest != elem.dest {
        return;
      }
      SlotWellFormed(items[..], |nodes|, index);
      RemoveFound(index, junk);
    }

    // -------------------------------------------------------------- searching

    /** The version of the leaf a slot is in. */
    method LoadVersion(index: nat) returns (v: int)
      requires Shaped() && index < N
      ensures LeafOf(index, logN) < |versions| && v == versions[LeafOf(index, logN)]
    {
      LeafNumber(Geo(), index);
      v := versions[NodeId(FindNode(index, logN), logN)];
    }

    /** The inner loop of `binary_search`: look on both sides of `mid` for an item, right before left. */
    method Probe(start: nat, end: nat, mid: nat) returns (check: nat, item: Edge)
      requires 0 < start < mid < end <= items.Length && mid == (start + end) / 2
      ensures match NearestItem(items[..], start, end, mid)
        case None => IsNull(item)
        case Some(found) => check == found && item == items[found] && !IsNull(item)
      ensures start - 1 <= check
    {
      item := items[mid];
      check := mid;
      var change := 1;
      var flag := true;
      ghost var a := items[..];
      ghost var found := NearestItem(a, start, end, mid);
      while IsNull(item) && flag
        invariant 1 <= change && start - 1 <= check
        invariant !IsNull(item) ==> check < end && item == a[check] && found == Some(check)
        invariant IsNull(item) ==> found == if flag then Nearby(a, start, end, mid, change) else None
        invariant IsNull(item) && flag ==> change <= mid - start + 1
        decreases flag, mid - change
      {
        flag := false;
        check := mid + change;
        if check < end {
          flag := true;
          item := items[check];
          if !IsNull(item) {
            break;
          }
        }
        check := mid - change;
        if check >= start {
          flag := true;
          item := items[check];
        }
        change := change + 1;
      }
    }

    /**
     `binary_search`: the slot it returns for any array, and the version of its
     leaf; over the sorted range of a vertex the slot is the place of `dest`.
     */
    method BinarySearch(dest: u32, start0: nat, end0: nat) returns (r: nat, version: int)
      requires Shaped() && 0 < start0 && end0 < N
      ensures r == SearchPlace(items[..], dest, start0, end0)
      ensures start0 <= end0 && SortedRange(items[..], start0, end0) ==> PlaceOf(items[..], dest, start0, end0, r)
      ensures LeafOf(r, logN) < |versions| && version == versions[LeafOf(r, logN)]
    {
      ghost var a := items[..];
      r := SearchLoop(dest, start0, end0);
      assert items[..] == a;
      if start0 <= end0 && SortedRange(a, start0, end0) {
        SearchFindsPlace(a, dest, start0, end0);
      }
      version := LoadVersion(r);
    }

    /** The loop of `binary_search` and what follows it. */
    method SearchLoop(dest: u32, start0: nat, end0: nat) returns (r: nat)
      requires 0 < start0 && end0 < items.Length
      ensures r == SearchPlace(items[..], dest, start0, end0)
    {
      var start: nat, end: nat := start0, end0;
      ghost var a := items[..];
      while start + 1 < end
        invariant 0 < start && end <= end0
        invariant SearchPlace(a, dest, start0, end0) == SearchPlace(a, dest, start, end)
        decreases end - start
      {
        var mid := (start + end) / 2;
        var check, item := Probe(start, end, mid);
        assert items[..] == a;
        if IsNull(item) || start == check || end == check {
          if !IsNull(item) && start == check && dest <= item.dest {
            return check;
          } else {
            return mid;
          }
        }
        if dest == item.dest {
          return check;
        } else if dest < item.dest {
          end := check;
        } else {
          start := check;
        }
      }
      if end < start {
        start := end;
      }
      if dest <= items[start].dest && !IsNull(items[start]) {
        return start;
      }
      return end;
    }

    // -------------------------------------------------------------- leaf locks

    /** Take one leaf lock. All that are held already have lower numbers. */
    method LockLeaf(i: nat)
      requires i < |versions| && forall j :: j in held ==> j < i
      modifies this`held
      ensures held == old(held) + {i}
    {
      held := held + {i};
    }

    method UnlockLeaf(i: nat)
      requires i in held
      modifies this`held
      ensures held == old(held) - {i}
    {
      held := held - {i};
    }

    /** Extend the interval of held leaves to the right, up to but not including `end`. */
    method LockUpTo(ghost minNode: nat, maxNode0: nat, end: nat) returns (maxNode: nat)
      requires held == Leaves(minNode, maxNode0 + 1) && minNode <= maxNode0 < |versions| && end <= |versions|
      modifies this`held
      ensures maxNode == (if maxNode0 < end then end - 1 else maxNode0)
      ensures held == Leaves(minNode, maxNode + 1)
    {
      maxNode := maxNode0;
      var i := maxNode + 1;
      while i < end
        invariant i == maxNode + 1 && maxNode0 <= maxNode
        invariant maxNode == maxNode0 || maxNode < end
        invariant held == Leaves(minNode, maxNode + 1)
      {
        maxNode := i;
        LockLeaf(i);
        i := i + 1;
      }
    }

    /** The first locks of an attempt: the leaves from `from` to `to`. */
    method LockFrom(from: nat, to: nat)
      requires held == {} && from <= to < |versions|
      modifies this`held
      ensures held == Leaves(from, to + 1)
    {
      LockLeaf(from);
      var _ := LockUpTo(from, from, to + 1);
    }

    /** `release_locks_no_inc`: nothing was changed. */
    method ReleaseLocksNoInc(minNode: nat, maxNode: nat)
      requires held == Leaves(minNode, maxNode + 1) && minNode <= maxNode
      modifies this`held
      ensures held == {}
    {
      for i := minNode to maxNode + 1
        invariant held == Leaves(i, maxNode + 1)
      {
        UnlockLeaf(i);
      }
    }

    /** `release_locks`: every leaf that was held gets a new version. */
    method ReleaseLocks(minNode: nat, maxNode: nat)
      requires held == Leaves(minNode, maxNode + 1) && minNode <= maxNode < |versions|
      modifies this`held, this`versions
      ensures held == {} && Bumped(old(versions), versions, minNode, maxNode)
    {
      for i := minNode to maxNode + 1
        invariant held == Leaves(i, maxNode + 1) && |versions| == old(|versions|)
        invariant forall k :: 0 <= k < |versions| ==>
          versions[k] == if minNode <= k < i then old(versions[k]) + 1 else old(versions[k])
      {
        versions := versions[i := versions[i] + 1];
        UnlockLeaf(i);
      }
    }

    /** A walk to the right reaches slot `ind`: at a leaf boundary it takes the next leaf's lock unless that is held. */
    method Enter(ind: nat, leafStart0: nat, leaf0: nat, ghost minNode: nat, maxNode0: nat)
      returns (leafStart: nat, leaf: nat, maxNode: nat)
      requires Shaped() && 0 < ind <= N
      requires leafStart0 == WindowStart(ind - 1, logN) && leaf0 == LeafOf(ind - 1, logN)
      requires minNode <= leaf0 <= maxNode0 < |versions| && held == Leaves(minNode, maxNode0 + 1)
      modifies this`held
      ensures ind < N ==> leafStart == WindowStart(ind, logN) && leaf == LeafOf(ind, logN)
      ensures minNode <= leaf <= maxNode < |versions| && maxNode0 <= maxNode && held == Leaves(minNode, maxNode + 1)
      ensures leaf0 <= leaf && (maxNode == maxNode0 || maxNode == leaf)
    {
      leafStart, leaf, maxNode := leafStart0, leaf0, maxNode0;
      NextSlotLeaf(ind - 1, logN);
      if ind < N && ind >= leafStart + logN {
        LeafNumber(Geo(), ind);
        leafStart := ind;
        leaf := leaf + 1;
        if leaf > maxNode {
          LockLeaf(leaf);
          maxNode := leaf;
        }
      }
    }

    // -------------------------------------------------------------- checking a place

    /** The walk to the right of `got_correct_insertion_index`: the next item, with the leaves on the way held. */
    method RightNeighbour(index: nat, ghost minNode: nat, maxNode0: nat) returns (ind: nat, maxNode: nat)
      requires Shaped() && index < N
      requires minNode <= maxNode0 == LeafOf(index, logN) < |versions| && held == Leaves(minNode, maxNode0 + 1)
      modifies this`held
      ensures IsNextItem(items[..], index + 1, ind)
      ensures ind < N ==> LeafOf(ind, logN) == maxNode
      ensures maxNode0 <= maxNode < |versions| && held == Leaves(minNode, maxNode + 1)
    {
      ind := index + 1;
      var leafStart, leaf;
      leafStart, leaf, maxNode := Enter(ind, FindNode(index, logN), maxNode0, minNode, maxNode0);
      while ind < N && IsNull(items[ind])
        invariant index < ind <= N && forall k :: index < k < ind ==> IsNull(items[k])
        invariant ind < N ==> leafStart == WindowStart(ind, logN) && leaf == LeafOf(ind, logN)
        invariant minNode <= leaf == maxNode < |versions| && maxNode0 <= maxNode
        invariant held == Leaves(minNode, maxNode + 1)
        decreases N - ind
      {
        ind := ind + 1;
        leafStart, leaf, maxNode := Enter(ind, leafStart, leaf, minNode, maxNode);
      }
    }

    /** The walk to the left: the previous item; slot 0 is never empty. */
    method LeftNeighbour(index: nat) returns (ind: nat)
      requires 0 < index < items.Length && !IsNull(items[0])
      ensures IsPrevItem(items[..], index, ind)
    {
      ind := index - 1;
      while IsNull(items[ind])
        invariant ind < index && forall k :: ind < k < index ==> IsNull(items[k])
        decreases ind
      {
        ind := ind - 1;
      }
    }

    /**
     `got_correct_insertion_index`: the outcome of the checks. They never reject
     the place of the edge, and accept an occupied slot only if it is the place.
     */
    method GotCorrectInsertionIndex(src: nat, dest: u32, index: nat, ghost minNode: nat, maxNode0: nat)
      returns (ok: bool, maxNode: nat)
      requires Shaped() && Layout(nodes, items[..]) && src < |nodes| && 0 < index < N && !IsNull(items[0])
      requires minNode <= maxNode0 == LeafOf(index, logN) < |versions| && held == Leaves(minNode, maxNode0 + 1)
      modifies this`held
      ensures ok <==> ChecksPass(|nodes|, items[..], src, dest, index)
      ensures PlaceIn(nodes, items[..], src, dest, index) ==> ok
      ensures ok && !IsNull(items[index]) ==> PlaceIn(nodes, items[..], src, dest, index)
      ensures maxNode0 <= maxNode < |versions| && held == Leaves(minNode, maxNode + 1)
      ensures CheckEnds(items[..], index, logN, maxNode)
    {
      ghost var a := items[..];
      ghost var left;
      ok, maxNode, left := RunChecks(src, dest, index, minNode, maxNode0);
      assert items[..] == a;
      ChecksDecide(nodes, a, src, dest, index, left);
    }

    /** Its body: the slot itself or the next item, then the previous item. */
    method RunChecks(src: nat, dest: u32, index: nat, ghost minNode: nat, maxNode0: nat)
      returns (ok: bool, maxNode: nat, ghost left: nat)
      requires Shaped() && 0 < index < N && !IsNull(items[0])
      requires minNode <= maxNode0 == LeafOf(index, logN) < |versions| && held == Leaves(minNode, maxNode0 + 1)
      modifies this`held
      ensures ok <==> ChecksPass(|nodes|, items[..], src, dest, index)
      ensures IsPrevItem(items[..], index, left)
      ensures maxNode0 <= maxNode < |versions| && held == Leaves(minNode, maxNode + 1)
      ensures CheckEnds(items[..], index, logN, maxNode)
    {
      maxNode := maxNode0;
      ghost var a, n := items[..], |nodes|;
      var e := items[index];
      var right := 0;
      ok := true;
      if !IsNull(e) {
        ok := HereOk(|nodes|, src, dest, e);
      } else {
        right, maxNode := RightNeighbour(index, minNode, maxNode0);
        NextItemOnly(a, index + 1, right);
        ok := right < N ==> RightOk(|nodes|, src, dest, items[right]);
      }
      var previous := LeftNeighbour(index);
      left := previous;
      assert items[..] == a;
      ChecksByNeighbours(n, a, src, dest, index, left, right);
      ok := ok && LeftOk(src, dest, items[previous]);
    }

    // -------------------------------------------------------------- locks for an insertion

    /** Where the climb starts: the leaf, or its pair if the leaf has one empty slot. */
    method PlanLeaf(index: nat, minNode: nat, maxNode: nat) returns (start: nat, left: bool)
      requires Shaped() && index < N && minNode <= LeafOf(index, logN) <= maxNode
      ensures start == PlanStart(items[..], Geo(), index)
      ensures left <==> LeafOf(start, logN) < minNode
    {
      PairWindow(Geo(), index);
      LeafNumber(Geo(), index);
      start := FindNode(index, logN);
      left := false;
      var full := CountFull(start, logN);
      if full + 1 == logN {
        var pair := FindNode(start, 2 * logN);
        var leaf := NodeId(pair, logN);
        if pair == start && leaf > maxNode {
          // the leaf is held
          assert false;
        } else if leaf < minNode {
          left := true;
        }
        start := pair;
      }
    }

    /** One step of the climb: the parent window, its leaves to the right locked, or a leaf left of those held. */
    method StepUp(start: nat, ghost len: nat, ghost level: nat, upLen: nat, minNode: nat, maxNode0: nat,
                  ghost first: nat)
      returns (up: nat, left: bool, maxNode: nat)
      requires Shaped() && IsWindow(Geo(), start, len, level) && level > 0 && upLen == 2 * len
      requires minNode <= maxNode0 < |versions| && held == Leaves(minNode, maxNode0 + 1)
      requires Covers(minNode, maxNode0, logN, start, start + len) && EndsWith(maxNode0, first, start + len, logN)
      modifies this`held
      ensures up == WindowStart(start, upLen) && (left <==> LeafOf(up, logN) < minNode)
      ensures maxNode0 <= maxNode < |versions| && held == Leaves(minNode, maxNode + 1)
      ensures !left ==> Covers(minNode, maxNode, logN, up, up + upLen) && EndsWith(maxNode, first, up + upLen, logN)
    {
      ghost var g := Geo();
      ParentWindow(g, start, len, level);
      up := FindNode(start, upLen);
      left, maxNode := false, maxNode0;
      WindowLastLeaf(g, up, upLen, level - 1);
      WindowLeaves(g, up, upLen, level - 1);
      LeafOfMonotone(start + len - 1, up + upLen - 1, logN);
      if up < start {
        left := NodeId(up, logN) < minNode;
      } else {
        var end := NodeId(FindNode(up + upLen, logN), logN);
        maxNode := LockUpTo(minNode, maxNode0, end);
      }
    }

    /** What the climbs keep: a window whose leaves are held, in an interval that starts at `minNode`. */
    ghost predicate Climbing(start: nat, len: nat, level: nat, minNode: nat, maxNode: nat)
      reads this
      requires logN > 0
    {
      && IsWindow(Geo(), start, len, level)
      && minNode <= maxNode < |versions| && held == Leaves(minNode, maxNode + 1)
      && Covers(minNode, maxNode, logN, start, start + len)
    }

    /** The body of the loop of `acquire_insert_locks`. */
    method ClimbOnce(start: nat, len: nat, level: nat, count0: int, minNode: nat, maxNode0: nat,
                     ghost a: seq<Edge>, ghost t: Climb, ghost restart: Option<nat>, ghost first: nat)
      returns (up: nat, upLen: nat, upLevel: nat, count: int, left: bool, maxNode: nat)
      requires Shaped() && Climbing(start, len, level, minNode, maxNode0) && level > 0
      requires items[..] == a && count0 == Count(a, start, len) && TooDense(Geo(), count0 + 1, len, level)
      requires InsertClimb(a, Geo(), start, len, level, 1) == t
      requires RestartLeaf(a, Geo(), start, len, level, minNode) == restart && EndsWith(maxNode0, first, start + len, logN)
      modifies this`held
      ensures items[..] == a && maxNode0 <= maxNode < |versions| && held == Leaves(minNode, maxNode + 1)
      ensures left <==> LeafOf(up, logN) < minNode
      ensures !left ==> Climbing(up, upLen, upLevel, minNode, maxNode) && count == Count(a, up, upLen)
      ensures !left ==> EndsWith(maxNode, first, up + upLen, logN)
      ensures IsWindow(Geo(), up, upLen, upLevel) && upLevel < level
      ensures InsertClimb(a, Geo(), up, upLen, upLevel, 1) == t
      ensures RestartLeaf(a, Geo(), up, upLen, upLevel, minNode) == restart
    {
      ghost var g := Geo();
      upLen, upLevel := 2 * len, level - 1;
      up, left, maxNode := StepUp(start, len, level, upLen, minNode, maxNode0, first);
      InsertClimbUp(a, g, start, len, level, 1, up, upLen, upLevel);
      RestartUp(a, g, start, len, level, minNode, up, upLen, upLevel);
      count := 0;
      if !left {
        count := CountFull(up, upLen);
      }
      assert items[..] == a && Geo() == g;
    }

    /** The same with the ways out of the loop: the window is the whole array, or a leaf further left is needed. */
    method ClimbRound(start: nat, len: nat, level: nat, count0: int, minNode: nat, maxNode0: nat,
                      ghost a: seq<Edge>, ghost t: Climb, ghost restart: Option<nat>, ghost first: nat)
      returns (up: nat, upLen: nat, upLevel: nat, count: int, maxNode: nat, out: Option<LockClimb>)
      requires Shaped() && Climbing(start, len, level, minNode, maxNode0)
      requires items[..] == a && count0 == Count(a, start, len) && TooDense(Geo(), count0 + 1, len, level)
      requires InsertClimb(a, Geo(), start, len, level, 1) == t
      requires RestartLeaf(a, Geo(), start, len, level, minNode) == restart && EndsWith(maxNode0, first, start + len, logN)
      modifies this`held
      ensures items[..] == a && maxNode0 <= maxNode < |versions| && held == Leaves(minNode, maxNode + 1)
      ensures out.Some? ==> !out.value.Reached? && out.value.maxNode == maxNode
      ensures out.Some? ==> LockClimbFits(out.value, t, Geo(), minNode) && restart == RestartOf(out.value)
      ensures out.None? ==> Climbing(up, upLen, upLevel, minNode, maxNode) && count == Count(a, up, upLen)
      ensures out.None? ==> upLevel < level && EndsWith(maxNode, first, up + upLen, logN)
      ensures out.None? ==> InsertClimb(a, Geo(), up, upLen, upLevel, 1) == t
      ensures out.None? ==> RestartLeaf(a, Geo(), up, upLen, upLevel, minNode) == restart
    {
      ghost var g := Geo();
      LevelOfLength(g, start, len, level);
      if 2 * len > N {
        InsertPasses(a, g, start, len, level, minNode, maxNode0);
        return start, len, level, count0, maxNode0, Some(Past(maxNode0));
      }
      var left;
      up, upLen, upLevel, count, left, maxNode := ClimbOnce(start, len, level, count0, minNode, maxNode0,
                                                            a, t, restart, first);
      assert items[..] == a && Geo() == g;
      out := None;
      if left {
        InsertGoesLeft(a, g, up, upLen, upLevel, minNode, maxNode);
        out := Some(GoLeft(maxNode, NodeId(up, logN)));
      }
    }

    /** The loop of `acquire_insert_locks`. */
    method ClimbInsertLocks(start: nat, minNode: nat, maxNode0: nat) returns (c: LockClimb)
      requires Shaped() && Climbing(start, logN, H, minNode, maxNode0)
      modifies this`held
      ensures maxNode0 <= c.maxNode < |versions| && held == Leaves(minNode, c.maxNode + 1)
      ensures LockClimbFits(c, InsertClimb(items[..], Geo(), start, logN, H, 1), Geo(), minNode)
      ensures RestartLeaf(items[..], Geo(), start, logN, H, minNode) == RestartOf(c)
      ensures c.Reached? ==> EndsWith(c.maxNode, maxNode0, c.start + c.len, logN)
    {
      var nodeIndex: nat, len: nat, level: nat, maxNode: nat := start, logN, H, maxNode0;
      var count: int := CountFull(nodeIndex, len);
      ghost var a, g := items[..], Geo();
      ghost var t, restart := InsertClimb(a, g, start, logN, H, 1), RestartLeaf(a, g, start, logN, H, minNode);
      while TooDense(Geo(), count + 1, len, level)
        invariant items[..] == a && Geo() == g && maxNode0 <= maxNode
        invariant Climbing(nodeIndex, len, level, minNode, maxNode) && count == Count(a, nodeIndex, len)
        invariant InsertClimb(a, g, nodeIndex, len, level, 1) == t && EndsWith(maxNode, maxNode0, nodeIndex + len, logN)
        invariant RestartLeaf(a, g, nodeIndex, len, level, minNode) == restart
        decreases level
      {
        var out;
        nodeIndex, len, level, count, maxNode, out := ClimbRound(nodeIndex, len, level, count, minNode, maxNode,
                                                                 a, t, restart, maxNode0);
        assert items[..] == a && Geo() == g;
        if out.Some? {
          return out.value;
        }
      }
      InsertReaches(a, g, nodeIndex, len, level, minNode, maxNode);
      c := Reached(maxNode, nodeIndex, len);
      assert LockClimbFits(c, t, g, minNode) && restart == RestartOf(c);
    }

    /** The end of `acquire_insert_locks`: the leaves the slide goes through. */
    method LockSlide(index: nat, minNode: nat, maxNode0: nat) returns (maxNode: nat)
      requires Shaped() && index < N && TailFree(items[..])
      requires minNode <= LeafOf(index, logN) <= maxNode0 < |versions| && held == Leaves(minNode, maxNode0 + 1)
      modifies this`held
      ensures maxNode0 <= maxNode < |versions| && held == Leaves(minNode, maxNode + 1)
      ensures FirstEmpty(items[..], index) < N
      ensures Covers(minNode, maxNode, logN, index, FirstEmpty(items[..], index) + 1)
      ensures maxNode == maxNode0 || maxNode == LeafOf(FirstEmpty(items[..], index), logN)
    {
      maxNode := maxNode0;
      ghost var a := items[..];
      FirstEmptyBefore(a, index, N - 1);
      if IsNull(items[index]) {
          return;
      }
      var ind := index + 1;
      var leafStart, leaf;
      leafStart, leaf, maxNode := Enter(ind, FindNode(index, logN), NodeId(index, logN), minNode, maxNode);
      while ind < N && !IsNull(items[ind])
        invariant index < ind <= FirstEmpty(a, index)
        invariant leafStart == WindowStart(ind, logN) && leaf == LeafOf(ind, logN)
        invariant minNode <= leaf <= maxNode < |versions| && (maxNode == maxNode0 || maxNode0 <= maxNode == leaf)
        invariant held == Leaves(minNode, maxNode + 1)
        decreases N - ind
      {
        NotYetHole(a, index, ind);
        ind := ind + 1;
        leafStart, leaf, maxNode := Enter(ind, leafStart, leaf, minNode, maxNode);
      }
    }

    /** The first locks of an attempt: from the left bound, or else from one leaf before, if searches take no locks. */
    method LockStart(index: nat, leftBound: Option<nat>) returns (minNode: nat, nodeId: nat)
      requires Shaped() && index < N && held == {}
      requires leftBound.Some? ==> leftBound.value <= LeafOf(index, logN)
      modifies this`held
      ensures nodeId == LeafOf(index, logN) < |versions|
      ensures minNode <= nodeId && held == Leaves(minNode, nodeId + 1)
      ensures minNode == StartNode(nodeId, lockSearch, leftBound)
    {
      LeafNumber(Geo(), index);
      nodeId := NodeId(FindNode(index, logN), logN);
      minNode := nodeId;
      if leftBound.Some? {
        minNode := leftBound.value;
      } else if nodeId > 0 && !lockSearch {
        minNode := nodeId - 1;
      }
      LockFrom(minNode, nodeId);
    }

    /** The locks for redistribution: first the pair of a nearly full leaf, then the climb. */
    method PlanLocks(index: nat, minNode: nat, maxNode0: nat) returns (c: LockClimb)
      requires Shaped() && index < N
      requires minNode <= LeafOf(index, logN) <= maxNode0 < |versions| && held == Leaves(minNode, maxNode0 + 1)
      modifies this`held
      ensures maxNode0 <= c.maxNode < |versions| && held == Leaves(minNode, c.maxNode + 1)
      ensures LockClimbFits(c, InsertPlan(items[..], Geo(), index), Geo(), minNode)
      ensures InsertRestart(items[..], Geo(), index, minNode) == RestartOf(c)
      ensures c.Reached? ==> EndsWith(c.maxNode, maxNode0, c.start + c.len, logN)
      ensures c.Reached? ==> minNode <= LeafOf(PlanStart(items[..], Geo(), index), logN)
    {
      ghost var a, g := items[..], Geo();
      var start, left := PlanLeaf(index, minNode, maxNode0);
      PairWindow(g, index);
      if left {
        InsertGoesLeft(a, g, start, logN, H, minNode, maxNode0);
        return GoLeft(maxNode0, NodeId(start, logN));
      }
      WindowLeaves(g, start, logN, H);
      PlanLeafHeld(g, index, start, maxNode0);
      c := ClimbInsertLocks(start, minNode, maxNode0);
      assert items[..] == a && Geo() == g;
    }

    /** The end of an attempt whose climb has reached its window: the slide. */
    method SecureSlide(index: nat, ghost elem: Edge, minNode: nat, c: LockClimb, ghost first: nat) returns (r: InsertLocks)
      requires Shaped() && TailFree(items[..]) && index < N && c.Reached?
      requires minNode <= LeafOf(index, logN) <= c.maxNode < |versions| && held == Leaves(minNode, c.maxNode + 1)
      requires LockClimbFits(c, InsertPlan(items[..], Geo(), index), Geo(), minNode)
      requires minNode <= LeafOf(PlanStart(items[..], Geo(), index), logN)
      requires EndsWith(c.maxNode, first, c.start + c.len, logN)
      requires !lockSearch ==> ChecksPass(|nodes|, items[..], elem.src, elem.dest, index)
      requires !lockSearch && !IsNull(items[index]) ==> PlaceIn(nodes, items[..], elem.src, elem.dest, index)
      modifies this`held
      ensures r.Acquired? && r.minNode == minNode && held == InsertHeld(r)
      ensures CheckEnds(items[..], index, logN, first) ==> LocksEnd(r, items[..], index, logN)
      ensures InsertOutcome(r, nodes, items[..], Geo(), index, elem, true, !lockSearch)
    {
      ghost var a, g := items[..], Geo();
      var maxNode := LockSlide(index, minNode, c.maxNode);
      r := Acquired(minNode, maxNode, Info(false, c.len, c.start));
      assert items[..] == a && Geo() == g;
      AcquiredOutcome(nodes, a, g, index, elem, !lockSearch, minNode, c, maxNode);
    }

    /** The rest of an attempt, once the leaf is known to be right: redistribution and slide. */
    method SecureLocks(index: nat, ghost elem: Edge, minNode: nat, maxNode0: nat)
      returns (r: InsertLocks, restart: Option<nat>)
      requires Shaped() && TailFree(items[..]) && index < N
      requires minNode <= LeafOf(index, logN) <= maxNode0 < |versions| && held == Leaves(minNode, maxNode0 + 1)
      requires !lockSearch ==> ChecksPass(|nodes|, items[..], elem.src, elem.dest, index)
      requires !lockSearch && !IsNull(items[index]) ==> PlaceIn(nodes, items[..], elem.src, elem.dest, index)
      modifies this`held
      ensures restart.Some? ==>
        held == {} && RestartNeeded(restart.value, minNode, InsertPlan(items[..], Geo(), index), Geo())
      ensures restart == InsertRestart(items[..], Geo(), index, minNode)
      ensures restart.None? ==> !r.NeedRetry? && held == InsertHeld(r)
      ensures restart.None? && r.Acquired? ==> r.minNode == minNode
      ensures restart.None? && CheckEnds(items[..], index, logN, maxNode0) ==> LocksEnd(r, items[..], index, logN)
      ensures restart.None? ==> ToldBy(r) == Some(InfoOf(InsertPlan(items[..], Geo(), index)))
      ensures restart.None? ==> InsertOutcome(r, nodes, items[..], Geo(), index, elem, true, !lockSearch)
    {
      restart := None;
      ghost var a, g := items[..], Geo();
      var c := PlanLocks(index, minNode, maxNode0);
      assert items[..] == a && Geo() == g;
      match c
      case GoLeft(m, leaf) =>
        ReleaseLocksNoInc(minNode, m);
        assert items[..] == a && Geo() == g;
        r, restart := NeedRetry, Some(leaf);
      case Past(m) =>
        ReleaseLocksNoInc(minNode, m);
        assert items[..] == a && Geo() == g;
        r := NeedGlobalWrite(Some(Info(true, 0, 0)));
      case Reached(_, _, _) =>
        r := SecureSlide(index, elem, minNode, c, maxNode0);
        assert items[..] == a && Geo() == g;
    }

    /** One attempt of `acquire_insert_locks`; `restart` is the leaf to start the next one from. */
    method TryInsertLocks(index: nat, elem: Edge, insV: int, leftBound: Option<nat>)
      returns (r: InsertLocks, restart: Option<nat>)
      requires Shaped() && Layout(nodes, items[..]) && elem.src < |nodes| && 0 < index < N && !IsNull(items[0])
      requires held == {} && (leftBound.Some? ==> leftBound.value <= LeafOf(index, logN))
      modifies this`held
      ensures LeafOf(index, logN) < |versions|
      ensures restart.Some? ==>
        && held == {} && insV == versions[LeafOf(index, logN)]
        && RestartNeeded(restart.value, StartNode(LeafOf(index, logN), lockSearch, leftBound),
             InsertPlan(items[..], Geo(), index), Geo())
      ensures !(restart.None? && r.NeedRetry?) ==>
        restart == InsertRestart(items[..], Geo(), index, StartNode(LeafOf(index, logN), lockSearch, leftBound))
      ensures restart.None? && r.Acquired? ==> r.minNode == StartNode(LeafOf(index, logN), lockSearch, leftBound)
      ensures restart.None? ==> LocksEnd(r, items[..], index, logN)
      ensures restart.None? && !r.NeedRetry? ==> ToldBy(r) == Some(InfoOf(InsertPlan(items[..], Geo(), index)))
      ensures restart.None? ==>
        && held == InsertHeld(r)
        && InsertOutcome(r, nodes, items[..], Geo(), index, elem, insV == versions[LeafOf(index, logN)], !lockSearch)
    {
      ghost var a := items[..];
      var minNode, maxNode := LockStart(index, leftBound);
      if insV != versions[maxNode] {
        ReleaseLocksNoInc(minNode, maxNode);
        return NeedRetry, None;
      }
      if index == N - 1 && !IsNull(items[index]) {
        // the last slot is empty
        assert false;
      }
      if !lockSearch {
        var ok;
        ok, maxNode := GotCorrectInsertionIndex(elem.src, elem.dest, index, minNode, maxNode);
        if !ok {
          ReleaseLocksNoInc(minNode, maxNode);
          return NeedRetry, None;
        }
      }
      assert items[..] == a;
      r, restart := SecureLocks(index, elem, minNode, maxNode);
    }

    /**
     `acquire_insert_locks`: either nothing is held, or exactly an interval of
     leaves in which all slots lie that the insertion will write. At most four
     attempts; each starts further left than the one before.
     */
    method AcquireInsertLocks(index: nat, elem: Edge, insV: int, leftBound: Option<nat>, tries: nat)
      returns (r: InsertLocks, ghost restarts: nat)
      requires Shaped() && Layout(nodes, items[..]) && elem.src < |nodes| && 0 < index < N && !IsNull(items[0])
      requires held == {} && tries <= 4 && (leftBound.Some? ==> leftBound.value <= LeafOf(index, logN))
      modifies this`held
      ensures LeafOf(index, logN) < |versions| && held == InsertHeld(r)
      ensures InsertOutcome(r, nodes, items[..], Geo(), index, elem, insV == versions[LeafOf(index, logN)], !lockSearch)
      ensures tries + restarts <= 4 && (r == NeedGlobalWrite(None) <==> tries + restarts == 4)
      ensures r == NeedGlobalWrite(None) && tries < 4 ==> insV == versions[LeafOf(index, logN)]
      ensures !r.NeedRetry? ==>
        ToldBy(r) == Hint(items[..], Geo(), index, StartNode(LeafOf(index, logN), lockSearch, leftBound), tries)
      ensures r.Acquired? ==>
        r.minNode == Lower(StartNode(LeafOf(index, logN), lockSearch, leftBound), LeafOf(r.info.nodeIndexFinal, logN))
      ensures LocksEnd(r, items[..], index, logN)
      ensures r.Acquired? && leftBound.None? && !lockSearch && LeafOf(index, logN) > 0 ==> r.minNode < LeafOf(index, logN)
      decreases 4 - tries
    {
      restarts := 0;
      if tries > 3 {
        LeafNumber(Geo(), index);
        r := NeedGlobalWrite(None);
        return;
      }
      var restart;
      ghost var a, g := items[..], Geo();
      r, restart := TryInsertLocks(index, elem, insV, leftBound);
      assert items[..] == a && Geo() == g;
      if restart.Some? {
        r, restarts := AcquireInsertLocks(index, elem, insV, restart, tries + 1);
        restarts := restarts + 1;
      }
    }

    // -------------------------------------------------------------- locks for a removal

    /** One step of its climb: the parent window, its leaves to the right locked, or a leaf left of those held. */
    method StepUpRemove(start: nat, ghost len: nat, ghost level: nat, upLen: nat, minNode: nat, maxNode0: nat,
                        ghost first: nat)
      returns (up: nat, left: bool, maxNode: nat)
      requires Shaped() && IsWindow(Geo(), start, len, level) && level > 0 && upLen == 2 * len
      requires minNode <= maxNode0 < |versions| && held == Leaves(minNode, maxNode0 + 1)
      requires Covers(minNode, maxNode0, logN, start, start + len) && EndsWith(maxNode0, first, start + len, logN)
      modifies this`held
      ensures up == WindowStart(start, upLen) && (left <==> LeafOf(up, logN) < minNode)
      ensures maxNode0 <= maxNode < |versions| && held == Leaves(minNode, maxNode + 1)
      ensures !left ==> Covers(minNode, maxNode, logN, up, up + upLen) && EndsWith(maxNode, first, up + upLen, logN)
    {
      ghost var g := Geo();
      ParentWindow(g, start, len, level);
      WindowLastLeaf(g, WindowStart(start, upLen), upLen, level - 1);
      WindowLeaves(g, WindowStart(start, upLen), upLen, level - 1);
      LeafOfMonotone(start + len - 1, WindowStart(start, upLen) + upLen - 1, logN);
      up := FindNode(start, upLen);
      left := up < start && NodeId(up, logN) < minNode;
      maxNode := maxNode0;
      if !left {
        maxNode := LockUpTo(minNode, maxNode0, NodeId(up + upLen, logN));
      }
    }

    /** The body of the loop of `acquire_remove_locks`. */
    method ClimbOnceRemove(start: nat, len: nat, level: nat, count0: int, minNode: nat, maxNode0: nat,
                           ghost a: seq<Edge>, ghost t: Climb, ghost first: nat)
      returns (up: nat, upLen: nat, upLevel: nat, count: int, left: bool, maxNode: nat)
      requires Shaped() && Climbing(start, len, level, minNode, maxNode0) && level > 0
      requires EndsWith(maxNode0, first, start + len, logN)
      requires items[..] == a && count0 == Count(a, start, len) && TooSparse(Geo(), count0 - 1, len, level)
      requires RemoveClimb(a, Geo(), start, len, level, 1) == t
      modifies this`held
      ensures items[..] == a && maxNode0 <= maxNode < |versions| && held == Leaves(minNode, maxNode + 1)
      ensures left <==> LeafOf(up, logN) < minNode
      ensures !left ==> Climbing(up, upLen, upLevel, minNode, maxNode) && count == Count(a, up, upLen)
      ensures IsWindow(Geo(), up, upLen, upLevel) && upLevel < level
      ensures !left ==> EndsWith(maxNode, first, up + upLen, logN)
      ensures RemoveClimb(a, Geo(), up, upLen, upLevel, 1) == t
    {
      ghost var g := Geo();
      upLen, upLevel := 2 * len, level - 1;
      up, left, maxNode := StepUpRemove(start, len, level, upLen, minNode, maxNode0, first);
      RemoveClimbUp(a, g, start, len, level, 1, up, upLen, upLevel);
      count := 0;
      if !left {
        count := CountFull(up, upLen);
      }
      assert items[..] == a && Geo() == g;
    }

    /** The same with the ways out of the loop. */
    method ClimbRoundRemove(start: nat, len: nat, level: nat, count0: int, minNode: nat, maxNode0: nat,
                            ghost a: seq<Edge>, ghost t: Climb, ghost first: nat)
      returns (up: nat, upLen: nat, upLevel: nat, count: int, maxNode: nat, out: Option<LockClimb>)
      requires Shaped() && Climbing(start, len, level, minNode, maxNode0)
      requires EndsWith(maxNode0, first, start + len, logN)
      requires items[..] == a && count0 == Count(a, start, len) && TooSparse(Geo(), count0 - 1, len, level)
      requires RemoveClimb(a, Geo(), start, len, level, 1) == t
      modifies this`held
      ensures items[..] == a && maxNode0 <= maxNode < |versions| && held == Leaves(minNode, maxNode + 1)
      ensures out.Some? ==> !out.value.Reached? && out.value.maxNode == maxNode
      ensures out.Some? ==> LockClimbFits(out.value, t, Geo(), minNode)
      ensures out.None? ==> Climbing(up, upLen, upLevel, minNode, maxNode) && count == Count(a, up, upLen)
      ensures out.None? ==> upLevel < level && EndsWith(maxNode, first, up + upLen, logN)
      ensures out.None? ==> RemoveClimb(a, Geo(), up, upLen, upLevel, 1) == t
    {
      ghost var g := Geo();
      LevelOfLength(g, start, len, level);
      if 2 * len > N {
        RemovePasses(a, g, start, len, level, minNode, maxNode0);
        return start, len, level, count0, maxNode0, Some(Past(maxNode0));
      }
      var left;
      up, upLen, upLevel, count, left, maxNode := ClimbOnceRemove(start, len, level, count0, minNode, maxNode0, a, t, first);
      assert Geo() == g;
      out := None;
      if left {
        RemoveGoesLeft(a, g, up, upLen, upLevel, minNode, maxNode);
        out := Some(GoLeft(maxNode, NodeId(up, logN)));
      }
    }

    /** The loop of `acquire_remove_locks`. */
    method ClimbRemoveLocks(start: nat, minNode: nat, maxNode0: nat) returns (c: LockClimb)
      requires Shaped() && Climbing(start, logN, H, minNode, maxNode0)
      modifies this`held
      ensures maxNode0 <= c.maxNode < |versions| && held == Leaves(minNode, c.maxNode + 1)
      ensures LockClimbFits(c, RemoveClimb(items[..], Geo(), start, logN, H, 1), Geo(), minNode)
      ensures c.Reached? ==> EndsWith(c.maxNode, maxNode0, c.start + c.len, logN)
    {
      var nodeIndex: nat, len: nat, level: nat, maxNode: nat := start, logN, H, maxNode0;
      var count: int := CountFull(nodeIndex, len);
      ghost var a, g := items[..], Geo();
      ghost var t := RemoveClimb(a, g, start, logN, H, 1);
      while TooSparse(Geo(), count - 1, len, level)
        invariant items[..] == a && Geo() == g && maxNode0 <= maxNode
        invariant Climbing(nodeIndex, len, level, minNode, maxNode) && count == Count(a, nodeIndex, len)
        invariant RemoveClimb(a, g, nodeIndex, len, level, 1) == t && EndsWith(maxNode, maxNode0, nodeIndex + len, logN)
        decreases level
      {
        var out;
        nodeIndex, len, level, count, maxNode, out := ClimbRoundRemove(nodeIndex, len, level, count, minNode, maxNode,
                                                                       a, t, maxNode0);
        assert Geo() == g;
        if out.Some? {
          return out.value;
        }
      }
      RemoveReaches(a, g, nodeIndex, len, level, minNode, maxNode);
      c := Reached(maxNode, nodeIndex, len);
      assert LockClimbFits(c, t, g, minNode);
    }

    /** The locks for the redistribution that a removal will make. */
    method RemovePlanLocks(index: nat, minNode: nat, maxNode0: nat) returns (c: LockClimb)
      requires Shaped() && index < N
      requires minNode <= LeafOf(index, logN) <= maxNode0 < |versions| && held == Leaves(minNode, maxNode0 + 1)
      modifies this`held
      ensures maxNode0 <= c.maxNode < |versions| && held == Leaves(minNode, c.maxNode + 1)
      ensures LockClimbFits(c, RemovePlan(items[..], Geo(), index), Geo(), minNode)
      ensures c.Reached? ==> EndsWith(c.maxNode, maxNode0, c.start + c.len, logN)
    {
      LeafHeld(Geo(), index, minNode, maxNode0);
      c := ClimbRemoveLocks(FindNode(index, logN), minNode, maxNode0);
    }

    /** The rest of an attempt, once the edge is known to be there. */
    method SecureRemoveLocks(index: nat, ghost elem: Edge, minNode: nat, maxNode0: nat)
      returns (r: RemoveLocks, restart: Option<nat>)
      requires Shaped() && index < N && Overwrites(items[..], index, elem)
      requires PlaceIn(nodes, items[..], elem.src, elem.dest, index)
      requires minNode <= LeafOf(index, logN) == maxNode0 < |versions| && held == Leaves(minNode, maxNode0 + 1)
      modifies this`held
      ensures restart.Some? ==>
        held == {} && RestartNeeded(restart.value, minNode, RemovePlan(items[..], Geo(), index), Geo())
      ensures restart.None? ==> held == RemoveHeld(r, |versions|)
      ensures restart.None? && r.Held? ==> HeldFrom(r.minNode, r.maxNode, items[..], Geo(), index, Some(minNode))
      ensures restart.None? ==> RemoveOutcome(r, nodes, items[..], Geo(), index, elem, true)
    {
      restart := None;
      ghost var a, g := items[..], Geo();
      var c := RemovePlanLocks(index, minNode, maxNode0);
      assert items[..] == a && Geo() == g;
      HeldOutcome(nodes, a, g, index, elem, minNode, c);
      match c
      case GoLeft(m, leaf) =>
        ReleaseLocksNoInc(minNode, m);
        r, restart := RemoveRetry, Some(leaf);
      case Past(m) =>
        RootHeld(g, minNode, m);
        r := NeedHalving;
      case Reached(m, _, _) =>
        HeldByClimb(a, g, index, minNode, c);
        r := Held(minNode, m);
    }

    /**
     `acquire_remove_locks`: predicts the removal exactly. If the array is going
     to be halved, all leaves are held; otherwise those of the window that is
     going to be redistributed. Every attempt starts further left.
     */
    method AcquireRemoveLocks(index: nat, elem: Edge, insV: int, leftBound: Option<nat>) returns (r: RemoveLocks)
      requires Shaped() && Layout(nodes, items[..]) && elem.src < |nodes| && 0 < index < N && !IsNull(items[0])
      requires held == {} && (leftBound.Some? ==> leftBound.value <= LeafOf(index, logN))
      modifies this`held
      ensures LeafOf(index, logN) < |versions| && held == RemoveHeld(r, |versions|)
      ensures RemoveOutcome(r, nodes, items[..], Geo(), index, elem, insV == versions[LeafOf(index, logN)])
      ensures r.Held? ==> HeldFrom(r.minNode, r.maxNode, items[..], Geo(), index, leftBound)
      decreases if leftBound.Some? then leftBound.value else |versions|
    {
      LeafNumber(Geo(), index);
      var nodeId := NodeId(FindNode(index, logN), logN);
      var minNode := if leftBound.Some? then leftBound.value else nodeId;
      ghost var a := items[..];
      LockFrom(minNode, nodeId);
      var ok, maxNode := GotCorrectInsertionIndex(elem.src, elem.dest, index, minNode, nodeId);
      assert items[..] == a;
      if !ok || versions[nodeId] != insV {
        ReleaseLocksNoInc(minNode, maxNode);
        return RemoveRetry;
      }
      if IsNull(items[index]) || IsSentinel(elem) || items[index].dest != elem.dest {
        ReleaseLocksNoInc(minNode, maxNode);
        return EdgeNotFound;
      }
      var restart;
      r, restart := SecureRemoveLocks(index, elem, minNode, maxNode);
      assert items[..] == a;
      if restart.Some? {
        r := AcquireRemoveLocks(index, elem, insV, restart);
        if r.Held? {
          HeldAfterRestart(nodes, a, Geo(), index, elem, r.minNode, r.maxNode, minNode, restart.value);
        }
      } else if r.Held? && leftBound.None? {
        HeldFromLeaf(nodes, a, Geo(), index, elem, r.minNode, r.maxNode);
      }
    }

    // -------------------------------------------------------------- the graph

    /** Everything between calls, except that the last slot is free. */
    ghost predicate Sound()
      reads this, items
    {
      && Framed() && WellFormed(Live(items[..]), |nodes|) && AllPoint(nodes, items[..])
      && Clean(items[..]) && (|nodes| > 0 ==> Tidy(items[..]))
    }

    ghost predicate Valid()
      reads this, items
    {
      Sound() && TailFree(items[..])
    }

    /** What a call depends on; the vertex table follows from it. */
    ghost function Snapshot(): Image
      reads this, items
    {
      Image(|nodes|, items[..], Geo())
    }

    /** An `add_edge` strands an item in the last slot. */
    ghost predicate Stranding(src: u32, dest: u32, value: u32, retries: nat)
      reads this, items
    {
      AddStrands(Snapshot(), lockSearch, src, dest, value, retries)
    }

    /** A `remove_edge` does not halve the array below 8 slots. */
    ghost predicate Removable(src: u32, dest: u32)
      reads this, items
    {
      RemovalAllowed(Snapshot(), src, dest)
    }

    /** The graph the array represents. */
    ghost function Content(): Graph
      reads this, items
    {
      GraphOf(Live(items[..]))
    }

    // -------------------------------------------------------------- construction

    /** The constructor's first loop: the vertex table. */
    method PlaceNodes(n: nat)
      requires n < N && n <= MAX
      modifies this`nodes
      ensures nodes == NewNodes(n, N)
    {
      nodes := seq(n, _ => Node(0, 0));
      var d := 0;
      for i := 0 to n
        invariant |nodes| == n && d == Times(i, N)
        invariant forall k {:trigger nodes[k]} :: 0 <= k < i ==> nodes[k] == Node(Offsets(n, N)[k], Offsets(n, N)[k + 1])
      {
        var beginning := 0;
        if i > 0 {
          beginning := nodes[i - 1].end;
        } else {
          OffsetsPlacing(n, N);
        }
        d := d + N;
        var end := Truncate(d, n, N, i + 1);
        nodes := nodes[i := Node(beginning, end)];
      }
      if n != 0 {
        nodes := nodes[n - 1 := nodes[n - 1].(end := N - 1)];
      }
      NewNodesAre(nodes, n, N);
    }

    /** The body of its second loop: a sentinel or an empty slot. */
    method PlaceSlot(i: nat, n: nat, at: nat, current: nat, ghost l: seq<Edge>) returns (placed: bool)
      requires n <= MAX && i < N == items.Length && l == Sentinels(n) && Built(items[..i], l, current, N)
      requires (n > 0 ==> at == Offsets(n, N)[current]) && (n == 0 || current == 0 ==> at == 0)
      modifies items
      ensures placed ==> current < n && Built(items[..i + 1], l, current + 1, N)
      ensures !placed ==> Built(items[..i + 1], l, current, N)
    {
      ghost var built := items[..i];
      BuiltStep(built, l, current, N);
      placed := i == at && current < n;
      if placed {
        OnlyFirstAtZero(current, n, N);
        items[i] := Edge(current, MAX, if i == 0 then MAX else current);
        assert items[..i + 1] == built + [l[current]];
      } else {
        items[i] := EMPTY;
        assert items[..i + 1] == built + [EMPTY];
      }
    }

    /** The second loop: the sentinels, evenly distributed. */
    method PlaceSentinels(n: nat)
      requires n <= MAX && n < N == items.Length
      modifies items
      ensures items[..] == Spread(Sentinels(n), N)
    {
      var d, at, current := 0, 0, 0;
      ghost var l := Sentinels(n);
      BuiltStart(l, N);
      for i := 0 to N
        invariant current <= n && d == Times(current, N)
        invariant n > 0 ==> at == Offsets(n, N)[current]
        invariant n == 0 || current == 0 ==> at == 0
        invariant Built(items[..i], l, current, N)
      {
        var placed := PlaceSlot(i, n, at, current, l);
        if placed {
          current := current + 1;
          d := d + N;
          at := Truncate(d, n, N, current);
        }
      }
      BuiltEnd(items[..], l, current, N);
    }

    /** What the constructor computes once the array is allocated. */
    method Initialise(size: nat, srcN: nat)
      requires size > 0 && size / LeafSize(size) > 0 && GeometryOk(Resize(size))
      requires srcN <= MAX && srcN < size == items.Length
      modifies this, items
      ensures Valid() && items == old(items) && held == old(held)
      ensures |nodes| == srcN && Content() == map[] && N == size && items[..] == Spread(Sentinels(srcN), N)
      ensures forall leaf :: 0 <= leaf < |versions| ==> versions[leaf] == 0
    {
      GeometryPowers(Resize(size));
      ResizeEdgeArray(size);
      ghost var g := Geo();
      GeometryTree(g);
      GeometryFacts(g);
      versions := seq(N / logN, _ => 0);
      PlaceNodes(srcN);
      PlaceSentinels(srcN);
      assert Geo() == g;
      NewGraph(srcN, N);
    }

    /** A graph of `srcN` vertices without edges. */
    constructor (initN: nat, srcN: nat, lockSearch: bool)
      requires srcN <= MAX
      ensures Valid() && fresh(items) && held == {}
      ensures var least := if initN + srcN > 1024 then initN + srcN else 1024; least < N <= 2 * least
      ensures |nodes| == srcN <= N && Content() == map[] && items[..] == Spread(Sentinels(srcN), N)
      ensures N == FirstSize(initN + srcN) && Snapshot() == NewImage(initN, srcN)
      ensures this.lockSearch == lockSearch && forall leaf :: 0 <= leaf < |versions| ==> versions[leaf] == 0
    {
      this.lockSearch := lockSearch;
      var size := FirstSize(initN + srcN);
      items := new Edge[size];
      held := {};
      new;
      NewSize(initN + srcN);
      Initialise(size, srcN);
      GeometryUnique(Geo());
    }

    // -------------------------------------------------------------- vertices

    /** The vertex table grows by a range that begins where the last one ends. */
    method AppendVertex(ghost n: nat) returns (beginning: nat)
      requires Valid() && |nodes| == n < MAX
      modifies this`nodes
      ensures beginning == NewIndex(items[..], n)
      ensures |nodes| == n + 1 && AllPoint(nodes, items[..]) && Orderly(items[..], n + 1)
    {
      ghost var a := items[..];
      ItemsLaidOut(a, n);
      beginning := 0;
      if |nodes| > 0 {
        beginning := nodes[|nodes| - 1].end;
        NodeRange(nodes, a, n - 1);
      }
      AppendedPoints(nodes, a, Node(beginning, beginning + 1));
      OrderlyMore(a, n);
      nodes := nodes + [Node(beginning, beginning + 1)];
      assert items[..] == a && beginning == NewIndex(a, n);
    }

    /** The same, with what inserting the sentinel needs. */
    method PrepareVertex(ghost n: nat) returns (beginning: nat)
      requires Valid() && |nodes| == n < MAX
      modifies this`nodes
      ensures items[..] != [] && beginning == NewIndex(items[..], n)
      ensures |nodes| == n + 1 && AllPoint(nodes, items[..]) && Orderly(items[..], n + 1)
      ensures beginning < N && FirstEmpty(items[..], beginning) < N && (beginning > 0 ==> !IsNull(items[0]))
      ensures WellFormed(Live(SlideInsert(items[..], beginning, SentinelOf(n))), n + 1)
    {
      ghost var a := items[..];
      NewVertexArray(a, Geo(), n, NewIndex(a, n));
      beginning := AppendVertex(n);
      assert items[..] == a;
    }

    /** The sentinel of the last vertex in the table goes into its slot. */
    method InsertSentinel(index: nat, ghost n: nat, junk: Edge)
      requires Framed() && |nodes| == n + 1 <= MAX && index < N && FirstEmpty(items[..], index) < N
      requires AllPoint(nodes, items[..]) && Orderly(items[..], |nodes|) && (index > 0 ==> !IsNull(items[0]))
      requires WellFormed(Live(SlideInsert(items[..], index, SentinelOf(n))), n + 1)
      modifies this, items
      ensures items == old(items) || fresh(items)
      ensures Framed() && |nodes| == old(|nodes|)
      ensures AllPoint(nodes, items[..]) && held == old(held)
      ensures items[..] == Inserted(old(items[..]), old(Geo()), index, SentinelOf(n), None)
      ensures Grown(old(versions), versions)
    {
      var sentinel := Edge(|nodes| - 1, MAX, if |nodes| > 1 then |nodes| - 1 else MAX);
      assert sentinel == SentinelOf(n) && !Overwrites(items[..], index, sentinel);
      ghost var a, g := items[..], Geo();
      Insert(index, sentinel, None, junk);
      assert items[..] == Inserted(a, g, index, sentinel, None);
    }

    /** The body of `add_node`. */
    method AddVertex(junk: Edge)
      requires Valid() && |nodes| < MAX
      modifies this, items
      ensures items == old(items) || fresh(items)
      ensures Framed() && AllPoint(nodes, items[..]) && held == old(held)
      ensures |nodes| == old(|nodes|) + 1
      ensures items[..] == WithVertex(old(items[..]), old(Geo()), old(|nodes|))
      ensures Grown(old(versions), versions)
    {
      ghost var s := Snapshot();
      var beginning := PrepareVertex(s.n);
      assert items[..] == s.a && Geo() == s.g;
      InsertSentinel(beginning, s.n, junk);
      WithVertexIs(s.a, s.g, s.n, items[..]);
    }

    /** `add_node`: one vertex more, no change to the graph; the last slot stays free. */
    method AddNode(junk: Edge)
      requires Valid() && |nodes| < MAX
      modifies this, items
      ensures items == old(items) || fresh(items)
      ensures Valid() && |nodes| == old(|nodes|) + 1 && Content() == old(Content()) && held == old(held)
      ensures Snapshot() == NodeAdded(old(Snapshot())) && Grown(old(versions), versions)
    {
      AddVertex(junk);
      GeometryUnique(Geo());
    }

    // -------------------------------------------------------------- reading

    /** The loop of `get_neighbourhood`: the destinations of the items in a range. */
    method Collect(from: nat, end: nat) returns (neighbours: seq<u32>)
      requires from <= items.Length && end <= items.Length
      ensures neighbours == Destinations(items[..], from, if from <= end then end else from)
    {
      neighbours := [];
      var i := from;
      while i < end
        invariant from <= i && (i <= end || i == from)
        invariant neighbours == Destinations(items[..], from, i)
      {
        if !IsNull(items[i]) {
          neighbours := neighbours + [items[i].dest];
        }
        i := i + 1;
      }
    }

    /** `get_neighbourhood`: exactly the neighbours, except for an edge in the last slot. */
    method GetNeighbourhood(src: nat) returns (neighbours: seq<u32>)
      requires Sound()
      ensures src >= |nodes| ==> neighbours == []
      ensures src < |nodes| ==> IsNeighbourhood(neighbours, src, GraphOf(Live(items[..N - 1])))
    {
      neighbours := [];
      if src < |nodes| {
        ghost var a := items[..];
        ItemsLaidOut(a, |nodes|);
        NodeRange(nodes, a, src);
        var from, end := nodes[src].beginning + 1, nodes[src].end;
        RangeIsNeighbourhood(nodes, a, src, if from <= end then end else from);
        neighbours := Collect(from, end);
        assert a[..|a| - 1] == items[..N - 1];
      }
    }

    /** The search of a read: the slot it looks at, also when the last slot is occupied. */
    method Locate(src: nat, dest: u32) returns (loc: nat)
      requires Sound() && src < |nodes|
      ensures src < MAX && nodes[src].end < N && loc == FoundSlot(nodes, items[..], src, dest) < N
      ensures Shows(items[..], loc, dest) <==> (src, dest) in Content() && !Hidden(nodes, items[..], src, dest)
      ensures Shows(items[..], loc, dest) ==> Content()[(src, dest)] == items[loc].value
    {
      ghost var a := items[..];
      ItemsLaidOut(a, |nodes|);
      GeometryFacts(Geo());
      ReadSees(nodes, a, src, dest);
      var version;
      loc, version := BinarySearch(dest, nodes[src].beginning + 1, nodes[src].end);
      assert items[..] == a;
    }

    /** `edge_exists`: membership in the graph, except for a hidden edge. */
    method EdgeExists(src: nat, dest: u32) returns (r: bool)
      requires Sound() && src < |nodes| && dest != MAX
      ensures src < MAX && (r <==> (src, dest) in Content() && !Hidden(nodes, items[..], src, dest))
    {
      var loc := Locate(src, dest);
      var e := items[loc];
      r := !IsNull(e) && !IsSentinel(e) && e.dest == dest;
    }

    /** `find_value`: the edge's value, or 0 if there is none or it is hidden. */
    method FindValue(src: nat, dest: u32) returns (value: u32)
      requires Sound() && src < |nodes| && dest != MAX
      ensures src < MAX
      ensures value ==
        if (src, dest) in Content() && !Hidden(nodes, items[..], src, dest) then Content()[(src, dest)] else 0
    {
      var loc := Locate(src, dest);
      ghost var a := items[..];
      if !IsNull(items[loc]) && items[loc].dest == dest {
        SlotWellFormed(a, |nodes|, loc);
        value := items[loc].value;
      } else {
        value := 0;
      }
    }

    // -------------------------------------------------------------- edges

    /** `insert` of an edge at its place: a put. */
    method PutAt(index: nat, elem: Edge, info: Option<Info>, junk: Edge)
      requires Valid() && PlaceIn(nodes, items[..], elem.src, elem.dest, index) && index < N
      requires !IsSentinel(elem) && !IsNull(elem) && InfoFits(items[..], Geo(), index, info)
      modifies this, items
      ensures items == old(items) || fresh(items)
      ensures Sound() && |nodes| == old(|nodes|) && held == old(held)
      ensures Content() == old(Content())[(elem.src, elem.dest) := elem.value]
      ensures TailFree(items[..]) <==> !old(Strands(items[..], Geo(), index, elem, info))
      ensures old(FirstEmpty(items[..], index)) < old(N) && InfoShape(old(Geo()), info)
      ensures items[..] == Put(old(items[..]), old(Geo()), index, elem, info)
      ensures info.Some? && !info.value.doubleList ==>
        items == old(items) && versions == old(versions) && Geo() == old(Geo())
      ensures Grown(old(versions), versions)
    {
      ghost var a, g := items[..], Geo();
      ItemsLaidOut(a, |nodes|);
      PutIsPut(nodes, a, g, index, elem, info);
      Insert(index, elem, info, junk);
      assert items[..] == Put(a, g, index, elem, info);
    }

    /** `insert` under the leaf locks that were acquired for it: the array is not resized, and only held leaves change. */
    method InsertInside(index: nat, elem: Edge, info: Info, junk: Edge, ghost minNode: nat, ghost maxNode: nat)
      requires Valid() && PlaceIn(nodes, items[..], elem.src, elem.dest, index) && index < N
      requires !IsSentinel(elem) && !IsNull(elem)
      requires HoldsForInsert(items[..], Geo(), index, minNode, maxNode, info)
      modifies this, items
      ensures items == old(items) && versions == old(versions) && Geo() == old(Geo()) && held == old(held)
      ensures Sound() && |nodes| == old(|nodes|)
      ensures Content() == old(Content())[(elem.src, elem.dest) := elem.value]
      ensures old(FirstEmpty(items[..], index)) < old(N) && InfoShape(old(Geo()), Some(info))
      ensures items[..] == Put(old(items[..]), old(Geo()), index, elem, Some(info))
      ensures ChangesWithin(old(items[..]), items[..], logN, minNode, maxNode)
    {
      FirstEmptyBefore(items[..], index, N - 1);
      HeldInfoFits(items[..], Geo(), index, minNode, maxNode, info);
      PutInside(items[..], Geo(), index, elem, minNode, maxNode, info);
      PutAt(index, elem, Some(info), junk);
    }

    /** The same, and the release of the locks. */
    method InsertLocked(index: nat, elem: Edge, info: Info, junk: Edge, minNode: nat, maxNode: nat)
      requires Valid() && PlaceIn(nodes, items[..], elem.src, elem.dest, index) && index < N
      requires !IsSentinel(elem) && !IsNull(elem) && held == Leaves(minNode, maxNode + 1)
      requires HoldsForInsert(items[..], Geo(), index, minNode, maxNode, info)
      modifies this, items
      ensures items == old(items) && held == {} && Bumped(old(versions), versions, minNode, maxNode)
      ensures Renewed(old(items[..]), items[..], old(logN), old(versions), versions)
      ensures Sound() && |nodes| == old(|nodes|)
      ensures old(FirstEmpty(items[..], index)) < old(N) && InfoShape(old(Geo()), Some(info))
      ensures items[..] == Put(old(items[..]), old(Geo()), index, elem, Some(info))
    {
      ghost var a := items[..];
      InsertInside(index, elem, info, junk, minNode, maxNode);
      ghost var b := items[..];
      ReleaseLocks(minNode, maxNode);
      assert items[..] == b;
      BumpedRenews(a, b, logN, old(versions), versions, minNode, maxNode);
    }

    /** The search for an edge: its place, and the version of the leaf the place is in. */
    method FindPlace(src: u32, dest: u32) returns (index: nat, version: int)
      requires Valid() && src < |nodes|
      ensures PlaceIn(nodes, items[..], src, dest, index) && 0 < index < N
      ensures index == PlaceOfEdge(Snapshot(), src, dest)
      ensures LeafOf(index, logN) < |versions| && version == versions[LeafOf(index, logN)]
    {
      ghost var a := items[..];
      ItemsLaidOut(a, |nodes|);
      RangeSorted(nodes, a, src);
      TableIs(nodes, Snapshot());
      index, version := BinarySearch(dest, nodes[src].beginning + 1, nodes[src].end);
      assert items[..] == a;
    }

    /** The branch of `add_edge_parallel` under the global lock: the place is searched again. */
    method AddGlobally(src: u32, dest: u32, value: u32, retries: nat, info: Option<Info>, junk: Edge)
      requires Valid() && src < |nodes| && dest != MAX && value != MAX && value != 0
      requires info == InsertInfo(items[..], Geo(), PlaceOfEdge(Snapshot(), src, dest), lockSearch, retries)
      requires info.None? || info.value.doubleList
      modifies this, items
      ensures items == old(items) || fresh(items)
      ensures Sound() && |nodes| == old(|nodes|) && held == old(held)
      ensures items[..] == AddedArray(old(Snapshot()), lockSearch, src, dest, value, retries)
      ensures VersionsAdded(old(Snapshot()), lockSearch, src, dest, value, retries, items[..], old(versions), versions)
    {
      ghost var s := Snapshot();
      AddedIsPut(s, lockSearch, src, dest, value, retries, info);
      var place, _ := FindPlace(src, dest);
      assert Snapshot() == s;
      PutAt(place, Edge(src, dest, value), info, junk);
    }

    /** The branch under the leaf locks. */
    method AddLocally(index: nat, src: u32, dest: u32, value: u32, retries: nat, info: Info, minNode: nat, maxNode: nat,
                      junk: Edge)
      requires Valid() && src < |nodes| && dest != MAX && value != MAX && value != 0
      requires index == PlaceOfEdge(Snapshot(), src, dest) && held == Leaves(minNode, maxNode + 1)
      requires HoldsForInsert(items[..], Geo(), index, minNode, maxNode, info)
      requires Some(info) == InsertInfo(items[..], Geo(), index, lockSearch, retries)
      modifies this, items
      ensures items == old(items) || fresh(items)
      ensures Sound() && |nodes| == old(|nodes|) && held == {}
      ensures items[..] == AddedArray(old(Snapshot()), lockSearch, src, dest, value, retries)
      ensures VersionsAdded(old(Snapshot()), lockSearch, src, dest, value, retries, items[..], old(versions), versions)
    {
      ghost var s := Snapshot();
      ItemsLaidOut(items[..], |nodes|);
      TableIs(nodes, s);
      AddedIsPut(s, lockSearch, src, dest, value, retries, Some(info));
      InsertLocked(index, Edge(src, dest, value), info, junk, minNode, maxNode);
    }

    /**
     The part of `add_edge_parallel` behind the search: take the leaf locks, or else
     the global one, and insert; or, if the leaf has a newer version, ask for a retry.
     */
    method AddFound(index: nat, src: u32, dest: u32, value: u32, retries: nat, version: int, junk: Edge)
      returns (again: bool)
      requires Valid() && held == {} && src < |nodes| && dest != MAX && value != MAX && value != 0 && retries <= 3
      requires index == PlaceOfEdge(Snapshot(), src, dest)
      modifies this, items
      ensures LeafOf(index, old(logN)) < old(|versions|)
      ensures again <==> version != old(versions)[LeafOf(index, old(logN))]
      ensures items == old(items) || fresh(items)
      ensures Sound() && |nodes| == old(|nodes|) && held == {}
      ensures again ==> Valid() && Snapshot() == old(Snapshot()) && versions == old(versions)
      ensures !again ==> items[..] == AddedArray(old(Snapshot()), lockSearch, src, dest, value, retries)
      ensures !again ==>
        VersionsAdded(old(Snapshot()), lockSearch, src, dest, value, retries, items[..], old(versions), versions)
    {
      ghost var s := Snapshot();
      ItemsLaidOut(items[..], |nodes|);
      TableIs(nodes, s);
      var acquired, _ := AcquireInsertLocks(index, Edge(src, dest, value), version, None, 0);
      assert Snapshot() == s;
      again := acquired.NeedRetry?;
      match acquired
      case NeedRetry =>
      case NeedGlobalWrite(hint) =>
        AddGlobally(src, dest, value, retries, hint, junk);
      case Acquired(minNode, maxNode, info) =>
        AddLocally(index, src, dest, value, retries, info, minNode, maxNode, junk);
    }

    /** One attempt of `add_edge_parallel`; `stale` if another thread has changed the leaf before it is locked. */
    method AddAttempt(src: u32, dest: u32, value: u32, retries: nat, stale: bool, junk: Edge) returns (again: bool)
      requires Valid() && held == {} && src < |nodes| && dest != MAX && value != MAX && value != 0
      modifies this, items
      ensures items == old(items) || fresh(items)
      ensures Sound() && |nodes| == old(|nodes|) && held == {}
      ensures again <==> retries <= 3 && stale
      ensures again ==> Valid() && Snapshot() == old(Snapshot()) && versions == old(versions)
      ensures !again ==> items[..] == AddedArray(old(Snapshot()), lockSearch, src, dest, value, retries)
      ensures !again ==>
        VersionsAdded(old(Snapshot()), lockSearch, src, dest, value, retries, items[..], old(versions), versions)
    {
      ghost var s := Snapshot();
      if retries > 3 {
        AddGlobally(src, dest, value, retries, None, junk);
        return false;
      }
      var place, version := FindPlace(src, dest);
      assert Snapshot() == s;
      again := AddFound(place, src, dest, value, retries, if stale then version - 1 else version, junk);
    }

    /** Attempt after attempt, until one is not disturbed; after at most four retries the global lock is taken. */
    method AddRetried(src: u32, dest: u32, value: u32, retries: nat, busy: seq<bool>, junk: Edge,
                      ghost s: Image, ghost last: nat)
      requires Valid() && held == {} && src < |nodes| && dest != MAX && value != MAX && value != 0
      requires s == Snapshot() && last == LastAttempt(busy, retries)
      modifies this, items
      ensures items == old(items) || fresh(items)
      ensures Sound() && |nodes| == old(|nodes|) && held == {}
      ensures Usable(s) && src < s.n && items[..] == AddedArray(s, lockSearch, src, dest, value, last)
      ensures VersionsAdded(s, lockSearch, src, dest, value, last, items[..], old(versions), versions)
      decreases 4 - retries
    {
      var stale := retries < |busy| && busy[retries];
      var again := AddAttempt(src, dest, value, retries, stale, junk);
      if again {
        AddRetried(src, dest, value, retries + 1, busy, junk, s, last);
      }
    }

    /**
     `add_edge_parallel`: a put. The last slot stays free unless the insertion
     strands an item there, which the state before the call decides. `busy` says
     whether another thread has changed the leaf by the time attempt k locks it.
     */
    method AddEdge(src: u32, dest: u32, value: u32, retries: nat, busy: seq<bool>, junk: Edge)
      requires Valid() && held == {} && dest != MAX && value != MAX
      modifies this, items
      ensures items == old(items) || fresh(items)
      ensures Sound() && |nodes| == old(|nodes|) && held == {}
      ensures Content() == if value == 0 || src >= |nodes| then old(Content()) else old(Content())[(src, dest) := value]
      ensures Snapshot() == Added(old(Snapshot()), lockSearch, src, dest, value, LastAttempt(busy, retries))
      ensures VersionsAdded(old(Snapshot()), lockSearch, src, dest, value, LastAttempt(busy, retries),
                            items[..], old(versions), versions)
      ensures Valid() <==> !old(Stranding(src, dest, value, LastAttempt(busy, retries)))
      ensures NothingHidden(items[..])
      ensures forall s: nat, d: u32 {:trigger Hidden(nodes, items[..], s, d)} :: !Hidden(nodes, items[..], s, d)
    {
      AddedShows(Snapshot(), lockSearch, src, dest, value, LastAttempt(busy, retries));
      if value != 0 && src < |nodes| {
        AddRetried(src, dest, value, retries, busy, junk, Snapshot(), LastAttempt(busy, retries));
      }
      GeometryUnique(Geo());
      forall s: nat, d: u32
        ensures !Hidden(nodes, items[..], s, d)
      {
        NoneIsHidden(nodes, items[..], s, d);
      }
    }

    /** `remove` at the place of an edge: a delete. */
    method RemoveAt(index: nat, elem: Edge, junk: Edge)
      requires Valid() && PlaceIn(nodes, items[..], elem.src, elem.dest, index) && 0 < index < N
      requires !IsSentinel(elem) && (Overwrites(items[..], index, elem) ==> KeepsTree(items[..], Geo(), index))
      modifies this, items
      ensures items == old(items) || fresh(items)
      ensures Valid() && |nodes| == old(|nodes|) && held == old(held)
      ensures !old(Overwrites(items[..], index, elem)) ==>
        items == old(items) && items[..] == old(items[..]) && versions == old(versions) && Geo() == old(Geo())
      ensures old(Overwrites(items[..], index, elem)) ==>
        && RemovalFits(old(items[..]), old(Geo()), index)
        && items[..] == Removed(old(items[..]), old(Geo()), index)
        && (var t := RemoveTarget(old(items[..]), old(Geo()), index);
            && N == (if t.PastRoot? then old(N) / 2 else old(N))
            && (t.Stop? ==> items == old(items) && versions == old(versions) && Geo() == old(Geo())))
      ensures Shortened(old(versions), versions)
    {
      ghost var a, g := items[..], Geo();
      ItemsLaidOut(a, |nodes|);
      Remove(index, elem, junk);
      if Overwrites(a, index, elem) {
        RemovedIsDelete(old(nodes), a, g, index, elem);
      } else {
        assert items[..] == a;
        NothingToDelete(old(nodes), a, index, elem);
      }
    }

    /** `remove` under the leaf locks that were acquired for it: no halving, and only held leaves change. */
    method RemoveInside(index: nat, elem: Edge, junk: Edge, ghost minNode: nat, ghost maxNode: nat)
      requires Valid() && 0 < index < N && !IsSentinel(elem)
      requires RemoveOutcome(Held(minNode, maxNode), nodes, items[..], Geo(), index, elem, true)
      modifies this, items
      ensures items == old(items) && versions == old(versions) && Geo() == old(Geo()) && held == old(held)
      ensures Valid() && |nodes| == old(|nodes|)
      ensures RemovalFits(old(items[..]), old(Geo()), index)
      ensures items[..] == Removed(old(items[..]), old(Geo()), index)
      ensures ChangesWithin(old(items[..]), items[..], logN, minNode, maxNode)
    {
      RemovedInside(nodes, items[..], Geo(), index, elem, minNode, maxNode);
      RemoveAt(index, elem, junk);
    }

    /** The same, and the release of the locks. */
    method RemoveLocked(index: nat, elem: Edge, junk: Edge, minNode: nat, maxNode: nat)
      requires Valid() && 0 < index < N && !IsSentinel(elem)
      requires held == Leaves(minNode, maxNode + 1)
      requires RemoveOutcome(Held(minNode, maxNode), nodes, items[..], Geo(), index, elem, true)
      modifies this, items
      ensures items == old(items) && held == {} && Bumped(old(versions), versions, minNode, maxNode)
      ensures Renewed(old(items[..]), items[..], old(logN), old(versions), versions)
      ensures Valid() && |nodes| == old(|nodes|)
      ensures RemovalFits(old(items[..]), old(Geo()), index)
      ensures items[..] == Removed(old(items[..]), old(Geo()), index)
    {
      ghost var a := items[..];
      RemoveInside(index, elem, junk, minNode, maxNode);
      ghost var s := Snapshot();
      ReleaseLocks(minNode, maxNode);
      assert Snapshot() == s;
      BumpedRenews(a, s.a, logN, old(versions), versions, minNode, maxNode);
    }

    /** The branch of `remove_edge` that halves the array: under the global lock, after searching again. */
    method RemoveGlobally(src: u32, dest: u32, junk: Edge)
      requires Valid() && src < |nodes| && dest != MAX && RemovalAllowed(Snapshot(), src, dest)
      requires held == Leaves(0, |versions|) && (src, dest) in Content()
      requires RemoveTarget(items[..], Geo(), PlaceOfEdge(Snapshot(), src, dest)).PastRoot?
      modifies this, items
      ensures items == old(items) || fresh(items)
      ensures Valid() && |nodes| == old(|nodes|) && held == {}
      ensures items[..] == CutArray(old(Snapshot()), src, dest)
      ensures VersionsCut(old(Snapshot()), src, dest, items[..], old(versions), versions)
    {
      ghost var s := Snapshot();
      ReleaseLocksNoInc(0, |versions| - 1);
      assert Snapshot() == s;
      var index, _ := FindPlace(src, dest);
      assert Snapshot() == s;
      CutIsRemoved(s, src, dest, index);
      ItemsLaidOut(s.a, s.n);
      PlaceDecides(nodes, s.a, Edge(src, dest, 1), index);
      RemoveAt(index, Edge(src, dest, 1), junk);
    }

    /** The part of `remove_edge` behind the search: take the leaf locks, or else the global one, and remove. */
    method RemoveSearched(index: nat, src: u32, dest: u32, version: int, junk: Edge)
      requires Valid() && held == {} && src < |nodes| && dest != MAX && RemovalAllowed(Snapshot(), src, dest)
      requires index == PlaceOfEdge(Snapshot(), src, dest)
      requires LeafOf(index, logN) < |versions| && version == versions[LeafOf(index, logN)]
      modifies this, items
      ensures items == old(items) || fresh(items)
      ensures Valid() && |nodes| == old(|nodes|) && held == {}
      ensures items[..] == CutArray(old(Snapshot()), src, dest)
      ensures VersionsCut(old(Snapshot()), src, dest, items[..], old(versions), versions)
    {
      ghost var s := Snapshot();
      ItemsLaidOut(items[..], |nodes|);
      TableIs(nodes, s);
      var elem := Edge(src, dest, 1);
      PlaceDecides(nodes, s.a, elem, index);
      var acquired := AcquireRemoveLocks(index, elem, version, None);
      assert Snapshot() == s;
      match acquired
      case RemoveRetry =>
        // nothing has changed since the search
        assert false;
      case EdgeNotFound =>
        CutIsRemoved(s, src, dest, index);
      case NeedHalving =>
        RemoveGlobally(src, dest, junk);
      case Held(minNode, maxNode) =>
        RemoveLocked(index, elem, junk, minNode, maxNode);
        CutIsRemoved(s, src, dest, index);
    }

    /** `remove_edge`: a delete. */
    method RemoveEdge(src: u32, dest: u32, junk: Edge)
      requires Valid() && held == {} && src < |nodes| && dest != MAX && Removable(src, dest)
      modifies this, items
      ensures items == old(items) || fresh(items)
      ensures Valid() && |nodes| == old(|nodes|) && held == {}
      ensures Content() == old(Content()) - {(src, dest)}
      ensures Snapshot() == Cut(old(Snapshot()), src, dest)
      ensures VersionsCut(old(Snapshot()), src, dest, items[..], old(versions), versions)
    {
      ghost var s := Snapshot();
      var index, version := FindPlace(src, dest);
      assert Snapshot() == s;
      RemoveSearched(index, src, dest, version, junk);
      GeometryUnique(Geo());
    }
  }
}
