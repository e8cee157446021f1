/**
 A new graph: the sentinels of its vertices, spread evenly, and the vertex table
 that goes with them.
 */
module Building {
  import opened Wrappers
  import opened Geometries
  import opened Windows
  import opened Slots
  import opened Spreading
  import opened Insertion
  import opened Pointers
  import opened Updates

  function Sentinels(n: nat): (l: seq<Edge>)
    requires n <= MAX
    ensures |l| == n
    ensures forall i :: 0 <= i < n ==> l[i] == SentinelOf(i)
  {
    if n == 0 then [] else Sentinels(n - 1) + [SentinelOf(n - 1)]
  }

  /** A graph without edges. */
  lemma {:induction false} SentinelsOnly(n: nat)
    requires n <= MAX
    ensures WellFormed(Sentinels(n), n)
  {
    if n > 0 {
      SentinelsOnly(n - 1);
      WellFormedAppend(Sentinels(n - 1), n - 1);
    }
  }

  lemma {:induction false} SentinelsGraph(n: nat)
    requires n <= MAX
    ensures GraphOf(Sentinels(n)) == map[]
  {
    if n > 0 {
      SentinelsGraph(n - 1);
      SentinelAppended(Sentinels(n - 1), SentinelOf(n - 1));
    }
  }

  lemma SentinelAppended(l: seq<Edge>, e: Edge)
    requires IsSentinel(e)
    ensures GraphOf(l + [e]) == GraphOf(l)
  {
    GraphOfConcat(l, [e]);
    GraphOfSingle(e);
  }

  // ---------------------------------------------------------------- filling the array

  /** What the slots from `i` on have to hold when items `c..` are still to come. */
  ghost function Rest(l: seq<Edge>, c: nat, i: nat, len: nat): (s: seq<Edge>)
    requires |l| <= len && c <= |l|
    requires if l == [] then i <= len else i <= Offsets(|l|, len)[c]
  {
    if l == [] then Empties(len - i)
    else
      OffsetsPlacing(|l|, len);
      Empties(Offsets(|l|, len)[c] - i) + SpreadFrom(l, c, Offsets(|l|, len), len)
  }

  /** One slot more: the next item at its target, an empty slot elsewhere. */
  lemma RestStep(l: seq<Edge>, c: nat, i: nat, len: nat)
    requires 0 < |l| <= len && c <= |l| && i < len && i <= Offsets(|l|, len)[c]
    ensures i == Offsets(|l|, len)[c] ==>
      c < |l| && i + 1 <= Offsets(|l|, len)[c + 1] && Rest(l, c, i, len) == [l[c]] + Rest(l, c + 1, i + 1, len)
    ensures i < Offsets(|l|, len)[c] ==> Rest(l, c, i, len) == [EMPTY] + Rest(l, c, i + 1, len)
  {
    var offs := Offsets(|l|, len);
    OffsetsPlacing(|l|, len);
    if i == offs[c] {
      assert offs[c] + 1 <= offs[c + 1];
    } else {
      assert Empties(offs[c] - i) == [EMPTY] + Empties(offs[c] - (i + 1));
    }
  }

  /** The slots built so far, of which `c` are occupied. */
  ghost predicate Built(s: seq<Edge>, l: seq<Edge>, c: nat, len: nat) {
    && |l| <= len && c <= |l| && |s| <= len
    && (l != [] ==> |s| <= Offsets(|l|, len)[c])
    && s + Rest(l, c, |s|, len) == Spread(l, len)
  }

  lemma BuiltStart(l: seq<Edge>, len: nat)
    requires |l| <= len
    ensures l != [] ==> Offsets(|l|, len)[0] == 0
    ensures Built([], l, 0, len)
  {
    if l != [] {
      OffsetsPlacing(|l|, len);
    }
    assert [] + Rest(l, 0, 0, len) == Spread(l, len);
  }

  lemma JoinOne(built: seq<Edge>, e: Edge, rest: seq<Edge>)
    ensures built + [e] + rest == built + ([e] + rest)
  {
  }

  /** Only the first item goes to slot 0. */
  lemma OnlyFirstAtZero(c: nat, j: nat, len: nat)
    requires 0 < j <= len && c <= j
    ensures Offsets(j, len)[c] == 0 <==> c == 0
  {
    OffsetsPlacing(j, len);
    assert Offsets(j, len)[0] + c <= Offsets(j, len)[c];
  }

  lemma BuiltStep(s: seq<Edge>, l: seq<Edge>, c: nat, len: nat)
    requires Built(s, l, c, len) && |s| < len
    ensures if l != [] && |s| == Offsets(|l|, len)[c]
            then c < |l| && Built(s + [l[c]], l, c + 1, len)
            else Built(s + [EMPTY], l, c, len)
  {
    if l == [] {
      assert Empties(len - |s|) == [EMPTY] + Empties(len - |s| - 1);
      JoinOne(s, EMPTY, Rest(l, c, |s| + 1, len));
    } else {
      RestStep(l, c, |s|, len);
      if |s| == Offsets(|l|, len)[c] {
        BuiltItem(s, l, c, len);
      } else {
        JoinOne(s, EMPTY, Rest(l, c, |s| + 1, len));
      }
    }
  }

  lemma BuiltItem(s: seq<Edge>, l: seq<Edge>, c: nat, len: nat)
    requires Built(s, l, c, len) && |s| < len && c < |l| && |s| + 1 <= Offsets(|l|, len)[c + 1]
    requires |s| <= Offsets(|l|, len)[c] && Rest(l, c, |s|, len) == [l[c]] + Rest(l, c + 1, |s| + 1, len)
    ensures Built(s + [l[c]], l, c + 1, len)
  {
    JoinOne(s, l[c], Rest(l, c + 1, |s| + 1, len));
  }

  lemma BuiltEnd(s: seq<Edge>, l: seq<Edge>, c: nat, len: nat)
    requires Built(s, l, c, len) && |s| == len
    ensures s == Spread(l, len)
  {
    var rest := Rest(l, c, len, len);
    assert |s + rest| == len + |rest|;
    assert s + rest == s;
  }

  // ---------------------------------------------------------------- the table

  /** The vertex table of a new graph of `n` vertices on `len` slots. */
  function NewNodes(n: nat, len: nat): (nodes: seq<Node>)
    requires n < len
    ensures |nodes| == n
  {
    seq(n, k requires 0 <= k < n => Node(Offsets(n, len)[k], if k == n - 1 then len - 1 else Offsets(n, len)[k + 1]))
  }

  lemma NewNodesAre(nodes: seq<Node>, n: nat, len: nat)
    requires |nodes| == n < len
    requires forall k :: 0 <= k < n - 1 ==> nodes[k] == Node(Offsets(n, len)[k], Offsets(n, len)[k + 1])
    requires n > 0 ==> nodes[n - 1].beginning == Offsets(n, len)[n - 1] && nodes[n - 1].end == len - 1
    ensures nodes == NewNodes(n, len)
  {
  }

  /** An occupied slot of the new array is the target of its vertex. */
  lemma SentinelSlotOf(n: nat, len: nat, p: nat)
    requires 0 < n <= MAX && n <= len && p < len
    ensures var s := Spread(Sentinels(n), len);
      !IsNull(s[p]) ==> exists k :: 0 <= k < n && p == Offsets(n, len)[k] && s[p] == SentinelOf(k)
  {
    var l, s := Sentinels(n), Spread(Sentinels(n), len);
    SentinelsOnly(n);
    SpreadLive(l, len);
    if !IsNull(s[p]) {
      LiveSplit(s, p);
      var k := ItemIndex(s, p);
      assert s[p] == l[k];
      OffsetsAt(k, n, len);
      SpreadAt(l, k, len);
      var q := Offsets(n, len)[k];
      if p < q {
        SlotOrdered(s, n, p, q);
      } else if q < p {
        SlotOrdered(s, n, q, p);
      }
    }
  }

  /** The table of a new graph points to its sentinels. */
  lemma NewNodesPoint(n: nat, len: nat)
    requires n <= MAX && n < len
    ensures AllPoint(NewNodes(n, len), Spread(Sentinels(n), len))
  {
    var nodes, s := NewNodes(n, len), Spread(Sentinels(n), len);
    forall p | 0 <= p < len
      ensures Points(nodes, s[p], p, len)
    {
      if n > 0 {
        SentinelSlotOf(n, len, p);
      }
    }
  }

  /** All that a new graph has to be: well-formed, without edges, tidy, with a free last slot. */
  lemma NewGraph(n: nat, len: nat)
    requires n <= MAX && n < len
    ensures var s := Spread(Sentinels(n), len);
      && WellFormed(Live(s), n) && GraphOf(Live(s)) == map[] && Clean(s) && TailFree(s)
      && (n > 0 ==> !IsNull(s[0]))
      && AllPoint(NewNodes(n, len), s)
  {
    SentinelsOnly(n);
    SentinelsGraph(n);
    SpreadLive(Sentinels(n), len);
    SpreadShape(Sentinels(n), len);
    NewNodesPoint(n, len);
  }

  // ---------------------------------------------------------------- one vertex more

  /** A new vertex starts where the last one ends; the old sentinels are still where the table says. */
  lemma AppendedPoints(nodes: seq<Node>, a: seq<Edge>, node: Node)
    requires AllPoint(nodes, a) && Orderly(a, |nodes|)
    ensures AllPoint(nodes + [node], a)
  {
    forall p | 0 <= p < |a|
      ensures Points(nodes + [node], a[p], p, |a|)
    {
      assert Points(nodes, a[p], p, |a|);
    }
  }

  /** All items are before a free last slot. */
  lemma FreeTail(a: seq<Edge>)
    requires TailFree(a)
    ensures Live(a[..|a| - 1]) == Live(a) && Live(a[|a| - 1..]) == []
  {
    LiveAt(a, |a| - 1);
    LiveOfEmpties(a[|a| - 1..]);
  }

  /** Its sentinel goes behind all items. */
  lemma AppendedItems(l: seq<Edge>, n: nat)
    requires WellFormed(l, n) && n < MAX
    ensures WellFormed(l + [SentinelOf(n)] + [], n + 1)
    ensures GraphOf(l + [SentinelOf(n)] + []) == GraphOf(l)
  {
    WellFormedAppend(l, n);
    SentinelAppended(l, SentinelOf(n));
    assert l + [SentinelOf(n)] + [] == l + [SentinelOf(n)];
  }

  /** The first vertex goes into an array without items. */
  lemma FirstItems(a: seq<Edge>)
    requires TailFree(a) && WellFormed(Live(a), 0)
    ensures Live(a) == [] && IsNull(a[0])
    ensures var l := Live(a[..0]) + [SentinelOf(0)] + Live(a[0..]);
      l == [SentinelOf(0)] && WellFormed(l, 1) && GraphOf(l) == GraphOf(Live(a))
  {
    assert Live(a) != [] ==> WellFormedItem(Live(a)[0], 0);
    if !IsNull(a[0]) {
      LiveSplit(a, 0);
    }
    assert a[0..] == a && a[..0] == [];
    WellFormedAppend([], 0);
    GraphOfSentinel([], SentinelOf(0), []);
    assert [] + [SentinelOf(0)] + [] == [SentinelOf(0)];
  }

  lemma OrderlyMore(a: seq<Edge>, n: nat)
    requires Orderly(a, n) && n < MAX
    ensures Orderly(a, n + 1)
  {
    forall i | 0 <= i < |a| && !IsNull(a[i])
      ensures WellFormedItem(a[i], n + 1)
    {
      assert WellFormedItem(a[i], n);
    }
  }

  /** The slot of a new vertex's sentinel is empty, and all items are before it. */
  lemma NewVertexSlot(a: seq<Edge>, n: nat, index: nat)
    requires TailFree(a) && WellFormed(Live(a), n) && n < MAX
    requires index == if n == 0 then 0 else |a| - 1
    ensures FirstEmpty(a, index) == index
    ensures var l := Live(a[..index]) + [SentinelOf(n)] + Live(a[index..]);
      WellFormed(l, n + 1) && GraphOf(l) == GraphOf(Live(a))
  {
    if n == 0 {
      FirstItems(a);
    } else {
      FreeTail(a);
      AppendedItems(Live(a), n);
    }
  }

  /** An insertion into the first or the last slot of an array never overruns it. */
  lemma NeverOverruns(a: seq<Edge>, g: Geometry, index: nat, sentinel: Edge)
    requires TreeShape(g) && |a| == g.N && index < g.N && FirstEmpty(a, index) == index
    requires index == 0 || index == g.N - 1
    ensures !Overrun(a, g, index, sentinel, None)
  {
    PairWindow(g, index);
  }

  /** What inserting the sentinel there gives. */
  lemma NewVertexArray(a: seq<Edge>, g: Geometry, n: nat, index: nat)
    requires TreeShape(g) && |a| == g.N && TailFree(a) && WellFormed(Live(a), n) && Clean(a) && n < MAX
    requires index == if n == 0 then 0 else |a| - 1
    requires n > 0 ==> Tidy(a)
    ensures FirstEmpty(a, index) < g.N && (index > 0 ==> !IsNull(a[0]))
    ensures WellFormed(Live(SlideInsert(a, index, SentinelOf(n))), n + 1)
    ensures var b := Inserted(a, g, index, SentinelOf(n), None);
      && WellFormed(Live(b), n + 1) && GraphOf(Live(b)) == GraphOf(Live(a))
      && Tidy(b) && TailFree(b)
  {
    var sentinel := SentinelOf(n);
    NewVertexSlot(a, n, index);
    SlideInsertLive(a, index, sentinel);
    InsertedLive(a, g, index, sentinel, None);
    InsertedShape(a, g, index, sentinel, None);
    NeverOverruns(a, g, index, sentinel);
    InsertedTail(a, g, index, sentinel, None);
  }

  /** The slot of a new vertex's sentinel. */
  function NewIndex(a: seq<Edge>, n: nat): nat
    requires a != []
  {
    if n == 0 then 0 else |a| - 1
  }

  /** The array with one vertex more. */
  ghost function WithVertex(a: seq<Edge>, g: Geometry, n: nat): (b: seq<Edge>)
    requires TreeShape(g) && |a| == g.N && TailFree(a) && WellFormed(Live(a), n) && Clean(a) && n < MAX
    requires n > 0 ==> Tidy(a)
    ensures WellFormed(Live(b), n + 1) && GraphOf(Live(b)) == GraphOf(Live(a)) && Tidy(b) && TailFree(b)
    ensures |b| == g.N || |b| == 2 * g.N
  {
    NewVertexArray(a, g, n, NewIndex(a, n));
    InsertedSize(a, g, NewIndex(a, n), SentinelOf(n), None);
    Inserted(a, g, NewIndex(a, n), SentinelOf(n), None)
  }

  lemma WithVertexIs(a: seq<Edge>, g: Geometry, n: nat, b: seq<Edge>)
    requires TreeShape(g) && |a| == g.N && TailFree(a) && WellFormed(Live(a), n) && Clean(a) && n < MAX
    requires n > 0 ==> Tidy(a)
    requires FirstEmpty(a, NewIndex(a, n)) < g.N && b == Inserted(a, g, NewIndex(a, n), SentinelOf(n), None)
    ensures b == WithVertex(a, g, n)
    ensures WellFormed(Live(b), n + 1) && GraphOf(Live(b)) == GraphOf(Live(a)) && Tidy(b) && TailFree(b)
  {
  }
}
