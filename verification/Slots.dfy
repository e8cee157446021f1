/**
 The slots of the edge array, the sequence of items they hold once the empty
 slots are skipped, and the graph that this sequence represents.
 */
module Slots {

  type u32 = x: int | 0 <= x < 0x1_0000_0000

  const MAX: u32 := 0xFFFF_FFFF

  datatype Edge = Edge(src: u32, dest: u32, value: u32)

  /** What clearing a slot leaves behind: `src = -1`, `dest = value = 0`. */
  const EMPTY := Edge(MAX, 0, 0)

  predicate IsNull(e: Edge) {
    e.value == 0
  }

  predicate IsSentinel(e: Edge) {
    e.dest == MAX || e.value == MAX
  }

  /** The sentinel of vertex `v`; vertex 0 cannot use 0 as its back pointer. */
  function SentinelOf(v: nat): Edge
    requires v < MAX
  {
    Edge(v, MAX, if v == 0 then MAX else v)
  }

  // ---------------------------------------------------------------- order

  function Key(e: Edge): int {
    if IsSentinel(e) then -1 else e.dest
  }

  /** Items are ordered by owner; the sentinel precedes the owner's edges. */
  predicate Before(x: Edge, y: Edge) {
    x.src < y.src || (x.src == y.src && Key(x) < Key(y))
  }

  ghost predicate AllBefore(l: seq<Edge>, e: Edge) {
    forall k :: 0 <= k < |l| ==> Before(l[k], e)
  }

  ghost predicate AllAfter(e: Edge, l: seq<Edge>) {
    forall k :: 0 <= k < |l| ==> Before(e, l[k])
  }

  // ---------------------------------------------------------------- the items

  /** The non-empty slots of `a`, in array order. */
  function Live(a: seq<Edge>): (l: seq<Edge>)
    ensures |l| <= |a|
  {
    if a == [] then []
    else
      var l := Live(a[..|a| - 1]);
      if IsNull(a[|a| - 1]) then l else l + [a[|a| - 1]]
  }

  lemma {:induction false} LiveItems(a: seq<Edge>)
    ensures forall i :: 0 <= i < |Live(a)| ==> !IsNull(Live(a)[i])
  {
    if a != [] {
      LiveItems(a[..|a| - 1]);
    }
  }

  lemma {:induction false} LiveConcat(a: seq<Edge>, b: seq<Edge>)
    ensures Live(a + b) == Live(a) + Live(b)
  {
    if b == [] {
      assert a + b == a;
    } else {
      var c := b[..|b| - 1];
      LiveConcat(a, c);
      assert (a + b)[..|a + b| - 1] == a + c;
    }
  }

  lemma LiveSingle(e: Edge)
    ensures Live([e]) == if IsNull(e) then [] else [e]
  {
    assert [e][..0] == [];
  }

  /** Replacing a stretch of slots by one with the same items keeps the items. */
  lemma LiveReplace(a: seq<Edge>, b: seq<Edge>, c: seq<Edge>, d: seq<Edge>)
    requires Live(b) == Live(d)
    ensures Live(a + d + c) == Live(a + b + c)
  {
    LiveConcat3(a, b, c);
    LiveConcat3(a, d, c);
  }

  lemma LiveConcat3(a: seq<Edge>, b: seq<Edge>, c: seq<Edge>)
    ensures Live(a + b + c) == Live(a) + Live(b) + Live(c)
  {
    LiveConcat(a + b, c);
    LiveConcat(a, b);
  }

  lemma LiveAround(l: seq<Edge>, e: Edge, r: seq<Edge>)
    ensures Live(l + [e] + r) == if IsNull(e) then Live(l) + Live(r) else Live(l) + [e] + Live(r)
  {
    LiveConcat3(l, [e], r);
    LiveSingle(e);
  }

  lemma SeqSplit<T>(a: seq<T>, i: nat)
    requires i < |a|
    ensures a == a[..i] + [a[i]] + a[i + 1..]
  {
  }

  lemma SuffixSplit<T>(a: seq<T>, i: nat, p: nat)
    requires i <= p < |a|
    ensures a[i..] == a[i..p] + [a[p]] + a[p + 1..]
  {
  }

  lemma SliceTake<T>(a: seq<T>, i: nat, j: nat, k: nat)
    requires i + k <= j <= |a|
    ensures a[i..j][..k] == a[i..i + k]
  {
  }

  lemma DropTake<T>(a: seq<T>, i: nat, k: nat)
    requires i + k <= |a|
    ensures a[i..][..k] == a[i..i + k]
  {
  }

  lemma SeqUpdate<T>(a: seq<T>, i: nat, e: T)
    requires i < |a|
    ensures a[i := e] == a[..i] + [e] + a[i + 1..]
  {
  }

  lemma SeqCut<T>(a: seq<T>, i: nat, j: nat)
    requires i <= j <= |a|
    ensures a == a[..i] + a[i..j] + a[j..]
  {
  }

  lemma LiveAt(a: seq<Edge>, i: nat)
    requires i <= |a|
    ensures Live(a) == Live(a[..i]) + Live(a[i..])
  {
    assert a == a[..i] + a[i..];
    LiveConcat(a[..i], a[i..]);
  }

  /** An occupied slot is the item right after the items of the slots before it. */
  lemma LiveSplit(a: seq<Edge>, i: nat)
    requires i < |a|
    ensures Live(a) == if IsNull(a[i]) then Live(a[..i]) + Live(a[i + 1..]) else Live(a[..i]) + [a[i]] + Live(a[i + 1..])
  {
    SeqSplit(a, i);
    LiveAround(a[..i], a[i], a[i + 1..]);
  }

  lemma LiveCut(a: seq<Edge>, i: nat, j: nat)
    requires i <= j <= |a|
    ensures Live(a) == Live(a[..i]) + Live(a[i..j]) + Live(a[j..])
  {
    SeqCut(a, i, j);
    LiveConcat3(a[..i], a[i..j], a[j..]);
  }

  lemma {:induction false} LiveOfItems(a: seq<Edge>)
    requires forall i :: 0 <= i < |a| ==> !IsNull(a[i])
    ensures Live(a) == a
  {
    if a != [] {
      LiveOfItems(a[..|a| - 1]);
    }
  }

  lemma {:induction false} LiveOfEmpties(a: seq<Edge>)
    requires forall i :: 0 <= i < |a| ==> IsNull(a[i])
    ensures Live(a) == []
  {
    if a != [] {
      LiveOfEmpties(a[..|a| - 1]);
    }
  }

  /** A range is full exactly when it holds as many items as slots. */
  lemma {:induction false} LiveFull(a: seq<Edge>)
    ensures |Live(a)| == |a| <==> forall i :: 0 <= i < |a| ==> !IsNull(a[i])
  {
    if a != [] {
      LiveFull(a[..|a| - 1]);
    }
  }

  /** Items come from slots. */
  lemma {:induction false} LiveFrom(a: seq<Edge>, k: nat) returns (i: nat)
    requires k < |Live(a)|
    ensures i < |a| && !IsNull(a[i]) && a[i] == Live(a)[k]
  {
    if k == |Live(a)| - 1 && !IsNull(a[|a| - 1]) {
      i := |a| - 1;
    } else {
      i := LiveFrom(a[..|a| - 1], k);
    }
  }

  // ---------------------------------------------------------------- well-formed items

  /**
   The items in order: for each vertex below `n` its sentinel, then its edges
   by strictly increasing destination.
   */
  ghost predicate WellFormed(l: seq<Edge>, n: nat) {
    && n <= MAX
    && (forall i, j {:trigger Before(l[i], l[j])} :: 0 <= i < j < |l| ==> Before(l[i], l[j]))
    && (forall i {:trigger WellFormedItem(l[i], n)} :: 0 <= i < |l| ==> WellFormedItem(l[i], n))
    && (forall v :: 0 <= v < n ==> HasSentinel(l, v))
  }

  ghost predicate HasSentinel(l: seq<Edge>, v: nat) {
    v < MAX && SentinelOf(v) in l
  }

  ghost predicate WellFormedItem(e: Edge, n: nat) {
    !IsNull(e) && e.src < n && e.src < MAX && (IsSentinel(e) ==> e == SentinelOf(e.src))
  }

  /** The number of items before slot `i`: the index of the slot's own item, if it has one. */
  function ItemIndex(a: seq<Edge>, i: nat): nat
    requires i <= |a|
  {
    |Live(a[..i])|
  }

  lemma ItemIndexMonotone(a: seq<Edge>, i: nat, j: nat)
    requires i < j < |a| && !IsNull(a[i]) && !IsNull(a[j])
    ensures ItemIndex(a, i) < ItemIndex(a, j) < |Live(a)|
    ensures Live(a)[ItemIndex(a, i)] == a[i] && Live(a)[ItemIndex(a, j)] == a[j]
  {
    LiveSplit(a, j);
    LiveSplit(a[..j], i);
    assert a[..j][..i] == a[..i];
  }

  lemma SlotOrdered(a: seq<Edge>, n: nat, i: nat, j: nat)
    requires WellFormed(Live(a), n)
    requires i < j < |a| && !IsNull(a[i]) && !IsNull(a[j])
    ensures Before(a[i], a[j])
  {
    ItemIndexMonotone(a, i, j);
  }

  lemma SlotWellFormed(a: seq<Edge>, n: nat, i: nat)
    requires WellFormed(Live(a), n)
    requires i < |a| && !IsNull(a[i])
    ensures WellFormedItem(a[i], n)
  {
    LiveSplit(a, i);
    assert Live(a)[ItemIndex(a, i)] == a[i];
  }

  /** The same, said of the slots of the array; first without asking for every sentinel. */
  ghost predicate Orderly(a: seq<Edge>, n: nat) {
    && n <= MAX
    && (forall i, j {:trigger Before(a[i], a[j])} ::
          0 <= i < j < |a| && !IsNull(a[i]) && !IsNull(a[j]) ==> Before(a[i], a[j]))
    && (forall i {:trigger WellFormedItem(a[i], n)} :: 0 <= i < |a| && !IsNull(a[i]) ==> WellFormedItem(a[i], n))
  }

  ghost predicate LaidOut(a: seq<Edge>, n: nat) {
    && Orderly(a, n)
    && (forall v :: 0 <= v < n ==> HasSentinel(a, v))
  }

  /** Order of the items is order of the slots. */
  lemma ItemsLaidOut(a: seq<Edge>, n: nat)
    requires WellFormed(Live(a), n)
    ensures LaidOut(a, n)
  {
    forall i, j | 0 <= i < j < |a| && !IsNull(a[i]) && !IsNull(a[j])
      ensures Before(a[i], a[j])
    {
      SlotOrdered(a, n, i, j);
    }
    forall i | 0 <= i < |a| && !IsNull(a[i])
      ensures WellFormedItem(a[i], n)
    {
      SlotWellFormed(a, n, i);
    }
    forall v | 0 <= v < n
      ensures HasSentinel(a, v)
    {
      assert HasSentinel(Live(a), v);
      var k :| 0 <= k < |Live(a)| && Live(a)[k] == SentinelOf(v);
      var i := LiveFrom(a, k);
    }
  }

  /** Adding an item at its place in the order keeps the items well-formed. */
  lemma WellFormedInsert(l1: seq<Edge>, e: Edge, l2: seq<Edge>, n: nat)
    requires WellFormed(l1 + l2, n) && WellFormedItem(e, n)
    requires AllBefore(l1, e)
    requires AllAfter(e, l2)
    ensures WellFormed(l1 + [e] + l2, n)
  {
    var l, m := l1 + l2, l1 + [e] + l2;
    forall i, j | 0 <= i < j < |m|
      ensures Before(m[i], m[j])
    {
      if i != |l1| && j != |l1| {
        var p, q := if i < |l1| then i else i - 1, if j < |l1| then j else j - 1;
        assert l[p] == m[i] && l[q] == m[j];
      }
    }
    forall i | 0 <= i < |m|
      ensures WellFormedItem(m[i], n)
    {
      if i != |l1| {
        assert m[i] == l[if i < |l1| then i else i - 1];
      }
    }
    forall v | 0 <= v < n
      ensures HasSentinel(m, v)
    {
      assert HasSentinel(l, v);
    }
  }

  /** Taking an edge out keeps the items well-formed. */
  lemma WellFormedRemove(l1: seq<Edge>, e: Edge, l2: seq<Edge>, n: nat)
    requires WellFormed(l1 + [e] + l2, n) && !IsSentinel(e)
    ensures WellFormed(l1 + l2, n)
  {
    var l, m := l1 + [e] + l2, l1 + l2;
    forall i, j | 0 <= i < j < |m|
      ensures Before(m[i], m[j])
    {
      assert m[i] == l[if i < |l1| then i else i + 1];
      assert m[j] == l[if j < |l1| then j else j + 1];
    }
    forall i | 0 <= i < |m|
      ensures WellFormedItem(m[i], n)
    {
      assert m[i] == l[if i < |l1| then i else i + 1];
    }
    forall v | 0 <= v < n
      ensures HasSentinel(m, v)
    {
      assert HasSentinel(l, v);
    }
  }

  /** Appending the sentinel of the next vertex. */
  lemma WellFormedAppend(l: seq<Edge>, n: nat)
    requires WellFormed(l, n) && n < MAX
    ensures WellFormed(l + [SentinelOf(n)], n + 1)
  {
    var m := l + [SentinelOf(n)];
    forall i | 0 <= i < |m|
      ensures WellFormedItem(m[i], n + 1)
    {
      if i < |l| {
        assert WellFormedItem(l[i], n);
      }
    }
    forall i, j | 0 <= i < j < |m|
      ensures Before(m[i], m[j])
    {
      if j < |l| {
        assert Before(l[i], l[j]);
      } else {
        assert WellFormedItem(l[i], n);
      }
    }
    forall v | 0 <= v < n + 1
      ensures HasSentinel(m, v)
    {
      if v == n {
        assert m[|l|] == SentinelOf(v);
      } else {
        assert HasSentinel(l, v);
      }
    }
  }

  // ---------------------------------------------------------------- the graph

  type Graph = map<(u32, u32), u32>

  /** The weighted graph that a sequence of items stands for. */
  function GraphOf(l: seq<Edge>): Graph {
    if l == [] then map[]
    else
      var g := GraphOf(l[..|l| - 1]);
      var e := l[|l| - 1];
      if IsSentinel(e) then g else g[(e.src, e.dest) := e.value]
  }

  lemma {:induction false} GraphOfConcat(l1: seq<Edge>, l2: seq<Edge>)
    ensures GraphOf(l1 + l2) == GraphOf(l1) + GraphOf(l2)
  {
    if l2 == [] {
      assert l1 + l2 == l1;
    } else {
      GraphOfConcat(l1, l2[..|l2| - 1]);
      assert (l1 + l2)[..|l1 + l2| - 1] == l1 + l2[..|l2| - 1];
    }
  }

  /** A pair is in the graph only through an item, and every edge item is in it. */
  lemma {:induction false} GraphOfItems(l: seq<Edge>)
    ensures forall k :: k in GraphOf(l) ==> HasEdge(l, Edge(k.0, k.1, GraphOf(l)[k]))
    ensures forall i :: 0 <= i < |l| && !IsSentinel(l[i]) ==> (l[i].src, l[i].dest) in GraphOf(l)
  {
    if l != [] {
      GraphOfItems(l[..|l| - 1]);
    }
  }

  ghost predicate HasEdge(l: seq<Edge>, e: Edge) {
    e in l && !IsSentinel(e)
  }

  lemma GraphOfSingle(e: Edge)
    ensures GraphOf([e]) == if IsSentinel(e) then map[] else map[(e.src, e.dest) := e.value]
  {
    assert [e][..0] == [];
  }

  /** A put: the new item's pair gets its value and nothing else changes. */
  lemma GraphOfInsert(l1: seq<Edge>, e: Edge, l2: seq<Edge>)
    requires !IsSentinel(e)
    requires AllAfter(e, l2)
    ensures GraphOf(l1 + [e] + l2) == GraphOf(l1 + l2)[(e.src, e.dest) := e.value]
  {
    GraphOfConcat(l1 + [e], l2);
    GraphOfConcat(l1, [e]);
    GraphOfConcat(l1, l2);
    GraphOfSingle(e);
    GraphOfItems(l2);
  }

  lemma GraphOfAbsent(l: seq<Edge>, e: Edge)
    requires !IsSentinel(e)
    requires forall i :: 0 <= i < |l| ==> Before(l[i], e) || Before(e, l[i])
    ensures (e.src, e.dest) !in GraphOf(l)
  {
    GraphOfItems(l);
  }

  /** A delete: exactly the item's pair disappears. */
  lemma GraphOfRemove(l1: seq<Edge>, e: Edge, l2: seq<Edge>)
    requires !IsSentinel(e)
    requires AllBefore(l1, e)
    requires AllAfter(e, l2)
    ensures GraphOf(l1 + l2) == GraphOf(l1 + [e] + l2) - {(e.src, e.dest)}
  {
    GraphOfInsert(l1, e, l2);
    GraphOfAbsent(l1 + l2, e);
    PutRemove(GraphOf(l1 + l2), (e.src, e.dest), e.value);
  }

  lemma PutRemove(g: Graph, k: (u32, u32), v: u32)
    requires k !in g
    ensures g[k := v] - {k} == g
  {
  }

  /** A sentinel carries no edge. */
  lemma GraphOfSentinel(l1: seq<Edge>, e: Edge, l2: seq<Edge>)
    requires IsSentinel(e)
    ensures GraphOf(l1 + [e] + l2) == GraphOf(l1 + l2)
  {
    GraphOfConcat(l1 + [e], l2);
    GraphOfConcat(l1, [e]);
    GraphOfConcat(l1, l2);
    GraphOfSingle(e);
  }

  lemma GraphOfItem(l: seq<Edge>, n: nat, k: nat)
    requires WellFormed(l, n)
    requires k < |l| && !IsSentinel(l[k])
    ensures (l[k].src, l[k].dest) in GraphOf(l)
    ensures GraphOf(l)[(l[k].src, l[k].dest)] == l[k].value
  {
    SeqSplit(l, k);
    GraphOfInsert(l[..k], l[k], l[k + 1..]);
  }

  /** Reading the graph off the slots: an occupied edge slot is in the graph with its value. */
  lemma GraphOfSlot(a: seq<Edge>, n: nat, i: nat)
    requires WellFormed(Live(a), n)
    requires i < |a| && !IsNull(a[i]) && !IsSentinel(a[i])
    ensures (a[i].src, a[i].dest) in GraphOf(Live(a))
    ensures GraphOf(Live(a))[(a[i].src, a[i].dest)] == a[i].value
  {
    LiveSplit(a, i);
    GraphOfItem(Live(a), n, ItemIndex(a, i));
  }

  /** ... and every pair of the graph has its slot. */
  lemma GraphSlot(a: seq<Edge>, s: u32, d: u32) returns (i: nat)
    requires (s, d) in GraphOf(Live(a))
    ensures i < |a| && !IsNull(a[i]) && !IsSentinel(a[i]) && a[i].src == s && a[i].dest == d
  {
    var l := Live(a);
    GraphOfItems(l);
    var e := Edge(s, d, GraphOf(l)[(s, d)]);
    assert HasEdge(l, e);
    var k :| 0 <= k < |l| && l[k] == e;
    i := LiveFrom(a, k);
  }
}
