/**
 The ranges of vertices that the partitions are responsible for.
 */
module Partitions {
  import opened Arithmetic
  import opened Wrappers
  import opened Slots
  import opened Calls

  /** Partition `i` holds the `sizes[i]` vertices from `starts[i]` on, and the next one goes on from there. */
  ghost predicate Tiled(starts: seq<nat>, sizes: seq<nat>) {
    && |starts| == |sizes| > 0 && starts[0] == 0
    && forall i :: 0 <= i < |starts| - 1 ==> starts[i] + sizes[i] == starts[i + 1]
  }

  /** The number of vertices in all partitions. */
  function Total(starts: seq<nat>, sizes: seq<nat>): nat
    requires |starts| == |sizes| > 0
  {
    starts[|starts| - 1] + sizes[|sizes| - 1]
  }

  ghost predicate Holds(starts: seq<nat>, sizes: seq<nat>, p: nat, v: nat)
    requires |starts| == |sizes|
  {
    p < |starts| && starts[p] <= v < starts[p] + sizes[p]
  }

  /** The first entry that starts beyond the vertex ends the search. */
  function FirstBeyond(starts: seq<nat>, v: nat, i: nat): (p: nat)
    requires 1 <= i <= |starts|
    ensures i <= p <= |starts|
    ensures forall k :: i <= k < p ==> starts[k] <= v
    ensures p < |starts| ==> v < starts[p]
    decreases |starts| - i
  {
    if i == |starts| || starts[i] > v then i else FirstBeyond(starts, v, i + 1)
  }

  /** `get_partiton` */
  function PartitionOf(starts: seq<nat>, v: nat): (p: nat)
    requires |starts| > 0
    ensures p < |starts|
  {
    FirstBeyond(starts, v, 1) - 1
  }

  lemma {:induction false} StartsIncrease(starts: seq<nat>, sizes: seq<nat>, i: nat, j: nat)
    requires Tiled(starts, sizes) && i < j < |starts|
    ensures starts[i] + sizes[i] <= starts[j]
    decreases j
  {
    assert starts[j - 1] + sizes[j - 1] == starts[j];
    if i < j - 1 {
      StartsIncrease(starts, sizes, i, j - 1);
    }
  }

  /** The partition found holds the vertex, and no other does; vertices beyond all ranges go to the last one. */
  lemma PartitionHolds(starts: seq<nat>, sizes: seq<nat>, v: nat)
    requires Tiled(starts, sizes)
    ensures v < Total(starts, sizes) <==> Holds(starts, sizes, PartitionOf(starts, v), v)
    ensures forall p: nat :: Holds(starts, sizes, p, v) ==> p == PartitionOf(starts, v)
    ensures v >= Total(starts, sizes) ==> PartitionOf(starts, v) == |starts| - 1
    ensures starts[PartitionOf(starts, v)] <= v
  {
    var q, last := PartitionOf(starts, v), |starts| - 1;
    if q < last {
      StartsIncrease(starts, sizes, q, last);
    }
    forall p: nat | Holds(starts, sizes, p, v)
      ensures p == q
    {
      if p < q {
        StartsIncrease(starts, sizes, p, q);
      } else if q < p {
        StartsIncrease(starts, sizes, q, p);
      }
    }
  }

  /** Partition `p` of those with the given states holds vertex `v`. */
  ghost predicate HoldsIn(starts: seq<nat>, images: seq<Image>, p: nat, v: nat) {
    p < |starts| == |images| && starts[p] <= v < starts[p] + images[p].n
  }

  /** An insertion into the whole strands an item in the last slot of the partition that holds the source. */
  ghost predicate StrandsIn(starts: seq<nat>, images: seq<Image>, lockSearch: bool, src: u32, dest: u32, value: u32) {
    exists p: nat {:trigger HoldsIn(starts, images, p, src)} :: HoldsIn(starts, images, p, src)
      && AddStrands(images[p], lockSearch, src - starts[p], dest, value, 0)
  }

  /** A removal does not halve the partition that holds the source below 8 slots. */
  ghost predicate AllowsIn(starts: seq<nat>, images: seq<Image>, src: u32, dest: u32) {
    exists p: nat {:trigger HoldsIn(starts, images, p, src)} :: HoldsIn(starts, images, p, src)
      && RemovalAllowed(images[p], src - starts[p], dest)
  }

  lemma StrandsThere(starts: seq<nat>, images: seq<Image>, p: nat, lockSearch: bool,
                     src: u32, local: u32, dest: u32, value: u32)
    requires p < |starts| == |images| && starts[p] + local == src
    requires forall q: nat :: HoldsIn(starts, images, q, src) ==> q == p
    requires StrandsIn(starts, images, lockSearch, src, dest, value)
    ensures AddStrands(images[p], lockSearch, local, dest, value, 0)
  {
    var q: nat :| HoldsIn(starts, images, q, src) && AddStrands(images[q], lockSearch, src - starts[q], dest, value, 0);
    assert q == p;
  }

  lemma StrandsHere(starts: seq<nat>, images: seq<Image>, p: nat, lockSearch: bool,
                    src: u32, local: u32, dest: u32, value: u32)
    requires p < |starts| == |images| && starts[p] + local == src
    requires AddStrands(images[p], lockSearch, local, dest, value, 0)
    ensures StrandsIn(starts, images, lockSearch, src, dest, value)
  {
    assert HoldsIn(starts, images, p, src);
  }

  /** If it is the only one that can hold the source, partition `p` decides. */
  lemma StrandsOnly(starts: seq<nat>, images: seq<Image>, p: nat, lockSearch: bool, src: u32, local: u32, dest: u32, value: u32)
    requires p < |starts| == |images| && starts[p] + local == src
    requires forall q: nat :: HoldsIn(starts, images, q, src) ==> q == p
    ensures StrandsIn(starts, images, lockSearch, src, dest, value)
      <==> AddStrands(images[p], lockSearch, local, dest, value, 0)
  {
    if StrandsIn(starts, images, lockSearch, src, dest, value) {
      StrandsThere(starts, images, p, lockSearch, src, local, dest, value);
    } else if AddStrands(images[p], lockSearch, local, dest, value, 0) {
      StrandsHere(starts, images, p, lockSearch, src, local, dest, value);
    }
  }

  lemma AllowsOnly(starts: seq<nat>, images: seq<Image>, p: nat, src: u32, local: u32, dest: u32)
    requires p < |starts| == |images| && starts[p] + local == src
    requires forall q: nat :: HoldsIn(starts, images, q, src) ==> q == p
    requires AllowsIn(starts, images, src, dest)
    ensures local < images[p].n && RemovalAllowed(images[p], local, dest)
  {
    var q: nat :| HoldsIn(starts, images, q, src) && RemovalAllowed(images[q], src - starts[q], dest);
    assert q == p;
  }

  /** The vertex one beyond the last goes to the last partition, before and after it grows. */
  lemma GrowLast(starts: seq<nat>, sizes: seq<nat>)
    requires Tiled(starts, sizes)
    ensures var more := sizes[|sizes| - 1 := sizes[|sizes| - 1] + 1];
      Tiled(starts, more) && Total(starts, more) == Total(starts, sizes) + 1
  {
  }

  // ---------------------------------------------------------------- the table of a new graph

  /** Equal sizes, and whatever is left for the last one. */
  function NewSizes(n: nat, parts: nat): (sizes: seq<nat>)
    requires parts > 0
    ensures |sizes| == parts
  {
    QuotientFits(n, parts);
    seq(parts, k requires 0 <= k < parts => if k == parts - 1 then n - Times(parts - 1, n / parts) else n / parts)
  }

  function NewStarts(n: nat, parts: nat): (starts: seq<nat>)
    requires parts > 0
    ensures |starts| == parts
  {
    seq(parts, k requires 0 <= k < parts => Times(k, n / parts))
  }

  lemma QuotientFits(n: nat, parts: nat)
    requires parts > 0
    ensures Times(parts - 1, n / parts) + n / parts <= n
  {
    TimesProduct(parts, n / parts);
    assert n == parts * (n / parts) + n % parts;
  }

  /** The partitions tile the vertices, for any number of them and of vertices. */
  lemma NewTiled(n: nat, parts: nat)
    requires parts > 0
    ensures Tiled(NewStarts(n, parts), NewSizes(n, parts))
    ensures Total(NewStarts(n, parts), NewSizes(n, parts)) == n
  {
    QuotientFits(n, parts);
  }

  /** Every partition other than the last holds `n / parts` vertices. */
  ghost predicate Even(sizes: seq<nat>, n: nat) {
    sizes != [] && forall k :: 0 <= k < |sizes| - 1 ==> sizes[k] == n / |sizes|
  }

  lemma NewEven(n: nat, parts: nat)
    requires parts > 0
    ensures Even(NewSizes(n, parts), n)
  {
    QuotientFits(n, parts);
  }

  lemma {:induction false} EvenStarts(starts: seq<nat>, sizes: seq<nat>, n: nat, k: nat)
    requires Tiled(starts, sizes) && Even(sizes, n) && k < |starts|
    ensures starts[k] == Times(k, n / |sizes|)
  {
    if k > 0 {
      EvenStarts(starts, sizes, n, k - 1);
      assert starts[k - 1] + sizes[k - 1] == starts[k];
    }
  }

  /** So a vertex belongs to the partition that its number divided by that size names, or else to the last one. */
  lemma EvenPartition(starts: seq<nat>, sizes: seq<nat>, n: nat, v: nat)
    requires Tiled(starts, sizes) && Even(sizes, n) && n >= |sizes|
    ensures n / |sizes| > 0
    ensures PartitionOf(starts, v) ==
      if v / (n / |sizes|) < |sizes| - 1 then v / (n / |sizes|) else |sizes| - 1
  {
    var q, p, last := n / |sizes|, PartitionOf(starts, v), |sizes| - 1;
    QuotientPositive(n, |sizes|);
    PartitionHolds(starts, sizes, v);
    EvenStarts(starts, sizes, n, p);
    if p < last {
      StartsIncrease(starts, sizes, p, last);
      assert Holds(starts, sizes, p, v);
      QuotientIs(v, q, p);
    } else {
      QuotientAtLeast(v, q, p);
    }
  }

  lemma QuotientPositive(n: nat, d: nat)
    requires 0 < d <= n
    ensures n / d > 0
  {
  }

  lemma QuotientIs(v: nat, q: nat, k: nat)
    requires q > 0 && Times(k, q) <= v < Times(k, q) + q
    ensures v / q == k
  {
    TimesProduct(k, q);
    DivUnique(v, q, k);
  }

  lemma QuotientAtLeast(v: nat, q: nat, k: nat)
    requires q > 0 && Times(k, q) <= v
    ensures k <= v / q
  {
    TimesProduct(v / q, q);
    DivBounds(v, q);
    if v / q < k {
      TimesStep(v / q, k, q);
    }
  }

  // ---------------------------------------------------------------- one graph

  /** The weight of an edge of the whole graph, by the global number of its source. */
  function EdgeIn(starts: seq<nat>, graphs: seq<Graph>, src: nat, dest: u32): Option<u32>
    requires |starts| == |graphs| > 0
  {
    var p := PartitionOf(starts, src);
    var local := src - starts[p];
    if 0 <= local < MAX && (local, dest) in graphs[p] then Some(graphs[p][(local, dest)]) else None
  }

  /** The weight after adding an edge: adding weight 0, or to a vertex that does not exist, changes nothing. */
  function NewWeight(starts: seq<nat>, sizes: seq<nat>, graphs: seq<Graph>, src: nat, dest: u32, value: u32): Option<u32>
    requires |starts| == |sizes| == |graphs| > 0
  {
    if value != 0 && src < Total(starts, sizes) then Some(value) else EdgeIn(starts, graphs, src, dest)
  }

  /** A put into, and a delete from, the graph of one partition. */
  function WithEdge(graphs: seq<Graph>, p: nat, local: u32, dest: u32, value: u32): (more: seq<Graph>)
    requires p < |graphs|
    ensures |more| == |graphs|
  {
    var g: Graph := graphs[p][(local, dest) := value];
    graphs[p := g]
  }

  function WithoutEdge(graphs: seq<Graph>, p: nat, local: u32, dest: u32): (fewer: seq<Graph>)
    requires p < |graphs|
    ensures |fewer| == |graphs|
  {
    graphs[p := graphs[p] - {(local, dest)}]
  }

  /** A put into the partition of a vertex is a put into the whole graph. */
  lemma PutIn(starts: seq<nat>, sizes: seq<nat>, graphs: seq<Graph>, src: nat, dest: u32, value: u32, s: nat, d: u32)
    requires Tiled(starts, sizes) && |starts| == |graphs|
    requires src - starts[PartitionOf(starts, src)] < MAX
    ensures starts[PartitionOf(starts, src)] <= src
    ensures var p := PartitionOf(starts, src);
      EdgeIn(starts, WithEdge(graphs, p, src - starts[p], dest, value), s, d) ==
        if s == src && d == dest then Some(value) else EdgeIn(starts, graphs, s, d)
  {
    PartitionHolds(starts, sizes, src);
  }

  /** A delete from the partition of a vertex is a delete from the whole graph. */
  lemma DeleteIn(starts: seq<nat>, sizes: seq<nat>, graphs: seq<Graph>, src: nat, dest: u32, s: nat, d: u32)
    requires Tiled(starts, sizes) && |starts| == |graphs|
    requires src - starts[PartitionOf(starts, src)] < MAX
    ensures starts[PartitionOf(starts, src)] <= src
    ensures var p := PartitionOf(starts, src);
      EdgeIn(starts, WithoutEdge(graphs, p, src - starts[p], dest), s, d) ==
        if s == src && d == dest then None else EdgeIn(starts, graphs, s, d)
  {
    PartitionHolds(starts, sizes, src);
  }

  /** `after` is `before`, except that the one edge now has weight `w`, or is gone. */
  ghost predicate IsUpdate(starts: seq<nat>, before: seq<Graph>, after: seq<Graph>, src: nat, dest: u32, w: Option<u32>) {
    && |starts| == |before| == |after| > 0
    && forall s: nat, d: u32 ::
         EdgeIn(starts, after, s, d) == (if s == src && d == dest then w else EdgeIn(starts, before, s, d))
  }

  lemma PutInAll(starts: seq<nat>, sizes: seq<nat>, graphs: seq<Graph>, src: nat, dest: u32, value: u32)
    requires Tiled(starts, sizes) && |starts| == |graphs|
    requires src - starts[PartitionOf(starts, src)] < MAX
    ensures starts[PartitionOf(starts, src)] <= src
    ensures var p := PartitionOf(starts, src);
      IsUpdate(starts, graphs, WithEdge(graphs, p, src - starts[p], dest, value), src, dest, Some(value))
  {
    PartitionHolds(starts, sizes, src);
    forall s: nat, d: u32 {
      PutIn(starts, sizes, graphs, src, dest, value, s, d);
    }
  }

  lemma DeleteInAll(starts: seq<nat>, sizes: seq<nat>, graphs: seq<Graph>, src: nat, dest: u32)
    requires Tiled(starts, sizes) && |starts| == |graphs|
    requires src - starts[PartitionOf(starts, src)] < MAX
    ensures starts[PartitionOf(starts, src)] <= src
    ensures var p := PartitionOf(starts, src);
      IsUpdate(starts, graphs, WithoutEdge(graphs, p, src - starts[p], dest), src, dest, None)
  {
    PartitionHolds(starts, sizes, src);
    forall s: nat, d: u32 {
      DeleteIn(starts, sizes, graphs, src, dest, s, d);
    }
  }

  lemma PutJoined(starts: seq<nat>, sizes: seq<nat>, before: seq<Graph>, after: seq<Graph>,
                  src: nat, dest: u32, value: u32, local: u32)
    requires Tiled(starts, sizes) && |starts| == |before|
    requires local == src - starts[PartitionOf(starts, src)] && local < MAX
    requires after == WithEdge(before, PartitionOf(starts, src), local, dest, value)
    ensures IsUpdate(starts, before, after, src, dest, Some(value))
  {
    PutInAll(starts, sizes, before, src, dest, value);
  }

  lemma DeleteJoined(starts: seq<nat>, sizes: seq<nat>, before: seq<Graph>, after: seq<Graph>,
                     src: nat, dest: u32, local: u32)
    requires Tiled(starts, sizes) && |starts| == |before|
    requires local == src - starts[PartitionOf(starts, src)] && local < MAX
    requires after == WithoutEdge(before, PartitionOf(starts, src), local, dest)
    ensures IsUpdate(starts, before, after, src, dest, None)
  {
    DeleteInAll(starts, sizes, before, src, dest);
  }
}
