/**
 The partitioned graph: every vertex belongs to one partition, which stores its
 edges under its local number. Together the partitions are one graph.
 */
module PartitionedCsr {
  import opened Arithmetic
  import opened Wrappers
  import opened Geometries
  import opened Slots
  import opened Insertion
  import opened Partitions
  import opened Neighbourhood
  import opened Calls
  import opened PackedCsr

  class PPPCSR {
    var partitions: seq<PCSR>
    var distribution: seq<nat>

    ghost function Sizes(): (sizes: seq<nat>)
      reads this, partitions
      ensures |sizes| == |partitions|
    {
      seq(|partitions|, i requires 0 <= i < |partitions| reads this, partitions => |partitions[i].nodes|)
    }

    ghost function Arrays(): set<object>
      reads this, partitions
    {
      set g | g in partitions :: g.items
    }

    /** Nothing is shared between partitions. */
    ghost predicate Separate()
      reads this, partitions
    {
      forall i, j {:trigger partitions[i], partitions[j]} :: 0 <= i < j < |partitions| ==>
        partitions[i] != partitions[j] && partitions[i].items != partitions[j].items
    }

    ghost predicate Sound()
      reads this, partitions, Arrays()
    {
      && Separate() && Tiled(distribution, Sizes())
      && (forall i {:trigger partitions[i].Sound()} :: 0 <= i < |partitions| ==> partitions[i].Sound())
      && (forall i {:trigger partitions[i].held} :: 0 <= i < |partitions| ==> partitions[i].held == {})
    }

    ghost predicate Valid()
      reads this, partitions, Arrays()
    {
      Sound() && forall i {:trigger partitions[i].Valid()} :: 0 <= i < |partitions| ==> partitions[i].Valid()
    }

    /** The graphs of the partitions, by local vertex numbers. */
    ghost function Graphs(): (graphs: seq<Graph>)
      reads this, partitions, Arrays()
      ensures |graphs| == |partitions|
    {
      seq(|partitions|, i requires 0 <= i < |partitions| reads this, partitions, Arrays() => partitions[i].Content())
    }

    /** The states of the partitions. */
    ghost function Snapshots(): (images: seq<Image>)
      reads this, partitions, Arrays()
      ensures |images| == |partitions|
    {
      seq(|partitions|, i requires 0 <= i < |partitions| reads this, partitions, Arrays() => partitions[i].Snapshot())
    }

    /** The weight of an edge of the whole graph, by the global number of its source. */
    ghost function EdgeOf(src: nat, dest: u32): Option<u32>
      requires |distribution| == |partitions| > 0
      reads this, partitions, Arrays()
    {
      EdgeIn(distribution, Graphs(), src, dest)
    }

    /** `get_partiton` */
    method GetPartition(vertexId: nat) returns (p: nat)
      requires |distribution| > 0
      ensures p == PartitionOf(distribution, vertexId)
    {
      for i := 1 to |distribution|
        invariant FirstBeyond(distribution, vertexId, 1) == FirstBeyond(distribution, vertexId, i)
      {
        if distribution[i] > vertexId {
          return i - 1;
        }
      }
      return |distribution| - 1;
    }

    /** The partition of a vertex and its number there. */
    method Locate(src: nat) returns (par: nat, local: nat)
      requires |distribution| == |partitions| && Tiled(distribution, Sizes())
      ensures local <= src && par == PartitionOf(distribution, src) && local == src - distribution[par]
      ensures src < Total(distribution, Sizes()) <==> local < |partitions[par].nodes|
    {
      PartitionHolds(distribution, Sizes(), src);
      par := GetPartition(src);
      local := src - distribution[par];
    }

    /** The edges of a vertex are those of its local number in its partition. */
    lemma EdgeLocal(par: nat, src: nat, dest: u32)
      requires |distribution| == |partitions| > 0 && par == PartitionOf(distribution, src)
      requires 0 <= src - distribution[par] < MAX
      ensures EdgeOf(src, dest).Some? <==> ((src - distribution[par]) as u32, dest) in partitions[par].Content()
    {
    }

    /** Reads in the partition of the vertex miss the edge in its last slot. */
    ghost predicate HiddenAt(src: nat, dest: u32)
      requires |distribution| == |partitions| > 0
      reads this, partitions, Arrays()
    {
      var par := PartitionOf(distribution, src);
      src >= distribution[par] &&
      Hidden(partitions[par].nodes, partitions[par].items[..], src - distribution[par], dest)
    }

    /** `edge_exists` of one partition. */
    method ExistsThere(par: nat, local: nat, dest: u32) returns (r: bool)
      requires par < |partitions| && partitions[par].Sound() && local < |partitions[par].nodes| && dest != MAX
      ensures local < MAX
      ensures r <==>
        ((local, dest) in partitions[par].Content()
         && !Hidden(partitions[par].nodes, partitions[par].items[..], local, dest))
      ensures partitions[par].Valid() ==> !Hidden(partitions[par].nodes, partitions[par].items[..], local, dest)
    {
      r := partitions[par].EdgeExists(local, dest);
    }

    /** `edge_exists` */
    method EdgeExists(src: nat, dest: u32) returns (r: bool)
      requires Sound() && src < Total(distribution, Sizes()) && dest != MAX
      ensures r <==> EdgeOf(src, dest).Some? && !HiddenAt(src, dest)
      ensures Valid() ==> (r <==> EdgeOf(src, dest).Some?)
    {
      var par, local := Locate(src);
      r := ExistsThere(par, local, dest);
      EdgeLocal(par, src, dest);
    }

    /** The neighbourhood of a local vertex. */
    method LocalNeighbourhood(par: nat, local: nat) returns (neighbours: seq<u32>)
      requires par < |partitions| && partitions[par].Valid() && local < |partitions[par].nodes|
      ensures IsNeighbourhood(neighbours, local, partitions[par].Content())
    {
      neighbours := partitions[par].GetNeighbourhood(local);
      LastSlotFree(partitions[par].items[..]);
    }

    /** `get_neighbourhood` */
    method GetNeighbourhood(src: nat) returns (neighbours: seq<u32>)
      requires Valid() && src < Total(distribution, Sizes())
      ensures forall i, j :: 0 <= i < j < |neighbours| ==> neighbours[i] < neighbours[j]
      ensures forall d: u32 :: d in neighbours <==> EdgeOf(src, d).Some?
    {
      var par, local := Locate(src);
      neighbours := LocalNeighbourhood(par, local);
      forall d: u32
        ensures d in neighbours <==> EdgeOf(src, d).Some?
      {
        EdgeLocal(par, src, d);
      }
    }

    /** `get_n` */
    method GetN() returns (n: nat)
      requires Sound()
      ensures n == Total(distribution, Sizes())
    {
      n := 0;
      for i := 0 to |partitions|
        invariant i < |partitions| ==> n == distribution[i]
        invariant i == |partitions| ==> n == Total(distribution, Sizes())
      {
        n := n + |partitions[i].nodes|;
      }
    }

    /** A change to one partition leaves the others as they are, and nothing becomes shared. */
    twostate lemma OthersKept(par: nat)
      requires old(Valid()) && par < |partitions| && partitions == old(partitions)
      requires forall i :: 0 <= i < |partitions| && i != par ==>
        unchanged(partitions[i]) && unchanged(old(partitions[i].items))
      requires partitions[par].items == old(partitions[par].items) || fresh(partitions[par].items)
      ensures Separate()
      ensures forall i :: 0 <= i < |partitions| && i != par ==>
        && partitions[i].Valid() && partitions[i].held == {}
        && partitions[i].Content() == old(partitions[i].Content()) && partitions[i].nodes == old(partitions[i].nodes)
    {
    }

    /** So the whole is sound again if the changed partition is. */
    twostate lemma Rejoined(par: nat)
      requires old(Valid()) && par < |partitions| && partitions == old(partitions) && distribution == old(distribution)
      requires forall i :: 0 <= i < |partitions| && i != par ==>
        unchanged(partitions[i]) && unchanged(old(partitions[i].items))
      requires partitions[par].items == old(partitions[par].items) || fresh(partitions[par].items)
      requires partitions[par].Sound() && partitions[par].held == {}
      requires Tiled(distribution, old(Sizes())[par := |partitions[par].nodes|])
      ensures Sound() && Sizes() == old(Sizes())[par := |partitions[par].nodes|]
      ensures Valid() <==> TailFree(partitions[par].items[..])
      ensures Graphs() == old(Graphs())[par := partitions[par].Content()]
    {
      OthersKept(par);
      assert Sizes() == old(Sizes())[par := |partitions[par].nodes|];
      assert partitions[par].Valid() <==> TailFree(partitions[par].items[..]);
    }

    /** Whether searches lock, in the partition of a vertex. */
    ghost function LockSearch(src: nat): bool
      requires |distribution| == |partitions| > 0
      reads this
    {
      partitions[PartitionOf(distribution, src)].lockSearch
    }

    /** The partition that holds a vertex. */
    lemma HoldsHere(par: nat, src: nat)
      requires Valid() && par == PartitionOf(distribution, src)
      ensures src < Total(distribution, Sizes()) <==> HoldsIn(distribution, Snapshots(), par, src)
      ensures forall p: nat :: HoldsIn(distribution, Snapshots(), p, src) ==> p == par
    {
      PartitionHolds(distribution, Sizes(), src);
      forall p: nat | HoldsIn(distribution, Snapshots(), p, src)
        ensures p == par
      {
        assert Holds(distribution, Sizes(), p, src);
      }
    }

    /** What a call does is decided there. */
    lemma StrandsLocally(par: nat, src: u32, local: u32, dest: u32, value: u32)
      requires Valid() && par == PartitionOf(distribution, src) && local == src - distribution[par]
      ensures partitions[par].Stranding(local, dest, value, 0)
        <==> StrandsIn(distribution, Snapshots(), partitions[par].lockSearch, src, dest, value)
    {
      HoldsHere(par, src);
      StrandsOnly(distribution, Snapshots(), par, partitions[par].lockSearch, src, local, dest, value);
    }

    lemma AllowsLocally(par: nat, src: u32, local: u32, dest: u32)
      requires Valid() && par == PartitionOf(distribution, src) && local == src - distribution[par]
      requires AllowsIn(distribution, Snapshots(), src, dest)
      ensures local < |partitions[par].nodes| && partitions[par].Removable(local, dest)
    {
      HoldsHere(par, src);
      AllowsOnly(distribution, Snapshots(), par, src, local, dest);
    }

    /** `add_edge` of one partition. */
    method AddThere(par: nat, local: u32, dest: u32, value: u32, junk: Edge, ghost strands: bool)
      requires par < |partitions| && partitions[par].Valid() && partitions[par].held == {} && dest != MAX && value != MAX
      requires strands == partitions[par].Stranding(local, dest, value, 0)
      modifies partitions[par], partitions[par].items
      ensures partitions[par].items == old(partitions[par].items) || fresh(partitions[par].items)
      ensures partitions[par].Sound() && partitions[par].held == {}
      ensures |partitions[par].nodes| == old(|partitions[par].nodes|)
      ensures TailFree(partitions[par].items[..]) <==> !strands
      ensures partitions[par].Content() ==
        if value == 0 || local >= |partitions[par].nodes| then old(partitions[par].Content())
        else old(partitions[par].Content())[(local, dest) := value]
    {
      partitions[par].AddEdge(local, dest, value, 0, [], junk);
    }

    /** `add_edge` in the partition of the source. */
    method AddLocal(par: nat, local: u32, dest: u32, value: u32, junk: Edge, ghost strands: bool)
      requires Valid() && dest != MAX && value != MAX && par < |partitions|
      requires strands == partitions[par].Stranding(local, dest, value, 0)
      modifies partitions[par], partitions[par].items
      ensures Sound() && Sizes() == old(Sizes())
      ensures Valid() <==> !strands
      ensures if value != 0 && local < |partitions[par].nodes|
              then Graphs() == WithEdge(old(Graphs()), par, local, dest, value) && local < MAX
              else Graphs() == old(Graphs())
    {
      AddThere(par, local, dest, value, junk, strands);
      assert old(Sizes())[par := |partitions[par].nodes|] == old(Sizes());
      Rejoined(par);
    }

    /** The same, for the vertex of the whole graph with that local number. */
    method AddLocated(src: u32, par: nat, local: u32, dest: u32, value: u32, junk: Edge,
                      ghost sizes: seq<nat>, ghost graphs: seq<Graph>, ghost images: seq<Image>)
      requires Valid() && dest != MAX && value != MAX
      requires sizes == Sizes() && graphs == Graphs() && images == Snapshots()
      requires par == PartitionOf(distribution, src) && local == src - distribution[par]
      modifies partitions[par], partitions[par].items
      ensures Sound() && Sizes() == sizes
      ensures Valid() <==> !StrandsIn(distribution, images, partitions[par].lockSearch, src, dest, value)
      ensures IsUpdate(distribution, graphs, Graphs(), src, dest, NewWeight(distribution, sizes, graphs, src, dest, value))
    {
      PartitionHolds(distribution, sizes, src);
      StrandsLocally(par, src, local, dest, value);
      ghost var strands := partitions[par].Stranding(local, dest, value, 0);
      AddLocal(par, local, dest, value, junk, strands);
      assert |partitions[par].nodes| == Sizes()[par] == sizes[par] == old(|partitions[par].nodes|);
      if value != 0 && local < |partitions[par].nodes| {
        PutJoined(distribution, sizes, graphs, Graphs(), src, dest, value, local);
      }
    }

    /** `add_edge`: a put into the whole graph, which strands an item exactly if the state before it says so. */
    method AddEdge(src: u32, dest: u32, value: u32, junk: Edge)
      requires Valid() && dest != MAX && value != MAX
      modifies partitions[PartitionOf(distribution, src)], partitions[PartitionOf(distribution, src)].items
      ensures Sound() && Sizes() == old(Sizes())
      ensures Valid() <==> !StrandsIn(distribution, old(Snapshots()), LockSearch(src), src, dest, value)
      ensures IsUpdate(distribution, old(Graphs()), Graphs(), src, dest,
                NewWeight(distribution, old(Sizes()), old(Graphs()), src, dest, value))
    {
      ghost var sizes, graphs, images := Sizes(), Graphs(), Snapshots();
      var par, local := Locate(src);
      assert Sizes() == sizes && Graphs() == graphs && Snapshots() == images;
      AddLocated(src, par, local, dest, value, junk, sizes, graphs, images);
    }

    /** `remove_edge` in the partition of the source. */
    method RemoveLocal(par: nat, local: u32, dest: u32, junk: Edge)
      requires Valid() && dest != MAX && par < |partitions| && local < |partitions[par].nodes|
      requires partitions[par].Removable(local, dest)
      modifies partitions[par], partitions[par].items
      ensures Valid() && Sizes() == old(Sizes())
      ensures Graphs() == WithoutEdge(old(Graphs()), par, local, dest) && local < MAX
    {
      partitions[par].RemoveEdge(local, dest, junk);
      assert old(Sizes())[par := |partitions[par].nodes|] == old(Sizes());
      Rejoined(par);
    }

    /** The same, for the vertex of the whole graph with that local number. */
    method RemoveLocated(src: u32, par: nat, local: u32, dest: u32, junk: Edge,
                         ghost sizes: seq<nat>, ghost graphs: seq<Graph>, ghost images: seq<Image>)
      requires Valid() && dest != MAX && sizes == Sizes() && graphs == Graphs() && images == Snapshots()
      requires AllowsIn(distribution, images, src, dest)
      requires par == PartitionOf(distribution, src) && local == src - distribution[par]
      modifies partitions[par], partitions[par].items
      ensures Valid() && Sizes() == sizes
      ensures IsUpdate(distribution, graphs, Graphs(), src, dest, None)
    {
      AllowsLocally(par, src, local, dest);
      RemoveLocal(par, local, dest, junk);
      DeleteJoined(distribution, sizes, graphs, Graphs(), src, dest, local);
    }

    /** `remove_edge`: a delete from the whole graph. */
    method RemoveEdge(src: u32, dest: u32, junk: Edge)
      requires Valid() && dest != MAX && AllowsIn(distribution, Snapshots(), src, dest)
      modifies partitions[PartitionOf(distribution, src)], partitions[PartitionOf(distribution, src)].items
      ensures Valid() && Sizes() == old(Sizes())
      ensures IsUpdate(distribution, old(Graphs()), Graphs(), src, dest, None)
    {
      ghost var sizes, graphs, images := Sizes(), Graphs(), Snapshots();
      var par, local := Locate(src);
      assert Sizes() == sizes && Graphs() == graphs && Snapshots() == images;
      RemoveLocated(src, par, local, dest, junk, sizes, graphs, images);
    }

    /** `add_node`: the last partition gets one vertex more, which is the next one of the whole graph. */
    method AddNode(junk: Edge)
      requires Valid() && |partitions[|partitions| - 1].nodes| < MAX
      modifies partitions[|partitions| - 1], partitions[|partitions| - 1].items
      ensures Valid() && Graphs() == old(Graphs())
      ensures Total(distribution, Sizes()) == old(Total(distribution, Sizes())) + 1
      ensures forall v: nat :: v < Total(distribution, Sizes()) ==>
        Holds(distribution, Sizes(), PartitionOf(distribution, v), v)
    {
      var last := |partitions| - 1;
      GrowLast(distribution, Sizes());
      partitions[last].AddNode(junk);
      Rejoined(last);
      forall v: nat | v < Total(distribution, Sizes())
        ensures Holds(distribution, Sizes(), PartitionOf(distribution, v), v)
      {
        PartitionHolds(distribution, Sizes(), v);
      }
    }

    // -------------------------------------------------------------- construction

    /** The partitions made so far, without edges. */
    ghost predicate Built(sizes: seq<nat>, k: nat, lockSearch: bool)
      reads this, partitions, Arrays()
    {
      && |partitions| == k <= |sizes| && Separate()
      && forall i {:trigger IsNew(partitions[i], sizes[i], lockSearch)} :: 0 <= i < k ==>
           IsNew(partitions[i], sizes[i], lockSearch)
    }

    /** As `new PCSR(size, size, lockSearch)` makes it. */
    ghost predicate IsNew(g: PCSR, size: nat, lockSearch: bool)
      reads g, g.items
    {
      && g.Valid() && g.held == {} && |g.nodes| == size && g.Content() == map[]
      && g.lockSearch == lockSearch && forall n: nat {:trigger FirstSize(n)} :: n == size + size ==> g.N == FirstSize(n)
    }

    /** A partition without edges, which shares nothing with anything. */
    method NewPartition(size: nat, lockSearch: bool) returns (g: PCSR)
      requires size <= MAX
      ensures fresh(g) && fresh(g.items) && IsNew(g, size, lockSearch)
    {
      g := new PCSR(size, size, lockSearch);
    }

    /** A partition that shares nothing with those made so far is one more. */
    lemma BuiltNext(earlier: seq<PCSR>, g: PCSR, sizes: seq<nat>, lockSearch: bool)
      requires partitions == earlier + [g] && |earlier| < |sizes| && IsNew(g, sizes[|earlier|], lockSearch)
      requires forall i {:trigger earlier[i]} :: 0 <= i < |earlier| ==>
        IsNew(earlier[i], sizes[i], lockSearch) && earlier[i] != g && earlier[i].items != g.items
      requires forall i, j {:trigger earlier[i], earlier[j]} :: 0 <= i < j < |earlier| ==>
        earlier[i] != earlier[j] && earlier[i].items != earlier[j].items
      ensures Built(sizes, |partitions|, lockSearch)
    {
    }

    /** One partition more. */
    method AddPartition(size: nat, lockSearch: bool, ghost sizes: seq<nat>)
      requires Built(sizes, |partitions|, lockSearch) && |partitions| < |sizes| && size == sizes[|partitions|] <= MAX
      modifies this`partitions
      ensures |partitions| == old(|partitions|) + 1 && Built(sizes, |partitions|, lockSearch)
    {
      ghost var earlier := partitions;
      var g := NewPartition(size, lockSearch);
      assert Built(sizes, |partitions|, lockSearch);
      partitions := partitions + [g];
      assert forall i :: 0 <= i < |earlier| ==> IsNew(earlier[i], sizes[i], lockSearch);
      BuiltNext(earlier, g, sizes, lockSearch);
    }

    /** The table and the partitions made so far. */
    ghost predicate Growing(n: nat, parts: nat, k: nat, partitionSize: nat, lockSearch: bool)
      reads this, partitions, Arrays()
      requires parts > 0
    {
      && k <= parts && Built(NewSizes(n, parts), k, lockSearch)
      && distribution == (if k == 0 then [0] else NewStarts(n, parts)[..k])
      && (k < parts ==> partitionSize == n / parts)
    }

    /** What is left for the last partition. */
    method LastSize(n: nat, parts: nat, k: nat, partitionSize: nat) returns (size: nat)
      requires k + 1 == parts && partitionSize == n / parts
      ensures size == NewSizes(n, parts)[k]
    {
      QuotientFits(n, parts);
      TimesProduct(k, partitionSize);
      size := n - k * partitionSize;
    }

    /** The body of the constructor's loops: the start and the size of partition `k`. */
    method AddNext(n: nat, parts: nat, k: nat, partitionSize0: nat, lockSearch: bool) returns (partitionSize: nat)
      requires k < parts && Growing(n, parts, k, partitionSize0, lockSearch) && n <= MAX
      modifies this`partitions, this`distribution
      ensures Growing(n, parts, k + 1, partitionSize, lockSearch)
    {
      partitionSize := partitionSize0;
      QuotientFits(n, parts);
      if k > 0 {
        distribution := distribution + [distribution[|distribution| - 1] + partitionSize];
      }
      assert distribution == NewStarts(n, parts)[..k + 1];
      if k == parts - 1 {
        partitionSize := LastSize(n, parts, k, partitionSize);
      }
      AddPartition(partitionSize, lockSearch, NewSizes(n, parts));
    }

    /** Once all partitions are made, the whole is valid and has no edges. */
    lemma BuiltIsValid(n: nat, parts: nat, lockSearch: bool)
      requires parts > 0 && Built(NewSizes(n, parts), parts, lockSearch) && distribution == NewStarts(n, parts)
      ensures Valid() && Total(distribution, Sizes()) == n && Even(Sizes(), n)
      ensures forall i :: 0 <= i < parts ==>
        partitions[i].lockSearch == lockSearch && partitions[i].N == FirstSize(2 * |partitions[i].nodes|)
      ensures forall s: nat, d: u32 :: EdgeOf(s, d) == None
    {
      NewTiled(n, parts);
      NewEven(n, parts);
      forall i | 0 <= i < |partitions|
        ensures partitions[i].lockSearch == lockSearch && partitions[i].N == FirstSize(2 * |partitions[i].nodes|)
        ensures partitions[i].Valid() && partitions[i].Sound() && partitions[i].held == {}
        ensures |partitions[i].nodes| == NewSizes(n, parts)[i] && partitions[i].Content() == map[]
      {
        assert IsNew(partitions[i], NewSizes(n, parts)[i], lockSearch);
      }
      assert Sizes() == NewSizes(n, parts);
    }

    /** What it means that all partitions but the last have the same size. */
    lemma EvenlyDealt(n: nat)
      requires |distribution| == |partitions| && Tiled(distribution, Sizes()) && Even(Sizes(), n)
      ensures forall p :: 0 <= p < |partitions| - 1 ==> |partitions[p].nodes| == n / |partitions|
      ensures n >= |partitions| ==> n / |partitions| > 0 && forall v: nat ::
        var p := v / (n / |partitions|);
        PartitionOf(distribution, v) == if p < |partitions| then p else |partitions| - 1
    {
      forall p | 0 <= p < |partitions| - 1
        ensures |partitions[p].nodes| == n / |partitions|
      {
        assert Sizes()[p] == n / |Sizes()|;
      }
      if n >= |partitions| {
        forall v: nat {
          EvenPartition(distribution, Sizes(), n, v);
        }
      }
    }

    /** A graph of `initN` vertices without edges, in any number of partitions. */
    constructor (initN: nat, lockSearch: bool, numDomains: nat, partitionsPerDomain: nat)
      requires initN <= MAX && numDomains > 0 && partitionsPerDomain > 0
      ensures Valid() && |partitions| == numDomains * partitionsPerDomain
      ensures Total(distribution, Sizes()) == initN
      ensures forall p :: 0 <= p < |partitions| - 1 ==> |partitions[p].nodes| == initN / |partitions|
      ensures forall p :: 0 <= p < |partitions| ==>
        partitions[p].lockSearch == lockSearch && partitions[p].N == FirstSize(2 * |partitions[p].nodes|)
      ensures initN >= |partitions| ==> initN / |partitions| > 0 && forall v: nat ::
        var p := v / (initN / |partitions|);
        PartitionOf(distribution, v) == if p < |partitions| then p else |partitions| - 1
      ensures forall s: nat, d: u32 :: EdgeOf(s, d) == None
    {
      partitions, distribution := [], [0];
      new;
      var parts := numDomains * partitionsPerDomain;
      TimesProduct(numDomains, partitionsPerDomain);
      var partitionSize: nat := initN / parts;
      var k: nat := 0;
      for i := 0 to numDomains
        invariant k == Times(i, partitionsPerDomain) && Growing(initN, parts, k, partitionSize, lockSearch)
      {
        TimesStep(i, numDomains, partitionsPerDomain);
        for p := 0 to partitionsPerDomain
          invariant k == Times(i, partitionsPerDomain) + p && Growing(initN, parts, k, partitionSize, lockSearch)
        {
          partitionSize := AddNext(initN, parts, k, partitionSize, lockSearch);
          k := k + 1;
        }
      }
      BuiltIsValid(initN, parts, lockSearch);
      EvenlyDealt(initN);
    }
  }
}
