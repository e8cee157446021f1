/**
 Breadth-first search: the distances it writes are lengths of shortest walks.
 */
module Bfs {
  import opened Slots

  /** The neighbours of each vertex; they are read as `int`. */
  ghost predicate IsGraph(adj: seq<seq<nat>>) {
    && |adj| <= MAX
    && forall u :: 0 <= u < |adj| ==> AllVertices(adj[u], |adj|)
  }

  ghost predicate AllVertices(neighbours: seq<nat>, n: nat) {
    forall k :: 0 <= k < |neighbours| ==> neighbours[k] < n && neighbours[k] < 0x8000_0000
  }

  /** There is a walk of `k` edges from `s` to `v`. */
  ghost predicate Walk(adj: seq<seq<nat>>, s: nat, v: nat, k: nat)
    decreases k
  {
    if k == 0 then s == v
    else exists u :: 0 <= u < |adj| && Walk(adj, s, u, k - 1) && v in adj[u]
  }

  /** The length of a shortest walk, or `UINT32_MAX` if there is none. */
  ghost predicate IsDistance(adj: seq<seq<nat>>, s: nat, v: nat, d: u32) {
    if d == MAX then forall k: nat :: !Walk(adj, s, v, k)
    else Walk(adj, s, v, d) && forall k: nat :: Walk(adj, s, v, k) ==> d <= k
  }

  function Unreached(out: seq<u32>): (n: nat)
    ensures n <= |out|
  {
    if out == [] then 0
    else Unreached(out[..|out| - 1]) + if out[|out| - 1] == MAX then 1 else 0
  }

  lemma {:induction false} UnreachedUpdate(out: seq<u32>, i: nat, d: u32)
    requires i < |out| && out[i] == MAX && d != MAX
    ensures Unreached(out[i := d]) == Unreached(out) - 1
  {
    var last := |out| - 1;
    if i == last {
      assert out[i := d][..last] == out[..last];
    } else {
      assert out[i := d][..last] == out[..last][i := d];
      UnreachedUpdate(out[..last], i, d);
    }
  }

  lemma {:induction false} AllUnreached(out: seq<u32>)
    requires forall i :: 0 <= i < |out| ==> out[i] == MAX
    ensures Unreached(out) == |out|
  {
    if out != [] {
      AllUnreached(out[..|out| - 1]);
    }
  }

  // ---------------------------------------------------------------- invariant

  /** Every distance written so far is the length of some walk, and below the number of vertices reached. */
  ghost predicate Found(adj: seq<seq<nat>>, s: nat, out: seq<u32>) {
    && |out| == |adj| && s < |out| && out[s] == 0
    && forall v :: 0 <= v < |out| && out[v] != MAX ==> Walk(adj, s, v, out[v]) && out[v] < |out| - Unreached(out)
  }

  /** The queue holds reached vertices by non-decreasing distance; nobody is further than one beyond its front. */
  ghost predicate Queued(out: seq<u32>, next: seq<nat>) {
    && (forall i :: 0 <= i < |next| ==> next[i] < |out| && out[next[i]] != MAX)
    && (forall i, j {:trigger next[i], next[j]} :: 0 <= i < j < |next| ==> out[next[i]] <= out[next[j]])
  }

  ghost predicate Frontier(out: seq<u32>, d: nat) {
    forall v :: 0 <= v < |out| && out[v] != MAX ==> out[v] <= d + 1
  }

  /** The neighbour has been reached, at most one step further. */
  ghost predicate Relaxed(out: seq<u32>, u: nat, w: nat) {
    u < |out| && w < |out| && out[w] != MAX && out[w] as int <= out[u] as int + 1
  }

  ghost predicate Done(adj: seq<seq<nat>>, out: seq<u32>, u: nat)
    requires u < |adj|
  {
    forall w {:trigger Relaxed(out, u, w)} :: w in adj[u] ==> Relaxed(out, u, w)
  }

  /** Reached vertices that are no longer in the queue are done. */
  ghost predicate Closed(adj: seq<seq<nat>>, out: seq<u32>, next: seq<nat>) {
    |out| == |adj| &&
    forall u :: 0 <= u < |out| && out[u] != MAX && u !in next ==> Done(adj, out, u)
  }

  ghost predicate Inv(adj: seq<seq<nat>>, s: nat, out: seq<u32>, next: seq<nat>) {
    && Found(adj, s, out) && Queued(out, next) && Closed(adj, out, next)
    && (next != [] ==> Frontier(out, out[next[0]]))
  }

  /** While the neighbours of `active` are being visited. */
  ghost predicate Visiting(adj: seq<seq<nat>>, s: nat, out: seq<u32>, next: seq<nat>, active: nat, k: nat) {
    && Found(adj, s, out) && Queued(out, next)
    && active < |adj| && out[active] != MAX && k <= |adj[active]|
    && (forall i :: 0 <= i < |next| ==> out[active] <= out[next[i]])
    && Frontier(out, out[active])
    && (forall u :: 0 <= u < |out| && out[u] != MAX && u !in next && u != active ==> Done(adj, out, u))
    && (forall i :: 0 <= i < k ==> Relaxed(out, active, adj[active][i]))
  }

  /** A neighbour that has been reached before needs nothing. */
  lemma VisitOld(adj: seq<seq<nat>>, s: nat, out: seq<u32>, next: seq<nat>, active: nat, k: nat)
    requires IsGraph(adj) && Visiting(adj, s, out, next, active, k) && k < |adj[active]|
    requires adj[active][k] < |out| && out[adj[active][k]] != MAX
    ensures Visiting(adj, s, out, next, active, k + 1)
  {
  }

  lemma VisitRoom(adj: seq<seq<nat>>, s: nat, out: seq<u32>, active: nat, w: nat)
    requires IsGraph(adj) && Found(adj, s, out) && active < |out| && out[active] != MAX
    requires w < |out| && out[w] == MAX
    ensures out[active] + 1 < MAX && out[active] + 1 < |out| - Unreached(out[w := out[active] + 1])
  {
    assert out[active] < |out| - Unreached(out);
    if Unreached(out) == 0 {
      NoneUnreached(out, w);
    }
    UnreachedUpdate(out, w, out[active] + 1);
  }

  lemma {:induction false} NoneUnreached(out: seq<u32>, w: nat)
    requires w < |out| && out[w] == MAX
    ensures Unreached(out) > 0
  {
    if w < |out| - 1 {
      NoneUnreached(out[..|out| - 1], w);
    }
  }

  lemma WalkOn(adj: seq<seq<nat>>, s: nat, v: nat, w: nat, d: nat)
    requires v < |adj| && d > 0 && Walk(adj, s, v, d - 1) && w in adj[v]
    ensures Walk(adj, s, w, d)
  {
  }

  /** A new one is one step further than `active` and goes to the end of the queue. */
  lemma VisitNew(adj: seq<seq<nat>>, s: nat, out: seq<u32>, next: seq<nat>, active: nat, k: nat)
    requires IsGraph(adj) && Visiting(adj, s, out, next, active, k) && k < |adj[active]|
    requires adj[active][k] < |out| && out[adj[active][k]] == MAX
    ensures out[active] + 1 < MAX
    ensures var w := adj[active][k];
      && Visiting(adj, s, out[w := out[active] + 1], next + [w], active, k + 1)
      && Unreached(out[w := out[active] + 1]) == Unreached(out) - 1
  {
    var w := adj[active][k];
    var d := out[active] + 1;
    VisitRoom(adj, s, out, active, w);
    UnreachedUpdate(out, w, d);
    var b, q := out[w := d], next + [w];
    WalkOn(adj, s, active, w, d);
    NewFound(adj, s, out, w, d);
    NewQueued(out, next, active, w);
    OthersDone(adj, out, next, active, w, d);
    StillRelaxed(adj[active], out, active, k, d);
  }

  /** The neighbours visited so far, the new one included, are at most one step further. */
  lemma StillRelaxed(neighbours: seq<nat>, out: seq<u32>, active: nat, k: nat, d: u32)
    requires k < |neighbours| && active < |out| && out[active] != MAX && d == out[active] + 1 && d != MAX
    requires neighbours[k] < |out| && out[neighbours[k]] == MAX
    requires forall i :: 0 <= i < k ==> Relaxed(out, active, neighbours[i])
    ensures forall i :: 0 <= i < k + 1 ==> Relaxed(out[neighbours[k] := d], active, neighbours[i])
  {
    var w := neighbours[k];
    forall i | 0 <= i < k + 1
      ensures Relaxed(out[w := d], active, neighbours[i])
    {
      if i < k {
        assert Relaxed(out, active, neighbours[i]);
      }
    }
  }

  lemma OthersDone(adj: seq<seq<nat>>, out: seq<u32>, next: seq<nat>, active: nat, w: nat, d: u32)
    requires |out| == |adj| && w < |out| && out[w] == MAX
    requires forall u :: 0 <= u < |out| && out[u] != MAX && u !in next && u != active ==> Done(adj, out, u)
    ensures var b, q := out[w := d], next + [w];
      forall u :: 0 <= u < |b| && b[u] != MAX && u !in q && u != active ==> Done(adj, b, u)
  {
    var b, q := out[w := d], next + [w];
    forall u | 0 <= u < |b| && b[u] != MAX && u !in q && u != active
      ensures Done(adj, b, u)
    {
      assert w in q && u != w;
      assert u !in next;
      StillDone(adj, out, u, w, d);
    }
  }

  lemma NewFound(adj: seq<seq<nat>>, s: nat, out: seq<u32>, w: nat, d: u32)
    requires Found(adj, s, out) && w < |out| && out[w] == MAX && d != MAX
    requires Walk(adj, s, w, d) && d < |out| - Unreached(out[w := d])
    ensures Found(adj, s, out[w := d])
  {
    UnreachedUpdate(out, w, d);
  }

  lemma NewQueued(out: seq<u32>, next: seq<nat>, active: nat, w: nat)
    requires Queued(out, next) && active < |out| && out[active] + 1 < MAX && Frontier(out, out[active])
    requires w < |out| && out[w] == MAX
    requires forall i :: 0 <= i < |next| ==> out[active] <= out[next[i]]
    ensures var b, q := out[w := out[active] + 1], next + [w];
      && Queued(b, q) && b[active] == out[active] && Frontier(b, b[active])
      && forall i :: 0 <= i < |q| ==> b[active] <= b[q[i]]
  {
    var b, q := out[w := out[active] + 1], next + [w];
    forall i | 0 <= i < |q|
      ensures q[i] < |b| && b[q[i]] != MAX && b[active] <= b[q[i]] <= out[active] + 1
      ensures i < |next| ==> b[q[i]] == out[next[i]]
    {
      if i < |next| {
        assert q[i] == next[i] && out[next[i]] != MAX;
      }
    }
  }

  lemma StillDone(adj: seq<seq<nat>>, out: seq<u32>, u: nat, w: nat, d: u32)
    requires |out| == |adj| && u < |out| && Done(adj, out, u) && w < |out| && out[w] == MAX && u != w
    ensures Done(adj, out[w := d], u)
  {
    forall x | x in adj[u]
      ensures Relaxed(out[w := d], u, x)
    {
      assert Relaxed(out, u, x);
    }
  }

  /** Once all neighbours are visited, `active` is done. */
  lemma VisitEnd(adj: seq<seq<nat>>, s: nat, out: seq<u32>, next: seq<nat>, active: nat)
    requires active < |adj| && Visiting(adj, s, out, next, active, |adj[active]|)
    ensures Inv(adj, s, out, next)
  {
    forall w | w in adj[active]
      ensures Relaxed(out, active, w)
    {
      var i :| 0 <= i < |adj[active]| && adj[active][i] == w;
    }
    if next != [] {
      assert out[active] <= out[next[0]];
    }
  }

  /** Popping the front. */
  lemma VisitStart(adj: seq<seq<nat>>, s: nat, out: seq<u32>, next: seq<nat>)
    requires Inv(adj, s, out, next) && next != []
    ensures Visiting(adj, s, out, next[1..], next[0], 0)
  {
    var rest, active := next[1..], next[0];
    forall u | 0 <= u < |out| && out[u] != MAX && u !in rest && u != active
      ensures Done(adj, out, u)
    {
      assert next == [active] + rest;
      assert u !in next;
    }
  }

  // ---------------------------------------------------------------- what an empty queue means

  /** No walk is shorter than the distance of its end. */
  lemma {:induction false} NoShorter(adj: seq<seq<nat>>, s: nat, out: seq<u32>, v: nat, k: nat)
    requires Inv(adj, s, out, []) && Walk(adj, s, v, k)
    ensures v < |out| && out[v] != MAX && out[v] <= k
    decreases k
  {
    if k > 0 {
      var u :| 0 <= u < |adj| && Walk(adj, s, u, k - 1) && v in adj[u];
      NoShorter(adj, s, out, u, k - 1);
      assert Relaxed(out, u, v);
    }
  }

  lemma Shortest(adj: seq<seq<nat>>, s: nat, out: seq<u32>, v: nat)
    requires Inv(adj, s, out, []) && v < |out|
    ensures IsDistance(adj, s, v, out[v])
  {
    forall k: nat | Walk(adj, s, v, k)
      ensures out[v] != MAX && out[v] <= k
    {
      NoShorter(adj, s, out, v, k);
    }
    assert out[v] != MAX ==> Walk(adj, s, v, out[v]);
  }

  // ---------------------------------------------------------------- the search

  /** The body of the inner loop: a neighbour seen for the first time gets its distance and is queued. */
  method VisitNeighbour(neighbour: nat, active: nat, out: array<u32>, next0: seq<nat>,
                        ghost adj: seq<seq<nat>>, ghost s: nat, ghost k: nat) returns (next: seq<nat>)
    requires IsGraph(adj) && active < |adj| && k < |adj[active]| && neighbour == adj[active][k]
    requires Visiting(adj, s, out[..], next0, active, k)
    modifies out
    ensures Visiting(adj, s, out[..], next, active, k + 1)
    ensures Unreached(out[..]) + |next| == Unreached(old(out[..])) + |next0| && |next0| <= |next|
  {
    next := next0;
    ghost var was := out[..];
    assert AllVertices(adj[active], |adj|);
    if out[neighbour] == MAX {
      VisitNew(adj, s, was, next, active, k);
      next := next + [neighbour];
      out[neighbour] := out[active] + 1;
      assert out[..] == was[neighbour := was[active] + 1];
    } else {
      VisitOld(adj, s, was, next, active, k);
    }
  }

  /** The inner loop of `bfs`. */
  method Visit(neighbours: seq<nat>, active: nat, out: array<u32>, next0: seq<nat>,
               ghost adj: seq<seq<nat>>, ghost s: nat) returns (next: seq<nat>)
    requires IsGraph(adj) && active < |adj| && neighbours == adj[active]
    requires Visiting(adj, s, out[..], next0, active, 0)
    modifies out
    ensures Inv(adj, s, out[..], next)
    ensures Unreached(out[..]) + |next| == Unreached(old(out[..])) + |next0|
    ensures Unreached(out[..]) <= Unreached(old(out[..]))
  {
    next := next0;
    for k := 0 to |neighbours|
      invariant Visiting(adj, s, out[..], next, active, k)
      invariant Unreached(out[..]) + |next| == Unreached(old(out[..])) + |next0|
      invariant |next0| <= |next|
    {
      next := VisitNeighbour(neighbours[k], active, out, next, adj, s, k);
    }
    VisitEnd(adj, s, out[..], next, active);
  }

  /** `bfs` */
  method Search(adj: seq<seq<nat>>, start: nat) returns (out: array<u32>)
    requires IsGraph(adj) && start < |adj|
    ensures fresh(out) && out.Length == |adj|
    ensures forall v :: 0 <= v < |adj| ==> IsDistance(adj, start, v, out[v])
  {
    out := new u32[|adj|](_ => MAX);
    var next := [start];
    AllUnreached(out[..]);
    UnreachedUpdate(out[..], start, 0);
    ghost var was := out[..];
    out[start] := 0;
    assert out[..] == was[start := 0];
    while next != []
      invariant Inv(adj, start, out[..], next)
      decreases Unreached(out[..]) + |next|
    {
      var active := next[0];
      VisitStart(adj, start, out[..], next);
      next := Visit(adj[active], active, out, next[1..], adj, start);
    }
    forall v | 0 <= v < |adj|
      ensures IsDistance(adj, start, v, out[v])
    {
      Shortest(adj, start, out[..], v);
    }
  }
}
