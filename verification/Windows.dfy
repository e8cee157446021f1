/**
 The implicit tree over the array: its aligned windows, the density bounds
 of each level and the climbs that `insert` and `remove` make.
 Densities are exact rationals, cross-multiplied.
 */
module Windows {
  import opened Arithmetic
  import opened Geometries
  import opened Slots
  import opened Spreading

  // ---------------------------------------------------------------- windows

  /** The length of the ancestor `level` levels up. */
  function Span(len: nat, level: nat): nat
    decreases level
  {
    if level == 0 then len else Span(2 * len, level - 1)
  }

  lemma {:induction false} SpanPow2(len: nat, level: nat)
    ensures Span(len, level) == len * Pow2(level)
    decreases level
  {
    if level > 0 {
      SpanPow2(2 * len, level - 1);
      assert (2 * len) * Pow2(level - 1) == len * (2 * Pow2(level - 1));
    }
  }

  lemma {:induction false} SpanGrows(len: nat, level: nat)
    ensures len <= Span(len, level)
    ensures level > 0 ==> 2 * len <= Span(len, level)
    decreases level
  {
    if level > 0 {
      SpanGrows(2 * len, level - 1);
    }
  }

  /** An aligned window at some level of the tree (the root is level 0, leaves are level H). */
  ghost predicate IsWindow(g: Geometry, start: nat, len: nat, level: nat) {
    && level <= g.H
    && len > 0
    && Span(len, level) == g.N
    && start + len <= g.N
    && WindowStart(start, len) == start
  }

  /** All that the tree of windows needs to know of the geometry. */
  ghost predicate TreeShape(g: Geometry) {
    g.H >= 1 && g.logN >= 4 && Span(g.logN, g.H) == g.N
  }

  lemma GeometryTree(g: Geometry)
    requires GeometryOk(g)
    ensures TreeShape(g)
  {
    GeometryFacts(g);
    SpanPow2(g.logN, g.H);
  }

  lemma LeafWindow(g: Geometry, index: nat)
    requires TreeShape(g) && index < g.N
    ensures IsWindow(g, WindowStart(index, g.logN), g.logN, g.H)
    ensures WindowStart(index, g.logN) <= index < WindowStart(index, g.logN) + g.logN
    ensures LeafOf(index, g.logN) < Pow2(g.H)
  {
    WindowAt(g, index, g.logN, g.H);
  }

  /** The number of a slot's leaf is a leaf number, also when computed from the leaf's start. */
  lemma LeafNumber(g: Geometry, index: nat)
    requires TreeShape(g) && index < g.N
    ensures LeafOf(index, g.logN) < LeafCount(g)
    ensures LeafOf(WindowStart(index, g.logN), g.logN) == LeafOf(index, g.logN)
  {
    LeafWindow(g, index);
    LeafOfStart(index, g.logN);
  }

  lemma WindowAt(g: Geometry, index: nat, len: nat, level: nat)
    requires level <= g.H && len > 0 && Span(len, level) == g.N && index < g.N
    ensures IsWindow(g, WindowStart(index, len), len, level)
    ensures WindowStart(index, len) <= index < WindowStart(index, len) + len
    ensures LeafOf(index, len) < Pow2(level)
  {
    SpanPow2(len, level);
    WindowStartFits(index, len, Pow2(level));
    WindowStartBounds(index, len);
  }

  /** The parent of a window is a window around it, starting at it or one window earlier. */
  lemma ParentWindow(g: Geometry, start: nat, len: nat, level: nat)
    requires IsWindow(g, start, len, level) && level > 0
    ensures IsWindow(g, WindowStart(start, 2 * len), 2 * len, level - 1)
    ensures WindowStart(start, 2 * len) <= start && start + len <= WindowStart(start, 2 * len) + 2 * len
    ensures WindowStart(start, 2 * len) == start || WindowStart(start, 2 * len) + len == start
  {
    WindowAt(g, start, 2 * len, level - 1);
    WindowStartParent(start, len);
  }

  /** A window has a parent inside the array exactly when it is not the root. */
  lemma LevelOfLength(g: Geometry, start: nat, len: nat, level: nat)
    requires IsWindow(g, start, len, level)
    ensures 2 * len <= g.N <==> level > 0
    ensures level == 0 ==> start == 0 && len == g.N
  {
    SpanGrows(len, level);
  }

  // ---------------------------------------------------------------- density bounds

  /** `density >= density_bound(level).y` for `count` items in `len` slots; see `DensityBounds`. */
  predicate TooDense(g: Geometry, count: nat, len: nat, level: nat) {
    Times(4 * g.H, count) >= Times(3 * g.H + level, len)
  }

  /** `density < density_bound(level).x`. */
  predicate TooSparse(g: Geometry, count: int, len: nat, level: nat)
    requires level <= g.H
  {
    Times(8 * g.H, count) < Times(2 * g.H - level, len)
  }

  /** The bounds are 3/4 + level/(4H) from above and 1/4 - level/(8H) from below, times the length. */
  lemma DensityBounds(g: Geometry, count: int, len: nat, level: nat)
    requires level <= g.H
    ensures TooSparse(g, count, len, level) <==> 8 * g.H * count < (2 * g.H - level) * len
    ensures count >= 0 ==> (TooDense(g, count, len, level) <==> 4 * g.H * count >= (3 * g.H + level) * len)
  {
    TimesProduct(8 * g.H, count);
    TimesProduct(4 * g.H, count);
    TimesProduct(2 * g.H - level, len);
    TimesProduct(3 * g.H + level, len);
  }

  /** A window within its upper bound has an empty slot. */
  lemma NotTooDenseHasRoom(g: Geometry, count: nat, len: nat, level: nat)
    requires !TooDense(g, count, len, level) && level <= g.H
    ensures count < len
  {
    DensityBounds(g, count, len, level);
    if count >= len {
      assert 4 * g.H * count >= 4 * g.H * len by { MulMonotone(len, count, 4 * g.H); }
      MulMonotone(3 * g.H + level, 4 * g.H, len);
    }
  }

  /** A full leaf is always beyond its bound, which is 1. */
  lemma FullLeafTooDense(g: Geometry, count: nat)
    requires count >= g.logN
    ensures TooDense(g, count, g.logN, g.H)
  {
    DensityBounds(g, count, g.logN, g.H);
    MulMonotone(g.logN, count, 4 * g.H);
  }

  // ---------------------------------------------------------------- climbs

  datatype Climb = Stop(start: nat, len: nat, level: nat) | PastRoot

  /**
   The loop of `insert` that looks for the first window within its upper bound,
   from a window upwards; `extra` is 1 when the new item is not yet in the array.
   */
  ghost function InsertClimb(a: seq<Edge>, g: Geometry, start: nat, len: nat, level: nat, extra: nat): Climb
    requires IsWindow(g, start, len, level) && |a| == g.N
    decreases level
  {
    if !TooDense(g, Count(a, start, len) + extra, len, level) then Stop(start, len, level)
    else if level == 0 then PastRoot
    else
      ParentWindow(g, start, len, level);
      InsertClimb(a, g, WindowStart(start, 2 * len), 2 * len, level - 1, extra)
  }

  /** The loop of `remove` that looks for the first window within its lower bound. */
  ghost function RemoveClimb(a: seq<Edge>, g: Geometry, start: nat, len: nat, level: nat, missing: nat): Climb
    requires IsWindow(g, start, len, level) && |a| == g.N
    decreases level
  {
    if !TooSparse(g, Count(a, start, len) - missing, len, level) then Stop(start, len, level)
    else if level == 0 then PastRoot
    else
      ParentWindow(g, start, len, level);
      RemoveClimb(a, g, WindowStart(start, 2 * len), 2 * len, level - 1, missing)
  }

  /** One step of an insertion climb. */
  lemma InsertClimbUp(a: seq<Edge>, g: Geometry, start: nat, len: nat, level: nat, extra: nat,
                     up: nat, upLen: nat, upLevel: nat)
    requires IsWindow(g, start, len, level) && |a| == g.N && level > 0
    requires TooDense(g, Count(a, start, len) + extra, len, level)
    requires upLen == 2 * len && up == WindowStart(start, upLen) && upLevel == level - 1
    ensures IsWindow(g, up, upLen, upLevel)
    ensures InsertClimb(a, g, start, len, level, extra) == InsertClimb(a, g, up, upLen, upLevel, extra)
  {
    ParentWindow(g, start, len, level);
  }

  /** One step of a removal climb. */
  lemma RemoveClimbUp(a: seq<Edge>, g: Geometry, start: nat, len: nat, level: nat, missing: nat,
                     up: nat, upLen: nat, upLevel: nat)
    requires IsWindow(g, start, len, level) && |a| == g.N && level > 0
    requires TooSparse(g, Count(a, start, len) - missing, len, level)
    requires upLen == 2 * len && up == WindowStart(start, upLen) && upLevel == level - 1
    ensures IsWindow(g, up, upLen, upLevel)
    ensures RemoveClimb(a, g, start, len, level, missing) == RemoveClimb(a, g, up, upLen, upLevel, missing)
  {
    ParentWindow(g, start, len, level);
  }

  /** The window `c` is around the one at `start`, and around its parent if it is larger. */
  ghost predicate Around(c: Climb, start: nat, len: nat)
    requires len > 0
  {
    c.Stop? ==>
      && c.start <= start && start + len <= c.start + c.len
      && (c.len == len ==> c.start == start)
      && (c.len != len ==>
            2 * len <= c.len && c.start <= WindowStart(start, 2 * len)
            && WindowStart(start, 2 * len) + 2 * len <= c.start + c.len)
  }

  lemma AroundChild(c: Climb, start: nat, len: nat, up: nat)
    requires len > 0 && up == WindowStart(start, 2 * len) && up <= start && start + len <= up + 2 * len
    requires Around(c, up, 2 * len)
    ensures Around(c, start, len)
  {
  }

  /** Where an insertion climb ends: a window around its start that is within its bound. */
  lemma {:induction false} InsertClimbStops(a: seq<Edge>, g: Geometry, start: nat, len: nat, level: nat, extra: nat)
    requires IsWindow(g, start, len, level) && |a| == g.N
    ensures var c := InsertClimb(a, g, start, len, level, extra);
      && Around(c, start, len)
      && (c.Stop? ==>
            IsWindow(g, c.start, c.len, c.level) && !TooDense(g, Count(a, c.start, c.len) + extra, c.len, c.level))
    ensures TooDense(g, Count(a, start, len) + extra, len, level) ==>
      var c := InsertClimb(a, g, start, len, level, extra); c.Stop? ==> c.len != len
    decreases level
  {
    if TooDense(g, Count(a, start, len) + extra, len, level) && level > 0 {
      var up := WindowStart(start, 2 * len);
      ParentWindow(g, start, len, level);
      InsertClimbStops(a, g, up, 2 * len, level - 1, extra);
      AroundChild(InsertClimb(a, g, start, len, level, extra), start, len, up);
    }
  }

  /** Where a removal climb ends: a window around its start that is within its lower bound. */
  lemma {:induction false} RemoveClimbStops(a: seq<Edge>, g: Geometry, start: nat, len: nat, level: nat, missing: nat)
    requires IsWindow(g, start, len, level) && |a| == g.N
    ensures var c := RemoveClimb(a, g, start, len, level, missing);
      c.Stop? ==>
        && IsWindow(g, c.start, c.len, c.level)
        && c.start <= start && start + len <= c.start + c.len
        && !TooSparse(g, Count(a, c.start, c.len) - missing, c.len, c.level)
    decreases level
  {
    if TooSparse(g, Count(a, start, len) - missing, len, level) && level > 0 {
      ParentWindow(g, start, len, level);
      RemoveClimbStops(a, g, WindowStart(start, 2 * len), 2 * len, level - 1, missing);
    }
  }

  // ---------------------------------------------------------------- climbs find the first window

  /** Rounding down in one step or in two. */
  lemma {:induction false} WindowStartJump(i: nat, len: nat, k: nat)
    requires len > 0
    ensures Span(len, k) > 0
    ensures WindowStart(WindowStart(i, len), Span(len, k)) == WindowStart(i, Span(len, k))
    decreases k
  {
    WindowStartBounds(i, len);
    if k > 0 {
      WindowStartParent(i, len);
      WindowStartJump(i, 2 * len, k - 1);
      WindowStartJump(WindowStart(i, len), 2 * len, k - 1);
    }
  }

  lemma AncestorWindow(g: Geometry, start: nat, len: nat, level: nat, k: nat)
    requires IsWindow(g, start, len, level) && k <= level
    ensures Span(len, k) > 0 && IsWindow(g, WindowStart(start, Span(len, k)), Span(len, k), level - k)
  {
    SpanTwice(len, k, level - k);
    SpanGrows(len, k);
    WindowAt(g, start, Span(len, k), level - k);
  }

  lemma {:induction false} SpanTwice(len: nat, k: nat, more: nat)
    ensures Span(Span(len, k), more) == Span(len, k + more)
    decreases k
  {
    if k > 0 {
      SpanTwice(2 * len, k - 1, more);
    }
  }

  /** The ancestor `k` levels above a window is beyond its bound. */
  ghost predicate DenseAbove(a: seq<Edge>, g: Geometry, start: nat, len: nat, level: nat, extra: nat, k: nat)
    requires IsWindow(g, start, len, level) && |a| == g.N && k <= level
  {
    AncestorWindow(g, start, len, level, k);
    TooDense(g, Count(a, WindowStart(start, Span(len, k)), Span(len, k)) + extra, Span(len, k), level - k)
  }

  lemma DenseAboveParent(a: seq<Edge>, g: Geometry, start: nat, len: nat, level: nat, extra: nat, k: nat)
    requires IsWindow(g, start, len, level) && |a| == g.N && 0 < k <= level
    ensures IsWindow(g, WindowStart(start, 2 * len), 2 * len, level - 1)
    ensures DenseAbove(a, g, WindowStart(start, 2 * len), 2 * len, level - 1, extra, k - 1)
      <==> DenseAbove(a, g, start, len, level, extra, k)
  {
    ParentWindow(g, start, len, level);
    AncestorWindow(g, start, len, level, k);
    WindowStartJump(start, 2 * len, k - 1);
  }

  lemma SamePlace(c: Climb, start: nat, len: nat, level: nat, up: nat, upLen: nat, upLevel: nat)
    requires len > 0 && level > 0 && upLen == 2 * len && up == WindowStart(start, upLen) && upLevel == level - 1
    requires c.Stop? && c.level <= upLevel && c.len == Span(upLen, upLevel - c.level) > 0 && c.start == WindowStart(up, c.len)
    ensures c.len == Span(len, level - c.level) && c.start == WindowStart(start, c.len)
  {
    WindowStartJump(start, upLen, upLevel - c.level);
  }

  /** `c` is the first ancestor within its bound, or there is none. */
  ghost predicate FirstWithin(c: Climb, a: seq<Edge>, g: Geometry, start: nat, len: nat, level: nat, extra: nat)
    requires IsWindow(g, start, len, level) && |a| == g.N
  {
    match c
    case Stop(s, l, v) =>
      && v <= level && l == Span(len, level - v) > 0 && s == WindowStart(start, l)
      && !DenseAbove(a, g, start, len, level, extra, level - v)
      && forall k: nat :: k < level - v ==> DenseAbove(a, g, start, len, level, extra, k)
    case PastRoot => forall k: nat :: k <= level ==> DenseAbove(a, g, start, len, level, extra, k)
  }

  lemma DenseAboveAll(a: seq<Edge>, g: Geometry, start: nat, len: nat, level: nat, extra: nat,
                       up: nat, upLen: nat, upLevel: nat, m: nat)
    requires IsWindow(g, start, len, level) && |a| == g.N && level > 0 && DenseAbove(a, g, start, len, level, extra, 0) && m <= level
    requires upLen == 2 * len && up == WindowStart(start, upLen) && upLevel == level - 1 && IsWindow(g, up, upLen, upLevel)
    requires forall k: nat :: k < m ==> DenseAbove(a, g, up, upLen, upLevel, extra, k)
    ensures forall k: nat :: k <= m ==> DenseAbove(a, g, start, len, level, extra, k)
  {
    forall k: nat | k <= m
      ensures DenseAbove(a, g, start, len, level, extra, k)
    {
      if k > 0 {
        DenseAboveParent(a, g, start, len, level, extra, k);
        assert DenseAbove(a, g, up, upLen, upLevel, extra, k - 1);
      }
    }
  }

  lemma FirstWithinUp(c: Climb, a: seq<Edge>, g: Geometry, start: nat, len: nat, level: nat, extra: nat,
                       up: nat, upLen: nat, upLevel: nat)
    requires IsWindow(g, start, len, level) && |a| == g.N && level > 0 && DenseAbove(a, g, start, len, level, extra, 0)
    requires upLen == 2 * len && up == WindowStart(start, upLen) && upLevel == level - 1
    requires IsWindow(g, up, upLen, upLevel) && FirstWithin(c, a, g, up, upLen, upLevel, extra)
    ensures FirstWithin(c, a, g, start, len, level, extra)
  {
    if c.Stop? {
      SamePlace(c, start, len, level, up, upLen, upLevel);
      DenseAboveAll(a, g, start, len, level, extra, up, upLen, upLevel, upLevel - c.level);
      DenseAboveParent(a, g, start, len, level, extra, level - c.level);
    } else {
      DenseAboveAll(a, g, start, len, level, extra, up, upLen, upLevel, level);
    }
  }

  /** An insertion climb ends at the first ancestor that is within its bound; it passes the root exactly if none is. */
  lemma {:induction false} InsertClimbFirst(a: seq<Edge>, g: Geometry, start: nat, len: nat, level: nat, extra: nat)
    requires IsWindow(g, start, len, level) && |a| == g.N
    ensures FirstWithin(InsertClimb(a, g, start, len, level, extra), a, g, start, len, level, extra)
    ensures InsertClimb(a, g, start, len, level, extra).PastRoot?
      <==> forall k: nat :: k <= level ==> DenseAbove(a, g, start, len, level, extra, k)
    decreases level
  {
    AncestorWindow(g, start, len, level, 0);
    var c := InsertClimb(a, g, start, len, level, extra);
    if TooDense(g, Count(a, start, len) + extra, len, level) && level > 0 {
      var up, upLen, upLevel := WindowStart(start, 2 * len), 2 * len, level - 1;
      InsertClimbUp(a, g, start, len, level, extra, up, upLen, upLevel);
      InsertClimbFirst(a, g, up, upLen, upLevel, extra);
      FirstWithinUp(c, a, g, start, len, level, extra, up, upLen, upLevel);
    }
    FirstWithinRoot(c, a, g, start, len, level, extra);
  }

  lemma FirstWithinRoot(c: Climb, a: seq<Edge>, g: Geometry, start: nat, len: nat, level: nat, extra: nat)
    requires IsWindow(g, start, len, level) && |a| == g.N && FirstWithin(c, a, g, start, len, level, extra)
    ensures c.PastRoot? <==> forall k: nat :: k <= level ==> DenseAbove(a, g, start, len, level, extra, k)
  {
    if c.Stop? {
      assert !DenseAbove(a, g, start, len, level, extra, level - c.level);
    }
  }

  /** The same for the lower bound. */
  ghost predicate SparseAbove(a: seq<Edge>, g: Geometry, start: nat, len: nat, level: nat, missing: nat, k: nat)
    requires IsWindow(g, start, len, level) && |a| == g.N && k <= level
  {
    AncestorWindow(g, start, len, level, k);
    TooSparse(g, Count(a, WindowStart(start, Span(len, k)), Span(len, k)) - missing, Span(len, k), level - k)
  }

  lemma SparseAboveParent(a: seq<Edge>, g: Geometry, start: nat, len: nat, level: nat, missing: nat, k: nat)
    requires IsWindow(g, start, len, level) && |a| == g.N && 0 < k <= level
    ensures IsWindow(g, WindowStart(start, 2 * len), 2 * len, level - 1)
    ensures SparseAbove(a, g, WindowStart(start, 2 * len), 2 * len, level - 1, missing, k - 1)
      <==> SparseAbove(a, g, start, len, level, missing, k)
  {
    ParentWindow(g, start, len, level);
    AncestorWindow(g, start, len, level, k);
    WindowStartJump(start, 2 * len, k - 1);
  }

  /** `c` is the first ancestor within its bound, or there is none. */
  ghost predicate FirstFilled(c: Climb, a: seq<Edge>, g: Geometry, start: nat, len: nat, level: nat, missing: nat)
    requires IsWindow(g, start, len, level) && |a| == g.N
  {
    match c
    case Stop(s, l, v) =>
      && v <= level && l == Span(len, level - v) > 0 && s == WindowStart(start, l)
      && !SparseAbove(a, g, start, len, level, missing, level - v)
      && forall k: nat :: k < level - v ==> SparseAbove(a, g, start, len, level, missing, k)
    case PastRoot => forall k: nat :: k <= level ==> SparseAbove(a, g, start, len, level, missing, k)
  }

  lemma SparseAboveAll(a: seq<Edge>, g: Geometry, start: nat, len: nat, level: nat, missing: nat,
                       up: nat, upLen: nat, upLevel: nat, m: nat)
    requires IsWindow(g, start, len, level) && |a| == g.N && level > 0 && SparseAbove(a, g, start, len, level, missing, 0) && m <= level
    requires upLen == 2 * len && up == WindowStart(start, upLen) && upLevel == level - 1 && IsWindow(g, up, upLen, upLevel)
    requires forall k: nat :: k < m ==> SparseAbove(a, g, up, upLen, upLevel, missing, k)
    ensures forall k: nat :: k <= m ==> SparseAbove(a, g, start, len, level, missing, k)
  {
    forall k: nat | k <= m
      ensures SparseAbove(a, g, start, len, level, missing, k)
    {
      if k > 0 {
        SparseAboveParent(a, g, start, len, level, missing, k);
        assert SparseAbove(a, g, up, upLen, upLevel, missing, k - 1);
      }
    }
  }

  lemma FirstFilledUp(c: Climb, a: seq<Edge>, g: Geometry, start: nat, len: nat, level: nat, missing: nat,
                       up: nat, upLen: nat, upLevel: nat)
    requires IsWindow(g, start, len, level) && |a| == g.N && level > 0 && SparseAbove(a, g, start, len, level, missing, 0)
    requires upLen == 2 * len && up == WindowStart(start, upLen) && upLevel == level - 1
    requires IsWindow(g, up, upLen, upLevel) && FirstFilled(c, a, g, up, upLen, upLevel, missing)
    ensures FirstFilled(c, a, g, start, len, level, missing)
  {
    if c.Stop? {
      SamePlace(c, start, len, level, up, upLen, upLevel);
      SparseAboveAll(a, g, start, len, level, missing, up, upLen, upLevel, upLevel - c.level);
      SparseAboveParent(a, g, start, len, level, missing, level - c.level);
    } else {
      SparseAboveAll(a, g, start, len, level, missing, up, upLen, upLevel, level);
    }
  }

  /** A removal climb, likewise. */
  lemma {:induction false} RemoveClimbFirst(a: seq<Edge>, g: Geometry, start: nat, len: nat, level: nat, missing: nat)
    requires IsWindow(g, start, len, level) && |a| == g.N
    ensures FirstFilled(RemoveClimb(a, g, start, len, level, missing), a, g, start, len, level, missing)
    ensures RemoveClimb(a, g, start, len, level, missing).PastRoot?
      <==> forall k: nat :: k <= level ==> SparseAbove(a, g, start, len, level, missing, k)
    decreases level
  {
    AncestorWindow(g, start, len, level, 0);
    var c := RemoveClimb(a, g, start, len, level, missing);
    if TooSparse(g, Count(a, start, len) - missing, len, level) && level > 0 {
      var up, upLen, upLevel := WindowStart(start, 2 * len), 2 * len, level - 1;
      RemoveClimbUp(a, g, start, len, level, missing, up, upLen, upLevel);
      RemoveClimbFirst(a, g, up, upLen, upLevel, missing);
      FirstFilledUp(c, a, g, start, len, level, missing, up, upLen, upLevel);
    }
    FirstFilledRoot(c, a, g, start, len, level, missing);
  }

  lemma FirstFilledRoot(c: Climb, a: seq<Edge>, g: Geometry, start: nat, len: nat, level: nat, missing: nat)
    requires IsWindow(g, start, len, level) && |a| == g.N && FirstFilled(c, a, g, start, len, level, missing)
    ensures c.PastRoot? <==> forall k: nat :: k <= level ==> SparseAbove(a, g, start, len, level, missing, k)
  {
    if c.Stop? {
      assert !SparseAbove(a, g, start, len, level, missing, level - c.level);
    }
  }

  /** A removal climb passes the root only when fewer than a quarter of the slots are used. */
  lemma {:induction false} RemoveClimbPastRoot(a: seq<Edge>, g: Geometry, start: nat, len: nat, level: nat, missing: nat)
    requires IsWindow(g, start, len, level) && |a| == g.N && g.H > 0
    requires RemoveClimb(a, g, start, len, level, missing).PastRoot?
    ensures 4 * (|Live(a)| - missing) < g.N
    decreases level
  {
    if level > 0 {
      ParentWindow(g, start, len, level);
      RemoveClimbPastRoot(a, g, WindowStart(start, 2 * len), 2 * len, level - 1, missing);
    } else {
      assert a[0..g.N] == a;
      RootSparse(g, |Live(a)| - missing);
    }
  }

  lemma RootSparse(g: Geometry, count: int)
    requires TooSparse(g, count, g.N, 0) && g.H > 0
    ensures 4 * count < g.N
  {
    var h := 2 * g.H;
    DensityBounds(g, count, g.N, 0);
    assert h * (4 * count) < h * g.N;
    if 4 * count >= g.N {
      MulMonotone(g.N, 4 * count, h);
    }
  }

  // ---------------------------------------------------------------- what a rebalance buys

  /**
   Slack after an insertion: a non-leaf window within its bound that has just
   been redistributed leaves each of its halves more than len/(8H) - 1 items
   below its own, higher bound. Multiplied by 4H, with `len` the half's length.
   */
  lemma RebalanceSlack(l: seq<Edge>, g: Geometry, len: nat, level: nat, half: nat)
    requires forall i :: 0 <= i < |l| ==> !IsNull(l[i])
    requires 0 < len && g.H > 0 && level < g.H && half < 2
    requires |l| <= 2 * len && !TooDense(g, |l|, 2 * len, level)
    ensures (3 * g.H + (level + 1)) * len - 4 * g.H * HalfCount(l, len, half) > len - 4 * g.H
  {
    HalfCountBounds(l, len, half);
    DensityBounds(g, |l|, 2 * len, level);
    SlackArithmetic(|l|, HalfCount(l, len, half), len, level, g.H);
  }

  /** The mirror image for a removal: each half is at least len/(16H) - 1 items above its own lower bound. */
  lemma RebalanceReserve(l: seq<Edge>, g: Geometry, len: nat, level: nat, half: nat)
    requires forall i :: 0 <= i < |l| ==> !IsNull(l[i])
    requires 0 < len && g.H > 0 && level < g.H && half < 2
    requires |l| <= 2 * len && !TooSparse(g, |l|, 2 * len, level)
    ensures 8 * g.H * HalfCount(l, len, half) - (2 * g.H - (level + 1)) * len >= len - 8 * g.H
  {
    HalfCountBounds(l, len, half);
    DensityBounds(g, |l|, 2 * len, level);
    ReserveArithmetic(|l|, HalfCount(l, len, half), len, level, g.H);
  }

  /** The items of the left (0) or right (1) half of a freshly spread window of 2 * len slots. */
  ghost function HalfCount(l: seq<Edge>, len: nat, half: nat): nat
    requires |l| <= 2 * len && half < 2
  {
    Count(Spread(l, 2 * len), if half == 0 then 0 else len, len)
  }

  lemma HalfCountBounds(l: seq<Edge>, len: nat, half: nat)
    requires forall i :: 0 <= i < |l| ==> !IsNull(l[i])
    requires 0 < len && |l| <= 2 * len && half < 2
    ensures |l| - 1 <= 2 * HalfCount(l, len, half) <= |l| + 1
  {
    assert len * 2 == 2 * len;
    SpreadEven(l, half, len, 2);
  }

  lemma SlackArithmetic(j: nat, count: nat, len: nat, level: nat, h: nat)
    requires 2 * count <= j + 1 && h > 0
    requires 4 * h * j < (3 * h + level) * (2 * len)
    ensures (3 * h + (level + 1)) * len - 4 * h * count > len - 4 * h
  {
    var x, y, z := h * j, h * count, (3 * h + level) * len;
    MulMonotone(2 * count, j + 1, h);
    assert (2 * count) * h == 2 * y && (j + 1) * h == x + h;
    assert 4 * h * j == 4 * x && 4 * h * count == 4 * y;
    assert (3 * h + level) * (2 * len) == 2 * z;
    assert (3 * h + (level + 1)) * len == z + len;
  }

  lemma ReserveArithmetic(j: nat, count: nat, len: nat, level: nat, h: nat)
    requires j <= 2 * count + 1 && h > 0 && level < h
    requires 8 * h * j >= (2 * h - level) * (2 * len)
    ensures 8 * h * count - (2 * h - (level + 1)) * len >= len - 8 * h
  {
    var x, y, z := h * j, h * count, (2 * h - level) * len;
    MulMonotone(j, 2 * count + 1, h);
    assert (2 * count + 1) * h == 2 * y + h;
    assert 8 * h * j == 8 * x && 8 * h * count == 8 * y;
    assert (2 * h - level) * (2 * len) == 2 * z;
    assert (2 * h - (level + 1)) * len == z - len;
  }
}
