/**
 Even redistribution of the items of a window: where each item goes, and what
 the window holds before, during and after.
 */
module Spreading {
  import opened Arithmetic
  import opened Slots

  /** The target of item `k` of `j` in a window of `len` slots: `floor(k * len / j)`, see `OffsetsAt`. */
  function TargetOf(k: nat, j: nat, len: nat): nat
    requires 0 < j
  {
    LeafOf(Times(k, len), j)
  }

  function OffsetsUpTo(m: nat, j: nat, len: nat): (offs: seq<nat>)
    requires 0 < j
    ensures |offs| == m
  {
    if m == 0 then [] else OffsetsUpTo(m - 1, j, len) + [TargetOf(m - 1, j, len)]
  }

  /** All targets, and the end of the window. */
  function Offsets(j: nat, len: nat): (offs: seq<nat>)
    requires 0 < j
    ensures |offs| == j + 1
  {
    OffsetsUpTo(j + 1, j, len)
  }

  lemma {:induction false} OffsetsUpToAt(m: nat, k: nat, j: nat, len: nat)
    requires 0 < j && k < m
    ensures OffsetsUpTo(m, j, len)[k] == TargetOf(k, j, len)
  {
    if k < m - 1 {
      OffsetsUpToAt(m - 1, k, j, len);
    }
  }

  lemma OffsetsAt(k: nat, j: nat, len: nat)
    requires 0 < j && k <= j
    ensures Offsets(j, len)[k] == (k * len) / j
  {
    OffsetsUpToAt(j + 1, k, j, len);
    TimesProduct(k, len);
    LeafOfQuotient(k * len, j);
  }

  /** What the moves need to know of the targets: they start at 0, strictly increase and end at `len`. */
  ghost predicate Placing(offs: seq<nat>, j: nat, len: nat) {
    && |offs| == j + 1
    && offs[0] == 0 && offs[j] == len
    && forall p, q {:trigger offs[p], offs[q]} :: 0 <= p <= q <= j ==> offs[p] + (q - p) <= offs[q]
  }

  lemma QuotientStep(k: nat, j: nat, len: nat)
    requires 0 < j <= len
    ensures (k * len) / j < ((k + 1) * len) / j
  {
    var q := (k * len) / j;
    DivBounds(k * len, j);
    DivBounds((k + 1) * len, j);
    assert (k + 1) * len == k * len + len;
    MulStep(((k + 1) * len) / j, q + 1, j);
    assert (q + 1) * j == q * j + j;
  }

  lemma {:induction false} QuotientsIncrease(p: nat, q: nat, j: nat, len: nat)
    requires 0 < j <= len && p <= q
    ensures (p * len) / j + (q - p) <= (q * len) / j
    decreases q
  {
    if p < q {
      QuotientsIncrease(p, q - 1, j, len);
      QuotientStep(q - 1, j, len);
    }
  }

  lemma OffsetsPlacing(j: nat, len: nat)
    requires 0 < j <= len
    ensures Placing(Offsets(j, len), j, len)
  {
    var offs := Offsets(j, len);
    OffsetsAt(0, j, len);
    OffsetsAt(j, j, len);
    DivUnique(0, j, 0);
    DivUnique(j * len, j, len);
    forall p, q | 0 <= p <= q <= j
      ensures offs[p] + (q - p) <= offs[q]
    {
      OffsetsAt(p, j, len);
      OffsetsAt(q, j, len);
      QuotientsIncrease(p, q, j, len);
    }
  }

  function Empties(n: nat): (s: seq<Edge>)
    ensures |s| == n && forall i :: 0 <= i < n ==> s[i] == EMPTY
  {
    seq(n, _ => EMPTY)
  }

  /** The window from the target of item `k` on, once items `k..` are in place. */
  ghost function SpreadFrom(l: seq<Edge>, k: nat, offs: seq<nat>, len: nat): (s: seq<Edge>)
    requires Placing(offs, |l|, len) && k <= |l|
    ensures |s| == len - offs[k]
    decreases |l| - k
  {
    if k == |l| then []
    else [l[k]] + Empties(offs[k + 1] - offs[k] - 1) + SpreadFrom(l, k + 1, offs, len)
  }

  /** A window of `len` slots holding the items `l` evenly. */
  ghost function Spread(l: seq<Edge>, len: nat): (s: seq<Edge>)
    requires |l| <= len
    ensures |s| == len
  {
    if l == [] then Empties(len)
    else OffsetsPlacing(|l|, len); SpreadFrom(l, 0, Offsets(|l|, len), len)
  }

  /** The window while its items `k..` are in place and the others still wait at its left end. */
  ghost function HalfSpread(l: seq<Edge>, k: nat, offs: seq<nat>, len: nat): (s: seq<Edge>)
    requires Placing(offs, |l|, len) && k <= |l|
    ensures |s| == len
  {
    assert offs[0] + k <= offs[k];
    l[..k] + Empties(offs[k] - k) + SpreadFrom(l, k, offs, len)
  }

  // ---------------------------------------------------------------- what a spread window holds

  lemma GapLive(e: Edge, gap: nat, rest: seq<Edge>)
    requires !IsNull(e)
    ensures Live([e] + Empties(gap) + rest) == [e] + Live(rest)
  {
    LiveConcat3([e], Empties(gap), rest);
    LiveSingle(e);
    LiveOfEmpties(Empties(gap));
  }

  lemma {:induction false} SpreadFromLive(l: seq<Edge>, k: nat, offs: seq<nat>, len: nat)
    requires Placing(offs, |l|, len) && k <= |l|
    requires forall i :: 0 <= i < |l| ==> !IsNull(l[i])
    ensures Live(SpreadFrom(l, k, offs, len)) == l[k..]
    decreases |l| - k
  {
    if k < |l| {
      GapLive(l[k], offs[k + 1] - offs[k] - 1, SpreadFrom(l, k + 1, offs, len));
      SpreadFromLive(l, k + 1, offs, len);
      assert l[k..] == [l[k]] + l[k + 1..];
    }
  }

  /** Spreading keeps the items and their order. */
  lemma SpreadLive(l: seq<Edge>, len: nat)
    requires |l| <= len
    requires forall i :: 0 <= i < |l| ==> !IsNull(l[i])
    ensures Live(Spread(l, len)) == l
  {
    if l == [] {
      LiveOfEmpties(Empties(len));
    } else {
      OffsetsPlacing(|l|, len);
      SpreadFromLive(l, 0, Offsets(|l|, len), len);
    }
  }

  lemma {:induction false} SpreadFromAt(l: seq<Edge>, k: nat, m: nat, offs: seq<nat>, len: nat)
    requires Placing(offs, |l|, len) && k <= m < |l|
    ensures offs[k] <= offs[m] < len && SpreadFrom(l, k, offs, len)[offs[m] - offs[k]] == l[m]
    decreases |l| - k
  {
    assert offs[m] < offs[|l|];
    if k < m {
      SpreadFromAt(l, k + 1, m, offs, len);
    }
  }

  /** Item `k` of `j` sits at `floor(k * len / j)`. */
  lemma SpreadAt(l: seq<Edge>, k: nat, len: nat)
    requires |l| <= len && k < |l|
    ensures (k * len) / |l| < len && Spread(l, len)[(k * len) / |l|] == l[k]
  {
    OffsetsPlacing(|l|, len);
    OffsetsAt(k, |l|, len);
    SpreadFromAt(l, 0, k, Offsets(|l|, len), len);
  }

  ghost predicate Clean(s: seq<Edge>) {
    forall i :: 0 <= i < |s| && IsNull(s[i]) ==> s[i] == EMPTY
  }

  lemma {:induction false} SpreadFromClean(l: seq<Edge>, k: nat, offs: seq<nat>, len: nat)
    requires Placing(offs, |l|, len) && k <= |l|
    requires forall i :: 0 <= i < |l| ==> !IsNull(l[i])
    ensures Clean(SpreadFrom(l, k, offs, len))
    decreases |l| - k
  {
    if k < |l| {
      SpreadFromClean(l, k + 1, offs, len);
    }
  }

  lemma {:induction false} SpreadFromLast(l: seq<Edge>, k: nat, offs: seq<nat>, len: nat)
    requires Placing(offs, |l|, len) && k < |l| && offs[|l| - 1] < len - 1
    ensures offs[k] < len && SpreadFrom(l, k, offs, len)[len - offs[k] - 1] == EMPTY
    decreases |l| - k
  {
    if k + 1 < |l| {
      SpreadFromLast(l, k + 1, offs, len);
    }
  }

  /** With fewer items than slots the last item does not reach the last slot. */
  lemma LastGap(j: nat, len: nat)
    requires 0 < j < len
    ensures Offsets(j, len)[j - 1] < len - 1
  {
    OffsetsAt(j - 1, j, len);
    var q := ((j - 1) * len) / j;
    DivBounds((j - 1) * len, j);
    assert (j - 1) * len == j * len - len;
    assert (len - 1) * j == j * len - j;
    MulLess(q, len - 1, j);
  }

  /** Cleared slots are fully cleared, the first item stays put, a window with room ends in an empty slot. */
  lemma SpreadShape(l: seq<Edge>, len: nat)
    requires 0 < len && |l| <= len
    requires forall i :: 0 <= i < |l| ==> !IsNull(l[i])
    ensures Clean(Spread(l, len))
    ensures l != [] ==> Spread(l, len)[0] == l[0]
    ensures |l| < len ==> IsNull(Spread(l, len)[len - 1])
  {
    if l != [] {
      OffsetsPlacing(|l|, len);
      SpreadFromClean(l, 0, Offsets(|l|, len), len);
      if |l| < len {
        LastGap(|l|, len);
        SpreadFromLast(l, 0, Offsets(|l|, len), len);
      }
    }
  }

  // ---------------------------------------------------------------- the moves of the in-place version

  /** The array `b` while the items of `was[index..i]` have been packed into its first `j` slots from `index`. */
  ghost predicate Packed(b: seq<Edge>, was: seq<Edge>, index: nat, i: nat, j: nat) {
    && index + j <= i <= |was| == |b|
    && b[..index] == was[..index]
    && b[index..index + j] == Live(was[index..i])
    && b[i..] == was[i..]
  }

  lemma PackStep(b: seq<Edge>, was: seq<Edge>, index: nat, i: nat, j: nat)
    requires Packed(b, was, index, i, j) && i < |was|
    ensures b[i] == was[i]
    ensures Packed(b[index + j := b[i]], was, index, i + 1, if IsNull(b[i]) then j else j + 1)
  {
    assert b[i..][0] == was[i..][0];
    LiveNext(was, index, i);
    StoredBehind(b, index, j, b[i]);
    StoredBefore(b, was, index + j, i, b[i]);
  }

  lemma LiveNext(was: seq<Edge>, index: nat, i: nat)
    requires index <= i < |was|
    ensures Live(was[index..i + 1]) == if IsNull(was[i]) then Live(was[index..i]) else Live(was[index..i]) + [was[i]]
  {
    assert was[index..i + 1] == was[index..i] + [was[i]];
    LiveConcat(was[index..i], [was[i]]);
    LiveSingle(was[i]);
  }

  lemma StoredBefore(b: seq<Edge>, was: seq<Edge>, at: nat, i: nat, e: Edge)
    requires at <= i < |b| == |was| && b[i..] == was[i..]
    ensures b[at := e][i + 1..] == was[i + 1..]
  {
    assert b[at := e][i + 1..] == b[i..][1..] && was[i + 1..] == was[i..][1..];
  }

  lemma StoredBehind(b: seq<Edge>, index: nat, j: nat, e: Edge)
    requires index + j < |b|
    ensures var c := b[index + j := e];
      && c[..index] == b[..index] && c[index..index + j] == b[index..index + j]
      && c[index..index + j + 1] == b[index..index + j] + [e]
  {
  }

  /** The array once everything is packed and the rest of the window is cleared. */
  ghost function PackedArray(a: seq<Edge>, index: nat, len: nat): (b: seq<Edge>)
    requires index + len <= |a|
    ensures |b| == |a|
  {
    var l := Live(a[index..index + len]);
    a[..index] + (l + Empties(len - |l|)) + a[index + len..]
  }

  lemma PackEnd(b: seq<Edge>, c: seq<Edge>, was: seq<Edge>, index: nat, len: nat, j: nat)
    requires index + len <= |was| && Packed(b, was, index, index + len, j)
    requires c == b[..index + j] + Empties(len - j) + b[index + len..]
    ensures c == PackedArray(was, index, len) && j == Count(was, index, len)
  {
    assert b[..index + j] == b[..index] + b[index..index + j];
    JoinParts(b[..index], b[index..index + j], Empties(len - j), b[index + len..]);
  }

  lemma JoinParts(a: seq<Edge>, b: seq<Edge>, c: seq<Edge>, d: seq<Edge>)
    ensures a + b + c + d == a + (b + c) + d
  {
  }

  /** Which slots that array differs in, and that a window without items is spread already. */
  lemma PackedSlots(a: seq<Edge>, index: nat, len: nat)
    requires index + len <= |a|
    ensures var b, j := PackedArray(a, index, len), Count(a, index, len);
      && (forall i :: 0 <= i < |a| && !(index <= i < index + len) ==> b[i] == a[i])
      && (forall i :: index + j <= i < index + len ==> b[i] == EMPTY)
      && (j == 0 ==> b == Rebalance(a, index, len))
  {
  }

  /**
   The loop counter `index_d - index` after `k` steps of `len / j` is kept as the
   numerator `Times(k, len)` over the common denominator `j`.
   Truncating the counter gives the target of item `k`.
   */
  lemma StepsTarget(k: nat, j: nat, len: nat)
    requires 0 < j && k <= j
    ensures Times(k, len) / j == Offsets(j, len)[k]
  {
    OffsetsAt(k, j, len);
    TimesProduct(k, len);
  }

  /** Moving items within the window does not change what it holds. */
  lemma HalfSpreadLive(l: seq<Edge>, k: nat, offs: seq<nat>, len: nat)
    requires Placing(offs, |l|, len) && k <= |l|
    requires forall i :: 0 <= i < |l| ==> !IsNull(l[i])
    ensures Live(HalfSpread(l, k, offs, len)) == l
  {
    assert offs[0] + k <= offs[k];
    LiveOfItems(l[..k]);
    LiveOfEmpties(Empties(offs[k] - k));
    SpreadFromLive(l, k, offs, len);
    PartsLive(l[..k], Empties(offs[k] - k), SpreadFrom(l, k, offs, len));
  }

  lemma PartsLive(a: seq<Edge>, gap: seq<Edge>, b: seq<Edge>)
    requires Live(gap) == []
    ensures Live(a + gap + b) == Live(a) + Live(b)
  {
    LiveConcat3(a, gap, b);
  }

  /** Before the first move the items are packed at the left end. */
  lemma HalfSpreadStart(l: seq<Edge>, offs: seq<nat>, len: nat)
    requires Placing(offs, |l|, len)
    ensures HalfSpread(l, |l|, offs, len) == l + Empties(len - |l|)
  {
  }

  /** After the last move the window is spread: item 0 never moves. */
  lemma HalfSpreadEnd(l: seq<Edge>, len: nat)
    requires 0 < |l| <= len
    ensures Placing(Offsets(|l|, len), |l|, len)
    ensures HalfSpread(l, 1, Offsets(|l|, len), len) == Spread(l, len)
  {
    OffsetsPlacing(|l|, len);
  }

  /** Moving item `k`: its target is its own slot or an empty one beyond every unmoved item. */
  lemma HalfSpreadStep(l: seq<Edge>, k: nat, offs: seq<nat>, len: nat)
    requires Placing(offs, |l|, len) && 0 < k < |l|
    ensures var w := HalfSpread(l, k + 1, offs, len);
      && k <= offs[k] < len
      && w[k] == l[k]
      && (k < offs[k] ==> w[offs[k]] == EMPTY)
      && w[k := w[offs[k]]][offs[k] := w[k]] == HalfSpread(l, k, offs, len)
  {
    HalfSpreadParts(l, k, offs, len);
    HalfSpreadSwap(l[..k], l[k], offs[k] - k, offs[k + 1] - offs[k] - 1, SpreadFrom(l, k + 1, offs, len),
      HalfSpread(l, k + 1, offs, len), HalfSpread(l, k, offs, len));
  }

  lemma HalfSpreadParts(l: seq<Edge>, k: nat, offs: seq<nat>, len: nat)
    requires Placing(offs, |l|, len) && k < |l|
    ensures k <= offs[k] < offs[k + 1] <= len
    ensures HalfSpread(l, k + 1, offs, len) ==
      l[..k] + [l[k]] + Empties((offs[k] - k) + (offs[k + 1] - offs[k] - 1)) + SpreadFrom(l, k + 1, offs, len)
    ensures HalfSpread(l, k, offs, len) ==
      l[..k] + Empties(offs[k] - k) + ([l[k]] + Empties(offs[k + 1] - offs[k] - 1) + SpreadFrom(l, k + 1, offs, len))
  {
    assert offs[0] + k <= offs[k] && offs[k + 1] + (|l| - (k + 1)) <= offs[|l|];
    assert l[..k + 1] == l[..k] + [l[k]];
  }

  lemma HalfSpreadSwap(left: seq<Edge>, e: Edge, g: nat, h: nat, rest: seq<Edge>, w: seq<Edge>, v: seq<Edge>)
    requires w == left + [e] + Empties(g + h) + rest
    requires v == left + Empties(g) + ([e] + Empties(h) + rest)
    ensures w[|left|] == e && (g > 0 ==> w[|left| + g] == EMPTY)
    ensures w[|left| := w[|left| + g]][|left| + g := e] == v
  {
  }

  /** One swap of the last loop, seen on the whole array. */
  lemma SwapStep(b: seq<Edge>, left: seq<Edge>, l: seq<Edge>, k: nat, offs: seq<nat>, len: nat, right: seq<Edge>)
    requires Placing(offs, |l|, len) && 0 < k < |l| && b == left + HalfSpread(l, k + 1, offs, len) + right
    ensures var at, to := |left| + k, |left| + offs[k];
      && at <= to < |left| + len
      && b[at] == l[k] && (at < to ==> b[to] == EMPTY)
      && b[at := b[to]][to := b[at]] == left + HalfSpread(l, k, offs, len) + right
  {
    HalfSpreadStep(l, k, offs, len);
    SwapInside(b, left, HalfSpread(l, k + 1, offs, len), right, k, offs[k]);
  }

  lemma SwapInside(b: seq<Edge>, left: seq<Edge>, w: seq<Edge>, right: seq<Edge>, p: nat, q: nat)
    requires b == left + w + right && p < |w| && q < |w|
    ensures b[|left| + p] == w[p] && b[|left| + q] == w[q]
    ensures b[|left| + p := w[q]][|left| + q := w[p]] == left + w[p := w[q]][q := w[p]] + right
  {
  }

  // ---------------------------------------------------------------- rebalancing a window of the array

  /** The array after the window of `len` slots at `index` is redistributed. */
  ghost function Rebalance(a: seq<Edge>, index: nat, len: nat): (b: seq<Edge>)
    requires index + len <= |a|
    ensures |b| == |a|
  {
    a[..index] + Spread(Live(a[index..index + len]), len) + a[index + len..]
  }

  /** Rebalancing moves items only: the sequence of items is the same. */
  lemma RebalanceLive(a: seq<Edge>, index: nat, len: nat)
    requires index + len <= |a|
    ensures Live(Rebalance(a, index, len)) == Live(a)
  {
    var s := a[index..index + len];
    LiveItems(s);
    SpreadLive(Live(s), len);
    SeqCut(a, index, index + len);
    LiveReplace(a[..index], s, a[index + len..], Spread(Live(s), len));
  }

  /** Slots outside the window are untouched, those inside are the spread window. */
  lemma RebalanceSlots(a: seq<Edge>, index: nat, len: nat)
    requires index + len <= |a|
    ensures var b := Rebalance(a, index, len);
      && (forall i :: 0 <= i < |a| && !(index <= i < index + len) ==> b[i] == a[i])
      && b[index..index + len] == Spread(Live(a[index..index + len]), len)
      && b[..index] == a[..index] && b[index + len..] == a[index + len..]
  {
  }

  lemma RebalanceShape(a: seq<Edge>, index: nat, len: nat)
    requires 0 < len && index + len <= |a|
    ensures var b := Rebalance(a, index, len);
      && Clean(b[index..index + len])
      && (index == 0 && !IsNull(a[0]) ==> !IsNull(b[0]))
      && (index + len == |a| && |Live(a[index..index + len])| < len ==> IsNull(b[|a| - 1]))
  {
    var b, s := Rebalance(a, index, len), a[index..index + len];
    RebalanceSlots(a, index, len);
    LiveItems(s);
    SpreadShape(Live(s), len);
    if index == 0 && !IsNull(a[0]) {
      LiveSplit(s, 0);
      assert b[0] == b[index..index + len][0];
    }
    if index + len == |a| {
      assert b[|a| - 1] == b[index..index + len][len - 1];
    }
  }

  // ---------------------------------------------------------------- evenness

  function CeilDiv(x: nat, d: nat): nat
    requires d > 0
  {
    (x + d - 1) / d
  }

  /** How many items the first slots of a spread window hold, in terms of targets. */
  lemma {:induction false} SpreadFromPrefix(l: seq<Edge>, k: nat, o: nat, offs: seq<nat>, len: nat) returns (m: nat)
    requires Placing(offs, |l|, len) && k < |l|
    requires forall i :: 0 <= i < |l| ==> !IsNull(l[i])
    requires offs[k] < o <= len
    ensures k < m <= |l| && offs[m - 1] < o <= offs[m]
    ensures k + |Live(SpreadFrom(l, k, offs, len)[..o - offs[k]])| == m
    decreases |l| - k
  {
    var lo, hi, rest := offs[k], offs[k + 1], SpreadFrom(l, k + 1, offs, len);
    assert lo < hi && SpreadFrom(l, k, offs, len) == [l[k]] + Empties(hi - lo - 1) + rest;
    GapPrefix(l[k], hi - lo - 1, rest, o - lo);
    if o <= hi {
      m := k + 1;
    } else {
      m := SpreadFromPrefix(l, k + 1, o, offs, len);
    }
  }

  lemma GapPrefix(e: Edge, gap: nat, rest: seq<Edge>, o: nat)
    requires !IsNull(e) && 0 < o <= 1 + gap + |rest|
    ensures |Live(([e] + Empties(gap) + rest)[..o])| ==
      if o <= 1 + gap then 1 else 1 + |Live(rest[..o - 1 - gap])|
  {
    var s := [e] + Empties(gap) + rest;
    LiveSingle(e);
    if o <= 1 + gap {
      assert s[..o] == [e] + Empties(o - 1);
      LiveOfEmpties(Empties(o - 1));
      LiveConcat([e], Empties(o - 1));
    } else {
      assert s[..o] == [e] + Empties(gap) + rest[..o - 1 - gap];
      LiveOfEmpties(Empties(gap));
      LiveConcat3([e], Empties(gap), rest[..o - 1 - gap]);
    }
  }

  lemma CeilInGap(k: nat, o: nat, j: nat, len: nat)
    requires 0 < j <= len
    requires (k * len) / j < o <= ((k + 1) * len) / j
    ensures CeilDiv(o * j, len) == k + 1
  {
    DivBounds(k * len, j);
    DivBounds((k + 1) * len, j);
    var at, next := (k * len) / j, ((k + 1) * len) / j;
    assert (k + 1) * len == k * len + len;
    MulMonotone(at + 1, o, j);
    MulMonotone(o, next, j);
    assert (at + 1) * j == at * j + j;
    DivUnique(o * j + len - 1, len, k + 1);
  }

  /** How many items a part of a window holds. */
  function Count(a: seq<Edge>, start: nat, len: nat): (c: nat)
    requires start + len <= |a|
    ensures c <= len
  {
    |Live(a[start..start + len])|
  }

  lemma SpreadPrefix(l: seq<Edge>, o: nat, len: nat)
    requires 0 < len && |l| <= len && o <= len
    requires forall i :: 0 <= i < |l| ==> !IsNull(l[i])
    ensures ItemIndex(Spread(l, len), o) == CeilDiv(o * |l|, len)
  {
    if o == 0 || l == [] {
      LiveOfEmpties(Spread(l, len)[..o]);
      DivUnique(len - 1, len, 0);
    } else {
      OffsetsPlacing(|l|, len);
      var m := SpreadFromPrefix(l, 0, o, Offsets(|l|, len), len);
      OffsetsAt(m - 1, |l|, len);
      OffsetsAt(m, |l|, len);
      CeilInGap(m - 1, o, |l|, len);
    }
  }

  /** The items of any part of a spread window. */
  lemma SpreadPart(l: seq<Edge>, lo: nat, m: nat, len: nat)
    requires 0 < len && |l| <= len && lo + m <= len
    requires forall i :: 0 <= i < |l| ==> !IsNull(l[i])
    ensures Count(Spread(l, len), lo, m) == CeilDiv((lo + m) * |l|, len) - CeilDiv(lo * |l|, len)
  {
    PartCount(Spread(l, len), lo, m);
    SpreadPrefix(l, lo, len);
    SpreadPrefix(l, lo + m, len);
  }

  /**
   Even spread: each of the `parts` equal parts of a spread window holds the
   window's items divided by `parts`, rounded down or up.
   */
  lemma SpreadEven(l: seq<Edge>, p: nat, m: nat, parts: nat)
    requires 0 < m && p < parts && |l| <= m * parts
    requires forall i :: 0 <= i < |l| ==> !IsNull(l[i])
    ensures p * m + m <= m * parts
    ensures |l| / parts <= Count(Spread(l, m * parts), p * m, m) <= CeilDiv(|l|, parts)
  {
    MulMonotone(p + 1, parts, m);
    assert (p + 1) * m == p * m + m;
    SpreadPart(l, p * m, m, m * parts);
    PartShare(p, |l|, m, parts);
  }

  lemma PartShare(p: nat, j: nat, m: nat, parts: nat)
    requires 0 < m && 0 < parts
    ensures m * parts > 0
    ensures j / parts <= CeilDiv((p * m + m) * j, m * parts) - CeilDiv((p * m) * j, m * parts) <= CeilDiv(j, parts)
  {
    assert (p + 1) * m == p * m + m;
    CeilPart(p, j, m, parts);
    CeilPart(p + 1, j, m, parts);
    assert (p + 1) * j == p * j + j;
    CeilDifference(p * j, j, parts);
  }

  lemma PartCount(s: seq<Edge>, start: nat, m: nat)
    requires start + m <= |s|
    ensures Count(s, start, m) == ItemIndex(s, start + m) - ItemIndex(s, start)
  {
    assert s[..start + m] == s[..start] + s[start..start + m];
    LiveConcat(s[..start], s[start..start + m]);
  }

  /** Common factors cancel in a rounded-up quotient. */
  lemma CeilPart(p: nat, j: nat, m: nat, parts: nat)
    requires 0 < m && 0 < parts
    ensures m * parts > 0
    ensures CeilDiv((p * m) * j, m * parts) == CeilDiv(p * j, parts)
  {
    assert (p * m) * j == m * (p * j);
    CeilScale(p * j, m, parts);
  }

  lemma CeilScale(x: nat, m: nat, d: nat)
    requires 0 < m && 0 < d
    ensures m * d > 0
    ensures CeilDiv(m * x, m * d) == CeilDiv(x, d)
  {
    var q := CeilDiv(x, d);
    CeilBounds(x, d);
    MulMonotone(x, q * d, m);
    MulStep(q * d, x + d, m);
    assert (q * d) * m == q * (m * d);
    assert (x + d) * m == m * x + m * d;
    CeilUnique(m * x, m * d, q);
  }

  lemma CeilUnique(x: nat, d: nat, q: nat)
    requires 0 < d && x <= q * d < x + d
    ensures CeilDiv(x, d) == q
  {
    DivUnique(x + d - 1, d, q);
  }

  lemma CeilBounds(x: nat, d: nat)
    requires 0 < d
    ensures x <= CeilDiv(x, d) * d < x + d
  {
    DivBounds(x + d - 1, d);
  }

  lemma CeilDifference(x: nat, j: nat, d: nat)
    requires 0 < d
    ensures j / d <= CeilDiv(x + j, d) - CeilDiv(x, d) <= CeilDiv(j, d)
  {
    CeilBounds(x, d);
    CeilBounds(x + j, d);
    CeilBounds(j, d);
    DivBounds(j, d);
    SumDifference(CeilDiv(x, d), CeilDiv(x + j, d), j / d, CeilDiv(j, d), d);
  }

  lemma SumDifference(p: nat, q: nat, f: nat, c: nat, d: nat)
    requires p * d + f * d < q * d + d && q * d < p * d + c * d + d
    ensures f <= q - p <= c
  {
    MulStep(q, p + f, d);
    MulStep(p + c, q, d);
    assert (p + f) * d == p * d + f * d;
    assert (p + c) * d == p * d + c * d;
  }
}
