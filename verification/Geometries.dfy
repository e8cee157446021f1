/**
 Sizes: the leaf length and the height of the tree that `resizeEdgeArray`
 derives from the length of the array.
 */
module Geometries {
  import opened Arithmetic

  /** Array size, leaf size, height of the tree of windows. */
  datatype Geometry = Geometry(N: nat, logN: nat, H: nat)

  function LeafSize(newSize: nat): (len: nat)
    requires newSize > 0
    ensures len > 0
  {
    Pow2(Bsr(Bsr(newSize) * 2 + 1))
  }

  /** `resizeEdgeArray`. */
  function Resize(newSize: nat): Geometry
    requires newSize > 0 && newSize / LeafSize(newSize) > 0
  {
    Geometry(newSize, LeafSize(newSize), Bsr(newSize / LeafSize(newSize)))
  }

  predicate PowerOfTwo(n: nat) {
    n > 0 && n == Pow2(Bsr(n))
  }

  /** The exponent of the leaf length of an array of 2^b slots. */
  function LeafExponent(b: nat): (c: nat)
    ensures Pow2(c) <= b * 2 + 1 < 2 * Pow2(c)
  {
    Bsr(b * 2 + 1)
  }

  /** The geometry of an array of 2^b slots. */
  ghost predicate GeometryAt(g: Geometry, b: nat) {
    && b >= 3 && LeafExponent(b) < b
    && g.N == Pow2(b) && g.logN == Pow2(LeafExponent(b)) && g.H == b - LeafExponent(b)
  }

  ghost predicate GeometryOk(g: Geometry) {
    g.N > 0 && GeometryAt(g, Bsr(g.N))
  }

  /** The number of leaves, `N / logN`. */
  function LeafCount(g: Geometry): nat {
    Pow2(g.H)
  }

  lemma Pow2Grows(i: nat, j: nat)
    requires i <= j
    ensures Pow2(i) <= Pow2(j)
  {
    if i < j {
      Pow2Monotone(i, j);
    }
  }

  lemma Pow2Less(i: nat, j: nat)
    requires Pow2(i) < Pow2(j)
    ensures i < j
  {
    if j <= i {
      Pow2Grows(j, i);
    }
  }

  lemma {:induction false} LinearBelowPow2(b: nat)
    requires b >= 3
    ensures 2 * b + 1 < Pow2(b)
  {
    if b == 3 {
      Pow2Small();
    } else {
      LinearBelowPow2(b - 1);
    }
  }

  lemma Pow2Quotient(b: nat, c: nat)
    requires c <= b
    ensures Pow2(b) == Pow2(c) * Pow2(b - c)
    ensures Pow2(b) / Pow2(c) == Pow2(b - c)
  {
    Pow2Add(c, b - c);
    DivUnique(Pow2(b), Pow2(c), Pow2(b - c));
  }

  /** The leaf exponent lies strictly between those of 1 and of half the array. */
  lemma LeafExponentBounds(b: nat, c: nat)
    requires b >= 3 && Pow2(c) <= b * 2 + 1 < 2 * Pow2(c)
    ensures 2 <= c < b && b < Pow2(c) <= 2 * b
  {
    Pow2Small();
    Pow2Exponent(c, 2);
    LinearBelowPow2(b);
    Pow2Less(c, b);
    assert Pow2(c) == 2 * Pow2(c - 1);
  }

  /** Doubling the array leaves the leaf length or doubles it. */
  lemma LeafExponentStep(b: nat, c: nat, d: nat)
    requires b >= 3
    requires Pow2(c) <= b * 2 + 1 < 2 * Pow2(c)
    requires Pow2(d) <= (b + 1) * 2 + 1 < 2 * Pow2(d)
    ensures d == c || d == c + 1
  {
    assert Pow2(c + 2) == 2 * Pow2(c + 1) == 4 * Pow2(c);
    assert Pow2(d + 1) == 2 * Pow2(d);
    Pow2Less(c, d + 1);
    Pow2Less(d, c + 2);
  }

  /** `resizeEdgeArray` is defined on every power of two from 8 on and gives the geometry of the array. */
  lemma ResizePow2(b: nat)
    requires b >= 3
    ensures Pow2(b) / LeafSize(Pow2(b)) > 0
    ensures GeometryAt(Resize(Pow2(b)), b) && GeometryOk(Resize(Pow2(b)))
  {
    var n, c := Pow2(b), LeafExponent(b);
    LeafSizeAt(b);
    LeafExponentBounds(b, c);
    Pow2Quotient(b, c);
    HeightAt(n, Pow2(c), b - c);
  }

  lemma LeafSizeAt(b: nat)
    ensures Bsr(Pow2(b)) == b && LeafSize(Pow2(b)) == Pow2(LeafExponent(b))
  {
    BsrUnique(Pow2(b), b);
  }

  lemma HeightAt(n: nat, len: nat, h: nat)
    requires len > 0 && n / len == Pow2(h)
    ensures Bsr(n / len) == h
  {
    BsrUnique(Pow2(h), h);
  }

  lemma ExponentOf(g: Geometry, b: nat)
    requires GeometryOk(g) && g.N == Pow2(b)
    ensures GeometryAt(g, b)
  {
    BsrUnique(g.N, b);
  }

  /**
   What holds for every power of two from 8 on: leaves longer than log2 N and at
   most twice that, a whole number of them, a power of two, at least two.
   */
  lemma GeometryFacts(g: Geometry)
    requires GeometryOk(g)
    ensures g.N >= 8
    ensures Bsr(g.N) < g.logN <= 2 * Bsr(g.N)
    ensures g.logN >= 4 && g.H >= 1
    ensures g.N / g.logN == LeafCount(g) && g.logN * LeafCount(g) == g.N
  {
    var b := Bsr(g.N);
    Pow2Small();
    Pow2Grows(3, b);
    LeafExponentBounds(b, LeafExponent(b));
    Pow2Grows(2, LeafExponent(b));
    Pow2Quotient(b, LeafExponent(b));
  }

  /** The sizes and leaf lengths are powers of two. */
  lemma GeometryPowers(g: Geometry)
    requires GeometryOk(g)
    ensures g.N >= 8 && PowerOfTwo(g.N) && PowerOfTwo(g.logN)
  {
    GeometryFacts(g);
    BsrUnique(g.logN, LeafExponent(Bsr(g.N)));
  }

  /** Doubling keeps the geometry. */
  lemma ResizeDouble(g: Geometry)
    requires GeometryOk(g)
    ensures 2 * g.N / LeafSize(2 * g.N) > 0
    ensures GeometryOk(Resize(2 * g.N))
  {
    var b := Bsr(g.N);
    assert Pow2(b + 1) == 2 * g.N;
    ResizePow2(b + 1);
  }

  /** Halving an array of at least 16 slots keeps the geometry. */
  lemma ResizeHalf(g: Geometry)
    requires GeometryOk(g) && g.N > 8
    ensures g.N % 2 == 0 && g.N / 2 / LeafSize(g.N / 2) > 0
    ensures GeometryOk(Resize(g.N / 2))
  {
    var b := Bsr(g.N);
    HalfPow2(b);
    ResizePow2(b - 1);
  }

  lemma HalfPow2(b: nat)
    requires Pow2(b) > 8
    ensures b >= 4 && Pow2(b) % 2 == 0 && Pow2(b) / 2 == Pow2(b - 1)
  {
    Pow2Small();
    Pow2Less(3, b);
  }

  /** When the array doubles, the number of leaves stays or doubles. */
  lemma LeafCountDoubles(g: Geometry, h: Geometry)
    requires GeometryOk(g) && GeometryOk(h) && h.N == 2 * g.N
    ensures LeafCount(h) == LeafCount(g) || LeafCount(h) == 2 * LeafCount(g)
  {
    var b := Bsr(g.N);
    assert Pow2(b + 1) == h.N;
    ExponentOf(h, b + 1);
    LeafExponentStep(b, LeafExponent(b), LeafExponent(b + 1));
  }

  /**
   Below 8 the tree collapses: an array of 4 slots is a single leaf, of height 0,
   and the density bounds divide by that height.
   */
  lemma FourSlotsCollapse()
    ensures 4 / LeafSize(4) > 0 && Resize(4) == Geometry(4, 4, 0)
  {
    Pow2Small();
    BsrUnique(4, 2);
    BsrUnique(5, 2);
    assert Bsr(4) * 2 + 1 == 5;
    assert LeafSize(4) == 4;
    BsrUnique(1, 0);
  }

  /** The size of a new array: `2 << bsr(max(n, 1024))`. */
  function FirstSize(n: nat): nat {
    2 * Pow2(Bsr(if n > 1024 then n else 1024))
  }

  lemma NewSize(n: nat)
    ensures var m := if n > 1024 then n else 1024; var size := FirstSize(n);
      && m < size <= 2 * m && size / LeafSize(size) > 0 && GeometryOk(Resize(size))
  {
    var m := if n > 1024 then n else 1024;
    var b := Bsr(m);
    Pow2Small();
    assert Pow2(b + 1) == 2 * Pow2(b);
    Pow2Exponent(b + 1, 3);
    ResizePow2(b + 1);
  }
}
