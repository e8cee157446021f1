/**
 Integer arithmetic behind the implicit tree: powers of two, the position of
 the highest set bit, and aligned windows.
 */
module Arithmetic {

  function Pow2(k: nat): (p: nat)
    ensures p >= 1
  {
    if k == 0 then 1 else 2 * Pow2(k - 1)
  }

  /** The `bsr` instruction: the index of the most significant 1-bit. */
  function Bsr(x: nat): (k: nat)
    requires x > 0
    ensures Pow2(k) <= x < 2 * Pow2(k)
  {
    if x == 1 then 0 else 1 + Bsr(x / 2)
  }

  lemma {:induction false} Pow2Monotone(i: nat, j: nat)
    requires i < j
    ensures 2 * Pow2(i) <= Pow2(j)
    decreases j
  {
    if i + 1 < j {
      Pow2Monotone(i, j - 1);
    }
  }

  lemma Pow2Small()
    ensures Pow2(1) == 2 && Pow2(2) == 4 && Pow2(3) == 8
  {
    assert Pow2(1) == 2 * Pow2(0);
    assert Pow2(2) == 2 * Pow2(1);
  }

  lemma Pow2Exponent(k: nat, e: nat)
    requires Pow2(e) <= Pow2(k)
    ensures e <= k
  {
    if k < e {
      Pow2Monotone(k, e);
    }
  }

  lemma BsrUnique(x: nat, k: nat)
    requires Pow2(k) <= x < 2 * Pow2(k)
    ensures x > 0 && Bsr(x) == k
  {
    var b := Bsr(x);
    if b < k {
      Pow2Monotone(b, k);
    } else if k < b {
      Pow2Monotone(k, b);
    }
  }

  lemma {:induction false} Pow2Add(i: nat, j: nat)
    ensures Pow2(i + j) == Pow2(i) * Pow2(j)
  {
    if i == 0 {
    } else {
      Pow2Add(i - 1, j);
      assert Pow2(i + j) == 2 * (Pow2(i - 1) * Pow2(j));
      assert (2 * Pow2(i - 1)) * Pow2(j) == 2 * (Pow2(i - 1) * Pow2(j));
    }
  }

  lemma DivBounds(x: nat, d: nat)
    requires d > 0
    ensures (x / d) * d <= x < (x / d) * d + d
  {
    assert x == (x / d) * d + x % d;
  }

  /** A quotient is pinned down by its two bounds. */
  lemma DivUnique(x: nat, d: nat, q: nat)
    requires d > 0 && q * d <= x < q * d + d
    ensures x / d == q
  {
    DivBounds(x, d);
    MulStep(x / d, q, d);
    MulStep(q, x / d, d);
  }

  lemma MulLess(a: nat, b: nat, c: nat)
    requires a * c < b * c
    ensures a < b
  {
    if b <= a {
      MulMonotone(b, a, c);
    }
  }

  lemma MulStep(a: nat, b: nat, c: nat)
    ensures a < b ==> a * c + c <= b * c
  {
    if a < b {
      MulMonotone(a + 1, b, c);
    }
  }

  lemma MulMonotone(a: nat, b: nat, c: nat)
    requires a <= b
    ensures a * c <= b * c
  {
    assert b * c == a * c + (b - a) * c;
  }

  /** The start of the aligned window of length `len` that holds `index`. */
  function WindowStart(index: nat, len: nat): nat
    requires len > 0
  {
    if index < len then 0 else len + WindowStart(index - len, len)
  }

  /** The number of the window of length `len` that holds `index`. */
  function LeafOf(index: nat, len: nat): nat
    requires len > 0
  {
    if index < len then 0 else 1 + LeafOf(index - len, len)
  }

  lemma {:induction false} LeafOfQuotient(index: nat, len: nat)
    requires len > 0
    ensures LeafOf(index, len) == index / len
  {
    DivBounds(index, len);
    if index < len {
      DivUnique(index, len, 0);
    } else {
      var q := (index - len) / len;
      LeafOfQuotient(index - len, len);
      DivBounds(index - len, len);
      assert (q + 1) * len == q * len + len;
      DivUnique(index, len, q + 1);
    }
  }

  /** `get_node_id`. */
  function NodeId(index: nat, len: nat): (r: nat)
    requires len > 0
    ensures r == LeafOf(index, len)
  {
    LeafOfQuotient(index, len);
    index / len
  }

  /** A window's start is in the window, and a later slot is in no earlier window. */
  lemma {:induction false} LeafOfStart(index: nat, len: nat)
    requires len > 0
    ensures LeafOf(WindowStart(index, len), len) == LeafOf(index, len)
  {
    if index >= len {
      LeafOfStart(index - len, len);
    }
  }

  lemma {:induction false} LeafOfMonotone(i: nat, j: nat, len: nat)
    requires len > 0 && i <= j
    ensures LeafOf(i, len) <= LeafOf(j, len)
  {
    if i >= len {
      LeafOfMonotone(i - len, j - len, len);
    }
  }

  /** `find_node`. */
  function FindNode(index: nat, len: nat): (r: nat)
    requires len > 0
    ensures r == WindowStart(index, len)
  {
    WindowStartQuotient(index, len);
    LeafOfQuotient(index, len);
    (index / len) * len
  }

  lemma {:induction false} WindowStartQuotient(index: nat, len: nat)
    requires len > 0
    ensures WindowStart(index, len) == LeafOf(index, len) * len
  {
    if index >= len {
      WindowStartQuotient(index - len, len);
      assert (LeafOf(index - len, len) + 1) * len == LeafOf(index - len, len) * len + len;
    }
  }

  lemma {:induction false} WindowStartBounds(index: nat, len: nat)
    requires len > 0
    ensures WindowStart(index, len) <= index < WindowStart(index, len) + len
    ensures WindowStart(WindowStart(index, len), len) == WindowStart(index, len)
  {
    if index >= len {
      WindowStartBounds(index - len, len);
    }
  }

  /** A window that starts inside an array of whole windows also ends inside it. */
  lemma WindowStartFits(index: nat, len: nat, blocks: nat)
    requires len > 0 && index < len * blocks
    ensures WindowStart(index, len) + len <= len * blocks
    ensures LeafOf(index, len) < blocks
  {
    WindowStartBounds(index, len);
    WindowStartQuotient(index, len);
    MulLess(LeafOf(index, len), blocks, len);
    MulStep(LeafOf(index, len), blocks, len);
  }

  /** Every slot of a window has that window as its own. */
  lemma {:induction false} WindowStartInside(start: nat, i: nat, len: nat)
    requires len > 0 && WindowStart(start, len) == start && start <= i < start + len
    ensures WindowStart(i, len) == start
  {
    if start >= len {
      WindowStartInside(start - len, i - len, len);
    }
  }

  /** The parent window starts at the window or one window before it. */
  lemma {:induction false} WindowStartParent(index: nat, len: nat)
    requires len > 0
    ensures WindowStart(WindowStart(index, len), 2 * len) == WindowStart(index, 2 * len)
    ensures WindowStart(WindowStart(index, 2 * len), len) == WindowStart(index, 2 * len)
    ensures WindowStart(index, 2 * len) == WindowStart(index, len)
         || WindowStart(index, 2 * len) + len == WindowStart(index, len)
  {
    if index >= 2 * len {
      WindowStartParent(index - 2 * len, len);
      assert WindowStart(index, len) == len + WindowStart(index - len, len);
    }
  }

  // ---------------------------------------------------------------- products

  /** A product, by repeated addition. */
  function Times(k: nat, x: int): (p: int)
    ensures x >= 0 ==> p >= 0
  {
    if k == 0 then 0 else Times(k - 1, x) + x
  }

  lemma {:induction false} TimesProduct(k: nat, x: int)
    ensures Times(k, x) == k * x
  {
    if k > 0 {
      TimesProduct(k - 1, x);
      assert k * x == (k - 1) * x + x;
    }
  }

  lemma {:induction false} TimesStep(i: nat, j: nat, x: nat)
    requires i < j
    ensures Times(i, x) + x <= Times(j, x)
    decreases j
  {
    if i < j - 1 {
      TimesStep(i, j - 1, x);
    }
  }
}
