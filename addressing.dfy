/** Cell addressing: from a signed cell id to an index of the finite catalog, and from a
    catalog index to a slot of the square texture atlas. */
module CellAddressing {
  import opened GalleryTypes

  /** The row multiplier of the tiling rule `x + 3·y`. */
  const ROW_STRIDE: int := 3

  /** Euclidean division is the unique decomposition with a remainder in [0, m). */
  lemma DivModUnique(a: int, m: int, q: int, r: int)
    requires m > 0 && a == q * m + r && 0 <= r < m
    ensures a / m == q && a % m == r
  {
    var q0, r0 := a / m, a % m;
    assert a == q0 * m + r0;
    assert (q - q0) * m == r0 - r;
    if q > q0 {
      assert (q - q0) * m >= m by { MulAtLeast(q - q0, m); }
    } else if q < q0 {
      assert (q0 - q) * m >= m by { MulAtLeast(q0 - q, m); }
    }
  }

  lemma MulAtLeast(d: int, m: int)
    requires d >= 1 && m > 0
    ensures d * m >= m
  {
    assert d * m == (d - 1) * m + m;
  }

  /** Two integers that differ by a multiple of m leave the same Euclidean remainder. */
  lemma {:induction false} ModShift(a: int, k: int, m: int)
    requires m > 0
    ensures (a + k * m) % m == a % m
  {
    DivModUnique(a + k * m, m, a / m + k, a % m);
  }

  /** JavaScript's `%` on integral operands: the remainder of truncating division, which
      takes the sign of the dividend. Only positive divisors occur in the gallery. */
  function JsRemainder(n: int, m: int): (r: int)
    requires m > 0
    ensures -m < r < m
    ensures n >= 0 ==> r >= 0
    ensures n <= 0 ==> r <= 0
    ensures (n - r) % m == 0
  {
    JsRemainderCongruent(n, m);
    if n >= 0 then n % m else -((-n) % m)
  }

  lemma JsRemainderCongruent(n: int, m: int)
    requires m > 0
    ensures n >= 0 ==> (n - n % m) % m == 0
    ensures n < 0 ==> (n + (-n) % m) % m == 0
  {
    if n >= 0 {
      var q := n / m;
      assert n - n % m == q * m;
      MultipleOf(q, m);
    } else {
      var k := -n;
      var q := k / m;
      assert k == q * m + k % m;
      assert n + k % m == (-q) * m;
      MultipleOf(-q, m);
    }
  }

  lemma MultipleOf(q: int, m: int)
    requires m > 0
    ensures (q * m) % m == 0
  {
    DivModUnique(q * m, m, q, 0);
  }

  /** `positiveModulo(n, m) = ((n % m) + m) % m` (components/Gallery.tsx:41): it always
      lands in [0, m) and agrees with the mathematical (Euclidean) modulus. */
  function PositiveModulo(n: int, m: int): (r: int)
    requires m > 0
    ensures 0 <= r < m
    ensures r == n % m
  {
    var t := JsRemainder(n, m);
    var s := JsRemainder(t + m, m);
    assert s == (t + m) % m;
    ModShift(t, 1, m);
    assert (n - t) % m == 0;
    ModShift(t, (n - t) / m, m);
    assert t + (n - t) / m * m == n;
    s
  }

  /** The catalog index of a cell: `positiveModulo(floor x + floor y · 3, N)`
      (components/Gallery.tsx:122-126). */
  function CatalogIndex(c: CellId, n: int): (i: int)
    requires n > 0
    ensures 0 <= i < n
    ensures i == (c.x + ROW_STRIDE * c.y) % n
  {
    PositiveModulo(c.x + c.y * ROW_STRIDE, n)
  }

  /** The cell to the left of the origin shows the last catalog item. */
  lemma CatalogIndexLeftOfOrigin(n: int)
    requires n > 0
    ensures CatalogIndex(CellId(-1, 0), n) == n - 1
  {
    DivModUnique(-1, n, -1, n - 1);
  }

  /** The tiling repeats every N cells along either axis, and one row up and three cells
      to the left shows the same item again. */
  lemma CatalogIndexPeriodic(c: CellId, n: int)
    requires n > 0
    ensures CatalogIndex(CellId(c.x + n, c.y), n) == CatalogIndex(c, n)
    ensures CatalogIndex(CellId(c.x, c.y + n), n) == CatalogIndex(c, n)
    ensures CatalogIndex(CellId(c.x - ROW_STRIDE, c.y + 1), n) == CatalogIndex(c, n)
  {
    var a := c.x + ROW_STRIDE * c.y;
    ModShift(a, 1, n);
    ModShift(a, ROW_STRIDE, n);
    assert c.x + n + ROW_STRIDE * c.y == a + 1 * n;
    assert c.x + ROW_STRIDE * (c.y + n) == a + ROW_STRIDE * n;
    assert c.x - ROW_STRIDE + ROW_STRIDE * (c.y + 1) == a;
  }

  /** Every catalog item is shown somewhere on the first row of the grid. */
  lemma CatalogIndexOnto(i: int, n: int)
    requires 0 <= i < n
    ensures CatalogIndex(CellId(i, 0), n) == i
  {
    DivModUnique(i, n, 0, i);
  }

  /** The floor of a real quotient of integers is their Euclidean quotient (for a positive
      divisor); the GLSL `mod` and `floor` of the shader rest on it. */
  lemma RealFloorOfQuotient(a: int, n: int)
    requires n > 0
    ensures (a as real / n as real).Floor == a / n
  {
    var q, r := a / n, a % n;
    var nr := n as real;
    var z := a as real / nr;
    var f := r as real / nr;
    assert a == q * n + r;
    assert a as real == q as real * nr + r as real;
    assert z == q as real + f by {
      assert (q as real * nr + r as real) / nr == q as real + r as real / nr;
    }
    assert 0.0 <= f < 1.0 by {
      assert 0.0 <= r as real < nr;
    }
  }

  /** `Math.ceil(Math.sqrt(n))` on a catalog size: the least g with g·g ≥ n. */
  function CeilSqrt(n: nat): (g: nat)
    ensures n <= g * g
    ensures g > 0 ==> (g - 1) * (g - 1) < n
  {
    CeilSqrtFrom(n, 0)
  }

  function CeilSqrtFrom(n: nat, k: nat): (g: nat)
    requires k == 0 || (k - 1) * (k - 1) < n
    ensures n <= g * g
    ensures g > 0 ==> (g - 1) * (g - 1) < n
    decreases n - k
  {
    if n <= k * k then
      k
    else
      assert k <= k * k || k == 0;
      CeilSqrtFrom(n, k + 1)
  }

  lemma SquareMonotone(a: nat, b: nat)
    requires a <= b
    ensures a * a <= b * b
  {
    assert b * b - a * a == (b - a) * (b + a);
  }

  /** No smaller grid holds n slots. */
  lemma CeilSqrtIsLeast(n: nat, h: nat)
    requires n <= h * h
    ensures CeilSqrt(n) <= h
  {
    var g := CeilSqrt(n);
    if h < g {
      SquareMonotone(h, g - 1);
    }
  }

  /** Atlas slot of catalog index i in a grid of side g: column i mod g, row i div g
      (utils/gallery-helpers.ts:37-38, src/gl/shaders.ts:94). */
  function SlotColumn(i: nat, g: nat): nat requires g > 0 { i % g }
  function SlotRow(i: nat, g: nat): nat requires g > 0 { i / g }

  /** Every index of a catalog of n items has its slot inside the CeilSqrt(n) grid, and
      column and row together determine the index. */
  lemma SlotInGrid(i: nat, n: nat)
    requires i < n
    ensures CeilSqrt(n) > 0
    ensures SlotColumn(i, CeilSqrt(n)) < CeilSqrt(n)
    ensures SlotRow(i, CeilSqrt(n)) < CeilSqrt(n)
    ensures SlotRow(i, CeilSqrt(n)) * CeilSqrt(n) + SlotColumn(i, CeilSqrt(n)) == i
  {
    var g := CeilSqrt(n);
    assert g > 0;
    QuotientBelow(i, g, g);
  }

  /** A coordinate inside g blocks of width `size` falls in one of them. */
  lemma QuotientBelow(v: nat, size: nat, g: nat)
    requires size > 0 && v < g * size
    ensures v / size < g
  {
    var q := v / size;
    assert q * size <= v;
    assert (g - q) * size > 0 by { assert (g - q) * size == g * size - q * size; }
  }

  lemma MulMonotone(k: nat, a: nat, b: nat)
    requires a <= b
    ensures k * a <= k * b
  {
    assert k * b - k * a == k * (b - a);
  }
}
