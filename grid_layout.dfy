/**
 * The grid of create_image_mosaic (src/mosaic_creator.py, lines 52 and 57-59):
 * a square of side ceil(sqrt(num_images)), filled in row-major order.
 */
module GridLayout {
  import opened DivMod

  function Square(k: nat): nat {
    k * k
  }

  lemma SquareIsNotSmaller(g: nat)
    ensures g <= Square(g)
  {
    if g > 0 {
      MulIsMonotonic(1, g, g);
    }
  }

  /** The least side, not below `g`, whose square holds `n` cells. */
  function GridFrom(n: nat, g: nat): (side: nat)
    requires forall k :: 0 <= k < g ==> Square(k) < n
    ensures Square(side) >= n && g <= side
    ensures forall k :: 0 <= k < side ==> Square(k) < n
    decreases n - g
  {
    if Square(g) >= n then g
    else
      SquareIsNotSmaller(g);
      GridFrom(n, g + 1)
  }

  /** int(np.ceil(np.sqrt(n))), computed exactly: the least g with g * g >= n. */
  function GridSize(n: nat): (g: nat)
    ensures Square(g) >= n
    ensures forall k :: 0 <= k < g ==> Square(k) < n
  {
    GridFrom(n, 0)
  }

  lemma GridSizeExamples()
    ensures GridSize(1) == 1 && GridSize(9) == 3 && GridSize(10) == 4 && GridSize(16) == 4
  {
    assert Square(0) == 0 && Square(1) == 1 && Square(2) == 4 && Square(3) == 9 && Square(4) == 16;
  }

  /** A positive count needs a positive side, and the side never exceeds the count. */
  lemma GridSizeBounds(n: nat)
    requires n >= 1
    ensures 1 <= GridSize(n) <= n
  {
    var g := GridSize(n);
    if g > n {
      assert Square(n) < n;
      SquareIsNotSmaller(n);
    }
  }

  /**
   * Tile `idx` goes to row idx / g and column idx % g. For the first `count`
   * tiles, with count at most g * g, every cell lies inside the g-by-g grid and
   * the cells follow one another in row-major order, so no two tiles share one.
   */
  lemma {:induction false} CellsFillGridRowMajor(count: nat, g: nat)
    requires g > 0 && count <= Square(g)
    ensures forall idx :: 0 <= idx < count ==> idx / g < g && idx % g < g && idx == (idx / g) * g + idx % g
    ensures forall i, j :: 0 <= i < j < count ==> i / g < j / g || (i / g == j / g && i % g < j % g)
    ensures forall i, j :: 0 <= i < count && 0 <= j < count && i != j ==> (i / g, i % g) != (j / g, j % g)
  {
    forall idx | 0 <= idx < count ensures idx / g < g && idx % g < g && idx == (idx / g) * g + idx % g {
      DivBelow(idx, g, g);
    }
    forall i, j | 0 <= i < j < count ensures i / g < j / g || (i / g == j / g && i % g < j % g) {
      DivIsMonotonic(i, j, g);
      if i / g == j / g {
        assert i == (i / g) * g + i % g && j == (j / g) * g + j % g;
      }
    }
  }
}
