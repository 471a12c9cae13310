/** Facts about Euclidean division by a positive divisor that the index arithmetic relies on. */
module DivMod {

  lemma MulIsMonotonic(x: int, y: int, d: int)
    requires x <= y && d >= 0
    ensures x * d <= y * d
  {
    var m := y - x;
    assert y * d == x * d + m * d;
    assert m * d >= 0;
  }

  /** `q` is the quotient of `a` by `d` exactly when `a` lies in the q-th block of `d`. */
  lemma DivIsUnique(a: int, d: int, q: int)
    requires d > 0
    ensures a / d == q <==> q * d <= a < q * d + d
  {
    var r := a / d;
    assert a == r * d + a % d;
    if q < r {
      MulIsMonotonic(q + 1, r, d);
      assert (q + 1) * d == q * d + d;
    } else if r < q {
      MulIsMonotonic(r + 1, q, d);
      assert (r + 1) * d == r * d + d;
    }
  }

  /** Division of a block offset: (q*d + r) / d == q and (q*d + r) % d == r for 0 <= r < d. */
  lemma DivModOfBlock(q: int, r: int, d: int)
    requires d > 0 && 0 <= r < d
    ensures (q * d + r) / d == q && (q * d + r) % d == r
  {
    var a := q * d + r;
    DivIsUnique(a, d, q);
    assert a == (a / d) * d + a % d;
  }

  /** Dividing a sum: (a + b) / d is a / d + b / d, or one more. */
  lemma DivOfSum(a: int, b: int, d: int)
    requires d > 0
    ensures a / d + b / d <= (a + b) / d <= a / d + b / d + 1
  {
    var qa, qb, ra, rb := a / d, b / d, a % d, b % d;
    assert a == qa * d + ra && b == qb * d + rb;
    assert a + b == (qa + qb) * d + (ra + rb);
    if ra + rb < d {
      DivModOfBlock(qa + qb, ra + rb, d);
    } else {
      assert a + b == (qa + qb + 1) * d + (ra + rb - d);
      DivModOfBlock(qa + qb + 1, ra + rb - d, d);
    }
  }

  /** Division is monotonic in the dividend. */
  lemma DivIsMonotonic(a: int, b: int, d: int)
    requires d > 0 && a <= b
    ensures a / d <= b / d
  {
    DivOfSum(a, b - a, d);
    DivIsUnique(b - a, d, (b - a) / d);
    if (b - a) / d < 0 {
      MulIsMonotonic((b - a) / d + 1, 0, d);
    }
  }

  /** An offset below q blocks of `d` lies in a block before the q-th. */
  lemma DivBelow(x: int, q: int, d: int)
    requires d > 0 && 0 <= x < q * d
    ensures x / d < q
  {
    DivIsUnique(x, d, x / d);
    if x / d >= q {
      MulIsMonotonic(q, x / d, d);
    }
  }

  /** `a` lies in the q-th block of `d` exactly when a / d == q, and then its offset there is a % d. */
  lemma BlockOffset(a: int, d: int, q: int)
    requires d > 0
    ensures a / d == q <==> q * d <= a < q * d + d
    ensures a / d == q ==> a % d == a - q * d
  {
    DivIsUnique(a, d, q);
    assert a == (a / d) * d + a % d;
  }

  /** Row-major position r * g + c, with column c below g, names the cell (idx / g, idx % g). */
  lemma RowMajorPosition(r: int, c: int, g: int, idx: int)
    requires g > 0 && 0 <= c < g
    ensures r * g + c == idx <==> r == idx / g && c == idx % g
  {
    if r * g + c == idx {
      DivModOfBlock(r, c, g);
    }
    assert idx == (idx / g) * g + idx % g;
  }
}
