/** Facts about multiplication, division and remainder that row-major
    addressing (`row * stride + column`) needs and the solver does not find
    on its own. */
module Arith {

  lemma MulAtLeast(a: int, s: int)
    requires a >= 1 && s > 0
    ensures a * s >= s
  {
    assert a * s == (a - 1) * s + s;
    assert (a - 1) * s >= 0;
  }

  /** Multiplying by a non-negative factor preserves order. */
  lemma MulMonotone(a: int, b: int, s: int)
    requires a <= b && s >= 0
    ensures a * s <= b * s
  {
    assert b * s - a * s == (b - a) * s;
    assert (b - a) * s >= 0;
  }

  /** Row-major addresses are unique: a row and an in-row column are
      recovered from `row * s + column`. */
  lemma DivModUnique(q1: int, r1: int, q2: int, r2: int, s: int)
    requires s > 0 && 0 <= r1 < s && 0 <= r2 < s
    requires q1 * s + r1 == q2 * s + r2
    ensures q1 == q2 && r1 == r2
  {
    if q1 < q2 {
      assert q2 * s - q1 * s == (q2 - q1) * s;
      MulAtLeast(q2 - q1, s);
    } else if q2 < q1 {
      assert q1 * s - q2 * s == (q1 - q2) * s;
      MulAtLeast(q1 - q2, s);
    }
  }

  lemma DivModOf(q: int, r: int, s: int)
    requires s > 0 && 0 <= r < s
    ensures (q * s + r) / s == q && (q * s + r) % s == r
  {
    var i := q * s + r;
    assert i == (i / s) * s + i % s;
    DivModUnique(i / s, i % s, q, r, s);
  }

  /** The byte of row `dy`, column `c` lies inside a buffer holding `h` rows
      of `s` bytes when `c < s`. */
  lemma RowMajorBound(dy: int, c: int, s: int, h: int)
    requires 0 <= dy < h && 0 <= c < s
    ensures 0 <= dy * s + c < h * s
    ensures dy * s + s <= h * s
  {
    MulMonotone(dy + 1, h, s);
    MulMonotone(0, dy, s);
  }

  /** Column q, bit r of a byte-aligned row starting at a. */
  lemma ByteColumn(a: int, q: int, r: int)
    requires a % 8 == 0 && 0 <= r < 8
    ensures (a + 8 * q + r) % 8 == r && (8 * q + r) / 8 == q
  {
    DivModOf(q, r, 8);
    DivModOf(a / 8 + q, r, 8);
    assert a + 8 * q + r == (a / 8 + q) * 8 + r;
  }

  /** An index below `rows * s` lies in one of the `rows` rows of s. */
  lemma RowOfIndex(j: int, s: int, rows: int)
    requires s > 0 && 0 <= j < rows * s
    ensures 0 <= j / s < rows && 0 <= j % s < s
  {
    assert j == (j / s) * s + j % s;
    if j / s >= rows {
      MulMonotone(rows, j / s, s);
    }
  }

  /** Eight times q is a whole number of bytes of q each. */
  lemma MulEight(q: int)
    ensures (8 * q) % 8 == 0 && (8 * q) / 8 == q
  {
    DivModOf(q, 0, 8);
    assert 8 * q == q * 8 + 0;
  }
}
