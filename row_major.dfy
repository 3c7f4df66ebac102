/**
 * Facts about the row-major numbering of the cells of a grid `w` cells wide:
 * cell `[r, c]` has number `r * w + c`, and number `i` is cell `[i / w, i % w]`.
 */
module RowMajor {
  /** Multiplying by a non-negative width preserves order. */
  lemma {:induction false} MulMonotone(a: int, b: int, w: int)
    requires a <= b && w >= 0
    ensures a * w <= b * w
  {
    assert b * w - a * w == (b - a) * w;
  }

  /** A remainder-quotient pair for a positive divisor is unique. */
  lemma {:induction false} DivModUnique(i: int, w: int, q: int, m: int)
    requires w > 0 && 0 <= m < w && i == q * w + m
    ensures i / w == q && i % w == m
  {
    var q', m' := i / w, i % w;
    assert i == q' * w + m';
    if q' > q {
      assert (q + 1) * w == q * w + w;
      MulMonotone(q + 1, q', w);
    } else if q' < q {
      assert (q' + 1) * w == q' * w + w;
      MulMonotone(q' + 1, q, w);
    }
  }

  /** Division and remainder by the row width recover a row-major index's row and column. */
  lemma Split(r: int, c: int, w: int)
    requires w > 0 && r >= 0 && 0 <= c < w
    ensures (r * w + c) / w == r && (r * w + c) % w == c
  {
    DivModUnique(r * w + c, w, r, c);
  }

  lemma Bound(r: int, c: int, w: int, h: int)
    requires 0 <= r < h && 0 <= c < w
    ensures 0 <= r * w + c < w * h
  {
    MulMonotone(0, r, w);
    MulMonotone(r, h - 1, w);
    assert (h - 1) * w == w * h - w;
  }

  lemma DivBound(i: int, w: int, h: int)
    requires w > 0 && 0 <= i < w * h
    ensures 0 <= i / w < h && 0 <= i % w < w
  {
    var q := i / w;
    assert i == q * w + i % w;
    if q < 0 {
      MulMonotone(q, -1, w);
    } else if q >= h {
      MulMonotone(h, q, w);
    }
  }

  lemma Recompose(i: int, w: int)
    requires w > 0 && i >= 0
    ensures (i / w) * w + i % w == i
  {
  }

  /** Number `i` is cell `[r, c]` exactly when `r` and `c` are its quotient and remainder. */
  lemma SameCell(r: int, c: int, i: int, w: int)
    requires w > 0 && r >= 0 && 0 <= c < w
    ensures r * w + c == i <==> r == i / w && c == i % w
  {
    Split(r, c, w);
    if r == i / w && c == i % w {
      Recompose(r * w + c, w);
    }
  }
}
