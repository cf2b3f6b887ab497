/** Small facts about integer multiplication and division used by the
    offset arithmetic of the encoder and of the hit tests. */
module Arith {

  lemma MulNonneg(a: int, b: int)
    requires a >= 0 && b >= 0
    ensures a * b >= 0
  {
  }

  lemma MulSubRight(a: int, b: int, c: int)
    ensures (a - b) * c == a * c - b * c
  {
  }

  lemma MulAddRight(a: int, b: int, c: int)
    ensures (a + b) * c == a * c + b * c
  {
  }

  /** a <= b and c >= 0 give a * c <= b * c. */
  lemma MulMonoRight(a: int, b: int, c: int)
    requires a <= b && c >= 0
    ensures a * c <= b * c
  {
    MulNonneg(b - a, c);
    MulSubRight(b, a, c);
  }

  /** a * c < b * c with c > 0 gives a < b. */
  lemma MulCancelLt(a: int, b: int, c: int)
    requires c > 0 && a * c < b * c
    ensures a < b
  {
    if b <= a {
      MulMonoRight(b, a, c);
    }
  }

  /** Euclidean division of r * s + c by s, for 0 <= c < s. */
  lemma DivModOf(r: int, c: int, s: int)
    requires 0 <= c < s
    ensures (r * s + c) / s == r && (r * s + c) % s == c
  {
    var p := r * s + c;
    var q, m := p / s, p % s;
    assert p == q * s + m;
    MulSubRight(q, r, s);
    assert (q - r) * s == c - m;
    if q > r {
      MulMonoRight(1, q - r, s);
    } else if q < r {
      MulMonoRight(1, r - q, s);
    }
  }

  /** A position inside an s-by-h block has a row below h; this also
      forces s > 0. */
  lemma RowInBlock(p: int, s: int, h: int)
    requires s >= 0 && h >= 0 && 0 <= p < s * h
    ensures s > 0 && 0 <= p / s < h
  {
    var q := p / s;
    assert p == q * s + p % s;
    MulCancelLt(q, h, s);
  }

  /** The row-major index of cell (i, j) of an h-by-w grid is below w * h. */
  lemma CellIndex(i: int, j: int, w: int, h: int)
    requires 0 <= i < h && 0 <= j < w
    ensures 0 <= i * w + j < w * h
  {
    MulNonneg(i, w);
    MulMonoRight(i + 1, h, w);
    MulAddRight(i, 1, w);
  }

  /** For a >= 0 and w > 0: a / w < g exactly when a < g * w. */
  lemma DivLtIff(a: int, w: int, g: int)
    requires a >= 0 && w > 0
    ensures a / w < g <==> a < g * w
  {
    var q, r := a / w, a % w;
    assert a == q * w + r;
    if q < g {
      MulMonoRight(q + 1, g, w);
      MulAddRight(q, 1, w);
    } else {
      MulMonoRight(g, q, w);
    }
  }

  /** For g > 0: g * x < g * w exactly when x < w. */
  lemma MulLtIff(g: int, x: int, w: int)
    requires g > 0
    ensures g * x < g * w <==> x < w
  {
    if x < w {
      MulMonoRight(x + 1, w, g);
      MulAddRight(x, 1, g);
    } else {
      MulMonoRight(w, x, g);
    }
  }
}
