/** Division by a positive divisor: truncating, as the source divides, and Euclidean. */
module Arithmetic {

  /** Integer division of the source: it truncates toward zero. */
  function TruncDiv(a: int, b: int): int
    requires b > 0
  {
    if a >= 0 then a / b else -((-a) / b)
  }

  /** The remainder of truncating division, with the sign of the dividend. */
  function TruncMod(a: int, b: int): int
    requires b > 0
  {
    a - TruncDiv(a, b) * b
  }

  lemma MulMono(a: int, b: int, c: int)
    requires a <= b && c > 0
    ensures a * c <= b * c
  {
  }

  lemma DivBounds(p: int, bs: int)
    requires bs > 0
    ensures (p / bs) * bs <= p < (p / bs) * bs + bs
  {
  }

  /** Quotients are unique. */
  lemma DivUnique(p: int, q: int, bs: int)
    requires bs > 0 && q * bs <= p < q * bs + bs
    ensures p / bs == q
  {
    DivBounds(p, bs);
    if p / bs < q {
      MulMono(p / bs + 1, q, bs);
    } else if p / bs > q {
      MulMono(q + 1, p / bs, bs);
    }
  }

  lemma DivMono(p: int, q: int, bs: int)
    requires bs > 0 && p <= q
    ensures p / bs <= q / bs
  {
    DivBounds(p, bs);
    DivBounds(q, bs);
    if p / bs > q / bs {
      MulMono(q / bs + 1, p / bs, bs);
    }
  }
}
