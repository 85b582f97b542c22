/**
 Powers of two and aligned intervals [p, p + 2^k), the shape of every page block.

 Alignment is defined by halving, so that the facts below are inductions over
 linear arithmetic; AlignedIsMod ties it to the remainder test that the kernel uses.
 */
module Dyadic {

  function Pow2(k: nat): (r: nat)
    ensures r > 0
  {
    if k == 0 then 1 else 2 * Pow2(k - 1)
  }

  predicate Aligned(p: nat, k: nat) {
    k == 0 || (p % 2 == 0 && Aligned(p / 2, k - 1))
  }

  lemma {:induction false} AlignedIsMod(p: nat, k: nat)
    ensures Aligned(p, k) <==> p % Pow2(k) == 0
  {
    if k > 0 {
      AlignedIsMod(p / 2, k - 1);
      HalfMod(p, Pow2(k - 1));
    }
  }

  /** A remainder modulo twice h is the remainder of the half modulo h, and the lowest bit. */
  lemma HalfMod(p: nat, h: nat)
    requires h > 0
    ensures p % (2 * h) == 2 * (p / 2 % h) + p % 2
  {
    var q, r := p / 2 / h, p / 2 % h;
    assert p / 2 == h * q + r;
    assert 2 * (h * q) == (2 * h) * q;
    DivModUnique(p, 2 * h, q, 2 * r + p % 2);
  }

  /** Quotient and remainder are the only ones: x == m * q + r with r < m determines both. */
  lemma DivModUnique(x: nat, m: nat, q: nat, r: nat)
    requires m > 0 && x == m * q + r && r < m
    ensures x / m == q && x % m == r
  {
    QuotientUnique(m, q, r, x / m, x % m);
  }

  lemma QuotientBounds(x: nat, m: nat)
    requires m > 0
    ensures x / m * m <= x < x / m * m + m
    ensures x % m == 0 ==> x / m * m == x
  {
  }

  lemma ExactQuotient(x: nat, m: nat)
    requires m > 0 && x % m == 0
    ensures x == x / m * m
  {
  }

  lemma RemainderBelow(x: nat, m: nat)
    requires m > 0
    ensures x % m <= x && x % m < m
    ensures x < m ==> x % m == x
  {
    if x < m {
      DivModUnique(x, m, 0, x);
    }
  }

  lemma QuotientUnique(m: nat, q: nat, r: nat, q': nat, r': nat)
    requires r < m && r' < m && m * q + r == m * q' + r'
    ensures q == q' && r == r'
  {
    if q < q' {
      ProductGrows(m, q, q');
    } else if q' < q {
      ProductGrows(m, q', q);
    }
  }

  lemma {:induction false} ProductGrows(m: nat, q: nat, q': nat)
    requires q < q'
    ensures m * q + m <= m * q'
    decreases q'
  {
    assert m * q' == m * (q' - 1) + m;
    if q + 1 < q' {
      ProductGrows(m, q, q' - 1);
    }
  }

  lemma MultiplesApart(m: nat, i: nat, j: nat)
    requires i * m < j * m
    ensures i * m + m <= j * m
  {
    if i < j {
      ProductGrows(m, i, j);
    } else if j < i {
      ProductGrows(m, j, i);
    }
  }

  lemma {:induction false} Pow2Monotone(j: nat, k: nat)
    requires j <= k
    ensures Pow2(j) <= Pow2(k)
    ensures j < k ==> 2 * Pow2(j) <= Pow2(k)
  {
    if j < k {
      Pow2Monotone(j, k - 1);
    }
  }

  lemma {:induction false} AlignedCoarse(p: nat, j: nat, k: nat)
    requires j <= k && Aligned(p, k)
    ensures Aligned(p, j)
  {
    if j > 0 {
      AlignedCoarse(p / 2, j - 1, k - 1);
    }
  }

  /** Two aligned intervals are disjoint or the smaller lies inside the larger. */
  lemma {:induction false} Nested(p: nat, j: nat, q: nat, k: nat)
    requires j <= k && Aligned(p, j) && Aligned(q, k)
    ensures p + Pow2(j) <= q || q + Pow2(k) <= p || (q <= p && p + Pow2(j) <= q + Pow2(k))
  {
    if j > 0 {
      Nested(p / 2, j - 1, q / 2, k - 1);
    }
  }

  /** The two halves of an aligned interval; only the lower one is aligned for the whole. */
  lemma {:induction false} Halves(p: nat, k: nat)
    requires Aligned(p, k + 1)
    ensures Aligned(p, k) && Aligned(p + Pow2(k), k) && !Aligned(p + Pow2(k), k + 1)
  {
    if k > 0 {
      Halves(p / 2, k - 1);
      assert (p + Pow2(k)) / 2 == p / 2 + Pow2(k - 1);
    }
  }

  /** An interval that is not the lower half of its parent is the upper half. */
  lemma {:induction false} UpperHalf(p: nat, k: nat)
    requires Aligned(p, k) && !Aligned(p, k + 1)
    ensures p >= Pow2(k) && Aligned(p - Pow2(k), k + 1)
  {
    if k > 0 {
      UpperHalf(p / 2, k - 1);
      assert (p - Pow2(k)) / 2 == p / 2 - Pow2(k - 1);
    }
  }

  lemma {:induction false} ZeroAligned(k: nat)
    ensures Aligned(0, k)
  {
    if k > 0 {
      ZeroAligned(k - 1);
    }
  }

  /** An aligned interval that starts inside [0, 2^n) ends inside it. */
  lemma FitsBelow(p: nat, k: nat, n: nat)
    requires k <= n && Aligned(p, k) && p < Pow2(n)
    ensures p + Pow2(k) <= Pow2(n)
  {
    ZeroAligned(n);
    Nested(p, k, 0, n);
  }

  /** x & -x for positive x: the largest power of two that divides it. */
  function LowBit(x: nat): (r: nat)
    requires x > 0
    ensures 0 < r <= x
  {
    if x % 2 == 1 then 1 else 2 * LowBit(x / 2)
  }

  /** Clearing the lowest set bit never leaves the enclosing aligned interval. */
  lemma {:induction false} LowBitStaysInside(x: nat, h: nat, j: nat)
    requires Aligned(h, j) && h < x < h + Pow2(j)
    ensures h <= x - LowBit(x)
  {
    if x % 2 == 0 {
      LowBitStaysInside(x / 2, h / 2, j - 1);
    }
  }

  lemma NextQuotient(s: nat, w: nat)
    requires w > 0
    ensures (s + 1) / w == s / w + (if (s + 1) % w == 0 then 1 else 0)
  {
    var q, r := (s + 1) / w, (s + 1) % w;
    assert s + 1 == w * q + r;
    if r == 0 {
      assert w * q == w * (q - 1) + w;
      DivModUnique(s, w, q - 1, w - 1);
    } else {
      DivModUnique(s, w, q, r - 1);
    }
  }
}
