/** Small facts about Euclidean division on naturals, used by the index arithmetic. */
module Arith {

  /** Division and remainder are determined by any quotient/remainder pair. */
  lemma DivModUnique(c: int, m: int, q: int, r: int)
    requires m > 0 && c == q * m + r && 0 <= r < m
    ensures c / m == q && c % m == r
  {
    var d := q - c / m;
    assert d * m == c % m - r;
  }

  /** Stepping the dividend by one either keeps the quotient or bumps it when the remainder wraps. */
  lemma DivStep(a: nat, m: nat)
    requires m > 0
    ensures (a + 1) % m == 0 ==> (a + 1) / m == a / m + 1
    ensures (a + 1) % m != 0 ==> (a + 1) / m == a / m && (a + 1) % m == a % m + 1
  {
    if a % m + 1 == m {
      DivModUnique(a + 1, m, a / m + 1, 0);
    } else {
      DivModUnique(a + 1, m, a / m, a % m + 1);
    }
  }

  /** j is at most a / m exactly when j * m is at most a. */
  lemma MulLeIffLeDiv(j: nat, a: nat, m: nat)
    requires m > 0
    ensures j * m <= a <==> j <= a / m
  {
    var q := a / m;
    assert a == q * m + a % m;
    if j <= q {
      assert j * m <= q * m;
    } else {
      assert j >= q + 1;
      assert j * m >= (q + 1) * m;
    }
  }

  /** Quotient bound: a product below n * m has a quotient below n. */
  lemma DivBelow(u: nat, m: nat, n: nat)
    requires m > 0 && u < n * m
    ensures u / m < n
  {
    MulLeIffLeDiv(n, u, m);
  }

  /** A block offset below one block keeps the sum below the next multiple. */
  lemma BlockBound(b: nat, bs: nat, off: nat, blocks: nat)
    requires b < blocks && off < bs
    ensures b * bs + off < blocks * bs
  {
    assert (b + 1) * bs <= blocks * bs;
  }

  /** Shifting by a remainder candidate below m: (b + rank) mod m is rank exactly when m divides b. */
  lemma ModShift(b: nat, rank: nat, m: nat)
    requires rank < m
    ensures (b + rank) % m == rank <==> b % m == 0
  {
    var q := b / m;
    var s := b % m;
    if s + rank < m {
      DivModUnique(b + rank, m, q, s + rank);
    } else {
      DivModUnique(b + rank, m, q + 1, s + rank - m);
    }
  }

  /** Removing a known remainder leaves an exact multiple. */
  lemma SubRemDiv(off: nat, m: nat, rank: nat)
    requires m > 0 && off % m == rank
    ensures (off - rank) / m == off / m && off == rank + (off / m) * m
  {
    DivModUnique(off - rank, m, off / m, 0);
  }
}
