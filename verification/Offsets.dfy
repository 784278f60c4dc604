/** Where clusters lie on the disk: `cluster_to_sector_16/32` and its 32-bit arithmetic. */
module Offsets {
  import opened Bytes

  /** The unsigned 32-bit product `a * k`, as a running sum. */
  function MulWord(a: nat, k: nat): nat {
    if k == 0 then 0 else (MulWord(a, k - 1) + a) % WORD
  }

  /** Reducing one summand does not change the reduced sum. */
  lemma ModAdd(x: nat, a: nat)
    ensures (x % WORD + a) % WORD == (x + a) % WORD
  {
    var q, y := x / WORD, x % WORD + a;
    assert x + a == q * WORD + y;
  }

  lemma MulStep(a: nat, k: nat)
    requires k != 0
    ensures a * k == a * (k - 1) + a && a * (k - 1) >= 0
  {
  }

  lemma {:induction false} MulWordIs(a: nat, k: nat)
    ensures MulWord(a, k) == (a * k) % WORD
  {
    if k != 0 {
      MulWordIs(a, k - 1);
      MulStep(a, k);
      var before: nat := a * (k - 1);
      ModAdd(before, a);
    }
  }

  /** `SECTOR * sectors_per_cluster * (cluster - 2)` in unsigned 32-bit arithmetic. */
  function Position(size: nat, c: nat): nat {
    MulWord(size, (c + WORD - 2) % WORD)
  }

  predicate Apart(p: nat, q: nat, size: nat) {
    p + size <= q || q + size <= p
  }

  /** The product does not wrap while the clusters below `n` fit in 2^32 bytes. */
  lemma PositionExact(size: nat, n: nat, c: nat)
    requires 0 < size && 2 <= c < n <= WORD && (n - 2) * size <= WORD
    ensures Position(size, c) == (c - 2) * size
    ensures Position(size, c) + size <= (n - 2) * size
  {
    assert (c + WORD - 2) % WORD == c - 2 by {
      assert c + WORD - 2 == WORD + (c - 2);
    }
    MulWordIs(size, c - 2);
    MulAtMost(size, c - 2 + 1, n - 2);
    assert (c - 2 + 1) * size == (c - 2) * size + size;
    assert size * (c - 2) == (c - 2) * size;
  }

  lemma MulAtMost(size: nat, a: nat, b: nat)
    requires a <= b
    ensures a * size <= b * size
  {
    assert b * size == a * size + (b - a) * size;
  }

  lemma PositionsApart(size: nat, n: nat, c: nat, d: nat)
    requires 0 < size && 2 <= c < n <= WORD && 2 <= d < n && c != d && (n - 2) * size <= WORD
    ensures Apart(Position(size, c), Position(size, d), size)
  {
    PositionExact(size, n, c);
    PositionExact(size, n, d);
    if c < d {
      MulAtMost(size, c - 2 + 1, d - 2);
      assert (c - 2 + 1) * size == (c - 2) * size + size;
    } else {
      MulAtMost(size, d - 2 + 1, c - 2);
      assert (d - 2 + 1) * size == (d - 2) * size + size;
    }
  }

  /**
   * For a cluster size that divides 2^32, the clusters 2 .. n-1 occupy disjoint byte ranges
   * if and only if they fit in 2^32 bytes altogether.
   */
  lemma DisjointIffFits(size: nat, n: nat)
    requires 0 < size && WORD % size == 0 && 2 <= n <= WORD
    ensures (forall c, d :: 2 <= c < d < n ==> Apart(Position(size, c), Position(size, d), size))
            <==> (n - 2) * size <= WORD
  {
    if (n - 2) * size <= WORD {
      forall c, d | 2 <= c < d < n
        ensures Apart(Position(size, c), Position(size, d), size)
      {
        PositionsApart(size, n, c, d);
      }
    } else {
      var m := WORD / size;
      assert m * size == WORD;
      if n - 2 <= m {
        MulAtMost(size, n - 2, m);
      }
      Wraps(size, m);
      assert Position(size, 2) == Position(size, 2 + m);
      assert !Apart(Position(size, 2), Position(size, 2 + m), size);
    }
  }

  /** The cluster 2^32 bytes further on lands on cluster 2 again. */
  lemma Wraps(size: nat, m: nat)
    requires 0 < size && 0 < m && m * size == WORD && m + 2 < WORD
    ensures Position(size, 2 + m) == 0 == Position(size, 2)
  {
    assert (2 + m + WORD - 2) % WORD == m;
    assert size * m == WORD;
    MulWordIs(size, m);
    assert (2 + WORD - 2) % WORD == 0;
  }
}
