/** Result types and the power-of-two arithmetic that the rest of the model shares. */
module Basics {
  datatype Option<+T> = None | Some(value: T)

  datatype Result<+T, +E> = Ok(value: T) | Err(error: E)

  ghost predicate Distinct<T>(s: seq<T>) {
    forall i, j :: 0 <= i < j < |s| ==> s[i] != s[j]
  }

  /** The indices below `n` that are kept, each once and in ascending order. */
  ghost predicate Picks(indices: seq<nat>, n: nat, keep: nat -> bool) {
    && (forall a, b :: 0 <= a < b < |indices| ==> indices[a] < indices[b])
    && forall k: nat :: k in indices <==> k < n && keep(k)
  }

  lemma PicksStep(indices: seq<nat>, n: nat, keep: nat -> bool)
    requires Picks(indices, n, keep)
    ensures Picks(if keep(n) then indices + [n] else indices, n + 1, keep)
  {
    forall a | 0 <= a < |indices| ensures indices[a] < n {
      assert indices[a] in indices;
    }
  }

  function Pow2(k: nat): (r: nat)
    ensures r >= 1
  {
    if k == 0 then 1 else 2 * Pow2(k - 1)
  }

  lemma {:induction false} Pow2Add(a: nat, b: nat)
    ensures Pow2(a + b) == Pow2(a) * Pow2(b)
  {
    if a > 0 {
      Pow2Add(a - 1, b);
      assert a + b - 1 == (a - 1) + b;
      assert 2 * (Pow2(a - 1) * Pow2(b)) == (2 * Pow2(a - 1)) * Pow2(b);
    }
  }

  lemma {:induction false} Pow2Monotone(a: nat, b: nat)
    requires a < b
    ensures 2 * Pow2(a) <= Pow2(b)
  {
    if a + 1 < b {
      Pow2Monotone(a, b - 1);
    }
  }

  lemma PowerValues()
    ensures Pow2(7) == 0x80 && Pow2(8) == 0x100 && Pow2(16) == 0x1_0000 && Pow2(17) == 0x2_0000
    ensures Pow2(20) == 0x10_0000 && Pow2(24) == 0x100_0000 && Pow2(32) == 0x1_0000_0000
  {
    assert Pow2(4) == 16 by { assert Pow2(2) == 4; Pow2Add(2, 2); }
    Pow2Add(4, 4);
    assert Pow2(8) == 2 * Pow2(7);
    Pow2Add(8, 8);
    Pow2Add(16, 1);
    Pow2Add(16, 4);
    Pow2Add(16, 8);
    Pow2Add(16, 16);
  }

  lemma RemainderBound(n: nat, d: nat)
    requires d >= 1
    ensures 0 <= n % d <= n && n % d < d
  {
    if n >= d {
      assert n % d < d;
    } else {
      QuotientUnique(n, d, 0, n);
    }
  }

  /** The quotient is the block of size `d` that a number lies in. */
  lemma SameBlock(x: nat, y: nat, d: nat)
    requires d >= 1
    ensures x / d == y / d <==> y - y % d <= x < y - y % d + d
  {
    QuotientOrder(d, x / d, x % d, y / d);
    assert y == d * (y / d) + y % d;
    assert x == d * (x / d) + x % d;
  }

  lemma QuotientOrder(d: nat, q: nat, r: nat, p: nat)
    requires r < d
    ensures q == p <==> d * p <= d * q + r < d * p + d
  {
    if q < p {
      BlockOrder(q, p, d);
    } else if q > p {
      BlockOrder(p, q, d);
    }
  }

  lemma BlockOrder(a: nat, b: nat, d: nat)
    requires a < b
    ensures d * a + d <= d * b
  {
    assert d * b == d * (a + 1) + d * (b - a - 1);
    assert d * (b - a - 1) >= 0;
    assert d * (a + 1) == d * a + d;
  }

  /** A block of size `m == d * e` is a block of `e` blocks of size `d`. */
  lemma NestedBlocks(x: nat, d: nat, e: nat, m: nat)
    requires d >= 1 && e >= 1 && m == d * e
    ensures m >= 1
    ensures x / m == (x / d) / e
  {
    Euclid(x, d);
    Euclid(x / d, e);
    TwoLevels(x, d, e, m, x / d, x % d, x / d / e, x / d % e);
  }

  lemma Euclid(x: nat, d: nat)
    requires d >= 1
    ensures x == d * (x / d) + x % d && x % d < d
  {
  }

  lemma TwoLevels(x: nat, d: nat, e: nat, m: nat, q: nat, r: nat, big: nat, middle: nat)
    requires x == d * q + r && r < d && q == e * big + middle && middle < e && m == d * e
    ensures m >= 1 && x / m == big
  {
    Regroup(d, e, big, middle, r);
    QuotientUnique(x, m, big, d * middle + r);
  }

  lemma Regroup(d: nat, e: nat, big: nat, middle: nat, small: nat)
    requires middle < e && small < d
    ensures d * (e * big + middle) + small == (d * e) * big + (d * middle + small)
    ensures d * middle + small < d * e
    ensures d * e >= 1
  {
    BlockOrder(middle, e, d);
    assert d * (e * big) == (d * e) * big;
  }

  lemma OneMore(n: nat, m: nat)
    ensures (n + 1) * m == n * m + m
  {
  }

  lemma QuotientUnique(x: nat, d: nat, q: nat, r: nat)
    requires r < d && x == d * q + r
    ensures x / d == q && x % d == r
  {
    assert x == d * (x / d) + x % d;
    QuotientOrder(d, x / d, x % d, q);
    QuotientOrder(d, q, r, x / d);
  }
}
