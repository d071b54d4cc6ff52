/**
 * Integer facts the assignment loops rely on: Euclidean division by a positive
 * divisor, and the successor of a position round a circle, which the source
 * writes as (i + 1) % n.
 */
module Arith {

  lemma MulAtLeast(d: int, r: int)
    requires r > 0
    ensures d >= 1 ==> d * r >= r
    ensures d <= -1 ==> d * r <= -r
  {
    if d >= 1 {
      assert d * r == (d - 1) * r + r;
    } else if d <= -1 {
      assert d * r == (d + 1) * r - r;
    }
  }

  /** Euclidean division is unique: n == q * r + t with 0 <= t < r pins down n / r and n % r. */
  lemma DivModUnique(n: int, r: int, q: int, t: int)
    requires r > 0 && 0 <= t < r && n == q * r + t
    ensures n / r == q && n % r == t
  {
    var q', t' := n / r, n % r;
    assert n == q' * r + t';
    var d := q - q';
    assert d * r == q * r - q' * r;
    assert d * r == t' - t;
    MulAtLeast(d, r);
  }

  lemma DivModSplit(p: int, r: int)
    requires r > 0
    ensures p == (p / r) * r + p % r
    ensures 0 <= p % r < r
  {
  }

  /** Below n, the quotient is at most n's, and when equal the remainder is smaller. */
  lemma DivLess(i: int, n: int, r: int)
    requires r > 0 && 0 <= i < n
    ensures i / r <= n / r
    ensures i / r == n / r ==> i % r < n % r
  {
    DivModSplit(i, r);
    DivModSplit(n, r);
    var d := i / r - n / r;
    assert d * r == (i / r) * r - (n / r) * r;
    MulAtLeast(d, r);
  }

  lemma DivModNext(p: nat, r: nat)
    requires r > 0
    ensures p % r + 1 < r ==> (p + 1) / r == p / r && (p + 1) % r == p % r + 1
    ensures p % r + 1 == r ==> (p + 1) / r == p / r + 1 && (p + 1) % r == 0
  {
    var q, t := p / r, p % r;
    assert p == q * r + t;
    if t + 1 < r {
      DivModUnique(p + 1, r, q, t + 1);
    } else {
      assert p + 1 == (q + 1) * r + 0;
      DivModUnique(p + 1, r, q + 1, 0);
    }
  }

  /** The position after i round a circle of n: the next one, the last wrapping to the first. */
  function Successor(i: nat, n: nat): (j: nat)
    requires i < n
    ensures j < n
    ensures j == 0 <==> i == n - 1
  {
    if i + 1 < n then i + 1 else 0
  }

  /** The successor is the source's (i + 1) % n. */
  lemma SuccessorIsModulo(i: nat, n: nat)
    requires i < n
    ensures Successor(i, n) == (i + 1) % n
  {
    if i + 1 < n {
      DivModUnique(i + 1, n, 0, i + 1);
    } else {
      DivModUnique(i + 1, n, 1, 0);
    }
  }

  /** Below the divisor, the remainder is the number itself. */
  lemma ModSmall(i: int, n: int)
    requires 0 <= i < n
    ensures i % n == i && i / n == 0
  {
    DivModUnique(i, n, 0, i);
  }
}
