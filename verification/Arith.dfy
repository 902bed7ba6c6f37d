/** The few facts about multiplication, division and remainder that the models need. */
module Arith {

  lemma MulMonotone(a: int, b: int, c: int)
    requires a <= b && 0 <= c
    ensures a * c <= b * c
  {
  }

  lemma Distribute(a: int, b: int, c: int)
    ensures (a + b) * c == a * c + b * c
  {
  }

  /** Quotient and remainder are determined by their defining equation. */
  lemma DivUnique(x: int, c: int, q: int, r: int)
    requires 0 <= r < c && x == q * c + r
    ensures x / c == q && x % c == r
  {
    var q', r' := x / c, x % c;
    assert x == q' * c + r';
    if q' < q {
      MulMonotone(q' + 1, q, c);
      Distribute(q', 1, c);
    } else if q < q' {
      MulMonotone(q + 1, q', c);
      Distribute(q, 1, c);
    }
  }

  lemma DivMod(x: int, c: int)
    requires 0 < c
    ensures x == (x / c) * c + x % c && 0 <= x % c < c
  {
  }

  /** FLA_CEIL_DIV. */
  function CeilDiv(x: nat, y: nat): nat
    requires 0 < y
  {
    (x + y - 1) / y
  }

  /** Adding whole multiples of c moves the quotient and keeps the remainder. */
  lemma DivModShift(x: int, c: int, k: int)
    requires 0 < c
    ensures (x + k * c) / c == x / c + k && (x + k * c) % c == x % c
  {
    DivMod(x, c);
    Distribute(x / c, k, c);
    DivUnique(x + k * c, c, x / c + k, x % c);
  }

  lemma ModCancel(a: int, k: int, k': int, n: int)
    requires 0 < n && (a + k) % n == (a + k') % n
    ensures k % n == k' % n
  {
    var d := (a + k') / n - (a + k) / n;
    DivMod(a + k, n);
    DivMod(a + k', n);
    Distribute((a + k') / n, -((a + k) / n), n);
    assert k' == k + d * n;
    DivModShift(k, n, d);
  }

  lemma MultipleSum(x: int, y: int, b: int)
    requires 0 < b && x % b == 0 && y % b == 0
    ensures (x + y) % b == 0 && (x - y) % b == 0
  {
    DivMod(x, b);
    DivMod(y, b);
    Distribute(x / b, y / b, b);
    DivUnique(x + y, b, x / b + y / b, 0);
    Distribute(x / b, -(y / b), b);
    DivUnique(x - y, b, x / b - y / b, 0);
  }

  lemma MultipleProduct(k: int, x: int, b: int)
    requires 0 < b && x % b == 0
    ensures (k * x) % b == 0
  {
    DivMod(x, b);
    var t := x / b;
    assert k * (t * b) == (k * t) * b;
    DivUnique(k * x, b, k * t, 0);
  }

  /** A remainder by a multiple of b keeps divisibility by b. */
  lemma MultipleMod(x: int, c: int, b: int)
    requires 0 < b && 0 < c && x % b == 0 && c % b == 0
    ensures (x % c) % b == 0
  {
    DivMod(x, c);
    MultipleProduct(x / c, c, b);
    MultipleSum(x, (x / c) * c, b);
  }

  // ----- two-digit numbers: hi * c + lo with lo below c

  function Join(hi: nat, lo: nat, c: nat): nat {
    hi * c + lo
  }

  lemma JoinSplit(hi: nat, lo: nat, c: nat)
    requires lo < c
    ensures Join(hi, lo, c) / c == hi && Join(hi, lo, c) % c == lo
  {
    DivUnique(Join(hi, lo, c), c, hi, lo);
  }

  lemma SplitJoin(x: nat, c: nat)
    requires 0 < c
    ensures Join(x / c, x % c, c) == x
  {
  }

  lemma JoinBound(hi: nat, lo: nat, c: nat, m: nat)
    requires hi < m && lo < c
    ensures Join(hi, lo, c) < m * c
  {
    MulMonotone(hi + 1, m, c);
    Distribute(hi, 1, c);
  }

  lemma SplitBound(x: nat, c: nat, m: nat)
    requires 0 < c && x < m * c
    ensures x / c < m
  {
    if m <= x / c {
      MulMonotone(m, x / c, c);
    }
  }
}
