/** Facts about multiplication, division and remainders that the solver does not find by itself. */
module Arithmetic {

  lemma DivAtMost(a: nat, d: nat)
    requires d > 0
    ensures a / d <= a
  {
    if a / d > a {
      MulMonotone(1, d, a / d);
    }
  }

  lemma Commute(a: int, b: int)
    ensures a * b == b * a
  {
  }

  lemma SmallMod(i: nat, m: nat)
    requires i < m
    ensures i % m == i
  {
  }

  lemma SmallDiv(i: nat, m: nat)
    requires i < m
    ensures i / m == 0
  {
  }

  lemma DivUnique(x: int, m: nat, q: int, r: int)
    requires m > 0 && x == m * q + r && 0 <= r < m
    ensures x / m == q && x % m == r
  {
    var d := x / m - q;
    assert m * d == r - x % m;
    assert d >= 1 ==> m * d >= m;
    assert d <= -1 ==> m * d <= m * -1;
  }

  lemma ModShift(k: nat, m: nat)
    requires m > 0
    ensures (k + m) % m == k % m
  {
    DivUnique(k + m, m, k / m + 1, k % m);
  }

  lemma DivShift(k: nat, m: nat)
    requires m > 0
    ensures (k + m) / m == k / m + 1
  {
    DivUnique(k + m, m, k / m + 1, k % m);
  }

  lemma DivMonotone(a: nat, b: nat, m: nat)
    requires m > 0 && a <= b
    ensures a / m <= b / m
  {
    var d := a / m - b / m;
    assert m * d == (a - a % m) - (b - b % m);
    assert d >= 1 ==> m * d >= m;
  }

  lemma Distribute(a: int, b: int, p: int)
    ensures (a + b) * p == a * p + b * p
  {
  }

  lemma Regroup3(a: int, b: int, p: int)
    ensures (a * b) * p == a * (b * p)
  {
  }

  lemma ZeroTimes(x: int, p: int)
    requires x == 0
    ensures x * p == 0
  {
  }

  lemma DistributeLeft(m: int, x: int, y: int)
    ensures m * (x + y) == m * x + m * y
  {
  }

  lemma MulMonotone(x: int, y: int, p: nat)
    requires x <= y
    ensures x * p <= y * p
  {
  }
}
