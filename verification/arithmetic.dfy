/** Products, powers and floored quotients of natural numbers, with the few facts the model needs. */
module Arithmetic {

  function Pow(base: nat, k: nat): (p: nat)
    ensures base > 0 ==> p > 0
  {
    if k == 0 then 1 else base * Pow(base, k - 1)
  }

  function Min(a: nat, b: nat): nat { if a < b then a else b }

  function Product(a: nat, b: nat): nat { a * b }

  function Floor(x: nat, d: nat): nat
    requires d > 0
  {
    x / d
  }

  predicate IsFloor(q: int, x: nat, d: nat) { q * d <= x < (q + 1) * d }

  lemma FloorBounds(x: nat, d: nat)
    requires d > 0
    ensures IsFloor(Floor(x, d), x, d) && (x == 0 ==> Floor(x, d) == 0)
  {
  }

  lemma FloorUnique(a: nat, b: nat, d: nat, x: nat)
    requires IsFloor(a, x, d) && IsFloor(b, x, d)
    ensures a == b
  {
    if a < b {
      MulMonotone(a + 1, b, d);
    } else if b < a {
      MulMonotone(b + 1, a, d);
    }
  }

  lemma MulMonotone(x: nat, y: nat, p: nat)
    requires x <= y
    ensures x * p <= y * p
  {
  }

  lemma CancelScale(a: nat, b: nat, c: nat)
    requires c > 0
    ensures a * c <= b * c ==> a <= b
    ensures a * c < b * c ==> a < b
  {
    if b < a {
      MulMonotone(b + 1, a, c);
    }
  }

  lemma Distribute(a: nat, b: nat, c: nat)
    ensures (a + b) * c == a * c + b * c && (a + 1) * c == a * c + c && c * (a + b) == a * c + b * c
  {
  }

  lemma ProductSucc(a: nat, b: nat)
    ensures Product(a + 1, b) == Product(a, b) + b
  {
  }

  lemma ProductIsOne(k: nat, n: nat)
    ensures Product(k, n) == n <==> k == 1 || n == 0
  {
    if k >= 2 {
      ProductSucc(k - 1, n);
      ProductSucc(k - 2, n);
    }
  }

  lemma ProductSwap(a: nat, b: nat)
    ensures Product(a, b) == Product(b, a)
  {
  }

  lemma ScaleOut(x: nat, base: nat, p: nat)
    ensures x * p * base == x * (base * p)
  {
  }

  lemma QuotientUnique(x: nat, y: nat, p: nat, r: nat, s: nat)
    requires r < p && s < p && x * p + r == y * p + s
    ensures x == y && r == s
  {
    if x < y {
      MulMonotone(x + 1, y, p);
    } else if y < x {
      MulMonotone(y + 1, x, p);
    }
  }

  lemma RemainderOf(n: nat, q: nat, p: nat, r: nat)
    requires r < p && n == q * p + r
    ensures n % p == r
  {
    QuotientUnique(q, n / p, p, r, n % p);
  }
}
