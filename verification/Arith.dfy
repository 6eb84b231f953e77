/** Quotients and remainders, stated with explicit witnesses. */
module Arith {

  lemma DivModIs(x: nat, m: nat, q: nat, r: nat)
    requires r < m && x == q * m + r
    ensures x / m == q && x % m == r
  {
    var k, s := x / m, x % m;
    assert x == k * m + s;
    if k < q {
      MulStep(k, q, m);
    } else if q < k {
      MulStep(q, k, m);
    }
  }

  lemma MulStep(a: nat, b: nat, m: nat)
    requires a < b
    ensures a * m + m <= b * m
  {
    var k := b - a - 1;
    assert b * m == (a + 1 + k) * m == a * m + m + k * m;
    assert k * m >= 0;
  }

  /** Adding a multiple of `m` keeps the remainder. */
  lemma AddMultiple(x: nat, m: nat, k: nat)
    requires 0 < m
    ensures (x + k * m) % m == x % m && (x + k * m) / m == x / m + k
  {
    assert (x / m + k) * m == x / m * m + k * m;
    DivModIs(x + k * m, m, x / m + k, x % m);
  }

  /** Adding without carrying into the quotient. */
  lemma AddSmall(x: nat, m: nat, n: nat)
    requires 0 < m && x % m + n < m
    ensures (x + n) % m == x % m + n && (x + n) / m == x / m
  {
    DivModIs(x + n, m, x / m, x % m + n);
  }

  lemma Regroup(a: nat, k: nat, b: nat, m: nat)
    ensures (a * k + b) * m == a * (m * k) + b * m
  {
    assert (a * k + b) * m == a * k * m + b * m;
    assert a * k * m == a * (m * k);
  }

  lemma BelowProduct(b: nat, k: nat, m: nat, r: nat)
    requires b < k && r < m
    ensures 0 < m * k && b * m + r < m * k
  {
    MulStep(b, k, m);
    assert k * m == m * k;
  }

  /** A remainder by a multiple of `m` keeps the remainder by `m`, and quotients nest. */
  lemma Nested(x: nat, m: nat, k: nat)
    requires 0 < m && 0 < k
    ensures 0 < m * k
    ensures x % (m * k) % m == x % m
    ensures x % (m * k) / m == x / m % k
    ensures x / (m * k) == x / m / k
  {
    var q, r := x / m, x % m;
    var a, b := q / k, q % k;
    Whole(x, m);
    Whole(q, k);
    NestedParts(x, m, k, q, r, a, b);
  }

  lemma Whole(x: nat, m: nat)
    requires 0 < m
    ensures x == x / m * m + x % m && x % m < m
  {
  }

  lemma NestedParts(x: nat, m: nat, k: nat, q: nat, r: nat, a: nat, b: nat)
    requires x == q * m + r && r < m && q == a * k + b && b < k
    ensures 0 < m * k
    ensures x / (m * k) == a && x % (m * k) / m == b && x % (m * k) % m == r
  {
    BelowProduct(b, k, m, r);
    Regroup(a, k, b, m);
    NestedWith(x, m, m * k, a, b, r);
  }

  lemma NestedWith(x: nat, m: nat, p: nat, a: nat, b: nat, r: nat)
    requires r < m && b * m + r < p && x == a * p + (b * m + r)
    ensures x / p == a && x % p / m == b && x % p % m == r
  {
    DivModIs(x, p, a, b * m + r);
    DivModIs(b * m + r, m, b, r);
  }

  /** One round of a loop that moves `u` bytes from what is left to what is done. */
  lemma NextUnit(n: nat, size: nat, u: nat)
    requires 0 < u && 0 < size && n % u == 0 && size % u == 0
    ensures u <= size && (n + u) % u == 0 && (size - u) % u == 0
  {
    if size < u { DivModIs(size, u, 0, size); }
    AddMultiple(n, u, 1);
    AddMultiple(size - u, u, 1);
  }

  /** Memory never runs out of addresses. */
  lemma FreshAddress(used: set<nat>)
    ensures exists p: nat :: p !in used
  {
    var bound := Bound(used);
    assert bound !in used;
  }

  ghost function Bound(used: set<nat>): (b: nat)
    ensures forall p :: p in used ==> p < b
  {
    if used == {} then 0
    else
      var p :| p in used;
      var b := Bound(used - {p});
      assert forall r :: r in used ==> r == p || r in used - {p};
      if p < b then b else p + 1
  }
}
