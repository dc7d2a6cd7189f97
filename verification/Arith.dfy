/** Powers of two, and facts about multiples and remainders with a variable divisor. */
module Arith {

  /** 1 << n (order2size). */
  function Pow2(n: nat): (p: nat)
    ensures p > 0
  {
    if n == 0 then 1 else 2 * Pow2(n - 1)
  }

  lemma {:induction false} Pow2Monotone(m: nat, n: nat)
    requires m <= n
    ensures Pow2(m) <= Pow2(n) && (m < n ==> Pow2(m) < Pow2(n))
    decreases n
  {
    if m < n {
      Pow2Monotone(m, n - 1);
    }
  }

  lemma Multiple(x: nat, u: nat) returns (q: nat)
    requires u > 0 && x % u == 0
    ensures x == u * q
  {
    q := x / u;
  }

  lemma Order(i: nat, j: nat, u: nat)
    requires i <= j
    ensures u * i <= u * j
  {
    assert u * (j - i) >= 0;
    assert u * j == u * i + u * (j - i);
  }

  lemma Spaced(i: nat, j: nat, u: nat)
    requires i < j
    ensures u * i + u <= u * j
  {
    Order(i + 1, j, u);
    assert u * (i + 1) == u * i + u;
  }

  lemma Gap(i: nat, j: nat, u: nat)
    requires u > 0 && u * i < u * j
    ensures u * i + u <= u * j
  {
    if i < j {
      Spaced(i, j, u);
    } else {
      Order(j, i, u);
    }
  }

  lemma {:induction false} ModAdd(q: nat, y: nat, u: nat)
    requires u > 0
    ensures (u * q + y) % u == y % u
    decreases q
  {
    if q > 0 {
      ModAdd(q - 1, y, u);
      var z := u * (q - 1) + y;
      assert u * q + y == z + u;
      ModStep(z, u);
    }
  }

  lemma ModStep(z: nat, u: nat)
    requires u > 0
    ensures (z + u) % u == z % u
  {
    var q, r := z / u, z % u;
    assert z == u * q + r;
    assert z + u == u * (q + 1) + r;
    QuotientOf(z + u, u, q + 1, r);
  }

  lemma QuotientOf(x: nat, u: nat, q: nat, r: nat)
    requires u > 0 && x == u * q + r && r < u
    ensures x % u == r
  {
    var q', r' := x / u, x % u;
    assert u * q' + r' == u * q + r;
    if q' < q {
      Spaced(q', q, u);
    } else if q < q' {
      Spaced(q, q', u);
    }
  }
}
