/** Arithmetic modulo the field order. Field elements are represented by integers,
    expressions are evaluated over the integers, and two integers denote the same
    field element when they agree modulo `p`. */
module Congruence {

  type Modulus = p: int | p > 1 witness 2

  predicate Cong(p: Modulus, x: int, y: int) {
    x % p == y % p
  }

  /** The canonical representative of `x`. */
  function Rep(p: Modulus, x: int): (r: int)
    ensures 0 <= r < p
    ensures Cong(p, r, x)
  {
    RepIdempotent(p, x);
    x % p
  }

  lemma RepIdempotent(p: Modulus, x: int)
    ensures (x % p) % p == x % p
  {
  }

  lemma CanonicalEq(p: Modulus, x: int, y: int)
    requires 0 <= x < p && 0 <= y < p
    requires Cong(p, x, y)
    ensures x == y
  {
  }

  lemma ModMultiple(p: Modulus, x: int, k: int)
    ensures (x + k * p) % p == x % p
  {
    var q, r := x / p, x % p;
    assert x + k * p == (q + k) * p + r by { assert x == q * p + r; }
    ModUnique(p, x + k * p, q + k, r);
  }

  lemma ModUnique(p: Modulus, x: int, q: int, r: int)
    requires x == q * p + r && 0 <= r < p
    ensures x % p == r
  {
    var q', r' := x / p, x % p;
    assert (q - q') * p == r' - r;
    MulBound(q - q', p);
  }

  lemma MulBound(d: int, p: int)
    requires p > 0
    ensures d >= 1 ==> d * p >= p
    ensures d <= -1 ==> d * p <= -p
  {
  }

  lemma CongDiff(p: Modulus, x: int, y: int) returns (k: int)
    requires Cong(p, x, y)
    ensures x == y + k * p
  {
    k := x / p - y / p;
    assert x == (x / p) * p + x % p;
    assert y == (y / p) * p + y % p;
    assert k * p == (x / p) * p - (y / p) * p;
  }

  lemma CongAdd(p: Modulus, x: int, x': int, y: int, y': int)
    requires Cong(p, x, x') && Cong(p, y, y')
    ensures Cong(p, x + y, x' + y')
  {
    var k := CongDiff(p, x, x');
    var l := CongDiff(p, y, y');
    assert x + y == (x' + y') + (k + l) * p;
    ModMultiple(p, x' + y', k + l);
  }

  lemma CongSub(p: Modulus, x: int, x': int, y: int, y': int)
    requires Cong(p, x, x') && Cong(p, y, y')
    ensures Cong(p, x - y, x' - y')
  {
    var k := CongDiff(p, x, x');
    var l := CongDiff(p, y, y');
    assert x - y == (x' - y') + (k - l) * p;
    ModMultiple(p, x' - y', k - l);
  }

  lemma CongMul(p: Modulus, x: int, x': int, y: int, y': int)
    requires Cong(p, x, x') && Cong(p, y, y')
    ensures Cong(p, x * y, x' * y')
  {
    var k := CongDiff(p, x, x');
    var l := CongDiff(p, y, y');
    ModMultiple(p, x' * y', x' * l + k * y' + k * l * p);
    assert (x' + k * p) * (y' + l * p) == x' * y' + (x' * l + k * y' + k * l * p) * p by {
      MulExpand(p, x', y', k, l);
    }
  }

  lemma MulExpand(p: int, a: int, b: int, k: int, l: int)
    ensures (a + k * p) * (b + l * p) == a * b + (a * l + k * b + k * l * p) * p
  {
  }

  /** A difference that vanishes in the field is an equality in the field. */
  lemma CongZeroDiff(p: Modulus, x: int, y: int)
    ensures Cong(p, x - y, 0) <==> Cong(p, x, y)
  {
    if Cong(p, x - y, 0) {
      var k := CongDiff(p, x - y, 0);
      assert x == y + k * p;
      ModMultiple(p, y, k);
    }
    if Cong(p, x, y) {
      CongSub(p, x, y, y, y);
    }
  }

  function Pow(b: int, e: nat): int {
    if e == 0 then 1 else b * Pow(b, e - 1)
  }

  lemma {:induction false} CongPow(p: Modulus, x: int, y: int, e: nat)
    requires Cong(p, x, y)
    ensures Cong(p, Pow(x, e), Pow(y, e))
  {
    if e > 0 {
      CongPow(p, x, y, e - 1);
      CongMul(p, x, y, Pow(x, e - 1), Pow(y, e - 1));
    }
  }
}
