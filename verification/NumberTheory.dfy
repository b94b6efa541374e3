/** Prime moduli: inverses, Fermat's little theorem, and Proth's primality criterion. */
module NumberTheory {
  import opened Collections
  import opened Congruence

  // ----- powers -----

  lemma {:induction false} PowAdd(b: int, m: nat, n: nat)
    ensures Pow(b, m + n) == Pow(b, m) * Pow(b, n)
    decreases m
  {
    if m > 0 {
      PowAdd(b, m - 1, n);
      assert b * (Pow(b, m - 1) * Pow(b, n)) == b * Pow(b, m - 1) * Pow(b, n);
    }
  }

  lemma {:induction false} PowPow(b: int, m: nat, n: nat)
    ensures Pow(Pow(b, m), n) == Pow(b, m * n)
    decreases n
  {
    if n > 0 {
      PowPow(b, m, n - 1);
      assert m * n == m + m * (n - 1);
      PowAdd(b, m, m * (n - 1));
    }
  }

  lemma {:induction false} PowOne(n: nat)
    ensures Pow(1, n) == 1
  {
    if n > 0 { PowOne(n - 1); }
  }

  lemma {:induction false} PowMinusOne(n: nat)
    ensures Pow(0 - 1, n) == if n % 2 == 0 then 1 else 0 - 1
  {
    if n > 0 { PowMinusOne(n - 1); }
  }

  lemma {:induction false} PowZero(n: nat)
    requires n > 0
    ensures Pow(0, n) == 0
  {
  }

  // ----- divisibility and primes -----

  predicate IsPrime(p: int) { p > 1 && forall d :: 1 < d < p ==> p % d != 0 }

  /** A congruence holds modulo every divisor of the modulus. */
  lemma CongDivisor(n: Modulus, d: Modulus, x: int, y: int)
    requires Cong(n, x, y) && n % d == 0
    ensures Cong(d, x, y)
  {
    var k := CongDiff(n, x, y);
    var m := n / d;
    assert n == m * d;
    assert x == y + (k * m) * d by { assert k * n == (k * m) * d; }
    ModMultiple(d, y, k * m);
  }

  /** Every number above one has a smallest divisor above one; it is prime, and its square does not
      exceed the number unless the number is prime. */
  lemma SmallestDivisor(n: int) returns (q: int)
    requires n > 1
    ensures IsPrime(q) && n % q == 0 && (IsPrime(n) || q * q <= n)
  {
    q := LeastDivisorFrom(n, 2);
    if exists d :: 1 < d < q && q % d == 0 {
      var d :| 1 < d < q && q % d == 0;
      DividesTransitive(d, q, n);
      assert false;
    }
    if q < n {
      var m := n / q;
      assert n == m * q;
      if m < q {
        assert 1 < m by { if m <= 1 { MulBound(1 - m, q); } }
        assert n % m == 0 by { ModMultiple(m, 0, q); }
        assert false;
      }
      assert q * q <= m * q by { MulMono(q, m, q); }
    }
  }

  lemma MulMono(a: int, b: int, c: int)
    requires a <= b && c >= 0
    ensures a * c <= b * c
  {
  }

  lemma LeastDivisorFrom(n: int, k: int) returns (q: int)
    requires 2 <= k <= n && forall d :: 1 < d < k ==> n % d != 0
    ensures k <= q <= n && n % q == 0 && forall d :: 1 < d < q ==> n % d != 0
    decreases n - k
  {
    if n % k == 0 { q := k; } else { q := LeastDivisorFrom(n, k + 1); }
  }

  lemma DividesTransitive(d: int, q: int, n: int)
    requires d > 0 && q > 0 && q % d == 0 && n % q == 0
    ensures n % d == 0
  {
    if d > 1 {
      var k := n / q;
      var l := q / d;
      assert n == k * q && q == l * d;
      assert n == (k * l) * d by { assert k * (l * d) == (k * l) * d; }
      ModMultiple(d, 0, k * l);
    }
  }

  // ----- inverses modulo a prime -----

  /** Every number between zero and a prime has an inverse: reduce the modulus by it. */
  lemma {:induction false} InverseExists(p: Modulus, a: int) returns (u: int)
    requires IsPrime(p) && 0 < a < p
    ensures Cong(p, a * u, 1)
    decreases a
  {
    if a == 1 {
      u := 1;
    } else {
      var q, r := p / a, p % a;
      assert p == q * a + r && 0 < r < a;
      var v := InverseExists(p, r);
      u := 0 - q * v;
      // a * u == r * v - v * p
      assert a * u == r * v + (0 - v) * p by {
        assert (q * a + r) * v == q * a * v + r * v;
        assert a * (0 - q * v) == 0 - q * a * v;
      }
      ModMultiple(p, r * v, 0 - v);
    }
  }

  /** A prime that divides a product divides a factor; stated as cancellation. */
  lemma Cancel(p: Modulus, a: int, x: int, y: int)
    requires IsPrime(p) && !Cong(p, a, 0) && Cong(p, a * x, a * y)
    ensures Cong(p, x, y)
  {
    var u := Inverse(p, a);
    CancelWith(p, a, u, x, y);
  }

  lemma Inverse(p: Modulus, a: int) returns (u: int)
    requires IsPrime(p) && !Cong(p, a, 0)
    ensures Cong(p, a * u, 1)
  {
    var b := a % p;
    RepIdempotent(p, a);
    assert 0 % p == 0;
    u := InverseExists(p, b);
    CongMul(p, a, b, u, u);
  }

  lemma CancelWith(p: Modulus, a: int, u: int, x: int, y: int)
    requires Cong(p, a * u, 1) && Cong(p, a * x, a * y)
    ensures Cong(p, x, y)
  {
    CongMul(p, u, u, a * x, a * y);
    CongMul(p, a * u, 1, x, x);
    CongMul(p, a * u, 1, y, y);
    assert u * (a * x) == a * u * x && u * (a * y) == a * u * y;
  }

  // ----- Fermat's little theorem -----

  function Product(s: seq<int>): int {
    if s == [] then 1 else Product(s[..|s| - 1]) * s[|s| - 1]
  }

  lemma {:induction false} ProductConcat(a: seq<int>, b: seq<int>)
    ensures Product(a + b) == Product(a) * Product(b)
    decreases |b|
  {
    if b == [] {
      assert a + b == a;
    } else {
      var n := |b| - 1;
      assert (a + b)[..|a + b| - 1] == a + b[..n];
      ProductConcat(a, b[..n]);
      assert Product(a) * Product(b[..n]) * b[n] == Product(a) * (Product(b[..n]) * b[n]);
    }
  }

  lemma {:induction false} ProductPermutation(a: seq<int>, b: seq<int>)
    requires multiset(a) == multiset(b)
    ensures Product(a) == Product(b)
    decreases |a|
  {
    if a == [] {
      assert |b| == |multiset(b)| == 0;
    } else {
      var n := |a| - 1;
      assert a == a[..n] + [a[n]];
      assert a[n] in multiset(b);
      var j :| 0 <= j < |b| && b[j] == a[n];
      RemoveOne(b, j);
      ProductPermutation(a[..n], b[..j] + b[j + 1..]);
      ProductMoved(b, j);
    }
  }

  lemma ProductMoved(b: seq<int>, j: nat)
    requires j < |b|
    ensures Product(b) == Product(b[..j] + b[j + 1..]) * b[j]
  {
    RemoveOne(b, j);
    ProductConcat(b[..j] + [b[j]], b[j + 1..]);
    ProductAppend(b[..j], b[j]);
    ProductConcat(b[..j], b[j + 1..]);
    MulSwap(Product(b[..j]), b[j], Product(b[j + 1..]));
  }

  lemma ProductAppend(a: seq<int>, x: int)
    ensures Product(a + [x]) == Product(a) * x
  {
    assert (a + [x])[..|a|] == a;
  }

  lemma MulSwap(x: int, y: int, z: int)
    ensures x * y * z == x * z * y
  {
  }

  /** The multiples of `a` from `a` to `n * a`, reduced. */
  function Multiples(p: Modulus, a: int, n: nat): (r: seq<int>)
    ensures |r| == n && forall i :: 0 <= i < n ==> r[i] == a * (i + 1) % p
  {
    seq(n, i => a * (i + 1) % p)
  }

  function Range(n: nat): (r: seq<int>)
    ensures |r| == n && forall i :: 0 <= i < n ==> r[i] == i + 1
  {
    seq(n, i => i + 1)
  }

  function UpTo(n: nat): (r: set<int>)
    ensures |r| == n && forall x :: x in r <==> 1 <= x <= n
  {
    if n == 0 then {} else UpTo(n - 1) + {n}
  }

  lemma {:induction false} DistinctSet(s: seq<int>)
    requires forall i, j :: 0 <= i < j < |s| ==> s[i] != s[j]
    ensures |(set x | x in s)| == |s|
    ensures forall x :: multiset(s)[x] == if x in s then 1 else 0
  {
    if s != [] {
      var n := |s| - 1;
      DistinctSet(s[..n]);
      assert s == s[..n] + [s[n]];
      assert s[n] !in s[..n];
      assert (set x | x in s) == (set x | x in s[..n]) + {s[n]};
    }
  }

  predicate DistinctIn(s: seq<int>, n: nat) {
    |s| == n && (forall i, j :: 0 <= i < j < n ==> s[i] != s[j]) && forall i :: 0 <= i < n ==> 1 <= s[i] <= n
  }

  lemma RangeMembers(s: seq<int>, n: nat, x: int)
    requires DistinctIn(s, n)
    ensures x in s <==> 1 <= x <= n
  {
    DistinctSet(s);
    var t := set y | y in s;
    SubsetOfSameSize(t, UpTo(n));
    assert x in s <==> x in t;
  }

  /** Distinct numbers from 1 to `n`, as many as there are, are a permutation of the range. */
  lemma RangePermutation(s: seq<int>, n: nat)
    requires DistinctIn(s, n)
    ensures multiset(s) == multiset(Range(n))
  {
    DistinctSet(s);
    DistinctSet(Range(n));
    forall x ensures multiset(s)[x] == multiset(Range(n))[x] {
      RangeMembers(s, n, x);
      RangeMembers(Range(n), n, x);
    }
  }

  lemma MultiplesDistinct(p: Modulus, a: int, i: int, j: int)
    requires IsPrime(p) && !Cong(p, a, 0) && 0 < i < j < p
    ensures a * i % p != a * j % p
  {
    if a * i % p == a * j % p {
      Cancel(p, a, i, j);
      CanonicalEq(p, i, j);
      assert false;
    }
  }

  lemma {:induction false} ProductOfMultiples(p: Modulus, a: int, n: nat)
    ensures Cong(p, Product(Multiples(p, a, n)), Pow(a, n) * Product(Range(n)))
  {
    if n > 0 {
      ProductOfMultiples(p, a, n - 1);
      assert Multiples(p, a, n)[..n - 1] == Multiples(p, a, n - 1) && Range(n)[..n - 1] == Range(n - 1);
      var x, y := Product(Multiples(p, a, n - 1)), Product(Range(n - 1));
      assert Cong(p, a * n % p, a * n) by { RepIdempotent(p, a * n); }
      CongMul(p, x, Pow(a, n - 1) * y, a * n % p, a * n);
      Regroup(Pow(a, n - 1), y, a, n);
    }
  }

  lemma Regroup(q: int, y: int, a: int, n: int)
    ensures q * y * (a * n) == a * q * (y * n)
  {
  }

  lemma {:induction false} RangeProductNonzero(p: Modulus, n: nat)
    requires IsPrime(p) && n < p
    ensures !Cong(p, Product(Range(n)), 0)
  {
    if n == 0 {
      assert 1 % p == 1 && 0 % p == 0;
    } else {
      RangeProductNonzero(p, n - 1);
      assert Range(n)[..n - 1] == Range(n - 1);
      if Cong(p, Product(Range(n)), 0) {
        Cancel(p, Product(Range(n - 1)), n, 0);
        CanonicalEq(p, n, 0);
        assert false;
      }
    }
  }

  lemma Fermat(p: Modulus, a: int)
    requires IsPrime(p) && !Cong(p, a, 0)
    ensures Cong(p, Pow(a, p - 1), 1)
  {
    var n := p - 1;
    MultiplesPermute(p, a);
    ProductPermutation(Multiples(p, a, n), Range(n));
    ProductOfMultiples(p, a, n);
    RangeProductNonzero(p, n);
    CancelFactor(p, Product(Range(n)), Pow(a, n));
  }

  lemma CancelFactor(p: Modulus, f: int, x: int)
    requires IsPrime(p) && !Cong(p, f, 0) && Cong(p, f, x * f)
    ensures Cong(p, x, 1)
  {
    assert x * f == f * x && f * 1 == f;
    Cancel(p, f, 1, x);
  }

  /** The multiples of a number that the prime does not divide are the numbers from 1 to `p - 1`. */
  lemma MultiplesPermute(p: Modulus, a: int)
    requires IsPrime(p) && !Cong(p, a, 0)
    ensures multiset(Multiples(p, a, p - 1)) == multiset(Range(p - 1))
  {
    var s := Multiples(p, a, p - 1);
    DistinctMultiples(p, a, p - 1, s);
    MultiplesInRange(p, a, p - 1, s);
    RangePermutation(s, p - 1);
  }

  lemma DistinctMultiples(p: Modulus, a: int, n: nat, s: seq<int>)
    requires IsPrime(p) && !Cong(p, a, 0) && n == p - 1 && s == Multiples(p, a, n)
    ensures forall i, j :: 0 <= i < j < n ==> s[i] != s[j]
  {
    forall i, j | 0 <= i < j < n ensures s[i] != s[j] { DistinctAt(p, a, n, i, j); }
  }

  lemma DistinctAt(p: Modulus, a: int, n: nat, i: nat, j: nat)
    requires IsPrime(p) && !Cong(p, a, 0) && n == p - 1 && i < j < n
    ensures Multiples(p, a, n)[i] != Multiples(p, a, n)[j]
  {
    MultipleAt(p, a, n, i);
    MultipleAt(p, a, n, j);
    MultiplesDistinct(p, a, i + 1, j + 1);
  }

  lemma MultipleAt(p: Modulus, a: int, n: nat, i: nat)
    requires i < n
    ensures Multiples(p, a, n)[i] == a * (i + 1) % p
  {
  }

  lemma MultiplesInRange(p: Modulus, a: int, n: nat, s: seq<int>)
    requires IsPrime(p) && !Cong(p, a, 0) && n == p - 1 && s == Multiples(p, a, n)
    ensures forall i :: 0 <= i < n ==> 1 <= s[i] <= n
  {
    forall i | 0 <= i < n ensures 1 <= s[i] <= n {
      MultipleAt(p, a, n, i);
      MultipleInRange(p, a, i + 1);
    }
  }

  lemma MultipleInRange(p: Modulus, a: int, i: int)
    requires IsPrime(p) && !Cong(p, a, 0) && 0 < i < p
    ensures 1 <= a * i % p <= p - 1
  {
    if a * i % p == 0 {
      Cancel(p, a, i, 0);
      CanonicalEq(p, i, 0);
      assert false;
    }
  }

  // ----- Proth's criterion -----

  function Pow2(n: nat): (r: int)
    ensures r > 0
  {
    if n == 0 then 1 else 2 * Pow2(n - 1)
  }

  lemma {:induction false} Pow2Split(s: nat, t: nat)
    ensures Pow2(s) * Pow2(t) == Pow2(s + t)
  {
    if s > 0 { Pow2Split(s - 1, t); assert 2 * Pow2(s - 1) * Pow2(t) == 2 * (Pow2(s - 1) * Pow2(t)); }
  }

  lemma OneIsNotMinusOne(q: Modulus)
    requires q > 2
    ensures !Cong(q, 1, 0 - 1)
  {
    ModUnique(q, 0 - 1, 0 - 1, q - 1);
  }

  /** If `b^(2^(s-1))` is -1 and `b^m` is 1, every power of two up to `2^s` divides `m`. */
  lemma {:induction false} TwoPowerDivides(q: Modulus, b: int, s: nat, t: nat, m: nat)
    requires q > 2 && s > 0 && t <= s && Cong(q, Pow(b, Pow2(s - 1)), 0 - 1) && Cong(q, Pow(b, m), 1)
    ensures m % Pow2(t) == 0
    decreases t
  {
    if t > 0 {
      TwoPowerDivides(q, b, s, t - 1, m);
      var u := m / Pow2(t - 1);
      assert m == u * Pow2(t - 1);
      assert u >= 0 by { if u < 0 { MulBound(u, Pow2(t - 1)); } }
      if u % 2 == 1 {
        OddQuotient(q, b, s, t, m, u);
        OneIsNotMinusOne(q);
        assert false;
      }
      var v := u / 2;
      assert m == v * Pow2(t) by { assert u == 2 * v; assert 2 * v * Pow2(t - 1) == v * (2 * Pow2(t - 1)); }
      if Pow2(t) > 1 { ModMultiple(Pow2(t), 0, v); }
    }
  }

  lemma MulSwapOuter(x: int, y: int, z: int)
    ensures x * y * z == y * z * x
  {
  }

  lemma OddQuotient(q: Modulus, b: int, s: nat, t: nat, m: nat, u: nat)
    requires 0 < t <= s && m == u * Pow2(t - 1) && u % 2 == 1
    requires Cong(q, Pow(b, Pow2(s - 1)), 0 - 1) && Cong(q, Pow(b, m), 1)
    ensures Cong(q, 1, 0 - 1)
  {
    var w := Pow2(s - t);
    Pow2Split(t - 1, s - t);
    MulSwapOuter(u, Pow2(t - 1), w);
    assert m * w == Pow2(s - 1) * u;
    PowPow(b, m, w);
    CongPow(q, Pow(b, m), 1, w);
    PowOne(w);
    PowPow(b, Pow2(s - 1), u);
    CongPow(q, Pow(b, Pow2(s - 1)), 0 - 1, u);
    PowMinusOne(u);
  }

  /** If `a^((n-1)/2)` is -1 modulo an odd `n = k * 2^s + 1`, every prime factor of `n` exceeds `2^s`. */
  lemma ProthFactor(n: Modulus, a: int, k: nat, s: nat, q: int)
    requires n == k * Pow2(s) + 1 && s > 0 && IsPrime(q) && q > 2 && n % q == 0
    requires Cong(n, Pow(Pow(a, k), Pow2(s - 1)), 0 - 1)
    ensures q > Pow2(s)
  {
    var b := Pow(a, k);
    CongDivisor(n, q, Pow(b, Pow2(s - 1)), 0 - 1);
    if Cong(q, b, 0) {
      CongPow(q, b, 0, Pow2(s - 1));
      PowZero(Pow2(s - 1));
      ModUnique(q, 0 - 1, 0 - 1, q - 1);
      assert false;
    }
    Fermat(q, b);
    TwoPowerDivides(q, b, s, s, q - 1);
    var c := (q - 1) / Pow2(s);
    assert q - 1 == c * Pow2(s);
    if c < 1 { MulBound(c, Pow2(s)); assert false; }
    MulBound(c, Pow2(s));
  }

  lemma Proth(n: Modulus, a: int, k: nat, s: nat)
    requires n == k * Pow2(s) + 1 && s > 0 && k <= Pow2(s) && Cong(n, Pow(Pow(a, k), Pow2(s - 1)), 0 - 1) && n % 2 == 1
    ensures IsPrime(n)
  {
    var q := SmallestDivisor(n);
    if !IsPrime(n) {
      ProthFactor(n, a, k, s, q);
      SquareExceeds(q, k, Pow2(s));
      assert false;
    }
  }

  lemma SquareExceeds(q: int, k: int, m: int)
    requires 0 <= k <= m < q
    ensures q * q > k * m + 1 || m == 0
  {
    MulMono(m + 1, q, m + 1);
    MulMono(m + 1, q, q);
    MulMono(k, m, m);
    assert (m + 1) * (m + 1) == m * m + 2 * m + 1;
  }
}
