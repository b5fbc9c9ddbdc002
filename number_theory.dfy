/**
 * Exact integer arithmetic shared by the group, LPS and experiment models:
 * powers, integer square roots, gcd with Bezout coefficients, primality and
 * modular inverses. Python's `%` with a positive modulus agrees with Dafny's.
 */
module NumberTheory {

  function Abs(x: int): nat { if x < 0 then -x else x }

  /** `a ** k` for a natural exponent. */
  function Pow(a: int, k: nat): int
    decreases k
  {
    if k == 0 then 1 else a * Pow(a, k - 1)
  }

  /** The integer square root, standing in for `int(np.sqrt(n))`. */
  function ISqrt(n: nat): (r: nat)
    ensures r * r <= n < (r + 1) * (r + 1)
    decreases n
  {
    if n == 0 then 0
    else
      var s := ISqrt(n - 1);
      if (s + 1) * (s + 1) <= n then s + 1 else s
  }

  /** Euclid's algorithm on naturals. */
  function Gcd(a: nat, b: nat): nat
    decreases b
  {
    if b == 0 then a else Gcd(b, a % b)
  }

  /** `math.gcd` on Python integers: the gcd of the absolute values. */
  function PyGcd(a: int, b: int): nat
  {
    Gcd(Abs(a), Abs(b))
  }

  /** A prime: at least 2 and without a divisor strictly between 1 and itself. */
  predicate Prime(n: int)
  {
    n >= 2 && forall k :: 2 <= k < n ==> n % k != 0
  }

  // ---------------------------------------------------------------------
  // Division and remainder

  lemma DivModUnique(a: int, k: int, d: int, r: int)
    requires k > 0 && a == k * d + r && 0 <= r < k
    ensures a / k == d && a % k == r
  {
    var d0, r0 := a / k, a % k;
    assert a == k * d0 + r0;
    assert k * (d - d0) == r0 - r;
    if d - d0 >= 1 {
      MulAtLeast(k, d - d0);
    } else if d0 - d >= 1 {
      MulAtLeast(k, d0 - d);
    }
  }

  lemma MulAtLeast(k: int, t: int)
    requires k > 0 && t >= 1
    ensures k * t >= k
  {
    assert k * t == k * (t - 1) + k;
    assert k * (t - 1) >= 0;
  }

  /** Adding a multiple of the modulus does not change the remainder. */
  lemma ModAddMultiple(c: int, d: int, k: int)
    requires k > 0
    ensures (k * c + d) % k == d % k
  {
    var e := d / k;
    assert d == k * e + d % k;
    assert k * c + d == k * (c + e) + d % k;
    DivModUnique(k * c + d, k, c + e, d % k);
  }

  lemma ModOfMultiple(c: int, k: int)
    requires k > 0
    ensures (k * c) % k == 0
  {
    ModAddMultiple(c, 0, k);
  }

  /** Reducing a left factor modulo k does not change the product's remainder. */
  lemma ModMulLeft(a: int, b: int, k: int)
    requires k > 0
    ensures (a * b) % k == ((a % k) * b) % k
  {
    var c := a / k;
    assert a == k * c + a % k;
    assert a * b == k * (c * b) + (a % k) * b;
    ModAddMultiple(c * b, (a % k) * b, k);
  }

  lemma ModMulRight(a: int, b: int, k: int)
    requires k > 0
    ensures (a * b) % k == (a * (b % k)) % k
  {
    ModMulLeft(b, a, k);
    assert a * b == b * a && a * (b % k) == (b % k) * a;
  }

  lemma ModMul(a: int, b: int, k: int)
    requires k > 0
    ensures (a * b) % k == ((a % k) * (b % k)) % k
  {
    ModMulLeft(a, b, k);
    ModMulRight(a % k, b, k);
  }

  lemma ModAdd(a: int, b: int, k: int)
    requires k > 0
    ensures (a + b) % k == ((a % k) + (b % k)) % k
  {
    var c, e := a / k, b / k;
    assert a + b == k * (c + e) + ((a % k) + (b % k));
    ModAddMultiple(c + e, (a % k) + (b % k), k);
  }

  lemma ModSub(a: int, b: int, k: int)
    requires k > 0
    ensures (a - b) % k == ((a % k) - (b % k)) % k
  {
    var c, e := a / k, b / k;
    assert a - b == k * (c - e) + ((a % k) - (b % k));
    ModAddMultiple(c - e, (a % k) - (b % k), k);
  }

  lemma ModMod(a: int, k: int)
    requires k > 0
    ensures (a % k) % k == a % k
  {
    DivModUnique(a % k, k, 0, a % k);
  }

  /** A positive multiple of d is at least d. */
  lemma DivisorAtMost(x: int, d: int)
    requires x > 0 && d > 0 && x % d == 0
    ensures d <= x
  {
    var c := x / d;
    assert x == d * c;
    if c > 0 {
      MulAtLeast(d, c);
    }
  }

  // ---------------------------------------------------------------------
  // gcd and Bezout

  lemma {:induction false} GcdDivides(a: nat, b: nat)
    requires a > 0 || b > 0
    ensures Gcd(a, b) > 0 && a % Gcd(a, b) == 0 && b % Gcd(a, b) == 0
    decreases b
  {
    if b == 0 {
      ModOfMultiple(1, a);
    } else {
      GcdDivides(b, a % b);
      var g := Gcd(a, b);
      assert g == Gcd(b, a % b);
      var r, k := a % b, a / b;
      assert a == b * k + r;
      DividesCombination(g, b, r, k);
    }
  }

  /** Coefficients from the extended Euclidean algorithm. */
  function ExtGcd(a: nat, b: nat): (r: (int, int))
    ensures r.0 * a + r.1 * b == Gcd(a, b)
    decreases b
  {
    if b == 0 then (1, 0)
    else
      var (x, y) := ExtGcd(b, a % b);
      assert a % b == a - b * (a / b);
      assert x * b + y * (a - b * (a / b)) == Gcd(a, b);
      (y, x - y * (a / b))
  }

  /** A Bezout identity x*n + y*k == 1 makes x % k an inverse of n modulo k. */
  lemma InverseFromBezout(x: int, y: int, n: int, k: int)
    requires k >= 2 && x * n + y * k == 1
    ensures ((x % k) * n) % k == 1
  {
    var xn, yk, ky := x * n, y * k, k * (-y);
    NegatedProduct(y, k);
    assert xn == ky + 1;
    ModAddMultiple(-y, 1, k);
    DivModUnique(1, k, 0, 1);
    assert xn % k == 1;
    ModMulLeft(x, n, k);
  }

  lemma NegatedProduct(y: int, k: int)
    ensures k * (-y) == -(y * k)
  {
  }

  /** n has an inverse in 1..k-1 modulo k as soon as gcd(n, k) = 1 and k >= 2. */
  lemma ModInverseExists(n: int, k: int) returns (m: int)
    requires k >= 2 && PyGcd(n, k) == 1
    ensures 1 <= m < k && (m * n) % k == 1
  {
    var r := ExtGcd(Abs(n), k);
    var x: int;
    if n >= 0 {
      x := r.0;
    } else {
      x := -r.0;
      assert x * n == r.0 * (-n);
    }
    InverseFromBezout(x, r.1, n, k);
    m := x % k;
    NonzeroInverse(m, n, k);
  }

  lemma NonzeroInverse(m: int, n: int, k: int)
    requires k >= 2 && (m * n) % k == 1
    ensures m != 0
  {
  }

  /** Every nonzero residue modulo a prime is coprime to it. */
  lemma PrimeResidueCoprime(q: int, a: int)
    requires Prime(q) && a % q != 0
    ensures PyGcd(a % q, q) == 1
  {
    var x: nat := a % q;
    GcdDivides(x, q);
    var g := Gcd(x, q);
    assert PyGcd(a % q, q) == g;
    DivisorAtMost(x, g);
  }

  /** Every nonzero residue modulo a prime has an inverse in 1..q-1. */
  lemma PrimeInverse(q: int, a: int) returns (m: int)
    requires Prime(q) && a % q != 0
    ensures 1 <= m < q && (m * a) % q == 1
  {
    PrimeResidueCoprime(q, a);
    m := ModInverseExists(a % q, q);
    ModMulRight(m, a, q);
  }

  /** Euclid's lemma: a prime dividing a product divides a factor. */
  lemma PrimeProductNonzero(q: int, a: int, b: int)
    requires Prime(q) && a % q != 0 && b % q != 0
    ensures (a * b) % q != 0
  {
    var m := PrimeInverse(q, a);
    if (a * b) % q == 0 {
      CancelToZero(q, m, a, b);
    }
  }

  lemma CancelToZero(q: int, m: int, a: int, b: int)
    requires q > 0 && (m * a) % q == 1 && (a * b) % q == 0
    ensures b % q == 0
  {
    var ab, ma := a * b, m * a;
    calc {
      b % q;
      ((ma % q) * b) % q;
      { ModMulLeft(ma, b, q); }
      (ma * b) % q;
      { MulAssoc(m, a, b); }
      (m * ab) % q;
      { ModMulRight(m, ab, q); }
      (m * (ab % q)) % q;
      0;
    }
  }

  lemma MulAssoc(a: int, b: int, c: int)
    ensures a * (b * c) == (a * b) * c
  {
  }

  /** A common divisor g of b and r divides b * k + r. */
  lemma DividesCombination(g: int, b: int, r: int, k: int)
    requires g > 0 && b % g == 0 && r % g == 0
    ensures (b * k + r) % g == 0
  {
    var u, v := b / g, r / g;
    assert b == g * u;
    assert r == g * v;
    FactorOut(g, u, v, k);
    ModOfMultiple(u * k + v, g);
  }

  lemma FactorOut(g: int, u: int, v: int, k: int)
    ensures (g * u) * k + g * v == g * (u * k + v)
  {
  }

  // ---------------------------------------------------------------------
  // Powers

  lemma {:induction false} PowAdd(a: int, i: nat, j: nat)
    ensures Pow(a, i + j) == Pow(a, i) * Pow(a, j)
    decreases i
  {
    if i > 0 {
      PowAdd(a, i - 1, j);
      assert Pow(a, i + j) == a * Pow(a, i - 1 + j);
    }
  }

  lemma {:induction false} PowPow(a: int, i: nat, j: nat)
    ensures Pow(Pow(a, i), j) == Pow(a, i * j)
    decreases j
  {
    if j > 0 {
      PowPow(a, i, j - 1);
      assert i * j == i + i * (j - 1);
      PowAdd(a, i, i * (j - 1));
    }
  }

  lemma {:induction false} PowMod(a: int, k: nat, q: int)
    requires q > 0
    ensures Pow(a % q, k) % q == Pow(a, k) % q
    decreases k
  {
    if k > 0 {
      PowMod(a, k - 1, q);
      ModMul(a % q, Pow(a % q, k - 1), q);
      ModMod(a, q);
      ModMul(a, Pow(a, k - 1), q);
    }
  }

  /** The k-th power of a product is the product of the k-th powers. */
  lemma {:induction false} PowMul(a: int, b: int, k: nat)
    ensures Pow(a * b, k) == Pow(a, k) * Pow(b, k)
    decreases k
  {
    if k > 0 {
      PowMul(a, b, k - 1);
      MulRearrange(a, b, Pow(a, k - 1), Pow(b, k - 1));
    }
  }

  lemma MulRearrange(a: int, b: int, x: int, y: int)
    ensures (a * b) * (x * y) == (a * x) * (b * y)
  {
  }

  lemma {:induction false} PowOne(k: nat)
    ensures Pow(1, k) == 1
    decreases k
  {
    if k > 0 { PowOne(k - 1); }
  }
}
