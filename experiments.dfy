/**
 * The helper the SL(2, k) experiment scripts share: the least inverse of n
 * modulo k, and the generating sets the 16-regular and 6-regular experiments
 * build from it before handing them to `CayleyGraph`.
 */
module Experiments {
  import opened Wrappers
  import opened NumberTheory
  import opened Tuples
  import opened Matrices
  import opened Groups
  import opened LPS

  /** What `inverse(n, k)` hands back. */
  datatype Inversion =
    | NotInvertible    // the string "Inverse does not exist."
    | Found(m: int)    // the least m in 1..k-1 with m * n = 1 mod k
    | NoneReturned     // the loop ran out without a return: Python's None

  /** `inverse(n, k)`: refuse when gcd(n, k) != 1, else the least m in range(1, k) that inverts n. */
  function ModularInverse(n: int, k: int): Inversion
  {
    if PyGcd(n, k) != 1 then NotInvertible
    else if k < 2 then NoneReturned
    else match InverseSearch(n, k)
      case Some(m) => Found(m)
      case None => NoneReturned
  }

  /** The least m in 1..k-1 with m * n = 1 mod k, if any. */
  function InverseSearch(n: int, k: int): (r: Option<int>)
    requires k >= 2
    ensures r.Some? ==> 1 <= r.value < k && (r.value * n) % k == 1
    ensures r.Some? ==> forall j :: 1 <= j < r.value ==> (j * n) % k != 1
    ensures r.None? ==> forall j :: 1 <= j < k ==> (j * n) % k != 1
  {
    var P := (m: int) => (m * n) % k == 1;
    var r := LeastIn(1, k, P);
    SearchResult(n, k, P, r);
    r
  }

  /** LeastIn's contract, read back through the predicate it was given. */
  lemma SearchResult(n: int, k: int, P: int -> bool, r: Option<int>)
    requires k >= 2 && r == LeastIn(1, k, P)
    requires forall m :: P(m) == ((m * n) % k == 1)
    ensures r.Some? ==> 1 <= r.value < k && (r.value * n) % k == 1
    ensures r.Some? ==> forall j :: 1 <= j < r.value ==> (j * n) % k != 1
    ensures r.None? ==> forall j :: 1 <= j < k ==> (j * n) % k != 1
  {
    var hi := if r.Some? then r.value else k;
    forall j | 1 <= j < hi
      ensures (j * n) % k != 1
    {
      assert !P(j);
    }
  }

  /** The loop of `inverse`, returning at the first m that inverts n. */
  method Inverse(n: int, k: int) returns (r: Inversion)
    ensures r == ModularInverse(n, k)
  {
    if PyGcd(n, k) != 1 {
      return NotInvertible;
    }
    var m := 1;
    while m < k
      invariant 1 <= m
      invariant forall j :: 1 <= j < m && j < k ==> (j * n) % k != 1
      decreases k - m
    {
      if (m * n) % k == 1 {
        return Found(m);
      }
      m := m + 1;
    }
    return NoneReturned;
  }

  /** A common divisor of n and k divides every m * n - t * k. */
  lemma CommonDivisorCombination(g: int, n: int, k: int, m: int, t: int)
    requires g > 0 && n % g == 0 && k % g == 0
    ensures (m * n - t * k) % g == 0
  {
    var a, b := n / g, k / g;
    assert n == g * a && k == g * b;
    assert m * n - t * k == g * (m * a - t * b);
    ModOfMultiple(m * a - t * b, g);
  }

  /** If some m inverts n modulo k, then gcd(n, k) == 1. */
  lemma InverseNeedsCoprime(n: int, k: int, m: int)
    requires k >= 2 && (m * n) % k == 1
    ensures PyGcd(n, k) == 1
  {
    var g := Gcd(Abs(n), Abs(k));
    GcdDivides(Abs(n), Abs(k));
    assert n % g == 0 by {
      if n < 0 {
        var c := Abs(n) / g;
        assert n == g * (-c);
        ModOfMultiple(-c, g);
      }
    }
    var t := (m * n) / k;
    assert m * n - t * k == 1;
    CommonDivisorCombination(g, n, k, m, t);
    DivisorAtMost(1, g);
  }

  /**
   * The promise of `inverse`'s documentation: n has an inverse modulo k exactly when
   * gcd(n, k) == 1, and then `inverse` finds the least one. For k < 2 nothing is found.
   */
  lemma InverseFound(n: int, k: int)
    ensures ModularInverse(n, k).Found? <==> k >= 2 && PyGcd(n, k) == 1
    ensures ModularInverse(n, k).Found? ==>
      var m := ModularInverse(n, k).m;
      1 <= m < k && (m * n) % k == 1 && forall j :: 1 <= j < m ==> (j * n) % k != 1
    ensures ModularInverse(n, k).NotInvertible? <==> PyGcd(n, k) != 1
  {
    if k >= 2 && PyGcd(n, k) == 1 {
      var w := ModInverseExists(n, k);
      assert InverseSearch(n, k).Some?;
    }
  }

  /** Whenever some inverse exists, `inverse` returns one. */
  lemma InverseExistsFound(n: int, k: int, m: int)
    requires k >= 2 && (m * n) % k == 1
    ensures ModularInverse(n, k).Found?
  {
    InverseNeedsCoprime(n, k, m);
    InverseFound(n, k);
  }

  // ---------------------------------------------------------------------
  // Generating sets

  /** The set of the 16-regular experiment, with 2^-1 and 5^-1 filled in. */
  function Cay16Set(inv2: int, inv5: int): (S: seq<seq<int>>)
    ensures |S| == 8 && forall g :: g in S ==> |g| == 4
  {
    [[1, 1, 0, 1], [1, 0, 1, 1], [1, 3, 0, 1], [1, 0, 3, 1], [2, 0, 0, inv2],
     [1, 7, 0, 1], [1, 0, 7, 1], [5, 0, 0, inv5]]
  }

  /** The set of the 6-regular experiment, with 2^-1 filled in. */
  function Cay6Set(inv2: int): (S: seq<seq<int>>)
    ensures |S| == 3 && forall g :: g in S ==> |g| == 4
  {
    [[1, 2, 0, 1], [1, 0, 2, 1], [2, 0, 0, inv2]]
  }

  /** The set the 16-regular script builds for k; None where `inverse` gives no number. */
  function Cay16Generators(k: int): (r: Option<seq<seq<int>>>)
    ensures r.Some? <==> k >= 2 && PyGcd(2, k) == 1 && PyGcd(5, k) == 1
    ensures r.Some? ==> |r.value| == 8 && forall g :: g in r.value ==> |g| == 4
    ensures r.Some? ==> (r.value[4][0] * r.value[4][3]) % k == 1 && (r.value[7][0] * r.value[7][3]) % k == 1
  {
    InverseFound(2, k);
    InverseFound(5, k);
    match (ModularInverse(2, k), ModularInverse(5, k))
      case (Found(inv2), Found(inv5)) => Some(Cay16Set(inv2, inv5))
      case _ => None
  }

  function Cay6Generators(k: int): (r: Option<seq<seq<int>>>)
    ensures r.Some? <==> k >= 2 && PyGcd(2, k) == 1
    ensures r.Some? ==> |r.value| == 3 && forall g :: g in r.value ==> |g| == 4
    ensures r.Some? ==> (r.value[2][0] * r.value[2][3]) % k == 1
  {
    InverseFound(2, k);
    match ModularInverse(2, k)
      case Found(inv2) => Some(Cay6Set(inv2))
      case _ => None
  }

  /** A tuple over 0..k-1 with determinant 1 lies in SL(2, k). */
  lemma DetOneInSL(k: int, t: seq<int>)
    requires k >= 2 && |t| == 4 && InRange(t, 0, k) && Det2(t) % k == 1
    ensures t in SLElements(2, k)
  {
    DetOf2(t);
    SLMember(2, k, t);
  }

  /** The shears (1, a, 0, 1) and (1, 0, a, 1) lie in SL(2, k) once 0 <= a < k. */
  lemma ShearInSL(k: int, a: int)
    requires k >= 2 && 0 <= a < k
    ensures [1, a, 0, 1] in SLElements(2, k) && [1, 0, a, 1] in SLElements(2, k)
  {
    assert Det2([1, a, 0, 1]) == 1 && Det2([1, 0, a, 1]) == 1;
    DetOneInSL(k, [1, a, 0, 1]);
    DetOneInSL(k, [1, 0, a, 1]);
  }

  /** A diagonal tuple (a, 0, 0, b) with b an inverse of a lies in SL(2, k). */
  lemma DiagonalInSL(k: int, a: int, b: int)
    requires k >= 2 && 0 <= a < k && 0 <= b < k && (b * a) % k == 1
    ensures [a, 0, 0, b] in SLElements(2, k)
  {
    assert Det2([a, 0, 0, b]) == b * a;
    DetOneInSL(k, [a, 0, 0, b]);
  }

  /** Modulo a prime k, every a in 1..k-1 gets an inverse from `inverse`. */
  lemma PrimeUnitFound(k: int, a: int)
    requires Prime(k) && 0 < a < k
    ensures ModularInverse(a, k).Found?
    ensures 1 <= ModularInverse(a, k).m < k && (ModularInverse(a, k).m * a) % k == 1
  {
    var m := PrimeInverse(k, a);
    InverseExistsFound(a, k, m);
  }

  /**
   * For the primes k > 7 the script visits (11 to 34), both inverses exist and
   * every generator is an element of SL(2, k).
   */
  lemma Cay16GeneratorsInSL(k: int)
    requires Prime(k) && k > 7
    ensures Cay16Generators(k).Some?
    ensures forall g :: g in Cay16Generators(k).value ==> g in SLElements(2, k)
  {
    PrimeUnitFound(k, 2);
    PrimeUnitFound(k, 5);
    var inv2, inv5 := ModularInverse(2, k).m, ModularInverse(5, k).m;
    DiagonalInSL(k, 2, inv2);
    DiagonalInSL(k, 5, inv5);
    ShearInSL(k, 1);
    ShearInSL(k, 3);
    ShearInSL(k, 7);
  }

  /** For every odd k >= 3, 2 is invertible and the three generators lie in SL(2, k). */
  lemma Cay6GeneratorsInSL(k: int)
    requires k >= 3 && k % 2 == 1
    ensures Cay6Generators(k).Some?
    ensures forall g :: g in Cay6Generators(k).value ==> g in SLElements(2, k)
  {
    var h := k / 2;
    assert 2 * (h + 1) == k + 1;
    assert ((h + 1) * 2) % k == 1 by {
      ModAddMultiple(1, 1, k);
    }
    InverseExistsFound(2, k, h + 1);
    InverseFound(2, k);
    var inv2 := ModularInverse(2, k).m;
    DiagonalInSL(k, 2, inv2);
    ShearInSL(k, 2);
  }
}
