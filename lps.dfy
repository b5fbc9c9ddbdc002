/**
 * The Lubotzky-Phillips-Sarnak graphs: the number-theoretic helpers (trial-division
 * primality, quadratic residues, four-square representations) and the choice of
 * group and generators made by the `LPS` constructor.
 */
module LPS {
  import opened Wrappers
  import opened NumberTheory
  import opened Tuples
  import opened Matrices
  import opened Groups
  import opened CayleyGraphs

  // ---------------------------------------------------------------------
  // Arithmetic helpers

  lemma MulMonotone(a: int, b: int, c: int, d: int)
    requires 0 <= a <= b && 0 <= c <= d
    ensures a * c <= b * d
  {
    assert a * c <= b * c;
    assert b * c <= b * d;
  }

  lemma SquareNonnegative(x: int)
    ensures x * x >= 0
  {
    if x < 0 {
      assert x * x == (-x) * (-x);
    }
  }

  /** A number whose square is at most n lies within the integer square root of n. */
  lemma SquareBound(x: int, n: nat)
    requires x * x <= n
    ensures -(ISqrt(n) as int) <= x <= ISqrt(n)
  {
    var s: int := ISqrt(n);
    if x > s {
      MulMonotone(s + 1, x, s + 1, x);
    } else if x < -s {
      MulMonotone(s + 1, -x, s + 1, -x);
    }
  }

  // ---------------------------------------------------------------------
  // is_prime

  /** The answer `is_prime` gives: false for 1, true for 2, else no divisor in 2 .. isqrt(n). */
  predicate TrialDivision(n: nat)
  {
    n != 1 && (n == 2 || forall k :: 2 <= k <= ISqrt(n) ==> n % k != 0)
  }

  /** `is_prime(n)`: trial division up to the integer square root. */
  method IsPrime(n: int) returns (r: bool)
    requires n >= 0
    ensures r == TrialDivision(n)
  {
    if n == 1 {
      return false;
    }
    if n == 2 {
      return true;
    }
    var s: int := ISqrt(n);
    var k := 2;
    while k < s + 1
      invariant k >= 2
      invariant forall j :: 2 <= j < k ==> n % j != 0
      decreases s + 1 - k
    {
      if n % k == 0 {
        return false;
      }
      k := k + 1;
    }
    return true;
  }

  lemma SmallQuotient(k: int, d: int)
    requires k >= 2 && d < 2
    ensures k * d <= k
  {
    if d <= 0 {
      MulMonotone(0, k, 0, -d);
    }
  }

  /** A composite number has a proper divisor no larger than its integer square root. */
  lemma SmallDivisor(n: nat, k: int)
    requires 2 <= k < n && n % k == 0
    ensures exists j :: 2 <= j <= ISqrt(n) && n % j == 0
  {
    var s := ISqrt(n);
    var d := n / k;
    assert n == k * d;
    if d < 2 {
      SmallQuotient(k, d);
    }
    assert d >= 2;
    DivModUnique(n, d, k, 0);
    if k > s && d > s {
      MulMonotone(s + 1, k, s + 1, d);
    }
  }

  /** For every positive n, the trial division of `is_prime` decides primality. */
  lemma TrialDivisionPrime(n: nat)
    requires n >= 1
    ensures TrialDivision(n) <==> Prime(n)
  {
    var s := ISqrt(n);
    if n >= 3 {
      if Prime(n) {
        if s >= n {
          MulMonotone(2, s, s, s);
        }
        assert s < n;
      }
      if !Prime(n) {
        var k :| 2 <= k < n && n % k == 0;
        SmallDivisor(n, k);
      }
    }
  }

  /** `is_prime(0)` answers True: the range of trial divisors is empty. */
  lemma IsPrimeAcceptsZero()
    ensures TrialDivision(0) && !Prime(0)
  {
    assert ISqrt(0) == 0;
  }

  /** Trial division that answers false below 2, as primality requires. */
  method IsPrimeCorrected(n: int) returns (r: bool)
    ensures r == Prime(n)
  {
    if n < 2 {
      return false;
    }
    r := IsPrime(n);
    TrialDivisionPrime(n);
  }

  // ---------------------------------------------------------------------
  // is_quadratic_residue

  /**
   * The squares of the units below m, reduced mod m. For a negative m the range of
   * candidates is empty, so the set is empty in both languages.
   */
  function QuadraticResidues(m: int): set<int>
    requires m != 0
  {
    set x | 1 <= x < m && PyGcd(x, m) == 1 :: (x * x) % m
  }

  /** `is_quadratic_residue(p, m)`. */
  predicate IsQuadraticResidue(p: int, m: int)
    requires m != 0
  {
    p % m in QuadraticResidues(m)
  }

  /** Below 2 the range of candidate units is empty, so nothing is a residue. */
  lemma QuadraticResidueSmallModulus(p: int, m: int)
    requires m != 0 && m < 2
    ensures !IsQuadraticResidue(p, m)
  {
    assert QuadraticResidues(m) == {};
  }

  /** Modulo a prime q, p is a residue exactly when it is a nonzero square mod q. */
  lemma QuadraticResiduePrime(p: int, q: int)
    requires Prime(q)
    ensures IsQuadraticResidue(p, q) <==> p % q != 0 && exists x :: (x * x) % q == p % q
  {
    if IsQuadraticResidue(p, q) {
      var x := ResidueWitness(p, q);
      ResidueNonzero(p, q, x);
    }
    if p % q != 0 && exists x :: (x * x) % q == p % q {
      var x :| (x * x) % q == p % q;
      var r := SquareReduced(p, q, x);
      assert (r * r) % q in QuadraticResidues(q);
    }
  }

  /** A residue has a square root among the units below the modulus. */
  lemma ResidueWitness(p: int, m: int) returns (x: int)
    requires m != 0 && IsQuadraticResidue(p, m)
    ensures 1 <= x < m && PyGcd(x, m) == 1 && (x * x) % m == p % m
  {
    x :| 1 <= x < m && PyGcd(x, m) == 1 && (x * x) % m == p % m;
  }

  lemma ResidueNonzero(p: int, q: int, x: int)
    requires Prime(q) && 1 <= x < q && (x * x) % q == p % q
    ensures p % q != 0
  {
    DivModUnique(x, q, 0, x);
    PrimeProductNonzero(q, x, x);
  }

  /** A square root of a nonzero residue can be taken among the units below q. */
  lemma SquareReduced(p: int, q: int, x: int) returns (r: int)
    requires Prime(q) && p % q != 0 && (x * x) % q == p % q
    ensures 1 <= r < q && PyGcd(r, q) == 1 && (r * r) % q == p % q
  {
    r := x % q;
    ModMul(x, x, q);
    assert r != 0;
    DivModUnique(r, q, 0, r);
    PrimeResidueCoprime(q, r);
  }

  // ---------------------------------------------------------------------
  // sum_of_four_squares

  function SumOfSquares(t: seq<int>): int
    requires |t| == 4
  {
    t[0] * t[0] + t[1] * t[1] + t[2] * t[2] + t[3] * t[3]
  }

  /** The filter of `sum_of_four_squares`: x0 odd and positive, x1..x3 even, squares summing to p. */
  predicate FourSquareTest(p: int, t: seq<int>)
  {
    && |t| == 4
    && t[0] > 0 && t[0] % 2 == 1 && t[1] % 2 == 0 && t[2] % 2 == 0 && t[3] % 2 == 0
    && p == SumOfSquares(t)
  }

  /** The candidate tuples: every coordinate in -isqrt(p) - 1 .. isqrt(p), in itertools order. */
  function FourSquareCandidates(p: nat): seq<seq<int>>
  {
    Product(-(ISqrt(p) as int) - 1, ISqrt(p) + 1, 4)
  }

  /** The filter as a predicate value, shared by the list and the loop that builds it. */
  function FourSquareFilter(p: int): seq<int> -> bool
  {
    t => FourSquareTest(p, t)
  }

  function FourSquares(p: nat): seq<seq<int>>
  {
    Filter(FourSquareCandidates(p), FourSquareFilter(p))
  }

  /** `sum_of_four_squares(p)`: scans the candidates and keeps those passing the test. */
  method SumOfFourSquares(p: int) returns (output: seq<seq<int>>)
    requires p >= 0
    ensures output == FourSquares(p)
  {
    var candidates := FourSquareCandidates(p);
    var test := FourSquareFilter(p);
    output := [];
    var i := 0;
    while i < |candidates|
      invariant 0 <= i <= |candidates|
      invariant output == Filter(candidates[..i], test)
    {
      var t := candidates[i];
      FilterStep(candidates, i, test);
      if FourSquareTest(p, t) {
        output := output + [t];
      }
      i := i + 1;
    }
    assert candidates[..i] == candidates;
  }

  /**
   * Exactly the representations of p with x0 odd and positive and x1..x3 even
   * are listed: none is missed by the bound on the candidates.
   */
  lemma FourSquaresMember(p: nat, t: seq<int>)
    ensures t in FourSquares(p) <==> FourSquareTest(p, t)
  {
    if FourSquareTest(p, t) {
      FourSquareListed(p, t);
    }
  }

  /** A representation that passes the test is among the candidates, so it is listed. */
  lemma FourSquareListed(p: nat, t: seq<int>)
    requires FourSquareTest(p, t)
    ensures t in FourSquares(p)
  {
    FourSquareCandidate(p, t);
    assert FourSquareFilter(p)(t);
  }

  /** A representation that passes the test lies in the candidate range. */
  lemma FourSquareCandidate(p: nat, t: seq<int>)
    requires FourSquareTest(p, t)
    ensures t in FourSquareCandidates(p)
  {
    FourSquareBounds(p, t);
    ProductMember(-(ISqrt(p) as int) - 1, ISqrt(p) + 1, 4, t);
  }

  /** Every coordinate of a representation of p lies in the candidate range. */
  lemma FourSquareBounds(p: nat, t: seq<int>)
    requires FourSquareTest(p, t)
    ensures InRange(t, -(ISqrt(p) as int) - 1, ISqrt(p) + 1)
  {
    var a, b, c, d := t[0] * t[0], t[1] * t[1], t[2] * t[2], t[3] * t[3];
    SquareNonnegative(t[0]);
    SquareNonnegative(t[1]);
    SquareNonnegative(t[2]);
    SquareNonnegative(t[3]);
    assert a + b + c + d == p;
    CoordinateInRange(t[0], p, b + c + d);
    CoordinateInRange(t[1], p, a + c + d);
    CoordinateInRange(t[2], p, a + b + d);
    CoordinateInRange(t[3], p, a + b + c);
  }

  lemma CoordinateInRange(x: int, p: nat, rest: int)
    requires rest >= 0 && x * x + rest == p
    ensures -(ISqrt(p) as int) - 1 < x < ISqrt(p) + 1
  {
    SquareBound(x, p);
  }

  /** The list is in lexicographic order and has no repetitions. */
  lemma FourSquaresSorted(p: nat)
    ensures LexSorted(FourSquares(p)) && Distinct(FourSquares(p))
  {
    ProductSorted(-(ISqrt(p) as int) - 1, ISqrt(p) + 1, 4);
    FilterSorted(FourSquareCandidates(p), FourSquareFilter(p));
    LexSortedDistinct(FourSquares(p));
  }

  /** A list without repetitions has as many entries as it has distinct members. */
  lemma {:induction false} DistinctCardinality(s: seq<seq<int>>)
    requires Distinct(s)
    ensures |set x | x in s| == |s|
    decreases |s|
  {
    if |s| > 0 {
      var s' := s[..|s| - 1];
      DistinctCardinality(s');
      assert (set x | x in s) == (set x | x in s') + {s[|s| - 1]};
    }
  }

  lemma CountByMembers(s: seq<seq<int>>, S: set<seq<int>>)
    requires Distinct(s) && forall t :: t in s <==> t in S
    ensures |s| == |S|
  {
    DistinctCardinality(s);
    assert (set x | x in s) == S;
  }

  /** The representations of 5 the filter keeps: one for each sign and place of the 2. */
  lemma FourSquareTestFive(p: nat, t: seq<int>)
    requires p == 5
    ensures FourSquareTest(p, t) <==> t in FiveReps()
  {
    if FourSquareTest(p, t) {
      FiveRepresentation(p, t);
    }
  }

  lemma FiveRepresentation(p: nat, t: seq<int>)
    requires p == 5 && FourSquareTest(p, t)
    ensures t in FiveReps()
  {
    var s := ISqrt(p);
    assert s == 2 by {
      if s < 2 { MulMonotone(s + 1, 2, s + 1, 2); }
      if s > 2 { MulMonotone(3, s, 3, s); }
    }
    FourSquareBounds(p, t);
    var x0, x1, x2, x3 := t[0], t[1], t[2], t[3];
    assert x0 == 1;
    SmallEven(x1);
    SmallEven(x2);
    SmallEven(x3);
    assert x1 * x1 + x2 * x2 + x3 * x3 == 4;
    assert t == [1, x1, x2, x3];
  }

  /** An even coordinate of a representation of 5 is 0 or 2 in absolute value. */
  lemma SmallEven(x: int)
    requires -3 < x < 3 && x % 2 == 0
    ensures x == -2 || x == 0 || x == 2
    ensures x * x == if x == 0 then 0 else 4
  {
  }

  function FiveReps(): (S: set<seq<int>>)
    ensures |S| == 6
  {
    {[1, 2, 0, 0], [1, -2, 0, 0], [1, 0, 2, 0], [1, 0, -2, 0], [1, 0, 0, 2], [1, 0, 0, -2]}
  }

  /** For p = 5 the list has p + 1 = 6 entries. */
  lemma FourSquaresOfFive(p: nat)
    requires p == 5
    ensures |FourSquares(p)| == p + 1
  {
    forall t ensures t in FourSquares(p) <==> t in FiveReps() {
      FourSquaresMember(p, t);
      FourSquareTestFive(p, t);
    }
    FourSquaresSorted(p);
    CountByMembers(FourSquares(p), FiveReps());
  }

  // ---------------------------------------------------------------------
  // The minimal witnesses of the constructor

  /** `min([i for i in range(lo, hi) if P(i)])`, or None where `min` raises on an empty list. */
  function LeastIn(lo: int, hi: int, P: int -> bool): (r: Option<int>)
    ensures r.Some? ==> lo <= r.value < hi && P(r.value) && forall j :: lo <= j < r.value ==> !P(j)
    ensures r.None? ==> forall j :: lo <= j < hi ==> !P(j)
    decreases hi - lo
  {
    if lo >= hi then None else if P(lo) then Some(lo) else LeastIn(lo + 1, hi, P)
  }

  /** i squared is -1 modulo q. */
  predicate SquaresToMinusOne(q: int, i: int)
    requires q >= 1
  {
    (i * i) % q == q - 1
  }

  /** i is an inverse of p modulo q. */
  predicate InvertsModulo(p: int, q: int, i: int)
    requires q >= 1
  {
    (i * p) % q == 1
  }

  /** i squared is t modulo q. */
  predicate SquaresTo(t: int, q: int, i: int)
    requires q >= 1
  {
    (i * i) % q == t
  }

  /** `iota`: the least square root of -1 modulo q. */
  function Iota(q: int): (r: Option<int>)
    requires q >= 1
    ensures r.Some? ==> 0 <= r.value < q && SquaresToMinusOne(q, r.value)
    ensures r.Some? ==> forall i :: 0 <= i < r.value ==> !SquaresToMinusOne(q, i)
    ensures r.None? <==> forall i :: 0 <= i < q ==> !SquaresToMinusOne(q, i)
  {
    var square := i => SquaresToMinusOne(q, i);
    var r := LeastIn(0, q, square);
    assert r.Some? ==> forall i :: 0 <= i < r.value ==> !SquaresToMinusOne(q, i) by {
      if r.Some? {
        forall i | 0 <= i < r.value ensures !SquaresToMinusOne(q, i) {
          assert !square(i);
        }
      }
    }
    assert r.None? ==> forall i :: 0 <= i < q ==> !SquaresToMinusOne(q, i) by {
      if r.None? {
        forall i | 0 <= i < q ensures !SquaresToMinusOne(q, i) {
          assert !square(i);
        }
      }
    }
    assert r.Some? ==> exists i :: 0 <= i < q && SquaresToMinusOne(q, i) by {
      if r.Some? {
        assert square(r.value);
      }
    }
    r
  }

  /** `p_inv`: the least inverse of p modulo q. */
  function PInverse(p: int, q: int): (r: Option<int>)
    requires q >= 1
    ensures r.Some? ==> 0 <= r.value < q && InvertsModulo(p, q, r.value)
    ensures r.Some? ==> forall i :: 0 <= i < r.value ==> !InvertsModulo(p, q, i)
    ensures r.None? <==> forall i :: 0 <= i < q ==> !InvertsModulo(p, q, i)
  {
    var inverse := i => InvertsModulo(p, q, i);
    var r := LeastIn(0, q, inverse);
    assert r.Some? ==> forall i :: 0 <= i < r.value ==> !InvertsModulo(p, q, i) by {
      if r.Some? {
        forall i | 0 <= i < r.value ensures !InvertsModulo(p, q, i) {
          assert !inverse(i);
        }
      }
    }
    assert r.None? ==> forall i :: 0 <= i < q ==> !InvertsModulo(p, q, i) by {
      if r.None? {
        forall i | 0 <= i < q ensures !InvertsModulo(p, q, i) {
          assert !inverse(i);
        }
      }
    }
    assert r.Some? ==> exists i :: 0 <= i < q && InvertsModulo(p, q, i) by {
      if r.Some? {
        assert inverse(r.value);
      }
    }
    r
  }

  /** `quad_res`: the least square root of p_inv modulo q. */
  function QuadRes(pInv: int, q: int): (r: Option<int>)
    requires q >= 1
    ensures r.Some? ==> 0 <= r.value < q && SquaresTo(pInv, q, r.value)
    ensures r.Some? ==> forall i :: 0 <= i < r.value ==> !SquaresTo(pInv, q, i)
    ensures r.None? <==> forall i :: 0 <= i < q ==> !SquaresTo(pInv, q, i)
  {
    var root := i => SquaresTo(pInv, q, i);
    var r := LeastIn(0, q, root);
    assert r.Some? ==> forall i :: 0 <= i < r.value ==> !SquaresTo(pInv, q, i) by {
      if r.Some? {
        forall i | 0 <= i < r.value ensures !SquaresTo(pInv, q, i) {
          assert !root(i);
        }
      }
    }
    assert r.None? ==> forall i :: 0 <= i < q ==> !SquaresTo(pInv, q, i) by {
      if r.None? {
        forall i | 0 <= i < q ensures !SquaresTo(pInv, q, i) {
          assert !root(i);
        }
      }
    }
    assert r.Some? ==> exists i :: 0 <= i < q && SquaresTo(pInv, q, i) by {
      if r.Some? {
        assert root(r.value);
      }
    }
    r
  }

  lemma MulSwap(a: int, b: int, p: int)
    ensures a * (b * p) == b * (a * p)
  {
  }

  /** a times an inverse of p, times p, is a again. */
  lemma InverseCancel(q: int, p: int, a: int, b: int)
    requires q >= 2 && 0 <= a < q && (b * p) % q == 1
    ensures (a * (b * p)) % q == a
  {
    ModMulRight(a, b * p, q);
    DivModUnique(a, q, 0, a);
  }

  /** Two inverses of p modulo q that are both reduced are equal. */
  lemma InverseUnique(q: int, p: int, a: int, b: int)
    requires q >= 2 && 0 <= a < q && 0 <= b < q
    requires (a * p) % q == 1 && (b * p) % q == 1
    ensures a == b
  {
    InverseCancel(q, p, a, b);
    InverseCancel(q, p, b, a);
    MulSwap(a, b, p);
  }

  lemma SquareOfProduct(x: int, y: int)
    ensures (y * y) * (x * x) == (y * x) * (y * x)
  {
  }

  /** When x * x == p mod q and y is the inverse of x, y * y is an inverse of p. */
  lemma InverseSquare(q: int, p: int, x: int, y: int)
    requires q >= 2 && (x * x) % q == p % q && (y * x) % q == 1
    ensures (((y * y) % q) * p) % q == 1
  {
    var yy, xx, yx := y * y, x * x, y * x;
    calc {
      ((yy % q) * p) % q;
      { ModMulLeft(yy, p, q); }
      (yy * p) % q;
      { ModMulRight(yy, p, q); }
      (yy * (p % q)) % q;
      (yy * (xx % q)) % q;
      { ModMulRight(yy, xx, q); }
      (yy * xx) % q;
      { SquareOfProduct(x, y); }
      (yx * yx) % q;
      { ModMul(yx, yx, q); }
      ((yx % q) * (yx % q)) % q;
      1;
    }
  }

  /** A prime modulus and a p it does not divide always give `p_inv`. */
  lemma PInverseExists(p: int, q: int)
    requires Prime(q) && p % q != 0
    ensures PInverse(p, q).Some?
  {
    var m := PrimeInverse(q, p);
    assert InvertsModulo(p, q, m);
  }

  /** When p is a residue modulo the prime q, `quad_res` exists. */
  lemma QuadResExists(p: int, q: int)
    requires Prime(q) && IsQuadraticResidue(p, q) && PInverse(p, q).Some?
    ensures QuadRes(PInverse(p, q).value, q).Some?
  {
    var pInv := PInverse(p, q).value;
    var x := ResidueWitness(p, q);
    DivModUnique(x, q, 0, x);
    var y := PrimeInverse(q, x);
    InverseSquare(q, p, x, y);
    InverseUnique(q, p, (y * y) % q, pInv);
    assert SquaresTo(pInv, q, y);
  }

  // ---------------------------------------------------------------------
  // The generators

  /** One generator: the quaternion t as a 2x2 matrix over Z/q, scaled by c. */
  function Encode(c: int, iota: int, q: int, t: seq<int>): (A: seq<int>)
    requires q >= 1 && |t| == 4
    ensures |A| == 4 && InRange(A, 0, q)
  {
    [(c * (t[0] + iota * t[1])) % q, (c * (t[2] + iota * t[3])) % q,
     (c * (-t[2] + iota * t[3])) % q, (c * (t[0] - iota * t[1])) % q]
  }

  function Generators(c: int, iota: int, q: int, ts: seq<seq<int>>): (S: seq<seq<int>>)
    requires q >= 1 && forall t :: t in ts ==> |t| == 4
    ensures |S| == |ts|
  {
    seq(|ts|, k requires 0 <= k < |ts| => Encode(c, iota, q, ts[k]))
  }

  lemma EncodeIdentity(c: int, iota: int, t0: int, t1: int, t2: int, t3: int)
    ensures (c * (t0 + iota * t1)) * (c * (t0 - iota * t1)) - (c * (t2 + iota * t3)) * (c * (-t2 + iota * t3))
         == c * c * (t0 * t0 + t1 * t1 + t2 * t2 + t3 * t3)
            - (c * c * (t1 * t1 + t3 * t3)) * (iota * iota + 1)
  {
    var C, I := c * c, iota * iota;
    ScaledProduct(c, t0 + iota * t1, t0 - iota * t1);
    ScaledProduct(c, iota * t3 + t2, iota * t3 - t2);
    DifferenceOfSquares(t0, iota * t1);
    DifferenceOfSquares(iota * t3, t2);
    SquareOfProduct(t1, iota);
    SquareOfProduct(t3, iota);
    assert t2 + iota * t3 == iota * t3 + t2 && -t2 + iota * t3 == iota * t3 - t2;
    ExpandedIdentity(C, I, t0 * t0, t1 * t1, t2 * t2, t3 * t3);
  }

  lemma ScaledProduct(c: int, a: int, b: int)
    ensures (c * a) * (c * b) == (c * c) * (a * b)
  {
  }

  lemma DifferenceOfSquares(u: int, v: int)
    ensures (u + v) * (u - v) == u * u - v * v
  {
  }

  lemma ExpandedIdentity(C: int, I: int, T0: int, T1: int, T2: int, T3: int)
    ensures C * (T0 - I * T1) - C * (I * T3 - T2) == C * (T0 + T1 + T2 + T3) - (C * (T1 + T3)) * (I + 1)
  {
  }

  lemma Regroup(X: int, S: int, K: int, Y: int, q: int, k: int)
    requires X == S - K * Y && Y == q * k
    ensures X == q * (-(K * k)) + S
  {
  }

  /** The determinant of the unreduced matrix is c^2 times the sum of squares, mod q. */
  lemma DetCongruence(c: int, iota: int, q: int, t0: int, t1: int, t2: int, t3: int)
    requires q >= 1 && (iota * iota) % q == q - 1
    ensures ((c * (t0 + iota * t1)) * (c * (t0 - iota * t1)) - (c * (t2 + iota * t3)) * (c * (-t2 + iota * t3))) % q
         == (c * c * (t0 * t0 + t1 * t1 + t2 * t2 + t3 * t3)) % q
  {
    EncodeIdentity(c, iota, t0, t1, t2, t3);
    var ii := iota * iota;
    var k := (ii + 1) / q;
    DivModUnique(ii, q, ii / q, q - 1);
    assert ii + 1 == q * (ii / q + 1);
    var K := c * c * (t1 * t1 + t3 * t3);
    var S := c * c * (t0 * t0 + t1 * t1 + t2 * t2 + t3 * t3);
    Regroup((c * (t0 + iota * t1)) * (c * (t0 - iota * t1)) - (c * (t2 + iota * t3)) * (c * (-t2 + iota * t3)),
            S, K, ii + 1, q, ii / q + 1);
    ModAddMultiple(-(K * (ii / q + 1)), S, q);
  }

  /** With iota a square root of -1, the determinant of a generator is c^2 (x0^2 + x1^2 + x2^2 + x3^2). */
  lemma EncodeDet(c: int, iota: int, q: int, t: seq<int>)
    requires q >= 1 && |t| == 4 && (iota * iota) % q == q - 1
    ensures Det2(Encode(c, iota, q, t)) % q == (c * c * SumOfSquares(t)) % q
  {
    var a := c * (t[0] + iota * t[1]);
    var b := c * (t[2] + iota * t[3]);
    var e := c * (-t[2] + iota * t[3]);
    var d := c * (t[0] - iota * t[1]);
    assert Det2(Encode(c, iota, q, t)) == (a % q) * (d % q) - (b % q) * (e % q);
    ResidueDet(a, b, e, d, q);
    DetCongruence(c, iota, q, t[0], t[1], t[2], t[3]);
  }

  // ---------------------------------------------------------------------
  // The constructor

  /** The group the constructor picks (PSL when p is a residue mod q, else PGL) and its generators. */
  datatype LPSPlan = LPSPlan(overPSL: bool, scale: int, generators: seq<seq<int>>)

  /** What the constructor computes before building the graph; Err where a `min` has nothing to pick. */
  function Plan(p: nat, q: int): (r: Result<LPSPlan, string>)
    requires q >= 1
    ensures r.Ok? ==> r.value.overPSL == IsQuadraticResidue(p, q)
    ensures r.Ok? ==> |r.value.generators| == |FourSquares(p)|
  {
    var ts := FourSquares(p);
    if IsQuadraticResidue(p, q) then
      match Iota(q)
      case None => Err("min() arg is an empty sequence")
      case Some(iota) =>
        match PInverse(p, q)
        case None => Err("min() arg is an empty sequence")
        case Some(pInv) =>
          match QuadRes(pInv, q)
          case None => Err("min() arg is an empty sequence")
          case Some(c) => Ok(LPSPlan(true, c, Generators(c, iota, q, ts)))
    else
      match Iota(q)
      case None => Err("min() arg is an empty sequence")
      case Some(iota) => Ok(LPSPlan(false, 1, Generators(1, iota, q, ts)))
  }

  /**
   * For distinct primes, the constructor gets its generators exactly when -1 is a
   * square modulo q: p_inv and quad_res then always exist.
   */
  lemma PlanSucceeds(p: nat, q: int)
    requires Prime(q) && p % q != 0
    ensures Plan(p, q).Ok? <==> Iota(q).Some?
  {
    if IsQuadraticResidue(p, q) {
      PInverseExists(p, q);
      QuadResExists(p, q);
    }
  }

  /**
   * Every generator is in SL(2, q) in the residue case (determinant 1) and in GL(2, q)
   * otherwise (determinant p mod q).
   */
  lemma PlanGenerators(p: nat, q: int)
    requires Prime(q) && p % q != 0 && Plan(p, q).Ok?
    ensures forall A :: A in Plan(p, q).value.generators ==>
      Det2(A) % q == (if Plan(p, q).value.overPSL then 1 else p % q)
    ensures forall A :: A in Plan(p, q).value.generators ==>
      if Plan(p, q).value.overPSL then A in SLElements(2, q) else A in GLElements(2, q)
  {
    var plan := Plan(p, q).value;
    var ts := FourSquares(p);
    var iota := Iota(q).value;
    var c := plan.scale;
    assert plan.generators == Generators(c, iota, q, ts);
    forall A | A in plan.generators
      ensures Det2(A) % q == (if plan.overPSL then 1 else p % q)
      ensures if plan.overPSL then A in SLElements(2, q) else A in GLElements(2, q)
    {
      var k :| 0 <= k < |plan.generators| && plan.generators[k] == A;
      var t := ts[k];
      FourSquaresMember(p, t);
      EncodeDet(c, iota, q, t);
      assert A == Encode(c, iota, q, t);
      if plan.overPSL {
        var pInv := PInverse(p, q).value;
        assert (c * c) % q == pInv && (pInv * p) % q == 1;
        ModMulLeft(c * c, p, q);
      } else {
        assert c == 1;
      }
      DetOf2(A);
      GLMember(2, q, A);
      SLMember(2, q, A);
    }
  }

  /**
   * In the quotient by a closed element list, multiplying a representative by an
   * element and projecting lands on a representative again, so the Cayley graph
   * has no vertex besides the representatives.
   */
  lemma QuotientCayleyVertices(scalars: set<int>, q: int, elements: seq<seq<int>>,
                               projection: map<seq<int>, seq<int>>, reps: seq<seq<int>>, S: seq<seq<int>>)
    requires q >= 1 && ProjectionInvariant(scalars, q, IdentityTuple(2), elements, projection, reps)
    requires IdentityTuple(2) in elements
    requires forall A, B :: A in elements && B in elements ==> MatMulMod(2, q, A, B) in elements
    requires forall s :: s in S ==> s in elements
    ensures Vertices(Group(reps, IdentityTuple(2), QuotientOp(2, q, projection)), S) == set A | A in reps
  {
    var P := Group(reps, IdentityTuple(2), QuotientOp(2, q, projection));
    forall x | x in Targets(P.operation, reps, S) ensures x in reps {
      TargetsMember(P.operation, reps, S, x);
      var g, s :| g in reps && s in S && x == P.operation(s, g);
      assert g in projection;
      var C := MatMulMod(2, q, s, g);
      assert C in elements;
      assert C in projection;
      assert x == projection[C];
    }
  }

  /**
   * `LPS(p, q)`: builds PSL(2, q) when p is a square modulo q and PGL(2, q) otherwise,
   * computes the generators and hands both to the Cayley graph constructor; the degree
   * is read at the identity. The ghost `projection` is the dictionary the group's
   * operation reads.
   */
  method NewLPS(p: int, q: int) returns (r: Result<CayleyGraph<seq<int>>, string>, ghost projection: map<seq<int>, seq<int>>)
    requires p >= 0 && Prime(q)
    ensures r.Ok? <==> Plan(p, q).Ok?
    ensures r.Ok? ==> r.value.generators == Plan(p, q).value.generators
    ensures r.Ok? ==> r.value.group.identity == IdentityTuple(2)
    ensures r.Ok? ==> r.value.group.operation == QuotientOp(2, q, projection)
    ensures r.Ok? && Plan(p, q).value.overPSL ==>
      ProjectionInvariant(Roots(2, q), q, IdentityTuple(2), SLElements(2, q), projection, r.value.group.elements)
    ensures r.Ok? && !Plan(p, q).value.overPSL ==>
      ProjectionInvariant(PGLScalars(q), q, IdentityTuple(2), GLElements(2, q), projection, r.value.group.elements)
    ensures r.Ok? ==> r.value.edges == Edges(r.value.group.operation, r.value.group.elements, r.value.generators)
    ensures r.Ok? ==> r.value.degree == Degree(r.value.edges, IdentityTuple(2))
    ensures r.Ok? && p % q != 0 ==> r.value.vertices == set A | A in r.value.group.elements
  {
    var plan := Plan(p, q);
    if plan.Err? {
      return Err(plan.error), map[];
    }
    var P;
    if plan.value.overPSL {
      P, projection := PSL(2, q);
    } else {
      P, projection := PGL(2, q);
    }
    assert P.elements[0] == P.identity;
    var graph := new CayleyGraph(P, plan.value.generators, P.identity);
    if p % q != 0 {
      assert Vertices(P, plan.value.generators) == set A | A in P.elements by {
        PlanGenerators(p, q);
        IdentityInSL(2, q);
        if plan.value.overPSL {
          forall A, B | A in SLElements(2, q) && B in SLElements(2, q)
            ensures MatMulMod(2, q, A, B) in SLElements(2, q)
          {
            SL2Closed(q, A, B);
          }
          QuotientCayleyVertices(Roots(2, q), q, SLElements(2, q), projection, P.elements, plan.value.generators);
        } else {
          forall A, B | A in GLElements(2, q) && B in GLElements(2, q)
            ensures MatMulMod(2, q, A, B) in GLElements(2, q)
          {
            GL2Closed(q, A, B);
          }
          QuotientCayleyVertices(PGLScalars(q), q, GLElements(2, q), projection, P.elements, plan.value.generators);
        }
      }
    }
    r := Ok(graph);
  }
}
