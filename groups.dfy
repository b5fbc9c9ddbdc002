/**
 * Finite groups given by an element container, an identity and an operation,
 * and the linear groups GL, SL, PGL and PSL over Z/qZ built from them.
 * Matrices are row-major integer tuples of length n*n.
 */
module Groups {
  import opened Wrappers
  import opened NumberTheory
  import opened Tuples
  import opened Matrices

  /**
   * A finite group as the program stores it. `elements` lists the container in
   * its iteration order; nothing forces the data to satisfy the group axioms.
   */
  datatype Group<!T> = Group(elements: seq<T>, identity: T, operation: (T, T) -> T)

  /** Python truthiness of integer elements. */
  predicate IntTruthy(x: int) { x != 0 }

  /** Python truthiness of tuple elements. */
  predicate TupleTruthy(t: seq<int>) { |t| > 0 }

  // ---------------------------------------------------------------------
  // inverse and is_group

  /** The first h of s, in iteration order, with g * h == e; None when there is none. */
  function FirstInverse<T(==)>(s: seq<T>, op: (T, T) -> T, e: T, g: T): (r: Option<T>)
    ensures r.Some? ==> r.value in s && op(g, r.value) == e
    decreases |s|
  {
    if |s| == 0 then None
    else if op(g, s[0]) == e then Some(s[0])
    else FirstInverse(s[1..], op, e, g)
  }

  /** `FiniteGroup.inverse`: a right inverse of g, or None where the program returns False. */
  method Inverse<T(==)>(G: Group<T>, g: T) returns (r: Option<T>)
    ensures r == FirstInverse(G.elements, G.operation, G.identity, g)
  {
    var s := G.elements;
    var i := 0;
    while i < |s|
      invariant 0 <= i <= |s|
      invariant FirstInverse(s, G.operation, G.identity, g)
             == FirstInverse(s[i..], G.operation, G.identity, g)
    {
      assert s[i..][1..] == s[i + 1..];
      if G.operation(g, s[i]) == G.identity {
        return Some(s[i]);
      }
      i := i + 1;
    }
    return None;
  }

  /** The multiplication table stays inside the element container. */
  predicate Closed<T(==)>(G: Group<T>)
  {
    forall a, b {:trigger G.operation(a, b)} :: a in G.elements && b in G.elements ==> G.operation(a, b) in G.elements
  }

  /** The second loop of `is_group` accepts a: its inverse exists, is truthy and is an element. */
  predicate InverseAccepted<T(==)>(G: Group<T>, truthy: T -> bool, a: T)
  {
    var r := FirstInverse(G.elements, G.operation, G.identity, a);
    r.Some? && truthy(r.value) && r.value in G.elements
  }

  /** What `is_group` decides, with the truthiness of elements as a parameter. */
  predicate IsGroupSpec<T(==)>(G: Group<T>, truthy: T -> bool)
  {
    Closed(G) && forall a {:trigger InverseAccepted(G, truthy, a)} :: a in G.elements ==> InverseAccepted(G, truthy, a)
  }

  /** Some element of the container is a right inverse of a. */
  predicate HasRightInverse<T(==)>(G: Group<T>, a: T)
  {
    exists h :: h in G.elements && G.operation(a, h) == G.identity
  }

  /** The group axioms that `is_group` is meant to check: closure and right inverses. */
  predicate HasInverses<T(==)>(G: Group<T>)
  {
    Closed(G) && forall a {:trigger HasRightInverse(G, a)} :: a in G.elements ==> HasRightInverse(G, a)
  }

  /** `FiniteGroup.is_group`. */
  method IsGroup<T(==)>(G: Group<T>, truthy: T -> bool) returns (r: bool)
    ensures r == IsGroupSpec(G, truthy)
  {
    var s := G.elements;
    var i := 0;
    while i < |s|
      invariant 0 <= i <= |s|
      invariant forall x, y {:trigger G.operation(s[x], s[y])} :: 0 <= x < i && 0 <= y < |s| ==> G.operation(s[x], s[y]) in s
    {
      var j := 0;
      while j < |s|
        invariant 0 <= j <= |s|
        invariant forall x, y {:trigger G.operation(s[x], s[y])} :: 0 <= x < i && 0 <= y < |s| ==> G.operation(s[x], s[y]) in s
        invariant forall y {:trigger G.operation(s[i], s[y])} :: 0 <= y < j ==> G.operation(s[i], s[y]) in s
      {
        if G.operation(s[i], s[j]) !in s {
          assert s[i] in s && s[j] in s;
          return false;
        }
        j := j + 1;
      }
      i := i + 1;
    }
    assert Closed(G) by {
      forall a, b | a in s && b in s ensures G.operation(a, b) in s {
        var x :| 0 <= x < |s| && s[x] == a;
        var y :| 0 <= y < |s| && s[y] == b;
      }
    }
    i := 0;
    while i < |s|
      invariant 0 <= i <= |s|
      invariant forall x {:trigger InverseAccepted(G, truthy, s[x])} :: 0 <= x < i ==> InverseAccepted(G, truthy, s[x])
    {
      var h := Inverse(G, s[i]);
      if h.None? || !truthy(h.value) || h.value !in s {
        assert s[i] in s && !InverseAccepted(G, truthy, s[i]);
        return false;
      }
      i := i + 1;
    }
    forall a | a in s ensures InverseAccepted(G, truthy, a) {
      var x :| 0 <= x < |s| && s[x] == a;
    }
    return true;
  }

  // ---------------------------------------------------------------------
  // Lemmas about inverse and is_group

  /** The result of `inverse` is the first right inverse in iteration order. */
  lemma {:induction false} FirstInverseLeast<T>(s: seq<T>, op: (T, T) -> T, e: T, g: T)
    ensures FirstInverse(s, op, e, g).None? <==> forall h :: h in s ==> op(g, h) != e
    ensures FirstInverse(s, op, e, g).Some? ==>
      exists i :: 0 <= i < |s| && s[i] == FirstInverse(s, op, e, g).value &&
        forall j :: 0 <= j < i ==> op(g, s[j]) != e
    decreases |s|
  {
    if |s| > 0 && op(g, s[0]) != e {
      FirstInverseLeast(s[1..], op, e, g);
      var r := FirstInverse(s[1..], op, e, g);
      if r.Some? {
        var i :| 0 <= i < |s[1..]| && s[1..][i] == r.value &&
          forall j :: 0 <= j < i ==> op(g, s[1..][j]) != e;
        assert s[i + 1] == r.value;
        forall j | 0 <= j < i + 1 ensures op(g, s[j]) != e {
          if j > 0 { assert s[j] == s[1..][j - 1]; }
        }
      }
      forall h | h in s && h != s[0] ensures h in s[1..] {
        var k :| 0 <= k < |s| && s[k] == h;
        assert s[1..][k - 1] == h;
      }
    }
  }

  /** When s[i] is the first right inverse of g, `inverse` returns it. */
  lemma {:induction false} FirstInverseAt<T>(s: seq<T>, op: (T, T) -> T, e: T, g: T, i: nat)
    requires i < |s| && op(g, s[i]) == e
    requires forall j :: 0 <= j < i ==> op(g, s[j]) != e
    ensures FirstInverse(s, op, e, g) == Some(s[i])
    decreases i
  {
    if i > 0 {
      assert op(g, s[0]) != e;
      forall j | 0 <= j < i - 1 ensures op(g, s[1..][j]) != e {
        assert s[1..][j] == s[j + 1];
      }
      FirstInverseAt(s[1..], op, e, g, i - 1);
    }
  }

  /** is_group's verdict implies the group axioms it is meant to check. */
  lemma IsGroupSpecSound<T>(G: Group<T>, truthy: T -> bool)
    requires IsGroupSpec(G, truthy)
    ensures HasInverses(G)
  {
    assert Closed(G);
    forall a | a in G.elements ensures HasRightInverse(G, a) {
      assert InverseAccepted(G, truthy, a);
      AcceptedHasRightInverse(G, truthy, a);
    }
  }

  lemma AcceptedHasRightInverse<T>(G: Group<T>, truthy: T -> bool, a: T)
    requires InverseAccepted(G, truthy, a)
    ensures HasRightInverse(G, a)
  {
    var r := FirstInverse(G.elements, G.operation, G.identity, a);
    assert r.value in G.elements && G.operation(a, r.value) == G.identity;
  }

  /** Conversely, the axioms make is_group succeed when every element is truthy. */
  lemma IsGroupSpecComplete<T>(G: Group<T>, truthy: T -> bool)
    requires HasInverses(G)
    requires forall a :: a in G.elements ==> truthy(a)
    ensures IsGroupSpec(G, truthy)
  {
    forall a | a in G.elements ensures InverseAccepted(G, truthy, a) {
      assert HasRightInverse(G, a);
      var h :| h in G.elements && G.operation(a, h) == G.identity;
      FirstInverseFound(G.elements, G.operation, G.identity, a, h);
    }
  }

  /** A right inverse in s makes `inverse` return some right inverse from s. */
  lemma FirstInverseFound<T>(s: seq<T>, op: (T, T) -> T, e: T, g: T, h: T)
    requires h in s && op(g, h) == e
    ensures FirstInverse(s, op, e, g).Some?
  {
    FirstInverseLeast(s, op, e, g);
  }

  // ---------------------------------------------------------------------
  // CyclicGroup

  /** `CyclicGroup(n)`: the residues 0..n-1 in range order under addition mod n. */
  function Cyclic(n: int): (G: Group<int>)
    requires n >= 1
    ensures |G.elements| == n && forall i :: 0 <= i < n ==> G.elements[i] == i
    ensures G.identity == 0
  {
    Group(seq(n, i => i), 0, (a, b) => (a + b) % n)
  }

  lemma CyclicMember(n: int, a: int)
    requires n >= 1
    ensures a in Cyclic(n).elements <==> 0 <= a < n
  {
    if 0 <= a < n { assert Cyclic(n).elements[a] == a; }
  }

  /** The residues are closed under the operation and 0 is neutral on them. */
  lemma CyclicClosed(n: int)
    requires n >= 1
    ensures Closed(Cyclic(n))
    ensures forall a :: a in Cyclic(n).elements ==> Cyclic(n).operation(0, a) == a == Cyclic(n).operation(a, 0)
  {
    var G := Cyclic(n);
    forall a, b | a in G.elements && b in G.elements ensures G.operation(a, b) in G.elements {
      CyclicMember(n, (a + b) % n);
    }
    forall a | a in G.elements ensures G.operation(0, a) == a == G.operation(a, 0) {
      CyclicMember(n, a);
      DivModUnique(a, n, 0, a);
    }
  }

  /** `inverse(g)` in Z/nZ is (n - g) mod n, the first residue that cancels g. */
  lemma CyclicInverse(n: int, g: int)
    requires n >= 1 && 0 <= g < n
    ensures FirstInverse(Cyclic(n).elements, Cyclic(n).operation, 0, g) == Some((n - g) % n)
  {
    var G := Cyclic(n);
    var h := if g == 0 then 0 else n - g;
    DivModUnique(n, n, 1, 0);
    assert h == (n - g) % n by {
      if g != 0 {
        DivModUnique(n - g, n, 0, n - g);
      }
    }
    forall j | 0 <= j < h ensures G.operation(g, G.elements[j]) != 0 {
      CyclicNoEarlierInverse(n, g, j);
    }
    assert G.elements[h] == h;
    assert g + h == 0 || g + h == n;
    assert G.operation(g, h) == (g + h) % n == 0;
    FirstInverseAt(G.elements, G.operation, 0, g, h);
  }

  lemma CyclicNoEarlierInverse(n: int, g: int, j: int)
    requires n >= 1 && 0 < g < n && 0 <= j < n - g
    ensures Cyclic(n).operation(g, Cyclic(n).elements[j]) != 0
  {
    assert Cyclic(n).elements[j] == j;
    assert Cyclic(n).operation(g, j) == g + j;
  }

  /** Z/nZ satisfies the axioms that is_group is meant to check. */
  lemma CyclicHasInverses(n: int)
    requires n >= 1
    ensures HasInverses(Cyclic(n))
  {
    CyclicClosed(n);
    var G := Cyclic(n);
    forall a | a in G.elements ensures HasRightInverse(G, a) {
      CyclicMember(n, a);
      CyclicInverse(n, a);
    }
  }

  /**
   * `CyclicGroup(n).is_group()` is False for every positive n: 0 is its own (first) inverse
   * and the check `not self.inverse(e1)` rejects it because 0 is falsy.
   */
  lemma CyclicIsGroupFalse(n: int)
    requires n >= 1
    ensures !IsGroupSpec(Cyclic(n), IntTruthy)
  {
    var G := Cyclic(n);
    CyclicInverse(n, 0);
    assert n % n == 0;
    var r := FirstInverse(G.elements, G.operation, G.identity, 0);
    assert r == Some(0);
    assert !IntTruthy(r.value);
    assert !InverseAccepted(G, IntTruthy, 0);
    assert G.elements[0] == 0;
  }

  // ---------------------------------------------------------------------
  // GL and SL

  /** The GL membership test: det(A) is nonzero modulo q. */
  function GLTest(n: nat, q: int): seq<int> -> bool
    requires q >= 1
  {
    t => Det(Rows(t, n)) % q != 0
  }

  /** The SL membership test applied to GL elements: det(A) is 1 modulo q. */
  function SLTest(n: nat, q: int): seq<int> -> bool
    requires q >= 1
  {
    t => Det(Rows(t, n)) % q == 1
  }

  /** The elements of GL(n, q), in the order of `itertools.product`. */
  function GLElements(n: nat, q: int): seq<seq<int>>
    requires q >= 1
  {
    Filter(Product(0, q, n * n), GLTest(n, q))
  }

  function SLElements(n: nat, q: int): seq<seq<int>>
    requires q >= 1
  {
    Filter(GLElements(n, q), SLTest(n, q))
  }

  /** GL(n, q) as the program builds it: reshape, multiply, reduce, flatten. */
  function GLGroup(n: nat, q: int): Group<seq<int>>
    requires q >= 1
  {
    Group(GLElements(n, q), IdentityTuple(n), GLOperation(n, q))
  }

  /** Multiply the reshaped tuples, reduce modulo q and flatten. */
  function GLOperation(n: nat, q: int): (seq<int>, seq<int>) -> seq<int>
    requires q >= 1
  {
    (A, B) => MatMulMod(n, q, A, B)
  }

  /** SL(n, q) shares the identity and the operation of GL(n, q). */
  function SLGroup(n: nat, q: int): Group<seq<int>>
    requires q >= 1
  {
    Group(SLElements(n, q), IdentityTuple(n), GLOperation(n, q))
  }

  /** `GL(n, q)`: keep the tuples over 0..q-1 whose determinant is nonzero mod q. */
  method GL(n: nat, q: int) returns (G: Group<seq<int>>)
    requires q >= 1
    ensures G == GLGroup(n, q)
  {
    var tuples := Product(0, q, n * n);
    var invertible := GLTest(n, q);
    var elements: seq<seq<int>> := [];
    var i := 0;
    while i < |tuples|
      invariant 0 <= i <= |tuples|
      invariant elements == Filter(tuples[..i], invertible)
    {
      var t := tuples[i];
      FilterStep(tuples, i, invertible);
      if invertible(t) {
        elements := elements + [t];
      }
      i := i + 1;
    }
    assert tuples[..i] == tuples;
    G := Group(elements, IdentityTuple(n), GLOperation(n, q));
  }

  /** `SL(n, q)`: keep the elements of GL(n, q) whose determinant is 1 mod q. */
  method SL(n: nat, q: int) returns (G: Group<seq<int>>)
    requires q >= 1
    ensures G == SLGroup(n, q)
  {
    var H := GL(n, q);
    var special := SLTest(n, q);
    var elements: seq<seq<int>> := [];
    var i := 0;
    while i < |H.elements|
      invariant 0 <= i <= |H.elements|
      invariant elements == Filter(H.elements[..i], special)
    {
      var t := H.elements[i];
      FilterStep(H.elements, i, special);
      if special(t) {
        elements := elements + [t];
      }
      i := i + 1;
    }
    assert H.elements[..i] == H.elements;
    G := Group(elements, H.identity, H.operation);
  }

  /** GL(n, q) consists of exactly the n*n tuples over 0..q-1 with det nonzero mod q. */
  lemma GLMember(n: nat, q: int, t: seq<int>)
    requires q >= 1
    ensures t in GLElements(n, q) <==> |t| == n * n && InRange(t, 0, q) && Det(Rows(t, n)) % q != 0
  {
    ProductMember(0, q, n * n, t);
  }

  /** SL(n, q) consists of exactly the n*n tuples over 0..q-1 with det 1 mod q. */
  lemma SLMember(n: nat, q: int, t: seq<int>)
    requires q >= 1
    ensures t in SLElements(n, q) <==> |t| == n * n && InRange(t, 0, q) && Det(Rows(t, n)) % q == 1
  {
    GLMember(n, q, t);
  }

  /** Both element lists are strictly increasing, so each matrix occurs once. */
  lemma LinearElementsSorted(n: nat, q: int)
    requires q >= 1
    ensures LexSorted(GLElements(n, q)) && Distinct(GLElements(n, q))
    ensures LexSorted(SLElements(n, q)) && Distinct(SLElements(n, q))
  {
    ProductSorted(0, q, n * n);
    FilterSorted(Product(0, q, n * n), GLTest(n, q));
    FilterSorted(GLElements(n, q), SLTest(n, q));
    LexSortedDistinct(GLElements(n, q));
    LexSortedDistinct(SLElements(n, q));
  }

  /** The identity is an element of SL(n, q), hence of GL(n, q), once q >= 2. */
  lemma IdentityInSL(n: nat, q: int)
    requires q >= 2
    ensures IdentityTuple(n) in SLElements(n, q) && IdentityTuple(n) in GLElements(n, q)
  {
    var t := IdentityTuple(n);
    IdentityTupleFacts(n);
    assert InRange(t, 0, q) by {
      forall i | 0 <= i < |t| ensures 0 <= t[i] < q {
        assert t[i] < 2;
      }
    }
    var det := Det(Rows(t, n));
    assert det == 1;
    DivModUnique(1, q, 0, 1);
    assert det % q == 1;
    SLMember(n, q, t);
    GLMember(n, q, t);
  }

  // ---------------------------------------------------------------------
  // 2-by-2 matrices: closure and inverses

  lemma IdentityTuple2()
    ensures IdentityTuple(2) == [1, 0, 0, 1]
  {
    var I := IdentityMatrix(2);
    MatrixExt(I, [[1, 0], [0, 1]], 2);
    Flatten2(1, 0, 0, 1);
  }

  /** GL(2, q) is closed under its operation when q is prime. */
  lemma GL2Closed(q: int, A: seq<int>, B: seq<int>)
    requires Prime(q) && A in GLElements(2, q) && B in GLElements(2, q)
    ensures MatMulMod(2, q, A, B) in GLElements(2, q)
  {
    GLMember(2, q, A);
    GLMember(2, q, B);
    var C := MatMulMod(2, q, A, B);
    GLMember(2, q, C);
    DetOf2(A);
    DetOf2(B);
    DetOf2(C);
    Det2MulMod(q, A, B);
    PrimeProductNonzero(q, Det2(A), Det2(B));
  }

  /** SL(2, q) is closed under its operation. */
  lemma SL2Closed(q: int, A: seq<int>, B: seq<int>)
    requires q >= 2 && A in SLElements(2, q) && B in SLElements(2, q)
    ensures MatMulMod(2, q, A, B) in SLElements(2, q)
  {
    SLMember(2, q, A);
    SLMember(2, q, B);
    DetOf2(A);
    DetOf2(B);
    var C := MatMulMod(2, q, A, B);
    DetOf2(C);
    Det2MulMod(q, A, B);
    UnitProduct(Det2(A), Det2(B), q);
    SLMember(2, q, C);
  }

  lemma UnitProduct(x: int, y: int, q: int)
    requires q >= 2 && x % q == 1 && y % q == 1
    ensures (x * y) % q == 1
  {
    ModMul(x, y, q);
    assert (x % q) * (y % q) == 1;
    DivModUnique(1, q, 0, 1);
  }

  /** m times the adjugate of a 2-by-2 matrix, reduced modulo q. */
  function ScaledAdjugate(m: int, A: seq<int>, q: int): (H: seq<int>)
    requires |A| == 4 && q >= 1
    ensures |H| == 4 && InRange(H, 0, q)
  {
    [(m * A[3]) % q, (m * -A[1]) % q, (m * -A[2]) % q, (m * A[0]) % q]
  }

  /** An entry a*(x mod q) + b*(y mod q) of the reduced product, reduced again. */
  lemma EntryMod(a: int, x: int, b: int, y: int, q: int, v: int)
    requires q >= 1 && a * x + b * y == v
    ensures (a * (x % q) + b * (y % q)) % q == v % q
  {
    ModAdd(a * (x % q), b * (y % q), q);
    ModMulRight(a, x, q);
    ModMulRight(b, y, q);
    ModAdd(a * x, b * y, q);
  }

  lemma AdjugateProducts(m: int, a0: int, a1: int, a2: int, a3: int)
    ensures a0 * (m * a3) + a1 * (m * -a2) == m * (a0 * a3 - a1 * a2)
    ensures a0 * (m * -a1) + a1 * (m * a0) == 0
    ensures a2 * (m * a3) + a3 * (m * -a2) == 0
    ensures a2 * (m * -a1) + a3 * (m * a0) == m * (a0 * a3 - a1 * a2)
  {
  }

  /** If m inverts det(A) modulo q, m * adj(A) is a right inverse of A in the GL operation. */
  lemma AdjugateInverse(q: int, A: seq<int>, m: int)
    requires q >= 2 && |A| == 4 && (m * Det2(A)) % q == 1
    ensures MatMulMod(2, q, A, ScaledAdjugate(m, A, q)) == IdentityTuple(2)
  {
    var H := ScaledAdjugate(m, A, q);
    var a0, a1, a2, a3 := A[0], A[1], A[2], A[3];
    var d := m * Det2(A);
    AdjugateProducts(m, a0, a1, a2, a3);
    EntryMod(a0, m * a3, a1, m * -a2, q, d);
    EntryMod(a0, m * -a1, a1, m * a0, q, 0);
    EntryMod(a2, m * a3, a3, m * -a2, q, 0);
    EntryMod(a2, m * -a1, a3, m * a0, q, d);
    MatMulMod2(q, A, H);
    IdentityTuple2();
  }

  /** A right factor of the identity has determinant invertible modulo q. */
  lemma RightInverseDet(q: int, A: seq<int>, H: seq<int>)
    requires q >= 2 && |A| == 4 && |H| == 4 && MatMulMod(2, q, A, H) == IdentityTuple(2)
    ensures (Det2(A) * Det2(H)) % q == 1
    ensures Det2(H) % q != 0
  {
    IdentityTuple2();
    Det2MulMod(q, A, H);
    assert Det2(IdentityTuple(2)) == 1;
    if Det2(H) % q == 0 {
      ModMulRight(Det2(A), Det2(H), q);
    }
  }

  /** GL(2, q) for prime q satisfies the axioms that is_group checks. */
  lemma GL2HasInverses(q: int)
    requires Prime(q)
    ensures HasInverses(GLGroup(2, q))
  {
    var G := GLGroup(2, q);
    forall A, B | A in G.elements && B in G.elements ensures G.operation(A, B) in G.elements {
      GL2Closed(q, A, B);
    }
    forall A | A in G.elements ensures HasRightInverse(G, A) {
      GLMember(2, q, A);
      DetOf2(A);
      var m := PrimeInverse(q, Det2(A));
      var H := ScaledAdjugate(m, A, q);
      AdjugateInverse(q, A, m);
      RightInverseDet(q, A, H);
      DetOf2(H);
      GLMember(2, q, H);
      assert H in G.elements && G.operation(A, H) == G.identity;
    }
  }

  /** SL(2, q) satisfies the axioms that is_group checks for every q >= 2. */
  lemma SL2HasInverses(q: int)
    requires q >= 2
    ensures HasInverses(SLGroup(2, q))
  {
    var G := SLGroup(2, q);
    forall A, B | A in G.elements && B in G.elements ensures G.operation(A, B) in G.elements {
      SL2Closed(q, A, B);
    }
    forall A | A in G.elements ensures HasRightInverse(G, A) {
      SLMember(2, q, A);
      DetOf2(A);
      var H := ScaledAdjugate(1, A, q);
      AdjugateInverse(q, A, 1);
      RightInverseDet(q, A, H);
      ModMulLeft(Det2(A), Det2(H), q);
      DetOf2(H);
      SLMember(2, q, H);
      assert H in G.elements && G.operation(A, H) == G.identity;
    }
  }

  /** `GL(2, q).is_group()` holds for every prime q, in particular for GL(2, 3). */
  lemma GL2IsGroup(q: int)
    requires Prime(q)
    ensures IsGroupSpec(GLGroup(2, q), TupleTruthy)
  {
    GL2HasInverses(q);
    forall A | A in GLGroup(2, q).elements ensures TupleTruthy(A) {
      GLMember(2, q, A);
    }
    IsGroupSpecComplete(GLGroup(2, q), TupleTruthy);
  }

  /** `SL(2, q).is_group()` holds for every q >= 2, in particular for SL(2, 3). */
  lemma SL2IsGroup(q: int)
    requires q >= 2
    ensures IsGroupSpec(SLGroup(2, q), TupleTruthy)
  {
    SL2HasInverses(q);
    forall A | A in SLGroup(2, q).elements ensures TupleTruthy(A) {
      SLMember(2, q, A);
    }
    IsGroupSpecComplete(SLGroup(2, q), TupleTruthy);
  }

  /**
   * In GL(2, q) the inverse of the shear (1, 1, 0, 1) is (1, q - 1, 0, 1), whatever the
   * iteration order; for q = 3 this is the (1, 2, 0, 1) the program asserts.
   */
  lemma GL2ShearInverse(q: int)
    requires q >= 2
    ensures FirstInverse(GLElements(2, q), GLGroup(2, q).operation, IdentityTuple(2), [1, 1, 0, 1])
         == Some([1, q - 1, 0, 1])
  {
    var G := GLGroup(2, q);
    var g := [1, 1, 0, 1];
    var h := [1, q - 1, 0, 1];
    IdentityTuple2();
    ShearInverseInGL(q);
    ShearProduct(q);
    assert G.operation(g, h) == G.identity;
    FirstInverseFound(G.elements, G.operation, G.identity, g, h);
    var r := FirstInverse(G.elements, G.operation, G.identity, g);
    GLMember(2, q, r.value);
    ShearInverseUnique(q, r.value);
  }

  lemma ShearInverseInGL(q: int)
    requires q >= 2
    ensures [1, q - 1, 0, 1] in GLElements(2, q)
  {
    var h := [1, q - 1, 0, 1];
    assert InRange(h, 0, q);
    assert Det(Rows(h, 2)) % q != 0 by {
      DetOf2(h);
      DivModUnique(1, q, 0, 1);
    }
    GLMember(2, q, h);
  }

  lemma ShearProduct(q: int)
    requires q >= 2
    ensures MatMulMod(2, q, [1, 1, 0, 1], [1, q - 1, 0, 1]) == [1, 0, 0, 1]
  {
    var g, h := [1, 1, 0, 1], [1, q - 1, 0, 1];
    MatMulMod2(q, g, h);
    var P := MatMulMod(2, q, g, h);
    DivModUnique(1, q, 0, 1);
    DivModUnique(q, q, 1, 0);
    DivModUnique(0, q, 0, 0);
    assert P[0] == (1 * 1 + 1 * 0) % q == 1;
    assert P[1] == (1 * (q - 1) + 1 * 1) % q == 0;
    assert P[2] == (0 * 1 + 1 * 0) % q == 0;
    assert P[3] == (0 * (q - 1) + 1 * 1) % q == 1;
  }

  lemma ShearInverseUnique(q: int, h: seq<int>)
    requires q >= 2 && |h| == 4 && InRange(h, 0, q)
    requires MatMulMod(2, q, [1, 1, 0, 1], h) == [1, 0, 0, 1]
    ensures h == [1, q - 1, 0, 1]
  {
    MatMulMod2(q, [1, 1, 0, 1], h);
    var h0, h1, h2, h3 := h[0], h[1], h[2], h[3];
    assert h2 % q == 0 && h3 % q == 1;
    DivModUnique(h2, q, 0, h2);
    DivModUnique(h3, q, 0, h3);
    assert (h0 + h2) % q == 1 && (h1 + h3) % q == 0;
    DivModUnique(h0, q, 0, h0);
    if h1 + 1 < q {
      DivModUnique(h1 + 1, q, 0, h1 + 1);
    }
  }

  // ---------------------------------------------------------------------
  // roots_of_unity

  /** {1} together with the k in 2..bound-1 whose n-th power is 1 modulo q. */
  function RootsBelow(n: nat, q: int, bound: int): set<int>
    requires q >= 1
  {
    {1} + set k | 2 <= k < bound && Pow(k, n) % q == 1
  }

  /** The n-th roots of unity in Z/qZ as the program lists them. */
  function Roots(n: nat, q: int): set<int>
    requires q >= 1
  {
    RootsBelow(n, q, q)
  }

  /** `roots_of_unity(n, q)`. */
  method RootsOfUnity(n: nat, q: int) returns (roots: set<int>)
    requires q >= 1
    ensures roots == Roots(n, q)
  {
    roots := {1};
    var k := 2;
    while k < q
      invariant 2 <= k && (k <= q || q < 2)
      invariant roots == RootsBelow(n, q, k)
    {
      if Pow(k, n) % q == 1 {
        roots := roots + {k};
      }
      assert RootsBelow(n, q, k + 1) == RootsBelow(n, q, k) + (if Pow(k, n) % q == 1 then {k} else {});
      k := k + 1;
    }
    assert RootsBelow(n, q, k) == RootsBelow(n, q, q);
  }

  /** For q >= 2 the roots are exactly the residues 1..q-1 whose n-th power is 1. */
  lemma RootsMember(n: nat, q: int, k: int)
    requires q >= 2
    ensures k in Roots(n, q) <==> 1 <= k < q && Pow(k, n) % q == 1
  {
    PowOne(n);
    DivModUnique(1, q, 0, 1);
  }

  // ---------------------------------------------------------------------
  // The projection onto PGL and PSL

  /** The tuple with every entry multiplied by l and reduced modulo q. */
  function Scale(l: int, A: seq<int>, q: int): (B: seq<int>)
    requires q >= 1
    ensures |B| == |A| && InRange(B, 0, q)
    ensures forall i :: 0 <= i < |A| ==> B[i] == (l * A[i]) % q
  {
    seq(|A|, i requires 0 <= i < |A| => (l * A[i]) % q)
  }

  /** `is_equivalent(A, B)`: some admissible scalar carries A to B. */
  predicate Equivalent(scalars: set<int>, q: int, A: seq<int>, B: seq<int>)
    requires q >= 1
  {
    exists l :: l in scalars && Scale(l, A, q) == B
  }

  /** Some scalar inverts l modulo q. */
  predicate HasScalarInverse(scalars: set<int>, q: int, l: int)
    requires q >= 1
  {
    exists m :: m in scalars && (m * l) % q == 1
  }

  /** Every scalar has an inverse modulo q among the scalars. */
  predicate InvertibleScalars(scalars: set<int>, q: int)
    requires q >= 1
  {
    forall l {:trigger HasScalarInverse(scalars, q, l)} :: l in scalars ==> HasScalarInverse(scalars, q, l)
  }

  /** Some element of a nonempty set of scalars. */
  method Pick(s: set<int>) returns (x: int)
    requires s != {}
    ensures x in s
  {
    assert (forall y :: y !in s) ==> s == {};
    x :| x in s;
  }

  /** `is_equivalent`: try the scalars one after another. */
  method IsEquivalent(scalars: set<int>, q: int, A: seq<int>, B: seq<int>) returns (r: bool)
    requires q >= 1
    ensures r == Equivalent(scalars, q, A, B)
  {
    var remaining := scalars;
    while remaining != {}
      invariant remaining <= scalars
      invariant forall x {:trigger Scale(x, A, q)} :: x in scalars && x !in remaining ==> Scale(x, A, q) != B
      decreases |remaining|
    {
      var l := Pick(remaining);
      if Scale(l, A, q) == B {
        return true;
      }
      remaining := remaining - {l};
    }
    return false;
  }

  /** Scaling by l and then by an inverse m of l gives back a tuple over 0..q-1. */
  lemma ScaleCancel(q: int, l: int, m: int, A: seq<int>)
    requires q >= 1 && (m * l) % q == 1 && InRange(A, 0, q)
    ensures Scale(m, Scale(l, A, q), q) == A
  {
    var B := Scale(m, Scale(l, A, q), q);
    forall i | 0 <= i < |A| ensures B[i] == A[i] {
      ScaleCancelEntry(q, l, m, A[i]);
    }
  }

  lemma ScaleCancelEntry(q: int, l: int, m: int, a: int)
    requires q >= 1 && (m * l) % q == 1 && 0 <= a < q
    ensures (m * ((l * a) % q)) % q == a
  {
    ModMulRight(m, l * a, q);
    assert m * (l * a) == (m * l) * a;
    ModMulLeft(m * l, a, q);
    DivModUnique(a, q, 0, a);
  }

  /** With invertible scalars, equivalence to a tuple over 0..q-1 is symmetric. */
  lemma EquivalentSymmetric(scalars: set<int>, q: int, A: seq<int>, B: seq<int>)
    requires q >= 1 && InvertibleScalars(scalars, q) && InRange(A, 0, q)
    requires Equivalent(scalars, q, A, B)
    ensures Equivalent(scalars, q, B, A)
  {
    var l :| l in scalars && Scale(l, A, q) == B;
    assert HasScalarInverse(scalars, q, l);
    var m :| m in scalars && (m * l) % q == 1;
    ScaleCancel(q, l, m, A);
  }

  /** The projection looked up at C; the program raises KeyError when C is not a key. */
  function Project(projection: map<seq<int>, seq<int>>, C: seq<int>): (R: seq<int>)
    ensures C in projection ==> R == projection[C]
  {
    if C in projection then projection[C] else C
  }

  /** The operation of the quotient: multiply in GL, then project. */
  function QuotientOp(n: nat, q: int, projection: map<seq<int>, seq<int>>): (seq<int>, seq<int>) -> seq<int>
    requires q >= 1
  {
    (A, B) => Project(projection, MatMulMod(n, q, A, B))
  }

  /** The facts the projection loop maintains over the elements processed so far. */
  predicate ProjectionInvariant(scalars: set<int>, q: int, identity: seq<int>, done: seq<seq<int>>,
                                projection: map<seq<int>, seq<int>>, reps: seq<seq<int>>)
    requires q >= 1
  {
    && projection.Keys == (set A | A in done) + {identity}
    && |reps| >= 1 && reps[0] == identity && Distinct(reps)
    && identity in projection && projection[identity] == identity
    && (forall A {:trigger projection[A]} :: A in projection ==> projection[A] in reps)
    && (forall B :: B in reps ==> B in projection && projection[B] == B)
    && (forall A {:trigger projection[A]} :: A in projection ==>
          projection[A] == A || Equivalent(scalars, q, A, projection[A]))
    && (forall i, j :: 0 <= i < j < |reps| ==> !Equivalent(scalars, q, reps[j], reps[i]))
  }

  /**
   * The loop shared by `PGL` and `PSL`: the identity represents itself; every other
   * element is sent to an earlier representative it is equivalent to (the last one
   * found) or becomes a representative itself.
   */
  method Quotient(elements: seq<seq<int>>, identity: seq<int>, q: int, scalars: set<int>)
    returns (projection: map<seq<int>, seq<int>>, reps: seq<seq<int>>)
    requires q >= 1 && InRange(identity, 0, q) && Distinct(elements)
    requires InvertibleScalars(scalars, q)
    ensures ProjectionInvariant(scalars, q, identity, elements, projection, reps)
  {
    projection := map[identity := identity];
    reps := [identity];
    var k := 0;
    while k < |elements|
      invariant 0 <= k <= |elements|
      invariant ProjectionInvariant(scalars, q, identity, elements[..k], projection, reps)
    {
      var A := elements[k];
      assert elements[..k + 1] == elements[..k] + [A];
      DistinctPrefix(elements, k);
      projection, reps := ProjectElement(scalars, q, identity, elements[..k], A, projection, reps);
      k := k + 1;
    }
    assert elements[..k] == elements;
  }

  /**
   * One pass of the outer loop: A is sent to the last equivalent representative, or
   * `setdefault` makes it a representative of its own.
   */
  method ProjectElement(scalars: set<int>, q: int, identity: seq<int>, done: seq<seq<int>>, A: seq<int>,
                        projection0: map<seq<int>, seq<int>>, reps0: seq<seq<int>>)
    returns (projection: map<seq<int>, seq<int>>, reps: seq<seq<int>>)
    requires q >= 1 && InRange(identity, 0, q) && InvertibleScalars(scalars, q)
    requires ProjectionInvariant(scalars, q, identity, done, projection0, reps0)
    requires A !in done
    ensures ProjectionInvariant(scalars, q, identity, done + [A], projection, reps)
  {
    RepresentativesApart(scalars, q, identity, done, projection0, reps0);
    projection := ProjectOne(scalars, q, identity, A, projection0, reps0);
    ProjectionStep(scalars, q, identity, done, projection0, reps0, A, projection);
    reps := reps0;
    if A !in projection {
      projection := projection[A := A];
      reps := reps + [A];
    }
  }

  /** Under the loop invariant no later representative is equivalent to the identity. */
  lemma RepresentativesApart(scalars: set<int>, q: int, identity: seq<int>, done: seq<seq<int>>,
                             projection: map<seq<int>, seq<int>>, reps: seq<seq<int>>)
    requires q >= 1 && ProjectionInvariant(scalars, q, identity, done, projection, reps)
    ensures forall j :: 1 <= j < |reps| ==> !Equivalent(scalars, q, reps[j], identity)
  {
    forall j | 1 <= j < |reps| ensures !Equivalent(scalars, q, reps[j], identity) {
      assert reps[0] == identity;
    }
  }

  /** One step of the projection loop keeps its invariant, in both outcomes of the inner loop. */
  lemma ProjectionStep(scalars: set<int>, q: int, identity: seq<int>, done: seq<seq<int>>,
                       projection0: map<seq<int>, seq<int>>, reps: seq<seq<int>>,
                       A: seq<int>, projection: map<seq<int>, seq<int>>)
    requires q >= 1 && ProjectionInvariant(scalars, q, identity, done, projection0, reps)
    requires A !in done
    requires projection == projection0 ||
      (A in projection && projection == projection0[A := projection[A]] &&
       projection[A] in reps && Equivalent(scalars, q, A, projection[A]))
    requires A !in projection ==> forall j :: 0 <= j < |reps| ==> !Equivalent(scalars, q, A, reps[j])
    requires identity in projection && projection[identity] == identity
    ensures A in projection ==> ProjectionInvariant(scalars, q, identity, done + [A], projection, reps)
    ensures A !in projection ==>
      ProjectionInvariant(scalars, q, identity, done + [A], projection[A := A], reps + [A])
  {
    if A in projection {
      ProjectionKeep(scalars, q, identity, done, projection0, reps, A, projection);
    } else {
      ProjectionAdd(scalars, q, identity, done, projection0, reps, A);
    }
  }

  /** The keys after processing one more element. */
  lemma DoneKeys(done: seq<seq<int>>, A: seq<int>)
    ensures (set B | B in done + [A]) == (set B | B in done) + {A}
  {
  }

  /** A was projected onto an earlier representative (or is the identity): the invariant carries over. */
  lemma ProjectionKeep(scalars: set<int>, q: int, identity: seq<int>, done: seq<seq<int>>,
                       projection0: map<seq<int>, seq<int>>, reps: seq<seq<int>>,
                       A: seq<int>, projection: map<seq<int>, seq<int>>)
    requires q >= 1 && ProjectionInvariant(scalars, q, identity, done, projection0, reps)
    requires A !in done && A in projection
    requires projection == projection0 ||
      (projection == projection0[A := projection[A]] &&
       projection[A] in reps && Equivalent(scalars, q, A, projection[A]))
    requires identity in projection && projection[identity] == identity
    ensures ProjectionInvariant(scalars, q, identity, done + [A], projection, reps)
  {
    DoneKeys(done, A);
    if A in projection0 {
      assert A == identity;
      assert projection == projection0;
    } else {
      var C := projection[A];
      assert projection.Keys == projection0.Keys + {A};
      forall B | B in reps ensures B in projection && projection[B] == B {
        assert B in projection0 && B != A;
      }
      forall K | K in projection ensures projection[K] in reps {
        if K != A {
          assert projection[K] == projection0[K];
        }
      }
      forall K | K in projection ensures projection[K] == K || Equivalent(scalars, q, K, projection[K]) {
        if K != A {
          assert projection[K] == projection0[K];
        }
      }
    }
  }

  /** A is equivalent to no representative: it becomes a representative of itself. */
  lemma ProjectionAdd(scalars: set<int>, q: int, identity: seq<int>, done: seq<seq<int>>,
                      projection: map<seq<int>, seq<int>>, reps: seq<seq<int>>, A: seq<int>)
    requires q >= 1 && ProjectionInvariant(scalars, q, identity, done, projection, reps)
    requires A !in projection
    requires forall j :: 0 <= j < |reps| ==> !Equivalent(scalars, q, A, reps[j])
    ensures ProjectionInvariant(scalars, q, identity, done + [A], projection[A := A], reps + [A])
  {
    DoneKeys(done, A);
    forall B | B in reps ensures B != A {
      assert B in projection;
    }
    DistinctAppend(reps, A);
    var reps' := reps + [A];
    forall i, j | 0 <= i < j < |reps'| ensures !Equivalent(scalars, q, reps'[j], reps'[i]) {
      if j == |reps| {
        assert !Equivalent(scalars, q, A, reps[i]);
      } else {
        assert reps'[j] == reps[j] && reps'[i] == reps[i];
      }
    }
  }

  /**
   * The inner loop of the projection: for every representative B found so far, in
   * turn, `projection[A] = B` when A is equivalent to B.
   */
  method ProjectOne(scalars: set<int>, q: int, identity: seq<int>, A: seq<int>,
                    projection0: map<seq<int>, seq<int>>, reps: seq<seq<int>>)
    returns (projection: map<seq<int>, seq<int>>)
    requires q >= 1 && InRange(identity, 0, q) && InvertibleScalars(scalars, q)
    requires |reps| >= 1 && reps[0] == identity
    requires forall j :: 1 <= j < |reps| ==> !Equivalent(scalars, q, reps[j], identity)
    requires identity in projection0 && projection0[identity] == identity
    ensures projection == projection0 ||
      (A in projection && projection == projection0[A := projection[A]] &&
       projection[A] in reps && Equivalent(scalars, q, A, projection[A]))
    ensures A !in projection ==> forall j :: 0 <= j < |reps| ==> !Equivalent(scalars, q, A, reps[j])
    ensures identity in projection && projection[identity] == identity
  {
    projection := projection0;
    var j := 0;
    while j < |reps|
      invariant 0 <= j <= |reps|
      invariant projection == projection0 ||
        (A in projection && projection == projection0[A := projection[A]] &&
         projection[A] in reps && Equivalent(scalars, q, A, projection[A]))
      invariant A !in projection ==> forall i :: 0 <= i < j ==> !Equivalent(scalars, q, A, reps[i])
      invariant identity in projection && projection[identity] == identity
    {
      var B := reps[j];
      var equivalent := IsEquivalent(scalars, q, A, B);
      if equivalent {
        if A == identity {
          OnlyIdentityRepresentsIdentity(scalars, q, reps, j);
        }
        projection := projection[A := B];
      }
      j := j + 1;
    }
  }

  /** No later representative is equivalent to the identity, the first one. */
  lemma OnlyIdentityRepresentsIdentity(scalars: set<int>, q: int, reps: seq<seq<int>>, j: int)
    requires q >= 1 && InvertibleScalars(scalars, q) && |reps| >= 1 && InRange(reps[0], 0, q)
    requires forall i :: 1 <= i < |reps| ==> !Equivalent(scalars, q, reps[i], reps[0])
    requires 0 <= j < |reps| && Equivalent(scalars, q, reps[0], reps[j])
    ensures j == 0
  {
    if j != 0 {
      EquivalentSymmetric(scalars, q, reps[0], reps[j]);
    }
  }

  // ---------------------------------------------------------------------
  // PGL and PSL

  /** `range(lo, hi)`. */
  function Range(lo: int, hi: int): (r: seq<int>)
    ensures |r| == if lo <= hi then hi - lo else 0
    ensures forall i :: 0 <= i < |r| ==> r[i] == lo + i
  {
    if lo >= hi then [] else seq(hi - lo, i => lo + i)
  }

  /** The scalars 1..q-1 that `PGL.is_equivalent` tries. */
  function PGLScalars(q: int): (S: set<int>)
    ensures forall l :: l in S <==> 1 <= l < q
  {
    var S := set l | l in Range(1, q);
    assert forall l :: 1 <= l < q ==> l in S by {
      forall l | 1 <= l < q ensures l in S {
        assert Range(1, q)[l - 1] == l;
      }
    }
    S
  }

  /** Modulo a prime every nonzero scalar is invertible. */
  lemma PGLScalarsInvertible(q: int)
    requires Prime(q)
    ensures InvertibleScalars(PGLScalars(q), q)
  {
    forall l | l in PGLScalars(q) ensures HasScalarInverse(PGLScalars(q), q, l) {
      DivModUnique(l, q, 0, l);
      var m := PrimeInverse(q, l);
      assert m in PGLScalars(q);
    }
  }

  /** Every n-th root of unity z has the inverse z^(n-1) mod q, again a root. */
  lemma RootsInvertible(n: nat, q: int)
    requires n >= 1 && q >= 2
    ensures InvertibleScalars(Roots(n, q), q)
  {
    forall z | z in Roots(n, q) ensures HasScalarInverse(Roots(n, q), q, z) {
      RootsMember(n, q, z);
      var m := RootInverse(n, q, z);
      RootsMember(n, q, m);
    }
  }

  lemma RootInverse(n: nat, q: int, z: int) returns (m: int)
    requires n >= 1 && q >= 2 && Pow(z, n) % q == 1
    ensures m == Pow(z, n - 1) % q
    ensures (m * z) % q == 1 && 1 <= m < q && Pow(m, n) % q == 1
  {
    var a, zn := Pow(z, n - 1), Pow(z, n);
    m := a % q;
    assert zn == z * a;
    assert (m * z) % q == 1 by {
      ModMulLeft(a, z, q);
      assert a * z == zn;
    }
    NonzeroInverse(m, z, q);
    var e := (n - 1) * n;
    calc {
      Pow(m, n) % q;
      { PowMod(a, n, q); }
      Pow(a, n) % q;
      { PowPow(z, n - 1, n); }
      Pow(z, e) % q;
      { assert e == n * (n - 1); PowPow(z, n, n - 1); }
      Pow(zn, n - 1) % q;
      { PowMod(zn, n - 1, q); }
      Pow(zn % q, n - 1) % q;
      Pow(1, n - 1) % q;
      { PowOne(n - 1); DivModUnique(1, q, 0, 1); }
      1;
    }
  }

  /** The projected operation keeps the identity neutral on the representatives. */
  lemma QuotientIdentity(scalars: set<int>, n: nat, q: int, elements: seq<seq<int>>,
                         projection: map<seq<int>, seq<int>>, reps: seq<seq<int>>)
    requires q >= 2 && ProjectionInvariant(scalars, q, IdentityTuple(n), elements, projection, reps)
    requires forall A :: A in elements ==> |A| == n * n && InRange(A, 0, q)
    ensures forall A :: A in reps ==>
      QuotientOp(n, q, projection)(IdentityTuple(n), A) == A &&
      QuotientOp(n, q, projection)(A, IdentityTuple(n)) == A
  {
    forall A | A in reps
      ensures QuotientOp(n, q, projection)(IdentityTuple(n), A) == A
      ensures QuotientOp(n, q, projection)(A, IdentityTuple(n)) == A
    {
      assert A in projection && projection[A] == A;
      IdentityTupleFacts(n);
      if A != IdentityTuple(n) {
        assert A in elements;
      } else {
        assert InRange(A, 0, q) by {
          forall i | 0 <= i < |A| ensures 0 <= A[i] < q { assert 0 <= A[i] < 2; }
        }
      }
      IdentityNeutral(n, q, A);
    }
  }

  /** When the element list is closed, so is the list of representatives. */
  lemma QuotientClosed(scalars: set<int>, n: nat, q: int, elements: seq<seq<int>>,
                       projection: map<seq<int>, seq<int>>, reps: seq<seq<int>>)
    requires q >= 1 && ProjectionInvariant(scalars, q, IdentityTuple(n), elements, projection, reps)
    requires IdentityTuple(n) in elements
    requires forall A, B :: A in elements && B in elements ==> MatMulMod(n, q, A, B) in elements
    ensures Closed(Group(reps, IdentityTuple(n), QuotientOp(n, q, projection)))
  {
    var P := Group(reps, IdentityTuple(n), QuotientOp(n, q, projection));
    forall A, B | A in reps && B in reps ensures P.operation(A, B) in reps {
      assert A in projection && B in projection;
      var C := MatMulMod(n, q, A, B);
      assert C in elements;
      assert C in projection;
      assert P.operation(A, B) == projection[C];
    }
  }

  // ---------------------------------------------------------------------
  // The projection as a homomorphism

  /** The product of two scalars, reduced modulo q. */
  function ScalarProduct(l: int, m: int, q: int): int
    requires q >= 1
  {
    (l * m) % q
  }

  /** The scalars contain 1 and are closed under multiplication modulo q. */
  predicate MultiplicativeScalars(scalars: set<int>, q: int)
    requires q >= 1
  {
    1 in scalars && forall l, m :: l in scalars && m in scalars ==> ScalarProduct(l, m, q) in scalars
  }

  /** Scaling a tuple over 0..q-1 by 1 leaves it unchanged. */
  lemma ScaleOne(q: int, A: seq<int>)
    requires q >= 1 && InRange(A, 0, q)
    ensures Scale(1, A, q) == A
  {
    forall i | 0 <= i < |A| ensures Scale(1, A, q)[i] == A[i] {
      DivModUnique(A[i], q, 0, A[i]);
    }
  }

  /** Scaling by l and then by m is scaling by m * l mod q. */
  lemma ScaleTwice(q: int, l: int, m: int, A: seq<int>)
    requires q >= 1
    ensures Scale(m, Scale(l, A, q), q) == Scale(ScalarProduct(m, l, q), A, q)
  {
    forall i | 0 <= i < |A| ensures Scale(m, Scale(l, A, q), q)[i] == Scale(ScalarProduct(m, l, q), A, q)[i] {
      ScaleTwiceEntry(q, l, m, A[i]);
    }
  }

  lemma ScaleTwiceEntry(q: int, l: int, m: int, a: int)
    requires q >= 1
    ensures (m * ((l * a) % q)) % q == (((m * l) % q) * a) % q
  {
    var la, ml := l * a, m * l;
    calc {
      (m * (la % q)) % q;
      { ModMulRight(m, la, q); }
      (m * la) % q;
      { MulAssoc(m, l, a); }
      (ml * a) % q;
      { ModMulLeft(ml, a, q); }
      ((ml % q) * a) % q;
    }
  }

  /** With multiplicatively closed scalars, equivalence is transitive. */
  lemma EquivalentTransitive(scalars: set<int>, q: int, A: seq<int>, B: seq<int>, C: seq<int>)
    requires q >= 1 && MultiplicativeScalars(scalars, q)
    requires Equivalent(scalars, q, A, B) && Equivalent(scalars, q, B, C)
    ensures Equivalent(scalars, q, A, C)
  {
    var l :| l in scalars && Scale(l, A, q) == B;
    var m :| m in scalars && Scale(m, B, q) == C;
    ScaleTwice(q, l, m, A);
    assert ScalarProduct(m, l, q) in scalars;
  }

  lemma Rearrange(l: int, m: int, a: int, b: int, c: int, d: int)
    ensures (l * a) * (m * b) + (l * c) * (m * d) == (l * m) * (a * b + c * d)
  {
  }

  /** One entry of a product of scaled 2-by-2 matrices. */
  lemma ScaledEntry(q: int, l: int, m: int, a: int, b: int, c: int, d: int)
    requires q >= 1
    ensures (((l * a) % q) * ((m * b) % q) + ((l * c) % q) * ((m * d) % q)) % q
         == (((l * m) % q) * ((a * b + c * d) % q)) % q
  {
    var X, Y, Z, W := l * a, m * b, l * c, m * d;
    var u, v := (X % q) * (Y % q), (Z % q) * (W % q);
    var e := a * b + c * d;
    calc {
      (u + v) % q;
      { ModAdd(u, v, q); }
      (u % q + v % q) % q;
      { ModMul(X, Y, q); ModMul(Z, W, q); }
      ((X * Y) % q + (Z * W) % q) % q;
      { ModAdd(X * Y, Z * W, q); }
      (X * Y + Z * W) % q;
      { Rearrange(l, m, a, b, c, d); }
      ((l * m) * e) % q;
      { ModMul(l * m, e, q); }
      (((l * m) % q) * (e % q)) % q;
    }
  }

  /** Scaling the factors of a 2-by-2 product by l and m scales the product by l * m. */
  lemma ScaleProduct2(q: int, l: int, m: int, A: seq<int>, B: seq<int>)
    requires q >= 1 && |A| == 4 && |B| == 4
    ensures MatMulMod(2, q, Scale(l, A, q), Scale(m, B, q)) == Scale(ScalarProduct(l, m, q), MatMulMod(2, q, A, B), q)
  {
    var A', B' := Scale(l, A, q), Scale(m, B, q);
    var C', C := MatMulMod(2, q, A', B'), MatMulMod(2, q, A, B);
    MatMulMod2(q, A', B');
    MatMulMod2(q, A, B);
    var S := Scale(ScalarProduct(l, m, q), C, q);
    ScaledEntry(q, l, m, A[0], B[0], A[1], B[2]);
    ScaledEntry(q, l, m, A[0], B[1], A[1], B[3]);
    ScaledEntry(q, l, m, A[2], B[0], A[3], B[2]);
    ScaledEntry(q, l, m, A[2], B[1], A[3], B[3]);
    assert C'[0] == S[0] && C'[1] == S[1] && C'[2] == S[2] && C'[3] == S[3];
  }

  /** Products of equivalent 2-by-2 matrices are equivalent. */
  lemma EquivalentProduct(scalars: set<int>, q: int, A: seq<int>, B: seq<int>, A': seq<int>, B': seq<int>)
    requires q >= 1 && MultiplicativeScalars(scalars, q) && |A| == 4 && |B| == 4
    requires Equivalent(scalars, q, A, A') && Equivalent(scalars, q, B, B')
    ensures Equivalent(scalars, q, MatMulMod(2, q, A, B), MatMulMod(2, q, A', B'))
  {
    var l :| l in scalars && Scale(l, A, q) == A';
    var m :| m in scalars && Scale(m, B, q) == B';
    ScaleProduct2(q, l, m, A, B);
    assert ScalarProduct(l, m, q) in scalars;
  }

  /** Every key of the projection is an element, once the identity is one. */
  lemma KeysAreElements(scalars: set<int>, q: int, identity: seq<int>, elements: seq<seq<int>>,
                        projection: map<seq<int>, seq<int>>, reps: seq<seq<int>>)
    requires q >= 1 && ProjectionInvariant(scalars, q, identity, elements, projection, reps)
    requires identity in elements
    ensures forall A :: A in projection <==> A in elements
    ensures forall B :: B in reps ==> B in elements
  {
    forall A ensures A in projection <==> A in elements {
      assert A in projection.Keys <==> A in (set B | B in elements) + {identity};
    }
  }

  /** Equivalent keys are sent to the same representative. */
  lemma SameRepresentative(scalars: set<int>, q: int, identity: seq<int>, elements: seq<seq<int>>,
                           projection: map<seq<int>, seq<int>>, reps: seq<seq<int>>, X: seq<int>, Y: seq<int>)
    requires q >= 1 && ProjectionInvariant(scalars, q, identity, elements, projection, reps)
    requires InvertibleScalars(scalars, q) && MultiplicativeScalars(scalars, q)
    requires forall A :: A in projection ==> InRange(A, 0, q)
    requires X in projection && Y in projection && Equivalent(scalars, q, X, Y)
    ensures projection[X] == projection[Y]
  {
    var R1, R2 := projection[X], projection[Y];
    assert R1 in reps && R2 in reps;
    if R1 != X {
      EquivalentSymmetric(scalars, q, X, R1);
      EquivalentTransitive(scalars, q, R1, X, Y);
    }
    if R2 != Y {
      EquivalentTransitive(scalars, q, R1, Y, R2);
    }
    assert R1 in projection;
    EquivalentSymmetric(scalars, q, R1, R2);
    var i :| 0 <= i < |reps| && reps[i] == R1;
    var j :| 0 <= j < |reps| && reps[j] == R2;
    if i != j {
      assert false;
    }
  }

  /**
   * The lookup `projection[C]` behind `op` always lands on a representative: the
   * one representative equivalent to C (or C itself), and a representative is
   * projected to itself.
   */
  lemma ProjectRepresentative(scalars: set<int>, q: int, identity: seq<int>, elements: seq<seq<int>>,
                              projection: map<seq<int>, seq<int>>, reps: seq<seq<int>>, C: seq<int>)
    requires q >= 1 && ProjectionInvariant(scalars, q, identity, elements, projection, reps)
    requires InvertibleScalars(scalars, q) && MultiplicativeScalars(scalars, q)
    requires forall A :: A in projection ==> InRange(A, 0, q)
    requires C in projection
    ensures Project(projection, C) in reps
    ensures Project(projection, C) == C || Equivalent(scalars, q, C, Project(projection, C))
    ensures Project(projection, Project(projection, C)) == Project(projection, C)
    ensures forall R :: R in reps && (R == C || Equivalent(scalars, q, C, R)) ==> R == Project(projection, C)
  {
    var P := projection[C];
    assert P in reps;
    forall R | R in reps && (R == C || Equivalent(scalars, q, C, R))
      ensures R == P
    {
      assert R in projection && projection[R] == R;
      if R != C {
        SameRepresentative(scalars, q, identity, elements, projection, reps, C, R);
      }
    }
  }

  /** One product: projecting it gives the projected product of the projections. */
  lemma ProjectedProduct(scalars: set<int>, q: int, elements: seq<seq<int>>,
                         projection: map<seq<int>, seq<int>>, reps: seq<seq<int>>, A: seq<int>, B: seq<int>)
    requires q >= 1 && ProjectionInvariant(scalars, q, IdentityTuple(2), elements, projection, reps)
    requires InvertibleScalars(scalars, q) && MultiplicativeScalars(scalars, q)
    requires IdentityTuple(2) in elements
    requires forall C :: C in elements ==> |C| == 4 && InRange(C, 0, q)
    requires forall C, D :: C in elements && D in elements ==> MatMulMod(2, q, C, D) in elements
    requires A in elements && B in elements
    ensures Project(projection, MatMulMod(2, q, A, B)) ==
            QuotientOp(2, q, projection)(Project(projection, A), Project(projection, B))
  {
    KeysAreElements(scalars, q, IdentityTuple(2), elements, projection, reps);
    var A', B' := projection[A], projection[B];
    assert A' in elements && B' in elements;
    if A' == A {
      ScaleOne(q, A);
    }
    if B' == B {
      ScaleOne(q, B);
    }
    assert Equivalent(scalars, q, A, A') && Equivalent(scalars, q, B, B');
    EquivalentProduct(scalars, q, A, B, A', B');
    var C, C' := MatMulMod(2, q, A, B), MatMulMod(2, q, A', B');
    assert C in projection && C' in projection;
    SameRepresentative(scalars, q, IdentityTuple(2), elements, projection, reps, C, C');
  }

  /**
   * For 2-by-2 matrices the projection is a homomorphism onto the representatives:
   * projecting a product gives the product, in the quotient, of the projections.
   */
  lemma QuotientHomomorphism(scalars: set<int>, q: int, elements: seq<seq<int>>,
                             projection: map<seq<int>, seq<int>>, reps: seq<seq<int>>,
                             op: (seq<int>, seq<int>) -> seq<int>)
    requires q >= 1 && ProjectionInvariant(scalars, q, IdentityTuple(2), elements, projection, reps)
    requires op == QuotientOp(2, q, projection)
    requires InvertibleScalars(scalars, q) && MultiplicativeScalars(scalars, q)
    requires IdentityTuple(2) in elements
    requires forall C :: C in elements ==> |C| == 4 && InRange(C, 0, q)
    requires forall C, D :: C in elements && D in elements ==> MatMulMod(2, q, C, D) in elements
    ensures forall A, B :: A in elements && B in elements ==>
      Project(projection, MatMulMod(2, q, A, B)) == op(Project(projection, A), Project(projection, B))
  {
    forall A, B | A in elements && B in elements
      ensures Project(projection, MatMulMod(2, q, A, B)) == op(Project(projection, A), Project(projection, B))
    {
      ProjectedProduct(scalars, q, elements, projection, reps, A, B);
    }
  }

  /** Modulo a prime the nonzero residues are closed under multiplication. */
  lemma PGLScalarsMultiplicative(q: int)
    requires Prime(q)
    ensures MultiplicativeScalars(PGLScalars(q), q)
  {
    forall l, m | l in PGLScalars(q) && m in PGLScalars(q) ensures ScalarProduct(l, m, q) in PGLScalars(q) {
      DivModUnique(l, q, 0, l);
      DivModUnique(m, q, 0, m);
      PrimeProductNonzero(q, l, m);
    }
  }

  /** The product of two n-th roots of unity, reduced modulo q, is one as well. */
  lemma RootProduct(n: nat, q: int, l: int, m: int)
    requires n >= 1 && q >= 2 && l in Roots(n, q) && m in Roots(n, q)
    ensures ScalarProduct(l, m, q) in Roots(n, q)
  {
    RootsMember(n, q, l);
    RootsMember(n, q, m);
    var k := (l * m) % q;
    var a, b := Pow(l, n), Pow(m, n);
    calc {
      Pow(k, n) % q;
      { PowMod(l * m, n, q); }
      Pow(l * m, n) % q;
      { PowMul(l, m, n); }
      (a * b) % q;
      { ModMul(a, b, q); }
      ((a % q) * (b % q)) % q;
      { DivModUnique(1, q, 0, 1); }
      1;
    }
    assert Pow(0, n) == 0;
    RootsMember(n, q, k);
  }

  lemma RootsMultiplicative(n: nat, q: int)
    requires n >= 1 && q >= 2
    ensures MultiplicativeScalars(Roots(n, q), q)
  {
    forall l, m | l in Roots(n, q) && m in Roots(n, q) ensures ScalarProduct(l, m, q) in Roots(n, q) {
      RootProduct(n, q, l, m);
    }
  }

  /**
   * `PGL(n, q)`: GL(n, q) modulo nonzero scalars. Returns the group of representatives
   * and the projection dictionary its operation reads.
   */
  method PGL(n: nat, q: int) returns (P: Group<seq<int>>, projection: map<seq<int>, seq<int>>)
    requires Prime(q)
    ensures P.identity == IdentityTuple(n) && P.operation == QuotientOp(n, q, projection)
    ensures ProjectionInvariant(PGLScalars(q), q, IdentityTuple(n), GLElements(n, q), projection, P.elements)
    ensures forall A :: A in P.elements ==> P.operation(P.identity, A) == A && P.operation(A, P.identity) == A
    ensures n == 2 ==> Closed(P)
  {
    var G := GL(n, q);
    IdentityTupleFacts(n);
    LinearElementsSorted(n, q);
    PGLScalarsInvertible(q);
    assert InRange(G.identity, 0, q) by {
      forall i | 0 <= i < |G.identity| ensures 0 <= G.identity[i] < q { assert G.identity[i] < 2; }
    }
    var reps;
    projection, reps := Quotient(G.elements, G.identity, q, PGLScalars(q));
    P := Group(reps, G.identity, QuotientOp(n, q, projection));
    forall A | A in GLElements(n, q) ensures |A| == n * n && InRange(A, 0, q) {
      GLMember(n, q, A);
    }
    QuotientIdentity(PGLScalars(q), n, q, GLElements(n, q), projection, reps);
    if n == 2 {
      IdentityInSL(2, q);
      forall A, B | A in GLElements(2, q) && B in GLElements(2, q)
        ensures MatMulMod(2, q, A, B) in GLElements(2, q)
      {
        GL2Closed(q, A, B);
      }
      QuotientClosed(PGLScalars(q), 2, q, GLElements(2, q), projection, reps);
    }
  }

  /**
   * `PSL(n, q)`: SL(n, q) modulo the n-th roots of unity. Returns the group of
   * representatives and the projection dictionary its operation reads.
   */
  method PSL(n: nat, q: int) returns (P: Group<seq<int>>, projection: map<seq<int>, seq<int>>)
    requires n >= 1 && q >= 2
    ensures P.identity == IdentityTuple(n) && P.operation == QuotientOp(n, q, projection)
    ensures ProjectionInvariant(Roots(n, q), q, IdentityTuple(n), SLElements(n, q), projection, P.elements)
    ensures forall A :: A in P.elements ==> P.operation(P.identity, A) == A && P.operation(A, P.identity) == A
    ensures n == 2 ==> Closed(P)
  {
    var G := SL(n, q);
    var roots := RootsOfUnity(n, q);
    IdentityTupleFacts(n);
    LinearElementsSorted(n, q);
    RootsInvertible(n, q);
    assert InRange(G.identity, 0, q) by {
      forall i | 0 <= i < |G.identity| ensures 0 <= G.identity[i] < q { assert G.identity[i] < 2; }
    }
    var reps;
    projection, reps := Quotient(G.elements, G.identity, q, roots);
    P := Group(reps, G.identity, QuotientOp(n, q, projection));
    forall A | A in SLElements(n, q) ensures |A| == n * n && InRange(A, 0, q) {
      SLMember(n, q, A);
    }
    QuotientIdentity(roots, n, q, SLElements(n, q), projection, reps);
    if n == 2 {
      IdentityInSL(2, q);
      forall A, B | A in SLElements(2, q) && B in SLElements(2, q)
        ensures MatMulMod(2, q, A, B) in SLElements(2, q)
      {
        SL2Closed(q, A, B);
      }
      QuotientClosed(roots, 2, q, SLElements(2, q), projection, reps);
    }
  }

  /**
   * What `PGL(2, q)` ensures makes its projection a homomorphism from GL(2, q):
   * the class of a product is the quotient product of the classes.
   */
  lemma PGLHomomorphism(q: int, P: Group<seq<int>>, projection: map<seq<int>, seq<int>>)
    requires Prime(q)
    requires P.identity == IdentityTuple(2) && P.operation == QuotientOp(2, q, projection)
    requires ProjectionInvariant(PGLScalars(q), q, IdentityTuple(2), GLElements(2, q), projection, P.elements)
    ensures forall A, B :: A in GLElements(2, q) && B in GLElements(2, q) ==>
      Project(projection, MatMulMod(2, q, A, B)) == P.operation(Project(projection, A), Project(projection, B))
  {
    IdentityInSL(2, q);
    forall A | A in GLElements(2, q) ensures |A| == 4 && InRange(A, 0, q) {
      GLMember(2, q, A);
    }
    forall A, B | A in GLElements(2, q) && B in GLElements(2, q)
      ensures MatMulMod(2, q, A, B) in GLElements(2, q)
    {
      GL2Closed(q, A, B);
    }
    PGLScalarsInvertible(q);
    PGLScalarsMultiplicative(q);
    QuotientHomomorphism(PGLScalars(q), q, GLElements(2, q), projection, P.elements, P.operation);
  }

  /**
   * What `PSL(2, q)` ensures makes its projection a homomorphism from SL(2, q):
   * the class of a product is the quotient product of the classes.
   */
  lemma PSLHomomorphism(q: int, P: Group<seq<int>>, projection: map<seq<int>, seq<int>>)
    requires q >= 2
    requires P.identity == IdentityTuple(2) && P.operation == QuotientOp(2, q, projection)
    requires ProjectionInvariant(Roots(2, q), q, IdentityTuple(2), SLElements(2, q), projection, P.elements)
    ensures forall A, B :: A in SLElements(2, q) && B in SLElements(2, q) ==>
      Project(projection, MatMulMod(2, q, A, B)) == P.operation(Project(projection, A), Project(projection, B))
  {
    IdentityInSL(2, q);
    forall A | A in SLElements(2, q) ensures |A| == 4 && InRange(A, 0, q) {
      SLMember(2, q, A);
    }
    forall A, B | A in SLElements(2, q) && B in SLElements(2, q)
      ensures MatMulMod(2, q, A, B) in SLElements(2, q)
    {
      SL2Closed(q, A, B);
    }
    RootsInvertible(2, q);
    RootsMultiplicative(2, q);
    QuotientHomomorphism(Roots(2, q), q, SLElements(2, q), projection, P.elements, P.operation);
  }
}
