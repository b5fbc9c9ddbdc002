# Expander graphs over finite matrix groups, in Dafny

This project models the exact, integer part of the `expandergraphs` Python package. That package builds Cayley graphs on the matrix groups GL, SL, PGL and PSL over Z/qZ and measures how well they expand. The project covers:

- **Finite groups** (`groups.py`)
  - the `FiniteGroup` container, with its linear-scan `inverse` and its `is_group` check;
  - `CyclicGroup`;
  - the enumeration of `GL(n, q)` and `SL(n, q)` as row-major tuples;
  - the reshape–multiply–reduce operation;
  - `roots_of_unity`;
  - the projection dictionary that `PGL` and `PSL` build, with one representative per scalar class.
- **The Lubotzky–Phillips–Sarnak construction** (`LPS.py`)
  - trial-division `is_prime`;
  - `is_quadratic_residue`;
  - the bounded four-square search;
  - the least-witness searches for iota (a square root of -1 mod q), the inverse of p and a square root of that inverse;
  - the quaternion-to-matrix encoding of the generators;
  - the choice between PSL(2, q) and PGL(2, q).
- **The `CayleyGraph` constructor** (`cayleygraphs.py`): the vertices, the undirected edges {g, s·g} and the degree at one vertex.
- **Integer graph metrics** (`randomgraphs.py`)
  - `size_of_sphere` and `is_simple`;
  - `diameter` and `injectivity_radius`, both computed by repeated matrix powering;
  - the accept/reject loop of `random_simple_adjacency_matrix`, with the random permutations given as input.
- **The experiment scripts** (`experiments/experimentCay16reg.py`, `experiments/experimentCay6reg.py`): the modular `inverse(n, k)` helper and the fixed generating sets it completes.

The modules and their files:

| file | module | role |
|---|---|---|
| `wrappers.dfy` | `Wrappers` | `Option` and `Result` |
| `number_theory.dfy` | `NumberTheory` | Python's `math.gcd` and `**`, integer square root, primes, modular arithmetic |
| `tuples.dfy` | `Tuples` | `itertools.product` in its lexicographic order, list filtering |
| `matrices.dfy` | `Matrices` | numpy's `reshape`, `matmul`, the exact determinant, matrix powers |
| `groups.dfy` | `Groups` | `groups.py` |
| `cayley_graphs.dfy` | `CayleyGraphs` | `cayleygraphs.py` |
| `lps.dfy` | `LPS` | `LPS.py` |
| `random_graphs.dfy` | `RandomGraphs` | `randomgraphs.py` |
| `experiments.dfy` | `Experiments` | the `inverse` helper and generator lists of the two SL(2, k) scripts |

**How the Python is represented**
- A group is a value `Group(elements, identity, operation)`. The element container is a sequence in the order the program iterates it. `GL` and `SL` produce the `itertools.product` order, which is where `inverse` finds its first hit.
- The methods that loop in the source loop here too. Each is proved equal to a specification function, and the lemmas beside it state the properties:
  - `inverse`, `is_group`, `GL`, `SL`, `roots_of_unity`, the projection loop;
  - `is_prime`, `sum_of_four_squares`;
  - `diameter`, `injectivity_radius`, `random_simple_adjacency_matrix`;
  - the experiments' `inverse`.
- `CayleyGraph` is a class whose constructor fills the vertex and edge sets in the nested loops of the source. An edge is the set of its end points, so a self-loop is a singleton.
- `injectivity_radius` fills an `array2` in place, as the numpy array is.

## Model

| member | source | states |
|---|---|---|
| Groups.Inverse | groups.py:53-61 | returns the first h in the container's order with g·h == identity, and None (the program's `False`) when there is none |
| Groups.FirstInverseLeast | groups.py:58-61 | the result is None exactly when no element is a right inverse; otherwise it is a right inverse and no earlier element is one |
| Groups.IsGroup | groups.py:63-76 | answers exactly whether every product of two elements is an element and every element has an inverse that is truthy and an element |
| Groups.IsGroupSpecSound | groups.py:63-76 | a True verdict implies closure and a right inverse for every element |
| Groups.IsGroupSpecComplete | groups.py:63-76 | closure and right inverses give a True verdict when every element is truthy |
| Groups.Cyclic | groups.py:93-95 | Z/nZ has the elements 0..n-1 in range order and identity 0 |
| Groups.CyclicClosed | groups.py:93-95 | (a + b) mod n stays in 0..n-1 and 0 is neutral on both sides |
| Groups.CyclicInverse | groups.py:93-95 | `inverse(g)` in Z/nZ returns (n - g) mod n |
| Groups.CyclicHasInverses | groups.py:93-95 | Z/nZ is closed and every element has an inverse |
| Groups.CyclicIsGroupFalse | groups.py:73 | `CyclicGroup(n).is_group()` is False for every positive n, because the inverse 0 of 0 is falsy |
| Groups.GL | groups.py:121-135 | builds GL(n, q): the filtered product, the flattened identity and the mod-q matrix product |
| Groups.GLMember | groups.py:121-126 | a tuple is an element of GL(n, q) iff it has n² entries in 0..q-1 and a determinant nonzero mod q |
| Groups.SL | groups.py:169-176 | builds SL(n, q) from GL(n, q), keeping its identity and operation |
| Groups.SLMember | groups.py:169-176 | a tuple is an element of SL(n, q) iff it has n² entries in 0..q-1 and determinant 1 mod q |
| Groups.LinearElementsSorted | groups.py:122 | the element lists are strictly increasing lexicographically, so no matrix occurs twice |
| Groups.IdentityInSL | groups.py:135 | for q ≥ 2 the flattened identity is an element of SL(n, q) and of GL(n, q) |
| Groups.GL2Closed | groups.py:129-133 | for prime q, the product of two elements of GL(2, q) is in GL(2, q) |
| Groups.SL2Closed | groups.py:129-133 | the product of two elements of SL(2, q) is in SL(2, q) |
| Groups.GL2IsGroup | groups.py:139-140 | `GL(2, q).is_group()` holds for every prime q, including q = 3 |
| Groups.SL2IsGroup | groups.py:180-181 | `SL(2, q).is_group()` holds for every q ≥ 2, including q = 3 |
| Groups.GL2ShearInverse | groups.py:142 | in GL(2, q), `inverse((1,1,0,1))` is (1, q-1, 0, 1); for q = 3 that is (1,2,0,1) |
| Groups.RootsOfUnity | groups.py:254-258 | returns the set built by the loop: 1 together with each k in 2..q-1 whose n-th power is 1 mod q |
| Groups.RootsMember | groups.py:254-258 | for q ≥ 2, k is in the set iff 1 ≤ k < q and kⁿ ≡ 1 mod q |
| Groups.IsEquivalent | groups.py:211-215 | answers whether some admissible scalar l maps A to B entrywise mod q |
| Groups.EquivalentSymmetric | groups.py:211-215 | with invertible scalars, equivalence is symmetric |
| Groups.EquivalentTransitive | groups.py:211-215 | when the scalars contain 1 and are closed under products mod q, equivalence is transitive |
| Groups.EquivalentProduct | groups.py:211-215 | with such scalars, products of equivalent 2×2 matrices are equivalent: λA·μB = (λμ mod q)·AB |
| Groups.PGLScalarsMultiplicative | groups.py:213 | modulo a prime q, the scalars 1..q-1 contain 1 and are closed under products mod q |
| Groups.RootsMultiplicative | groups.py:254-258 | the n-th roots of unity mod q contain 1 and are closed under products mod q |
| Groups.Quotient | groups.py:220-225 | the projection keys are the elements plus the identity; the identity maps to itself; every value is a representative; representatives are fixed points; each element maps to itself or to an equivalent representative; no two representatives are equivalent |
| Groups.ProjectElement | groups.py:221-225 | one pass of the loop over A keeps the invariant, now with A among the processed elements |
| Groups.SameRepresentative | groups.py:220-225 | two equivalent keys of the dictionary are sent to the same representative |
| Groups.ProjectRepresentative | groups.py:220-228 | under the loop's invariant, the lookup `projection[C]` that `op` performs returns, for every key C, a representative; it is the only representative equal or equivalent to C, and a representative projects to itself |
| Groups.QuotientIdentity | groups.py:227-230 | the projected operation has the identity as a two-sided neutral element on the representatives |
| Groups.QuotientClosed | groups.py:227-230 | when the element list is closed under the product, the representatives are closed under the projected operation |
| Groups.QuotientHomomorphism | groups.py:227-230 | for 2×2 matrices, with closed elements and multiplicative scalars, `projection[A·B]` equals `op(projection[A], projection[B])` for all elements A and B |
| Groups.PGL | groups.py:210-230 | PGL(n, q) for prime q: the projection satisfies the invariant above for the scalars 1..q-1; the identity is neutral; for n = 2 the group is closed |
| Groups.PSL | groups.py:283-301 | PSL(n, q): the same, over SL(n, q) and the n-th roots of unity |
| Groups.PGLHomomorphism | groups.py:218-230 | whatever `PGL(2, q)` ensures makes its projection a homomorphism from GL(2, q): the class of A·B is the quotient product of the classes of A and B |
| Groups.PSLHomomorphism | groups.py:291-301 | the same for `PSL(2, q)`, from SL(2, q) |
| Matrices.MatMulMod | groups.py:129-133 | the operation returns n² entries, each in 0..q-1 |
| Matrices.IdentityNeutral | groups.py:135 | the flattened identity is neutral on both sides for tuples over 0..q-1 |
| Matrices.DetOf2 | groups.py:124-125 | the exact determinant of a reshaped 2×2 tuple is a·d − b·c |
| Tuples.ProductMember | groups.py:122 | the product over range(lo, hi) with k repeats lists exactly the k-tuples with entries in lo..hi-1 |
| LPS.IsPrime | LPS.py:18-26 | answers the trial-division test: false for 1, true for 2, else no k in 2..⌊√n⌋ divides n |
| LPS.TrialDivisionPrime | LPS.py:22-26 | for every n ≥ 1, the test answers exactly whether n is prime |
| LPS.IsPrimeAcceptsZero | LPS.py:22-26 | the test accepts 0, which is not prime |
| LPS.IsPrimeCorrected | LPS.py:18-26 | trial division that also rejects 0 answers exactly whether n is prime |
| LPS.QuadraticResiduePrime | LPS.py:28-35 | modulo a prime q, p is reported a residue iff p mod q is nonzero and a square mod q |
| LPS.QuadraticResidueSmallModulus | LPS.py:33-35 | for a nonzero modulus below 2 the range of units is empty, so no p is reported a residue |
| LPS.SumOfFourSquares | LPS.py:49-56 | returns the candidate tuples, in product order, that pass the parity and sum test |
| LPS.FourSquaresMember | LPS.py:49-54 | a 4-tuple is listed iff its squares sum to p, x₀ > 0 is odd and x₁, x₂, x₃ are even (the search range loses none) |
| LPS.FourSquaresSorted | LPS.py:49-56 | the list is strictly increasing lexicographically, so it has no duplicates |
| LPS.FourSquaresOfFive | LPS.py:40 | for p = 5 the list has p + 1 = 6 entries |
| LPS.LeastIn | LPS.py:79-81 | `min` of a comprehension over range(lo, hi): the least witness, or None when the list is empty |
| LPS.Iota | LPS.py:79 | `iota` is the least i in 0..q-1 with i² ≡ q - 1 mod q; there is none exactly when no i in that range qualifies |
| LPS.PInverse | LPS.py:80 | `p_inv` is the least i in 0..q-1 with i·p ≡ 1 mod q; there is none exactly when no i in that range qualifies |
| LPS.QuadRes | LPS.py:81 | `quad_res` is the least i in 0..q-1 with i² ≡ p_inv mod q; there is none exactly when no i in that range qualifies |
| LPS.PInverseExists | LPS.py:80 | for prime q not dividing p, `p_inv` exists |
| LPS.QuadResExists | LPS.py:81 | when p is a residue mod prime q, `quad_res` exists |
| LPS.Encode | LPS.py:82 | an encoded generator has 4 entries in 0..q-1 |
| LPS.EncodeDet | LPS.py:82 | when ι² ≡ -1, the determinant of an encoded generator is c²·(x₀²+x₁²+x₂²+x₃²) mod q |
| LPS.Plan | LPS.py:77-89 | uses PSL exactly when p is a quadratic residue mod q; one generator per four-square tuple; the `min` of an empty list is an error |
| LPS.PlanSucceeds | LPS.py:79-86 | for prime q not dividing p, the construction fails only when -1 has no square root mod q |
| LPS.PlanGenerators | LPS.py:82-87 | each generator has determinant 1 mod q in the PSL branch and p mod q in the PGL branch, so it lies in SL(2, q) or GL(2, q) respectively |
| LPS.QuotientCayleyVertices | cayleygraphs.py:26-31 | on a projective group the Cayley graph has exactly the representatives as vertices |
| LPS.NewLPS | LPS.py:73-89 | `LPS(p, q)` succeeds exactly when the plan does. Its group is PSL(2, q) when p is a residue mod q and PGL(2, q) otherwise: the projection satisfies the quotient invariant over SL(2, q) and the roots of unity, or over GL(2, q) and the scalars 1..q-1, and the operation is the projected product. The graph has the plan's generators, the identity (1,0,0,1), the Cayley edges, and the degree at the identity. For p not divisible by q, its vertices are the representatives. The degree p + 1 is not stated |
| CayleyGraphs.CayleyGraph.constructor | cayleygraphs.py:26-36 | the vertices are the elements plus every s·g added by `add_edge`; the edges are {g, s·g} for all g and s; group and generators are stored unchanged; the degree is networkx's degree at the designated vertex |
| CayleyGraphs.Degree | cayleygraphs.py:36 | networkx's degree at v: one for each edge at v other than the self-loop, and two for the self-loop {v} |
| CayleyGraphs.EdgesMember | cayleygraphs.py:29-31 | a set is an edge iff it is {g, s·g} for some element g and generator s |
| CayleyGraphs.TargetsMember | cayleygraphs.py:29-31 | the vertices `add_edge` adds are exactly the products s·g |
| CayleyGraphs.VerticesOfClosedGroup | cayleygraphs.py:26-31 | when the operation is closed and the generators are elements, the vertices are exactly the elements |
| CayleyGraphs.GeneratorEdges | cayleygraphs.py:29-31 | each element g is adjacent to s·g, in both orientations |
| CayleyGraphs.SelfLoops | cayleygraphs.py:31 | an element carries a self-loop iff some generator fixes it |
| CayleyGraphs.EdgeEnds | cayleygraphs.py:26-31 | every edge has one or two end points, and both are vertices |
| RandomGraphs.SizeOfSphereTree | randomgraphs.py:136-141 | `size_of_sphere(d, r)` equals the level-by-level count of the sphere of radius r in the d-regular tree |
| RandomGraphs.SizeOfSphere | randomgraphs.py:136-141 | radius 0 gives 1, and every radius r ≥ 1 gives d·(d-1)^(r-1), so the separate r = 1 branch agrees with the general formula |
| RandomGraphs.MatrixMaxSpec | randomgraphs.py:53 | the entrywise maximum bounds every entry and is one of them |
| RandomGraphs.IsSimpleEntries | randomgraphs.py:43-53 | `is_simple(A)` iff all entries are at most 1 and some entry equals 1 |
| RandomGraphs.ZerosNotSimple | randomgraphs.py:53 | the zero matrix is not simple |
| RandomGraphs.Diameter | randomgraphs.py:99-105 | returns the least r ≥ 1 such that the minimum entry of A^r is nonzero |
| RandomGraphs.DiameterPowerPositive | randomgraphs.py:99-105 | for a nonnegative matrix, every entry of A^diameter is positive |
| RandomGraphs.ArrayMin | randomgraphs.py:149 | numpy's `min()` of a 2-d array bounds every entry and is one of them |
| RandomGraphs.MarkRows | randomgraphs.py:150-153 | one pass gives r - 1 to each unset row whose count in A^r is below the sphere size; set rows keep their values |
| RandomGraphs.InjectivityRadius | randomgraphs.py:143-156 | returns n values; value i is r - 1 for the first r at which row i of A^r has fewer ones than `size_of_sphere(d, r)`, with d the column-1 sum |
| RandomGraphs.RandomSimpleAdjacencyMatrix | randomgraphs.py:69-77 | returns the result of the accept loop: a candidate A + R + Rᵀ is kept only if simple, and count rises only on acceptance |
| RandomGraphs.CandidateKeepsGraph | randomgraphs.py:73-76 | accepting a simple candidate keeps the matrix symmetric with entries in {0, 1} and a zero diagonal |
| RandomGraphs.AcceptLoopGraph | randomgraphs.py:71-77 | starting from such a graph, every matrix the loop returns is such a graph |
| RandomGraphs.RandomSimpleIsGraph | randomgraphs.py:69-77 | `random_simple_adjacency_matrix` returns a symmetric 0/1 matrix with zero diagonal |
| Experiments.Inverse | experiments/experimentCay16reg.py:23-32 | returns the error for gcd(n, k) ≠ 1, else the first m in 1..k-1 with m·n ≡ 1 mod k, else None |
| Experiments.InverseFound | experiments/experimentCay16reg.py:27-32 | an integer is returned iff k ≥ 2 and gcd(n, k) = 1, and it is the least inverse; the error is returned iff gcd(n, k) ≠ 1 |
| Experiments.InverseNeedsCoprime | experiments/experimentCay16reg.py:25 | if n has an inverse mod k, then gcd(n, k) = 1 |
| Experiments.InverseExistsFound | experiments/experimentCay6reg.py:23-32 | whenever an inverse exists, `inverse` returns an integer |
| Experiments.PrimeUnitFound | experiments/experimentCay16reg.py:36-40 | modulo a prime k, every a in 1..k-1 gets an inverse |
| Experiments.Cay16GeneratorsInSL | experiments/experimentCay16reg.py:34-40 | for prime k > 7, both inverses exist and all eight generators lie in SL(2, k) |
| Experiments.Cay6GeneratorsInSL | experiments/experimentCay6reg.py:34-40 | for odd k ≥ 3, 2 is invertible and all three generators lie in SL(2, k) |
| Experiments.Cay16Generators | experiments/experimentCay16reg.py:40 | the list exists exactly when k ≥ 2 and 2 and 5 are coprime to k; it has eight 4-tuples, and the diagonal generators (2,0,0,2⁻¹) and (5,0,0,5⁻¹) have determinant 1 mod k |
| Experiments.Cay6Generators | experiments/experimentCay6reg.py:40 | the list exists exactly when k ≥ 2 and 2 is coprime to k; it has three 4-tuples, and (2,0,0,2⁻¹) has determinant 1 mod k |

## Left out

- Spectral code, `girth` and `mean_injectivity_radius` are not modelled. Spectra and spectral gaps are computed in floating point by numpy and networkx, `girth` is a wrapper over networkx's cycle basis, and the mean is a float.
- `random_permutation_matrix` and `random_adjacency_matrix` are not modelled as random generators. The permutations are parameters of the accept loop.
- Floating point determinant and square root: `round(linalg.det(A))` is modelled as the exact integer determinant (cofactor expansion), and `int(np.sqrt(n))` as the exact integer square root.
- The module-level assertions on group orders (|GL(2,3)| = 48, |SL(2,3)| = 24, |PGL(2,3)| = 24, |PSL(2,3)| = 12 and the n = 3 cases) are not proved. For GL and SL, the closure, inverse and `is_group` assertions are proved for n = 2 and every admissible q. For PGL and PSL only closure and the homomorphism property are proved for n = 2; `PGL(2,3).is_group()` (groups.py:235) and `PSL(2,3).is_group()` (groups.py:306) are not.
- Groups.PGL: closure of the quotient is proved only for n = 2. The existence of inverses in the quotient is not proved. The homomorphism property is not in its own ensures, because that quantifier makes the method's proof run out of resource. Groups.PGLHomomorphism derives it from exactly what Groups.PGL ensures for n = 2.
- Groups.PSL: closure of the quotient is proved only for n = 2. The existence of inverses in the quotient is not proved. As for PGL, the homomorphism property is stated by Groups.PSLHomomorphism, from exactly what Groups.PSL ensures for n = 2.
- Groups.Project: a lookup of a missing key raises `KeyError` in Python. The model returns the key itself instead. The lookup is never missing when the elements are closed under the product.
- Iteration order: Python iterates hash sets. The model iterates GL and SL in `itertools.product` order and the representatives in insertion order. Only the first inverse found and the choice of representatives depend on this order.
- `group.elements[0]` in `CayleyGraph` is not valid on a Python set. The constructor takes the vertex whose degree is reported as an argument; `LPS(p, q)` passes the identity.
- The `networkx.Graph` object is represented by its vertex and edge sets. Its adjacency structure and multi-edge bookkeeping are not modelled.
- LPS.FourSquaresOfFive: the count p + 1 of the list (Jacobi's theorem) is proved only for p = 5, not for every prime p ≡ 1 mod 4.
- LPS.NewLPS: the degree p + 1 promised for the LPS graph (LPS.py:71) is not proved, not even for p = 5. The contract gives the degree only as the networkx count at the identity. That the p + 1 generators fall into p + 1 distinct classes, none of them the identity's, is not shown for any p and q.
- LPS.PlanSucceeds: it is not proved that a square root of -1 exists mod q for q ≡ 1 mod 4, so success of the construction is stated relative to that existence.
- LPS.IsPrime requires n ≥ 0. For negative n the program fails inside `int(np.sqrt(n))`.
- LPS.SumOfFourSquares requires p ≥ 0, for the same reason.
- LPS.IsQuadraticResidue requires m ≠ 0: for m = 0 the program raises ZeroDivisionError at `p % m` (LPS.py:34). The model leaves that error path out.
- RandomGraphs.Diameter requires some power of A whose minimum entry is nonzero. Without such a power the Python loop never ends, for example on bipartite or disconnected graphs.
- RandomGraphs.Diameter: the entries of A^r are unbounded integers. numpy's `int` matrices are 64-bit, and `np.matmul` wraps silently past 2^63 - 1 (randomgraphs.py:103). So the result agrees with the program only while every entry of A^1, …, A^r stays below 2^63. On the 101-cycle, for example, A^67 has entries near C(67, 33) ≈ 1.4·10^19, above 2^63. Wrapped to a negative value, such an entry makes the minimum nonzero, so the program returns 67 where the model returns a larger r.
- RandomGraphs.InjectivityRadius: the same 64-bit wrap-around in `np.matmul` (randomgraphs.py:155) is not modelled. The row counts agree with the program only while the entries of the powers stay below 2^63.
- RandomGraphs.InjectivityRadius requires a power R by which every row has fired, and at least two vertices because column 1 is read. Without such a power the Python loop never ends.
- RandomGraphs.RandomSimpleAdjacencyMatrix: with the draws given as a finite list, the model returns None when the list runs out before d acceptances. The program would keep drawing.
- RandomGraphs.RandomSimpleIsGraph: the row sums (degree 2d of every vertex) are not proved. Only symmetry, 0/1 entries and the zero diagonal are proved.
- Experiments.Cay16Generators: when `inverse` returns the error string or None, the script builds a tuple containing it and fails later, inside the group operation. The model returns None instead.
- Experiments.Cay6Generators: the same as for Cay16Generators.
- The loops, `print`s and LaTeX output of the experiment scripts, and the other driver scripts, are not modelled.

## Findings

| source | as written | input that shows it | evidently intended | confidence | as-written member | corrected member |
|---|---|---|---|---|---|---|
| groups.py:73 | `if not self.inverse(e1)` treats a falsy inverse as missing | `CyclicGroup(n).is_group()` for any positive n: the inverse of 0 is 0, which is falsy | an inverse is missing only when `inverse` returns `False` itself; Z/nZ passes | not executed | Groups.CyclicIsGroupFalse | Groups.CyclicHasInverses |
| LPS.py:22-26 | only n == 1 is rejected before trial division | `is_prime(0)` returns True | numbers below 2 are not prime | not executed | LPS.IsPrimeAcceptsZero | LPS.IsPrimeCorrected |
