/**
 * Integer matrices as numpy holds them: square 2-d arrays (lists of rows) and
 * their row-major flattening into tuples. The determinant is the exact integer
 * cofactor expansion along the first row.
 */
module Matrices {
  import opened NumberTheory
  import opened Tuples

  type Matrix = seq<seq<int>>

  predicate IsSquare(A: Matrix, n: nat)
  {
    |A| == n && forall i :: 0 <= i < n ==> |A[i]| == n
  }

  function Dot(u: seq<int>, v: seq<int>): int
    requires |u| == |v|
    decreases |u|
  {
    if |u| == 0 then 0 else Dot(u[..|u| - 1], v[..|v| - 1]) + u[|u| - 1] * v[|v| - 1]
  }

  function Column(B: Matrix, j: nat): (c: seq<int>)
    requires forall i :: 0 <= i < |B| ==> j < |B[i]|
    ensures |c| == |B| && forall i :: 0 <= i < |B| ==> c[i] == B[i][j]
  {
    seq(|B|, i requires 0 <= i < |B| => B[i][j])
  }

  /** `np.matmul` of two n-by-n integer matrices. */
  function MatMul(A: Matrix, B: Matrix): (C: Matrix)
    requires IsSquare(A, |A|) && IsSquare(B, |A|)
    ensures IsSquare(C, |A|)
  {
    seq(|A|, i requires 0 <= i < |A| =>
      seq(|A|, j requires 0 <= j < |A| => Dot(A[i], Column(B, j))))
  }

  /** A^r for r >= 1, computed as numpy does in a loop: A, A*A, (A*A)*A, ... */
  function Power(A: Matrix, r: nat): (P: Matrix)
    requires IsSquare(A, |A|) && r >= 1
    ensures IsSquare(P, |A|)
    decreases r
  {
    if r == 1 then A else MatMul(Power(A, r - 1), A)
  }

  function IdentityMatrix(n: nat): (I: Matrix)
    ensures IsSquare(I, n)
  {
    seq(n, i => seq(n, j => if i == j then 1 else 0))
  }

  // ---------------------------------------------------------------------
  // Row-major tuples

  /** The k-th entry of a tuple; 0 past its end (numpy would raise instead). */
  function Entry(t: seq<int>, k: int): int
  {
    if 0 <= k < |t| then t[k] else 0
  }

  /** `np.reshape(t, (n, n))`. */
  function Rows(t: seq<int>, n: nat): (M: Matrix)
    ensures IsSquare(M, n)
  {
    seq(n, i => seq(n, j => Entry(t, i * n + j)))
  }

  /** `M.reshape(n ** 2)`: the rows written one after another. */
  function Flatten(M: Matrix): seq<int>
    decreases |M|
  {
    if |M| == 0 then [] else M[0] + Flatten(M[1..])
  }

  function ModAll(M: Matrix, q: int): (R: Matrix)
    requires q >= 1
    ensures |R| == |M| && forall i :: 0 <= i < |M| ==> |R[i]| == |M[i]|
  {
    seq(|M|, i requires 0 <= i < |M| => seq(|M[i]|, j requires 0 <= j < |M[i]| => M[i][j] % q))
  }

  /** The flattened n-by-n identity matrix, `tuple(np.identity(n).reshape(n**2))`. */
  function IdentityTuple(n: nat): seq<int>
  {
    Flatten(IdentityMatrix(n))
  }

  /** The GL operation: reshape both tuples, multiply, reduce mod q, flatten. */
  function MatMulMod(n: nat, q: int, A: seq<int>, B: seq<int>): (C: seq<int>)
    requires q >= 1
    ensures |C| == n * n && InRange(C, 0, q)
  {
    var P := ModAll(MatMul(Rows(A, n), Rows(B, n)), q);
    ReducedFlattenInRange(P, n, q);
    Flatten(P)
  }

  // ---------------------------------------------------------------------
  // Determinant

  /** M without its first row and its j-th column. */
  function Minor(M: Matrix, j: nat): (R: Matrix)
    requires IsSquare(M, |M|) && |M| >= 1 && j < |M|
    ensures IsSquare(R, |M| - 1)
  {
    seq(|M| - 1, i requires 0 <= i < |M| - 1 => M[i + 1][..j] + M[i + 1][j + 1..])
  }

  /** The exact determinant, by cofactor expansion along the first row. */
  function Det(M: Matrix): int
    requires IsSquare(M, |M|)
    decreases |M|, |M| + 1
  {
    if |M| == 0 then 1 else Cofactors(M, 0)
  }

  /** The sum of the signed cofactor terms for columns j..n-1 of the first row. */
  function Cofactors(M: Matrix, j: nat): int
    requires IsSquare(M, |M|) && |M| >= 1 && j <= |M|
    decreases |M|, |M| - j
  {
    if j == |M| then 0
    else (if j % 2 == 0 then 1 else -1) * M[0][j] * Det(Minor(M, j)) + Cofactors(M, j + 1)
  }

  /** The determinant of a flattened 2-by-2 matrix (a, b, c, d). */
  function Det2(t: seq<int>): int
    requires |t| == 4
  {
    t[0] * t[3] - t[1] * t[2]
  }

  // ---------------------------------------------------------------------
  // Lemmas

  /** Two n-by-n matrices with the same entries are equal. */
  lemma MatrixExt(A: Matrix, B: Matrix, n: nat)
    requires IsSquare(A, n) && IsSquare(B, n)
    requires forall i, j :: 0 <= i < n && 0 <= j < n ==> A[i][j] == B[i][j]
    ensures A == B
  {
    forall i | 0 <= i < n ensures A[i] == B[i] {
    }
  }

  lemma MulNonneg(a: int, b: int)
    requires a >= 0 && b >= 0
    ensures a * b >= 0
  {
  }

  lemma FlattenIndexBound(n: nat, i: nat, j: nat)
    requires i < n && j < n
    ensures i * n + j < n * n
  {
    assert n * n - (i * n + j) == (n - 1 - i) * n + (n - j);
    MulNonneg(n - 1 - i, n);
  }

  /** k = (k / n) * n + k % n with both parts below n, for k < n * n. */
  lemma SplitIndex(k: nat, n: nat)
    requires k < n * n
    ensures n > 0 && k / n < n && k % n < n && k == (k / n) * n + k % n
  {
    if n > 0 && k / n >= n {
      assert (k / n) * n - n * n == (k / n - n) * n;
      MulNonneg(k / n - n, n);
    }
  }

  lemma {:induction false} FlattenLength(M: Matrix, n: nat)
    requires forall i :: 0 <= i < |M| ==> |M[i]| == n
    ensures |Flatten(M)| == |M| * n
    decreases |M|
  {
    if |M| > 0 {
      FlattenLength(M[1..], n);
    }
  }

  /** Entry i*n + j of the flattening is M[i][j]. */
  lemma {:induction false} FlattenIndex(M: Matrix, n: nat, i: nat, j: nat)
    requires forall r :: 0 <= r < |M| ==> |M[r]| == n
    requires i < |M| && j < n
    ensures |Flatten(M)| == |M| * n && i * n + j < |M| * n
    ensures Flatten(M)[i * n + j] == M[i][j]
    decreases i
  {
    FlattenLength(M, n);
    FlattenIndexBound'(|M|, n, i, j);
    if i > 0 {
      FlattenIndex(M[1..], n, i - 1, j);
      assert i * n + j == n + ((i - 1) * n + j);
    }
  }

  lemma FlattenIndexBound'(m: nat, n: nat, i: nat, j: nat)
    requires i < m && j < n
    ensures i * n + j < m * n
  {
    assert m * n - (i * n + j) == (m - 1 - i) * n + (n - j);
    MulNonneg(m - 1 - i, n);
  }

  lemma FlattenEntry(P: Matrix, n: nat, k: nat)
    requires |P| == n && forall r :: 0 <= r < n ==> |P[r]| == n
    requires k < n * n
    ensures n > 0 && k / n < n && k % n < n
    ensures |Flatten(P)| == n * n && Flatten(P)[k] == P[k / n][k % n]
  {
    SplitIndex(k, n);
    FlattenIndex(P, n, k / n, k % n);
  }

  lemma ReducedFlattenInRange(P: Matrix, n: nat, q: int)
    requires q >= 1 && |P| == n && forall r :: 0 <= r < n ==> |P[r]| == n
    requires forall i, j :: 0 <= i < n && 0 <= j < n ==> 0 <= P[i][j] < q
    ensures |Flatten(P)| == n * n && InRange(Flatten(P), 0, q)
  {
    FlattenLength(P, n);
    forall k | 0 <= k < n * n ensures 0 <= Flatten(P)[k] < q {
      FlattenEntry(P, n, k);
      SplitIndex(k, n);
    }
  }

  /** Reshaping a flattened matrix gives the matrix back. */
  lemma RowsFlatten(M: Matrix, n: nat)
    requires IsSquare(M, n)
    ensures Rows(Flatten(M), n) == M
  {
    var R := Rows(Flatten(M), n);
    forall i, j | 0 <= i < n && 0 <= j < n ensures R[i][j] == M[i][j] {
      FlattenIndex(M, n, i, j);
      assert R[i][j] == Entry(Flatten(M), i * n + j);
    }
    MatrixExt(R, M, n);
  }

  lemma RowsEntry(t: seq<int>, n: nat, i: nat, j: nat)
    requires |t| == n * n && i < n && j < n
    ensures i * n + j < |t| && Rows(t, n)[i][j] == t[i * n + j]
  {
    FlattenIndexBound(n, i, j);
    var R := Rows(t, n);
    var row := seq(n, j' => Entry(t, i * n + j'));
    assert R[i] == row;
    assert row[j] == Entry(t, i * n + j);
  }

  /** Flattening a reshaped tuple of length n*n gives the tuple back. */
  lemma FlattenRows(t: seq<int>, n: nat)
    requires |t| == n * n
    ensures Flatten(Rows(t, n)) == t
  {
    var M := Rows(t, n);
    FlattenLength(M, n);
    assert |Flatten(M)| == |t|;
    forall k | 0 <= k < n * n ensures Flatten(M)[k] == t[k] {
      FlattenRowsAt(t, n, k);
    }
  }

  lemma FlattenRowsAt(t: seq<int>, n: nat, k: nat)
    requires |t| == n * n && k < n * n
    ensures |Flatten(Rows(t, n))| == n * n && Flatten(Rows(t, n))[k] == t[k]
  {
    SplitIndex(k, n);
    FlattenEntry(Rows(t, n), n, k);
    RowsEntry(t, n, k / n, k % n);
  }

  lemma {:induction false} DotUnitLeft(u: seq<int>, v: seq<int>, i: nat)
    requires |u| == |v| && i < |u|
    requires forall j :: 0 <= j < |u| ==> u[j] == if j == i then 1 else 0
    ensures Dot(u, v) == v[i]
    decreases |u|
  {
    var m := |u| - 1;
    if i < m {
      DotUnitLeft(u[..m], v[..m], i);
    } else {
      DotZero(u[..m], v[..m]);
    }
  }

  lemma {:induction false} DotZero(u: seq<int>, v: seq<int>)
    requires |u| == |v| && forall j :: 0 <= j < |u| ==> u[j] == 0
    ensures Dot(u, v) == 0
    decreases |u|
  {
    if |u| > 0 { DotZero(u[..|u| - 1], v[..|v| - 1]); }
  }

  lemma {:induction false} DotComm(u: seq<int>, v: seq<int>)
    requires |u| == |v|
    ensures Dot(u, v) == Dot(v, u)
    decreases |u|
  {
    if |u| > 0 { DotComm(u[..|u| - 1], v[..|v| - 1]); }
  }

  lemma MatMulIdentity(M: Matrix, n: nat)
    requires IsSquare(M, n)
    ensures MatMul(IdentityMatrix(n), M) == M
    ensures MatMul(M, IdentityMatrix(n)) == M
  {
    var I := IdentityMatrix(n);
    forall i, j | 0 <= i < n && 0 <= j < n
      ensures MatMul(I, M)[i][j] == M[i][j] && MatMul(M, I)[i][j] == M[i][j]
    {
      DotUnitLeft(I[i], Column(M, j), i);
      DotComm(M[i], Column(I, j));
      DotUnitLeft(Column(I, j), M[i], j);
    }
    MatrixExt(MatMul(I, M), M, n);
    MatrixExt(MatMul(M, I), M, n);
  }

  lemma ModAllInRange(M: Matrix, q: int, n: nat)
    requires q >= 1 && IsSquare(M, n)
    requires forall i, j :: 0 <= i < n && 0 <= j < n ==> 0 <= M[i][j] < q
    ensures ModAll(M, q) == M
  {
    MatrixExt(ModAll(M, q), M, n);
  }

  /** The flattened identity is neutral on both sides for tuples over 0..q-1. */
  lemma IdentityNeutral(n: nat, q: int, A: seq<int>)
    requires q >= 1 && |A| == n * n && InRange(A, 0, q)
    ensures MatMulMod(n, q, IdentityTuple(n), A) == A
    ensures MatMulMod(n, q, A, IdentityTuple(n)) == A
  {
    var I := IdentityMatrix(n);
    RowsFlatten(I, n);
    assert Rows(IdentityTuple(n), n) == I;
    var M := Rows(A, n);
    MatMulIdentity(M, n);
    ReshapedInRange(A, n, q);
    ModAllInRange(M, q, n);
    FlattenRows(A, n);
    assert MatMulMod(n, q, IdentityTuple(n), A) == Flatten(ModAll(MatMul(I, M), q));
    assert MatMulMod(n, q, A, IdentityTuple(n)) == Flatten(ModAll(MatMul(M, I), q));
  }

  lemma ReshapedInRange(A: seq<int>, n: nat, q: int)
    requires |A| == n * n && InRange(A, 0, q)
    ensures forall i, j :: 0 <= i < n && 0 <= j < n ==> 0 <= Rows(A, n)[i][j] < q
  {
    forall i, j | 0 <= i < n && 0 <= j < n ensures 0 <= Rows(A, n)[i][j] < q {
      RowsEntry(A, n, i, j);
    }
  }

  /** Reshaping a 4-tuple gives the 2-by-2 matrix it lists row by row. */
  lemma Rows2(t: seq<int>)
    requires |t| == 4
    ensures Rows(t, 2) == [[t[0], t[1]], [t[2], t[3]]]
  {
    var R := Rows(t, 2);
    RowsEntry(t, 2, 0, 0);
    RowsEntry(t, 2, 0, 1);
    RowsEntry(t, 2, 1, 0);
    RowsEntry(t, 2, 1, 1);
    MatrixExt(R, [[t[0], t[1]], [t[2], t[3]]], 2);
  }

  lemma Det1(x: int)
    ensures Det([[x]]) == x
  {
    assert Minor([[x]], 0) == [];
    assert Det(Minor([[x]], 0)) == 1;
    assert Cofactors([[x]], 1) == 0;
    assert Cofactors([[x]], 0) == 1 * x * 1 + 0;
  }

  /** For 2-by-2 matrices the cofactor expansion is ad - bc. */
  lemma DetOf2(t: seq<int>)
    requires |t| == 4
    ensures Det(Rows(t, 2)) == Det2(t)
  {
    var M := Rows(t, 2);
    Rows2(t);
    assert Minor(M, 0) == [[t[3]]] by { assert Minor(M, 0)[0] == [t[3]]; }
    assert Minor(M, 1) == [[t[2]]] by { assert Minor(M, 1)[0] == [t[2]]; }
    Det1(t[3]);
    Det1(t[2]);
    assert Cofactors(M, 2) == 0;
    assert Cofactors(M, 1) == -t[1] * t[2];
    assert Cofactors(M, 0) == t[0] * t[3] + Cofactors(M, 1);
  }

  /** The 2-by-2 GL operation written out entry by entry. */
  lemma MatMulMod2(q: int, A: seq<int>, B: seq<int>)
    requires q >= 1 && |A| == 4 && |B| == 4
    ensures MatMulMod(2, q, A, B) ==
      [(A[0] * B[0] + A[1] * B[2]) % q, (A[0] * B[1] + A[1] * B[3]) % q,
       (A[2] * B[0] + A[3] * B[2]) % q, (A[2] * B[1] + A[3] * B[3]) % q]
  {
    Rows2(A);
    Rows2(B);
    var RA, RB := Rows(A, 2), Rows(B, 2);
    var P := MatMul(RA, RB);
    assert Column(RB, 0) == [B[0], B[2]];
    assert Column(RB, 1) == [B[1], B[3]];
    Dot2(A[0], A[1], B[0], B[2]);
    Dot2(A[0], A[1], B[1], B[3]);
    Dot2(A[2], A[3], B[0], B[2]);
    Dot2(A[2], A[3], B[1], B[3]);
    assert P[0][0] == A[0] * B[0] + A[1] * B[2];
    assert P[0][1] == A[0] * B[1] + A[1] * B[3];
    assert P[1][0] == A[2] * B[0] + A[3] * B[2];
    assert P[1][1] == A[2] * B[1] + A[3] * B[3];
    var R := ModAll(P, q);
    assert R == [[R[0][0], R[0][1]], [R[1][0], R[1][1]]] by {
      MatrixExt(R, [[R[0][0], R[0][1]], [R[1][0], R[1][1]]], 2);
    }
    Flatten2(R[0][0], R[0][1], R[1][0], R[1][1]);
  }

  lemma Dot2(a: int, b: int, c: int, d: int)
    ensures Dot([a, b], [c, d]) == a * c + b * d
  {
    assert [a, b][..1] == [a] && [c, d][..1] == [c];
    assert [a][..0] == [] && [c][..0] == [];
    assert Dot([a], [c]) == Dot([], []) + a * c;
  }

  lemma Flatten2(a: int, b: int, c: int, d: int)
    ensures Flatten([[a, b], [c, d]]) == [a, b, c, d]
  {
    var M := [[a, b], [c, d]];
    assert M[1..] == [[c, d]];
    assert [[c, d]][1..] == [];
    assert Flatten([[c, d]]) == [c, d] + Flatten([]);
  }

  lemma {:induction false} MinorOfIdentity(n: nat)
    ensures Minor(IdentityMatrix(n + 1), 0) == IdentityMatrix(n)
  {
    var I := IdentityMatrix(n + 1);
    var m := Minor(I, 0);
    forall i, j | 0 <= i < n && 0 <= j < n ensures m[i][j] == IdentityMatrix(n)[i][j] {
      assert m[i] == I[i + 1][..0] + I[i + 1][1..];
      assert m[i][j] == I[i + 1][j + 1];
    }
    MatrixExt(m, IdentityMatrix(n), n);
  }

  lemma {:induction false} CofactorsOfIdentityTail(n: nat, j: nat)
    requires 1 <= j <= n + 1
    ensures Cofactors(IdentityMatrix(n + 1), j) == 0
    decreases n + 1 - j
  {
    if j <= n {
      CofactorsOfIdentityTail(n, j + 1);
    }
  }

  /** det(I) = 1, so the identity passes the GL and SL determinant tests. */
  lemma {:induction false} DetIdentity(n: nat)
    ensures Det(IdentityMatrix(n)) == 1
    decreases n
  {
    if n > 0 {
      DetIdentity(n - 1);
      MinorOfIdentity(n - 1);
      CofactorsOfIdentityTail(n - 1, 1);
    }
  }

  lemma IdentityTupleFacts(n: nat)
    ensures |IdentityTuple(n)| == n * n
    ensures Rows(IdentityTuple(n), n) == IdentityMatrix(n)
    ensures Det(Rows(IdentityTuple(n), n)) == 1
    ensures InRange(IdentityTuple(n), 0, 2)
  {
    RowsFlatten(IdentityMatrix(n), n);
    DetIdentity(n);
    ReducedFlattenInRange(IdentityMatrix(n), n, 2);
  }

  /** det(AB) = det(A) det(B) modulo q for the 2-by-2 GL operation. */
  lemma Det2MulMod(q: int, A: seq<int>, B: seq<int>)
    requires q >= 1 && |A| == 4 && |B| == 4
    ensures Det2(MatMulMod(2, q, A, B)) % q == (Det2(A) * Det2(B)) % q
  {
    MatMulMod2(q, A, B);
    var p0, p1 := A[0] * B[0] + A[1] * B[2], A[0] * B[1] + A[1] * B[3];
    var p2, p3 := A[2] * B[0] + A[3] * B[2], A[2] * B[1] + A[3] * B[3];
    ResidueDet(p0, p1, p2, p3, q);
    ProductDet(A[0], A[1], A[2], A[3], B[0], B[1], B[2], B[3]);
  }

  lemma ResidueDet(p0: int, p1: int, p2: int, p3: int, q: int)
    requires q >= 1
    ensures ((p0 % q) * (p3 % q) - (p1 % q) * (p2 % q)) % q == (p0 * p3 - p1 * p2) % q
  {
    ModSub((p0 % q) * (p3 % q), (p1 % q) * (p2 % q), q);
    ModMul(p0, p3, q);
    ModMul(p1, p2, q);
    ModSub(p0 * p3, p1 * p2, q);
  }

  lemma ProductDet(a0: int, a1: int, a2: int, a3: int, b0: int, b1: int, b2: int, b3: int)
    ensures (a0 * b0 + a1 * b2) * (a2 * b1 + a3 * b3) - (a0 * b1 + a1 * b3) * (a2 * b0 + a3 * b2)
         == (a0 * a3 - a1 * a2) * (b0 * b3 - b1 * b2)
  {
  }
}
