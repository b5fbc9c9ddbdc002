/**
 * Integer metrics of graphs given by their adjacency matrices: sphere sizes of the
 * free regular tree, the simplicity test, the diameter and the injectivity radius
 * by repeated matrix powering, and the accept/reject loop that builds a random
 * simple graph from a sum of permutation matrices.
 */
module RandomGraphs {
  import opened Wrappers
  import opened NumberTheory
  import opened Matrices

  // ---------------------------------------------------------------------
  // size_of_sphere

  /** `size_of_sphere(d, r)`: d^r for r in {0, 1}, else d (d - 1)^(r - 1). */
  function SizeOfSphere(d: int, r: nat): (s: int)
    ensures r == 0 ==> s == 1
    ensures r >= 1 ==> s == d * Pow(d - 1, r - 1)
  {
    if r == 0 || r == 1 then Pow(d, r) else d * Pow(d - 1, r - 1)
  }

  /**
   * The sphere of radius r in the d-regular tree, counted level by level: one root,
   * d neighbours, and every later vertex has d - 1 children.
   */
  function TreeSphere(d: int, r: nat): int
    decreases r
  {
    if r == 0 then 1 else if r == 1 then d else (d - 1) * TreeSphere(d, r - 1)
  }

  /** The closed formula agrees with the level-by-level count of the tree. */
  lemma {:induction false} SizeOfSphereTree(d: int, r: nat)
    ensures SizeOfSphere(d, r) == TreeSphere(d, r)
    decreases r
  {
    if r >= 3 {
      SizeOfSphereTree(d, r - 1);
      var x := Pow(d - 1, r - 2);
      calc {
        SizeOfSphere(d, r);
        d * ((d - 1) * x);
        { MulAssoc(d, d - 1, x); MulAssoc(d - 1, d, x); }
        (d - 1) * (d * x);
        { assert SizeOfSphere(d, r - 1) == d * x; }
        (d - 1) * TreeSphere(d, r - 1);
      }
    }
  }

  // ---------------------------------------------------------------------
  // Entrywise maximum and minimum (numpy's `max()` and `min()` on an array)

  function SeqMax(s: seq<int>): int
    requires |s| > 0
    decreases |s|
  {
    if |s| == 1 then s[0]
    else
      var m' := SeqMax(s[1..]);
      if s[0] >= m' then s[0] else m'
  }

  function SeqMin(s: seq<int>): int
    requires |s| > 0
    decreases |s|
  {
    if |s| == 1 then s[0]
    else
      var m' := SeqMin(s[1..]);
      if s[0] <= m' then s[0] else m'
  }

  /** The maximum bounds every entry and is one of them. */
  lemma {:induction false} SeqMaxSpec(s: seq<int>)
    requires |s| > 0
    ensures forall k :: 0 <= k < |s| ==> s[k] <= SeqMax(s)
    ensures exists k :: 0 <= k < |s| && s[k] == SeqMax(s)
    decreases |s|
  {
    if |s| == 1 {
      assert s[0] == SeqMax(s);
    } else {
      SeqMaxSpec(s[1..]);
      assert forall k :: 1 <= k < |s| ==> s[k] == s[1..][k - 1];
      var k :| 0 <= k < |s| - 1 && s[1..][k] == SeqMax(s[1..]);
      if s[0] >= SeqMax(s[1..]) {
        assert s[0] == SeqMax(s);
      } else {
        assert s[k + 1] == SeqMax(s);
      }
    }
  }

  /** The minimum is below every entry and is one of them. */
  lemma {:induction false} SeqMinSpec(s: seq<int>)
    requires |s| > 0
    ensures forall k :: 0 <= k < |s| ==> SeqMin(s) <= s[k]
    ensures exists k :: 0 <= k < |s| && s[k] == SeqMin(s)
    decreases |s|
  {
    if |s| == 1 {
      assert s[0] == SeqMin(s);
    } else {
      SeqMinSpec(s[1..]);
      assert forall k :: 1 <= k < |s| ==> s[k] == s[1..][k - 1];
      var k :| 0 <= k < |s| - 1 && s[1..][k] == SeqMin(s[1..]);
      if s[0] <= SeqMin(s[1..]) {
        assert s[0] == SeqMin(s);
      } else {
        assert s[k + 1] == SeqMin(s);
      }
    }
  }

  /** A square matrix with at least one entry, the shape numpy can reduce. */
  predicate NonEmptySquare(A: Matrix)
  {
    |A| >= 1 && IsSquare(A, |A|)
  }

  /** `A.max()`: the largest of the row maxima. */
  function MatrixMax(A: Matrix): int
    requires NonEmptySquare(A)
  {
    SeqMax(seq(|A|, i requires 0 <= i < |A| => SeqMax(A[i])))
  }

  /** `A.min()`: the smallest of the row minima. */
  function MatrixMin(A: Matrix): int
    requires NonEmptySquare(A)
  {
    SeqMin(seq(|A|, i requires 0 <= i < |A| => SeqMin(A[i])))
  }

  lemma MatrixMaxSpec(A: Matrix)
    requires NonEmptySquare(A)
    ensures forall i, j :: 0 <= i < |A| && 0 <= j < |A| ==> A[i][j] <= MatrixMax(A)
    ensures exists i, j :: 0 <= i < |A| && 0 <= j < |A| && A[i][j] == MatrixMax(A)
  {
    var rows := seq(|A|, i requires 0 <= i < |A| => SeqMax(A[i]));
    SeqMaxSpec(rows);
    assert MatrixMax(A) == SeqMax(rows);
    forall i, j | 0 <= i < |A| && 0 <= j < |A| ensures A[i][j] <= MatrixMax(A) {
      SeqMaxSpec(A[i]);
      assert rows[i] == SeqMax(A[i]);
    }
    var i :| 0 <= i < |A| && rows[i] == MatrixMax(A);
    SeqMaxSpec(A[i]);
    var j :| 0 <= j < |A[i]| && A[i][j] == SeqMax(A[i]);
    assert A[i][j] == MatrixMax(A);
  }

  lemma MatrixMinSpec(A: Matrix)
    requires NonEmptySquare(A)
    ensures forall i, j :: 0 <= i < |A| && 0 <= j < |A| ==> MatrixMin(A) <= A[i][j]
    ensures exists i, j :: 0 <= i < |A| && 0 <= j < |A| && A[i][j] == MatrixMin(A)
  {
    var rows := seq(|A|, i requires 0 <= i < |A| => SeqMin(A[i]));
    SeqMinSpec(rows);
    assert MatrixMin(A) == SeqMin(rows);
    forall i, j | 0 <= i < |A| && 0 <= j < |A| ensures MatrixMin(A) <= A[i][j] {
      SeqMinSpec(A[i]);
      assert rows[i] == SeqMin(A[i]);
    }
    var i :| 0 <= i < |A| && rows[i] == MatrixMin(A);
    SeqMinSpec(A[i]);
    var j :| 0 <= j < |A[i]| && A[i][j] == SeqMin(A[i]);
    assert A[i][j] == MatrixMin(A);
  }

  // ---------------------------------------------------------------------
  // is_simple

  /** `is_simple(A)`: the largest entry is exactly 1. */
  predicate IsSimple(A: Matrix)
    requires NonEmptySquare(A)
  {
    MatrixMax(A) == 1
  }

  /** A matrix is simple exactly when no entry exceeds 1 and some entry is 1. */
  lemma IsSimpleEntries(A: Matrix)
    requires NonEmptySquare(A)
    ensures IsSimple(A) <==>
      (forall i, j :: 0 <= i < |A| && 0 <= j < |A| ==> A[i][j] <= 1) &&
      (exists i, j :: 0 <= i < |A| && 0 <= j < |A| && A[i][j] == 1)
  {
    var m := MatrixMax(A);
    MatrixMaxSpec(A);
    if (forall i, j :: 0 <= i < |A| && 0 <= j < |A| ==> A[i][j] <= 1) &&
       (exists i, j :: 0 <= i < |A| && 0 <= j < |A| && A[i][j] == 1) {
      var i, j :| 0 <= i < |A| && 0 <= j < |A| && A[i][j] == 1;
      var i', j' :| 0 <= i' < |A| && 0 <= j' < |A| && A[i'][j'] == m;
      assert m <= 1 && m >= 1;
    }
  }

  function Zeros(n: nat): (Z: Matrix)
    ensures IsSquare(Z, n)
  {
    seq(n, i => seq(n, j => 0))
  }

  /** The empty graph on n >= 1 vertices is not simple. */
  lemma ZerosNotSimple(n: nat)
    requires n >= 1
    ensures !IsSimple(Zeros(n))
  {
    IsSimpleEntries(Zeros(n));
  }

  // ---------------------------------------------------------------------
  // diameter

  /** The minimum entry of A^r is 0. */
  predicate PowerMinZero(A: Matrix, r: nat)
    requires NonEmptySquare(A) && r >= 1
  {
    MatrixMin(Power(A, r)) == 0
  }

  /**
   * `diameter(A)`: the least r >= 1 whose power A^r has a nonzero minimum entry. The loop runs forever
   * when there is none, so the existence of one is required.
   */
  method Diameter(A: Matrix) returns (diameter: nat)
    requires NonEmptySquare(A)
    requires exists r :: r >= 1 && !PowerMinZero(A, r)
    ensures diameter >= 1 && !PowerMinZero(A, diameter)
    ensures forall r :: 1 <= r < diameter ==> PowerMinZero(A, r)
  {
    ghost var w :| w >= 1 && !PowerMinZero(A, w);
    diameter := 1;
    var B := A;
    while MatrixMin(B) == 0
      invariant 1 <= diameter <= w
      invariant B == Power(A, diameter)
      invariant forall r :: 1 <= r < diameter ==> PowerMinZero(A, r)
      decreases w - diameter
    {
      B := MatMul(B, A);
      diameter := diameter + 1;
    }
  }

  predicate Nonnegative(A: Matrix)
  {
    forall i, j :: 0 <= i < |A| && 0 <= j < |A[i]| ==> A[i][j] >= 0
  }

  lemma {:induction false} DotNonnegative(u: seq<int>, v: seq<int>)
    requires |u| == |v|
    requires forall k :: 0 <= k < |u| ==> u[k] >= 0 && v[k] >= 0
    ensures Dot(u, v) >= 0
    decreases |u|
  {
    if |u| > 0 {
      DotNonnegative(u[..|u| - 1], v[..|v| - 1]);
      var a, b := u[|u| - 1], v[|v| - 1];
      assert a * b >= 0;
    }
  }

  lemma {:induction false} PowerNonnegative(A: Matrix, r: nat)
    requires NonEmptySquare(A) && Nonnegative(A) && r >= 1
    ensures Nonnegative(Power(A, r))
    decreases r
  {
    if r > 1 {
      PowerNonnegative(A, r - 1);
      var P := Power(A, r - 1);
      var C := MatMul(P, A);
      assert Power(A, r) == C;
      forall i, j | 0 <= i < |C| && 0 <= j < |C[i]| ensures C[i][j] >= 0 {
        var row, col := P[i], Column(A, j);
        assert C[i][j] == Dot(row, col);
        assert forall k :: 0 <= k < |row| ==> row[k] >= 0 && col[k] >= 0;
        DotNonnegative(row, col);
      }
    }
  }

  /**
   * For a graph (nonnegative entries), the power the diameter stops at has every entry
   * positive: every vertex reaches every vertex by a walk of that length.
   */
  lemma DiameterPowerPositive(A: Matrix, r: nat)
    requires NonEmptySquare(A) && Nonnegative(A) && r >= 1 && !PowerMinZero(A, r)
    ensures forall i, j :: 0 <= i < |A| && 0 <= j < |A| ==> Power(A, r)[i][j] > 0
  {
    PowerNonnegative(A, r);
    MatrixMinSpec(Power(A, r));
  }

  // ---------------------------------------------------------------------
  // injectivity_radius

  function Sum(s: seq<int>): int
    decreases |s|
  {
    if |s| == 0 then 0 else Sum(s[..|s| - 1]) + s[|s| - 1]
  }

  /** `list(row).count(1)`. */
  function CountOnes(row: seq<int>): (c: nat)
    ensures c <= |row|
    decreases |row|
  {
    if |row| == 0 then 0 else CountOnes(row[..|row| - 1]) + (if row[|row| - 1] == 1 then 1 else 0)
  }

  /** The degree `injectivity_radius` assumes: the sum of column 1. */
  function ColumnOneSum(A: Matrix): int
    requires NonEmptySquare(A) && |A| >= 2
  {
    Sum(Column(A, 1))
  }

  /** Row i of A^r has fewer ones than the sphere of radius r in the d-regular tree. */
  predicate Fires(A: Matrix, d: int, i: nat, r: nat)
    requires NonEmptySquare(A) && i < |A| && r >= 1
  {
    CountOnes(Power(A, r)[i]) < SizeOfSphere(d, r)
  }

  predicate FiresBy(A: Matrix, d: int, i: nat, R: nat)
    requires NonEmptySquare(A) && i < |A|
  {
    exists r :: 1 <= r <= R && Fires(A, d, i, r)
  }

  predicate AllFireBy(A: Matrix, d: int, R: nat)
    requires NonEmptySquare(A)
  {
    forall i :: 0 <= i < |A| ==> FiresBy(A, d, i, R)
  }

  /** The columns (radius, marker) of one row of `output` after the powers below r. */
  predicate RowState(A: Matrix, d: int, i: nat, r: nat, radius: int, marker: int)
    requires NonEmptySquare(A) && i < |A| && r >= 1
  {
    if marker == -1 then
      radius == -1 && forall k :: 1 <= k < r ==> !Fires(A, d, i, k)
    else
      marker == 0 && 0 <= radius && radius + 1 < r && Fires(A, d, i, radius + 1)
      && forall k :: 1 <= k <= radius ==> !Fires(A, d, i, k)
  }

  /** A row without a value gets r - 1 at the first power r that fires for it. */
  lemma RowFires(A: Matrix, d: int, i: nat, r: nat)
    requires NonEmptySquare(A) && i < |A| && r >= 1
    requires RowState(A, d, i, r, -1, -1) && Fires(A, d, i, r)
    ensures RowState(A, d, i, r + 1, r - 1, 0)
  {
  }

  /** A row that already has a value, or does not fire at r, keeps its entries. */
  lemma RowWaits(A: Matrix, d: int, i: nat, r: nat, radius: int, marker: int)
    requires NonEmptySquare(A) && i < |A| && r >= 1
    requires RowState(A, d, i, r, radius, marker) && (marker != -1 || !Fires(A, d, i, r))
    ensures RowState(A, d, i, r + 1, radius, marker)
  {
  }

  /** numpy's `min()` of a 2-d array. */
  method ArrayMin(a: array2<int>) returns (m: int)
    requires a.Length0 >= 1 && a.Length1 >= 1
    ensures forall i, j :: 0 <= i < a.Length0 && 0 <= j < a.Length1 ==> m <= a[i, j]
    ensures exists i, j :: 0 <= i < a.Length0 && 0 <= j < a.Length1 && a[i, j] == m
  {
    m := a[0, 0];
    var i := 0;
    while i < a.Length0
      invariant 0 <= i <= a.Length0
      invariant forall i', j :: 0 <= i' < i && 0 <= j < a.Length1 ==> m <= a[i', j]
      invariant m == a[0, 0] || exists i', j :: 0 <= i' < i && 0 <= j < a.Length1 && a[i', j] == m
    {
      var j := 0;
      while j < a.Length1
        invariant 0 <= j <= a.Length1
        invariant forall i', j' :: 0 <= i' < i && 0 <= j' < a.Length1 ==> m <= a[i', j']
        invariant forall j' :: 0 <= j' < j ==> m <= a[i, j']
        invariant m == a[0, 0] || (exists i', j' :: 0 <= i' < i && 0 <= j' < a.Length1 && a[i', j'] == m)
                                || (exists j' :: 0 <= j' < j && a[i, j'] == m)
      {
        if a[i, j] < m {
          m := a[i, j];
        }
        j := j + 1;
      }
      i := i + 1;
    }
  }

  /**
   * `injectivity_radius(A)`: for each vertex i, one less than the first r at which
   * row i of A^r has fewer ones than the sphere of radius r in the d-regular tree,
   * d being the sum of column 1. The loop runs until every vertex has a value, so
   * it is required that every vertex gets one by some common power R.
   */
  method InjectivityRadius(A: Matrix) returns (radii: seq<int>)
    requires NonEmptySquare(A) && |A| >= 2
    requires exists R :: R >= 1 && AllFireBy(A, ColumnOneSum(A), R)
    ensures |radii| == |A|
    ensures forall i :: 0 <= i < |A| ==>
      radii[i] >= 0 && Fires(A, ColumnOneSum(A), i, radii[i] + 1) &&
      forall k :: 1 <= k <= radii[i] ==> !Fires(A, ColumnOneSum(A), i, k)
  {
    var n := |A|;
    var d := Sum(Column(A, 1));
    ghost var R :| R >= 1 && AllFireBy(A, d, R);
    var output := new int[n, 2]((i, j) => -1);
    var B := A;
    var r := 1;
    InitialRows(A, d, output);
    var m := Scan(A, d, r, R, output);
    while m == -1
      invariant 1 <= r
      invariant B == Power(A, r)
      invariant forall i :: 0 <= i < n ==> RowState(A, d, i, r, output[i, 0], output[i, 1])
      invariant m == -1 <==> HasUnset(output)
      invariant m == -1 ==> r <= R
      decreases R + 1 - r
    {
      B, m := Round(A, d, r, R, B, output);
      r := r + 1;
    }
    radii := ReadRadii(A, d, r, output);
  }

  /** One pass of the `while` loop: mark the rows that fire at r, step to A^(r+1), rescan. */
  method Round(A: Matrix, d: int, r: nat, ghost R: nat, B: Matrix, output: array2<int>)
    returns (C: Matrix, m: int)
    requires NonEmptySquare(A) && r >= 1 && B == Power(A, r) && AllFireBy(A, d, R)
    requires output.Length0 == |A| && output.Length1 == 2
    requires forall i :: 0 <= i < |A| ==> RowState(A, d, i, r, output[i, 0], output[i, 1])
    modifies output
    ensures C == Power(A, r + 1)
    ensures forall i :: 0 <= i < |A| ==> RowState(A, d, i, r + 1, output[i, 0], output[i, 1])
    ensures m == -1 <==> HasUnset(output)
    ensures m == -1 ==> r + 1 <= R
  {
    MarkRows(A, d, r, B, output);
    C := NextPower(A, r, B);
    m := Scan(A, d, r + 1, R, output);
  }

  /** `B = np.matmul(B, A)`: from A^r to A^(r+1). */
  method NextPower(A: Matrix, r: nat, B: Matrix) returns (C: Matrix)
    requires NonEmptySquare(A) && r >= 1 && B == Power(A, r)
    ensures C == Power(A, r + 1)
  {
    C := MatMul(B, A);
  }

  /** The first column of `output` once every row has a value. */
  method ReadRadii(A: Matrix, d: int, r: nat, output: array2<int>) returns (radii: seq<int>)
    requires NonEmptySquare(A) && r >= 1
    requires output.Length0 == |A| && output.Length1 == 2
    requires forall i :: 0 <= i < |A| ==> RowState(A, d, i, r, output[i, 0], output[i, 1])
    requires !HasUnset(output)
    ensures |radii| == |A|
    ensures forall i :: 0 <= i < |A| ==>
      radii[i] >= 0 && Fires(A, d, i, radii[i] + 1) &&
      forall k :: 1 <= k <= radii[i] ==> !Fires(A, d, i, k)
  {
    FinishedRows(A, d, r, output);
    radii := seq(|A|, i requires 0 <= i < |A| reads output => output[i, 0]);
  }

  /** Some entry of `output` is still -1. */
  predicate HasUnset(output: array2<int>)
    reads output
  {
    exists i, j :: 0 <= i < output.Length0 && 0 <= j < output.Length1 && output[i, j] == -1
  }

  /** `output.min()`, with what it tells about the rows still without a value. */
  method Scan(A: Matrix, d: int, r: nat, ghost R: nat, output: array2<int>) returns (m: int)
    requires NonEmptySquare(A) && r >= 1 && AllFireBy(A, d, R)
    requires output.Length0 == |A| && output.Length1 == 2
    requires forall i :: 0 <= i < |A| ==> RowState(A, d, i, r, output[i, 0], output[i, 1])
    ensures m == -1 <==> HasUnset(output)
    ensures m == -1 ==> r <= R
  {
    m := ArrayMin(output);
    MarkerMin(A, d, r, output, m);
    MarkerBound(A, d, R, r, output);
  }

  /** Before the first pass every row is unset and no power has been looked at. */
  lemma InitialRows(A: Matrix, d: int, output: array2<int>)
    requires NonEmptySquare(A)
    requires output.Length0 == |A| && output.Length1 == 2
    requires forall i, j :: 0 <= i < |A| && 0 <= j < 2 ==> output[i, j] == -1
    ensures forall i :: 0 <= i < |A| ==> RowState(A, d, i, 1, output[i, 0], output[i, 1])
  {
  }

  /** When no -1 is left, every row holds its radius. */
  lemma FinishedRows(A: Matrix, d: int, r: nat, output: array2<int>)
    requires NonEmptySquare(A) && r >= 1
    requires output.Length0 == |A| && output.Length1 == 2
    requires forall i :: 0 <= i < |A| ==> RowState(A, d, i, r, output[i, 0], output[i, 1])
    requires !HasUnset(output)
    ensures forall i :: 0 <= i < |A| ==>
      output[i, 0] >= 0 && Fires(A, d, i, output[i, 0] + 1) &&
      forall k :: 1 <= k <= output[i, 0] ==> !Fires(A, d, i, k)
  {
    forall i | 0 <= i < |A|
      ensures output[i, 0] >= 0 && Fires(A, d, i, output[i, 0] + 1)
      ensures forall k :: 1 <= k <= output[i, 0] ==> !Fires(A, d, i, k)
    {
      assert output[i, 1] != -1;
      assert RowState(A, d, i, r, output[i, 0], output[i, 1]);
    }
  }

  /** One pass of the inner loop: every row without a value that fires at r gets r - 1. */
  method MarkRows(A: Matrix, d: int, r: nat, B: Matrix, output: array2<int>)
    requires NonEmptySquare(A) && r >= 1 && B == Power(A, r)
    requires output.Length0 == |A| && output.Length1 == 2
    requires forall i :: 0 <= i < |A| ==> RowState(A, d, i, r, output[i, 0], output[i, 1])
    modifies output
    ensures forall i :: 0 <= i < |A| ==> RowState(A, d, i, r + 1, output[i, 0], output[i, 1])
  {
    var i := 0;
    while i < |A|
      invariant 0 <= i <= |A|
      invariant forall i' :: 0 <= i' < i ==> RowState(A, d, i', r + 1, output[i', 0], output[i', 1])
      invariant forall i' :: i <= i' < |A| ==> RowState(A, d, i', r, output[i', 0], output[i', 1])
    {
      if output[i, 1] == -1 && CountOnes(B[i]) < SizeOfSphere(d, r) {
        RowFires(A, d, i, r);
        output[i, 0] := r - 1;
        output[i, 1] := 0;
      } else {
        RowWaits(A, d, i, r, output[i, 0], output[i, 1]);
      }
      i := i + 1;
    }
  }

  /** Every entry of `output` is at least -1, so its minimum is -1 exactly when a -1 is left. */
  lemma MarkerMin(A: Matrix, d: int, r: nat, output: array2<int>, m: int)
    requires NonEmptySquare(A) && r >= 1
    requires output.Length0 == |A| && output.Length1 == 2
    requires forall i :: 0 <= i < |A| ==> RowState(A, d, i, r, output[i, 0], output[i, 1])
    requires forall i, j :: 0 <= i < output.Length0 && 0 <= j < output.Length1 ==> m <= output[i, j]
    requires exists i, j :: 0 <= i < output.Length0 && 0 <= j < output.Length1 && output[i, j] == m
    ensures m >= -1
    ensures m == -1 <==> HasUnset(output)
  {
    var i, j :| 0 <= i < output.Length0 && 0 <= j < output.Length1 && output[i, j] == m;
    assert RowState(A, d, i, r, output[i, 0], output[i, 1]);
  }

  /** Once the power r exceeds R every row has a value, so no -1 is left. */
  lemma MarkerBound(A: Matrix, d: int, R: nat, r: nat, output: array2<int>)
    requires NonEmptySquare(A) && r >= 1 && AllFireBy(A, d, R)
    requires output.Length0 == |A| && output.Length1 == 2
    requires forall i :: 0 <= i < |A| ==> RowState(A, d, i, r, output[i, 0], output[i, 1])
    ensures HasUnset(output) ==> r <= R
  {
    if HasUnset(output) {
      var i, j :| 0 <= i < |A| && 0 <= j < 2 && output[i, j] == -1;
      assert FiresBy(A, d, i, R);
      var k :| 1 <= k <= R && Fires(A, d, i, k);
    }
  }

  // ---------------------------------------------------------------------
  // random_simple_adjacency_matrix

  /** `np.random.permutation(n)` as a value: n distinct numbers below n. */
  predicate IsPermutation(perm: seq<int>, n: nat)
  {
    |perm| == n && (forall k :: 0 <= k < n ==> 0 <= perm[k] < n)
    && forall k, l :: 0 <= k < l < n ==> perm[k] != perm[l]
  }

  /** `random_permutation_matrix(n)` for a given permutation: a 1 at (k, perm[k]). */
  function PermutationMatrix(n: nat, perm: seq<int>): (R: Matrix)
    requires IsPermutation(perm, n)
    ensures IsSquare(R, n)
  {
    seq(n, k requires 0 <= k < n => seq(n, j => if j == perm[k] then 1 else 0))
  }

  function Add(A: Matrix, B: Matrix): (C: Matrix)
    requires IsSquare(A, |A|) && IsSquare(B, |A|)
    ensures IsSquare(C, |A|)
    ensures forall i, j :: 0 <= i < |A| && 0 <= j < |A| ==> C[i][j] == A[i][j] + B[i][j]
  {
    seq(|A|, i requires 0 <= i < |A| => seq(|A|, j requires 0 <= j < |A| => A[i][j] + B[i][j]))
  }

  function Transpose(A: Matrix): (T: Matrix)
    requires IsSquare(A, |A|)
    ensures IsSquare(T, |A|)
    ensures forall i, j :: 0 <= i < |A| && 0 <= j < |A| ==> T[i][j] == A[j][i]
  {
    seq(|A|, i requires 0 <= i < |A| => seq(|A|, j requires 0 <= j < |A| => A[j][i]))
  }

  /** `A + R + R.T`, the candidate after drawing R. */
  function Candidate(n: nat, A: Matrix, perm: seq<int>): (C: Matrix)
    requires IsSquare(A, n) && IsPermutation(perm, n)
    ensures IsSquare(C, n)
  {
    var R := PermutationMatrix(n, perm);
    Add(Add(A, R), Transpose(R))
  }

  /**
   * The loop from the state (A, count) on the remaining draws: a candidate is kept
   * only if it is simple, and count grows only then. None when the draws run out
   * before d candidates were kept.
   */
  function AcceptLoop(n: nat, d: int, A: Matrix, count: int, perms: seq<seq<int>>): Option<Matrix>
    requires n >= 1 && IsSquare(A, n)
    requires forall k :: 0 <= k < |perms| ==> IsPermutation(perms[k], n)
    decreases |perms|
  {
    if count >= d then Some(A)
    else if |perms| == 0 then None
    else
      var C := Candidate(n, A, perms[0]);
      if IsSimple(C) then AcceptLoop(n, d, C, count + 1, perms[1..])
      else AcceptLoop(n, d, A, count, perms[1..])
  }

  /**
   * `random_simple_adjacency_matrix(n, d)` with the permutations it draws given in
   * order: adds R + R^T for each drawn R as long as the sum stays simple.
   */
  method RandomSimpleAdjacencyMatrix(n: nat, d: int, perms: seq<seq<int>>) returns (r: Option<Matrix>)
    requires n >= 1
    requires forall k :: 0 <= k < |perms| ==> IsPermutation(perms[k], n)
    ensures r == AcceptLoop(n, d, Zeros(n), 0, perms)
  {
    var A := Zeros(n);
    var count := 0;
    var k := 0;
    while count < d
      invariant 0 <= k <= |perms|
      invariant IsSquare(A, n)
      invariant AcceptLoop(n, d, A, count, perms[k..]) == AcceptLoop(n, d, Zeros(n), 0, perms)
      decreases |perms| - k
    {
      if k == |perms| {
        return None;
      }
      assert perms[k..][1..] == perms[k + 1..];
      var R := PermutationMatrix(n, perms[k]);
      var ANew := Add(Add(A, R), Transpose(R));
      if IsSimple(ANew) {
        A := ANew;
        count := count + 1;
      }
      k := k + 1;
    }
    return Some(A);
  }

  /** A simple graph without self-loops: symmetric, entries 0 or 1, zero diagonal. */
  predicate SimpleLooplessGraph(A: Matrix, n: nat)
  {
    IsSquare(A, n)
    && (forall i, j :: 0 <= i < n && 0 <= j < n ==> A[i][j] == A[j][i])
    && (forall i, j :: 0 <= i < n && 0 <= j < n ==> 0 <= A[i][j] <= 1)
    && (forall i :: 0 <= i < n ==> A[i][i] == 0)
  }

  lemma CandidateEntry(n: nat, A: Matrix, perm: seq<int>, i: nat, j: nat)
    requires IsSquare(A, n) && IsPermutation(perm, n) && i < n && j < n
    ensures Candidate(n, A, perm)[i][j]
         == A[i][j] + PermutationMatrix(n, perm)[i][j] + PermutationMatrix(n, perm)[j][i]
    ensures 0 <= PermutationMatrix(n, perm)[i][j] <= 1
  {
    var R := PermutationMatrix(n, perm);
    var S := Add(A, R);
    var T := Transpose(R);
    assert Candidate(n, A, perm) == Add(S, T);
  }

  /** Keeping a candidate preserves being a simple graph without self-loops. */
  lemma CandidateKeepsGraph(n: nat, A: Matrix, perm: seq<int>)
    requires n >= 1 && SimpleLooplessGraph(A, n) && IsPermutation(perm, n)
    requires IsSimple(Candidate(n, A, perm))
    ensures SimpleLooplessGraph(Candidate(n, A, perm), n)
  {
    var C := Candidate(n, A, perm);
    IsSimpleEntries(C);
    forall i, j | 0 <= i < n && 0 <= j < n
      ensures C[i][j] == C[j][i] && 0 <= C[i][j] <= 1 && (i == j ==> C[i][j] == 0)
    {
      CandidateCell(n, A, perm, i, j);
    }
  }

  /** One entry of a kept candidate: symmetric, nonnegative, and zero on the diagonal. */
  lemma CandidateCell(n: nat, A: Matrix, perm: seq<int>, i: nat, j: nat)
    requires SimpleLooplessGraph(A, n) && IsPermutation(perm, n) && i < n && j < n
    requires Candidate(n, A, perm)[i][j] <= 1
    ensures Candidate(n, A, perm)[i][j] == Candidate(n, A, perm)[j][i]
    ensures 0 <= Candidate(n, A, perm)[i][j] && (i == j ==> Candidate(n, A, perm)[i][j] == 0)
  {
    CandidateEntry(n, A, perm, i, j);
    CandidateEntry(n, A, perm, j, i);
    assert A[i][j] == A[j][i] && 0 <= A[i][j];
    if i == j {
      assert A[i][i] == 0;
    }
  }

  /**
   * Whatever it returns is the adjacency matrix of a simple graph without self-loops:
   * symmetric, with entries 0 or 1 and a zero diagonal.
   */
  lemma {:induction false} AcceptLoopGraph(n: nat, d: int, A: Matrix, count: int, perms: seq<seq<int>>)
    requires n >= 1 && SimpleLooplessGraph(A, n)
    requires forall k :: 0 <= k < |perms| ==> IsPermutation(perms[k], n)
    ensures AcceptLoop(n, d, A, count, perms).Some? ==> SimpleLooplessGraph(AcceptLoop(n, d, A, count, perms).value, n)
    decreases |perms|
  {
    if count < d && |perms| > 0 {
      var C := Candidate(n, A, perms[0]);
      if IsSimple(C) {
        CandidateKeepsGraph(n, A, perms[0]);
        AcceptLoopGraph(n, d, C, count + 1, perms[1..]);
      } else {
        AcceptLoopGraph(n, d, A, count, perms[1..]);
      }
    }
  }

  lemma RandomSimpleIsGraph(n: nat, d: int, perms: seq<seq<int>>)
    requires n >= 1
    requires forall k :: 0 <= k < |perms| ==> IsPermutation(perms[k], n)
    ensures AcceptLoop(n, d, Zeros(n), 0, perms).Some? ==>
      SimpleLooplessGraph(AcceptLoop(n, d, Zeros(n), 0, perms).value, n)
  {
    AcceptLoopGraph(n, d, Zeros(n), 0, perms);
  }
}
