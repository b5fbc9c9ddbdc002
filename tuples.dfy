/**
 * `itertools.product(range(lo, hi), repeat = k)` as a sequence of tuples in the
 * order Python yields them, and the filtering loops that keep some of them.
 */
module Tuples {
  import opened NumberTheory

  /** Every entry of t lies in lo..hi-1. */
  predicate InRange(t: seq<int>, lo: int, hi: int)
  {
    forall i :: 0 <= i < |t| ==> lo <= t[i] < hi
  }

  /** Strict lexicographic order on integer tuples. */
  predicate LexLess(a: seq<int>, b: seq<int>)
    decreases |a|
  {
    |a| > 0 && |b| > 0 && (a[0] < b[0] || (a[0] == b[0] && LexLess(a[1..], b[1..])))
  }

  /** Strictly increasing in lexicographic order, hence also without repetitions. */
  predicate LexSorted(s: seq<seq<int>>)
  {
    forall i, j :: 0 <= i < j < |s| ==> LexLess(s[i], s[j])
  }

  predicate Distinct<T(==)>(s: seq<T>)
  {
    forall i, j :: 0 <= i < j < |s| ==> s[i] != s[j]
  }

  /** [x] + tail, for every tail. */
  function PrependAll(x: int, tails: seq<seq<int>>): (r: seq<seq<int>>)
    ensures |r| == |tails|
    ensures forall i :: 0 <= i < |tails| ==> r[i] == [x] + tails[i]
  {
    seq(|tails|, i requires 0 <= i < |tails| => [x] + tails[i])
  }

  /** The blocks for first entries x, x+1, ..., hi-1, each followed by every tail. */
  function Blocks(x: int, hi: int, tails: seq<seq<int>>): seq<seq<int>>
    decreases hi - x
  {
    if x >= hi then [] else PrependAll(x, tails) + Blocks(x + 1, hi, tails)
  }

  /** The tuples of `itertools.product(range(lo, hi), repeat = k)`, in its order. */
  function Product(lo: int, hi: int, k: nat): seq<seq<int>>
    decreases k
  {
    if k == 0 then [[]] else Blocks(lo, hi, Product(lo, hi, k - 1))
  }

  /** The elements of s that pass p, in the order of s. */
  function Filter<T(!new)>(s: seq<T>, p: T -> bool): (r: seq<T>)
    ensures |r| <= |s|
    ensures forall x :: x in r <==> x in s && p(x)
    decreases |s|
  {
    if s == [] then []
    else Filter(s[..|s| - 1], p) + (if p(s[|s| - 1]) then [s[|s| - 1]] else [])
  }

  // ---------------------------------------------------------------------

  lemma {:induction false} BlocksMember(x: int, hi: int, tails: seq<seq<int>>, t: seq<int>)
    ensures t in Blocks(x, hi, tails) <==> |t| > 0 && x <= t[0] < hi && t[1..] in tails
    decreases hi - x
  {
    if x < hi {
      BlocksMember(x + 1, hi, tails, t);
      if t in PrependAll(x, tails) {
        var i :| 0 <= i < |tails| && PrependAll(x, tails)[i] == t;
        assert t[1..] == tails[i];
      }
      if |t| > 0 && t[0] == x && t[1..] in tails {
        var i :| 0 <= i < |tails| && tails[i] == t[1..];
        assert PrependAll(x, tails)[i] == t;
      }
    }
  }

  /** A tuple is produced exactly when it has length k and entries in lo..hi-1. */
  lemma {:induction false} ProductMember(lo: int, hi: int, k: nat, t: seq<int>)
    ensures t in Product(lo, hi, k) <==> |t| == k && InRange(t, lo, hi)
    decreases k
  {
    if k > 0 {
      BlocksMember(lo, hi, Product(lo, hi, k - 1), t);
      if |t| > 0 {
        ProductMember(lo, hi, k - 1, t[1..]);
        if |t| == k && InRange(t[1..], lo, hi) && lo <= t[0] < hi {
          forall i | 0 <= i < |t| ensures lo <= t[i] < hi {
            if i > 0 { assert t[i] == t[1..][i - 1]; }
          }
        }
      }
    }
  }

  lemma {:induction false} BlocksLength(x: int, hi: int, tails: seq<seq<int>>)
    requires x <= hi
    ensures |Blocks(x, hi, tails)| == (hi - x) * |tails|
    decreases hi - x
  {
    if x < hi {
      BlocksLength(x + 1, hi, tails);
      assert (hi - x) * |tails| == |tails| + (hi - x - 1) * |tails|;
    }
  }

  /** There are (hi - lo)^k candidate tuples. */
  lemma {:induction false} ProductLength(lo: int, hi: int, k: nat)
    requires lo <= hi
    ensures |Product(lo, hi, k)| == Pow(hi - lo, k)
    decreases k
  {
    if k > 0 {
      ProductLength(lo, hi, k - 1);
      BlocksLength(lo, hi, Product(lo, hi, k - 1));
    }
  }

  lemma {:induction false} LexLessIrreflexive(a: seq<int>)
    ensures !LexLess(a, a)
    decreases |a|
  {
    if |a| > 0 { LexLessIrreflexive(a[1..]); }
  }

  /** In a sequence without repetitions no element occurs before its own position. */
  lemma DistinctPrefix<T>(s: seq<T>, k: nat)
    requires Distinct(s) && k < |s|
    ensures s[k] !in s[..k]
  {
    forall i | 0 <= i < k ensures s[..k][i] != s[k] {
      assert s[..k][i] == s[i];
    }
  }

  /** Appending a new value keeps a sequence free of repetitions. */
  lemma DistinctAppend<T>(s: seq<T>, x: T)
    requires Distinct(s) && x !in s
    ensures Distinct(s + [x])
  {
    var t := s + [x];
    forall i, j | 0 <= i < j < |t| ensures t[i] != t[j] {
      assert t[i] == s[i];
      if j == |s| {
        assert t[j] == x;
      } else {
        assert t[j] == s[j];
      }
    }
  }

  /** Lexicographically sorted sequences have no repetitions. */
  lemma LexSortedDistinct(s: seq<seq<int>>)
    requires LexSorted(s)
    ensures Distinct(s)
  {
    forall i, j | 0 <= i < j < |s| ensures s[i] != s[j] {
      LexLessIrreflexive(s[i]);
    }
  }

  lemma {:induction false} BlocksSorted(x: int, hi: int, tails: seq<seq<int>>)
    requires LexSorted(tails)
    ensures LexSorted(Blocks(x, hi, tails))
    decreases hi - x
  {
    if x < hi {
      var a, b := PrependAll(x, tails), Blocks(x + 1, hi, tails);
      BlocksSorted(x + 1, hi, tails);
      forall i, j | 0 <= i < j < |a| ensures LexLess(a[i], a[j]) {
        assert a[i][1..] == tails[i] && a[j][1..] == tails[j];
      }
      forall i, j | 0 <= i < |a| && 0 <= j < |b| ensures LexLess(a[i], b[j]) {
        BlocksMember(x + 1, hi, tails, b[j]);
      }
      var s := a + b;
      forall i, j | 0 <= i < j < |s| ensures LexLess(s[i], s[j]) {
        if j < |a| {
        } else if i < |a| {
          assert s[j] == b[j - |a|];
        } else {
          assert s[i] == b[i - |a|] && s[j] == b[j - |a|];
        }
      }
    }
  }

  /** `itertools.product` yields its tuples in strictly increasing lexicographic order. */
  lemma {:induction false} ProductSorted(lo: int, hi: int, k: nat)
    ensures LexSorted(Product(lo, hi, k))
    decreases k
  {
    if k > 0 {
      ProductSorted(lo, hi, k - 1);
      BlocksSorted(lo, hi, Product(lo, hi, k - 1));
    }
  }

  /** Filtering keeps the lexicographic order. */
  lemma {:induction false} FilterSorted(s: seq<seq<int>>, p: seq<int> -> bool)
    requires LexSorted(s)
    ensures LexSorted(Filter(s, p))
    decreases |s|
  {
    if s != [] {
      var init := s[..|s| - 1];
      assert LexSorted(init) by {
        forall i, j | 0 <= i < j < |init| ensures LexLess(init[i], init[j]) {
          assert init[i] == s[i] && init[j] == s[j];
        }
      }
      FilterSorted(init, p);
      var f := Filter(init, p);
      if p(s[|s| - 1]) {
        forall i | 0 <= i < |f| ensures LexLess(f[i], s[|s| - 1]) {
          assert f[i] in init;
          var k :| 0 <= k < |init| && init[k] == f[i];
        }
      }
    }
  }

  /** One more step of a filtering loop appends the next element when it passes. */
  lemma FilterStep<T(!new)>(s: seq<T>, i: nat, p: T -> bool)
    requires i < |s|
    ensures Filter(s[..i + 1], p) == Filter(s[..i], p) + (if p(s[i]) then [s[i]] else [])
  {
    assert s[..i + 1][..i] == s[..i];
  }
}
