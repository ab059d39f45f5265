/** The mathematical meaning of the container operations, on values.

    A vector is a `seq<int>`; a square matrix of dimension `n` is a
    `seq<seq<int>>` of `n` rows of length `n`. The methods of the `Vector`
    and `Matrix` modules are proved to compute these functions, and the
    lemmas here state what the functions mean: inverse operations, the
    distributive laws of the dot product, and that the matrix product is the
    composition of the linear maps of its factors. */
module Algebra {

  // ---------------------------------------------------------------------
  // Vectors

  /** `n` value-initialised elements, as `new int[n]()` yields. */
  function Zeros(n: nat): seq<int> {
    seq(n, _ => 0)
  }

  function AddScalar(a: seq<int>, c: int): seq<int> {
    seq(|a|, i requires 0 <= i < |a| => a[i] + c)
  }

  function SubScalar(a: seq<int>, c: int): seq<int> {
    seq(|a|, i requires 0 <= i < |a| => a[i] - c)
  }

  function MulScalar(a: seq<int>, c: int): seq<int> {
    seq(|a|, i requires 0 <= i < |a| => a[i] * c)
  }

  function Add(a: seq<int>, b: seq<int>): seq<int>
    requires |a| == |b|
  {
    seq(|a|, i requires 0 <= i < |a| => a[i] + b[i])
  }

  function Sub(a: seq<int>, b: seq<int>): seq<int>
    requires |a| == |b|
  {
    seq(|a|, i requires 0 <= i < |a| => a[i] - b[i])
  }

  /** The sum of `a[i] * b[i]` over all `i`, accumulated from 0 in index
      order: the value of the prefix `a[..k]` is the accumulator after `k`
      steps. */
  function Dot(a: seq<int>, b: seq<int>): int
    requires |a| == |b|
    decreases |a|
  {
    if |a| == 0 then 0
    else Dot(a[..|a| - 1], b[..|b| - 1]) + a[|a| - 1] * b[|b| - 1]
  }

  /** One accumulation step of the dot product. */
  lemma DotStep(a: seq<int>, b: seq<int>, k: nat)
    requires |a| == |b| && k < |a|
    ensures Dot(a[..k + 1], b[..k + 1]) == Dot(a[..k], b[..k]) + a[k] * b[k]
  {
    assert a[..k + 1][..k] == a[..k];
    assert b[..k + 1][..k] == b[..k];
  }

  lemma {:induction false} DotSymmetric(a: seq<int>, b: seq<int>)
    requires |a| == |b|
    ensures Dot(a, b) == Dot(b, a)
  {
    if |a| > 0 {
      DotSymmetric(a[..|a| - 1], b[..|b| - 1]);
    }
  }

  lemma {:induction false} DotZerosLeft(n: nat, b: seq<int>)
    requires |b| == n
    ensures Dot(Zeros(n), b) == 0
  {
    if n > 0 {
      assert Zeros(n)[..n - 1] == Zeros(n - 1);
      DotZerosLeft(n - 1, b[..n - 1]);
    }
  }

  /** The dot product is additive in its first argument. */
  lemma {:induction false} DotAddLeft(a: seq<int>, b: seq<int>, c: seq<int>)
    requires |a| == |b| == |c|
    ensures Dot(Add(a, b), c) == Dot(a, c) + Dot(b, c)
  {
    var n := |a|;
    if n > 0 {
      assert Add(a, b)[..n - 1] == Add(a[..n - 1], b[..n - 1]);
      DotAddLeft(a[..n - 1], b[..n - 1], c[..n - 1]);
      assert (a[n - 1] + b[n - 1]) * c[n - 1] == a[n - 1] * c[n - 1] + b[n - 1] * c[n - 1];
    }
  }

  /** The dot product is subtractive in its first argument. */
  lemma {:induction false} DotSubLeft(a: seq<int>, b: seq<int>, c: seq<int>)
    requires |a| == |b| == |c|
    ensures Dot(Sub(a, b), c) == Dot(a, c) - Dot(b, c)
  {
    var n := |a|;
    if n > 0 {
      assert Sub(a, b)[..n - 1] == Sub(a[..n - 1], b[..n - 1]);
      DotSubLeft(a[..n - 1], b[..n - 1], c[..n - 1]);
      assert (a[n - 1] - b[n - 1]) * c[n - 1] == a[n - 1] * c[n - 1] - b[n - 1] * c[n - 1];
    }
  }

  /** The dot product is homogeneous in its first argument. */
  lemma {:induction false} DotScaleLeft(a: seq<int>, c: int, b: seq<int>)
    requires |a| == |b|
    ensures Dot(MulScalar(a, c), b) == c * Dot(a, b)
  {
    var n := |a|;
    if n > 0 {
      assert MulScalar(a, c)[..n - 1] == MulScalar(a[..n - 1], c);
      DotScaleLeft(a[..n - 1], c, b[..n - 1]);
      var d := Dot(a[..n - 1], b[..n - 1]);
      assert c * (d + a[n - 1] * b[n - 1]) == c * d + (a[n - 1] * c) * b[n - 1];
    }
  }

  /** Adding a scalar and subtracting it again gives the vector back. */
  lemma ScalarShiftRoundTrip(a: seq<int>, c: int)
    ensures |AddScalar(a, c)| == |a|
    ensures SubScalar(AddScalar(a, c), c) == a
  {
  }

  /** Adding a vector and subtracting it again gives the vector back. */
  lemma AddSubRoundTrip(a: seq<int>, b: seq<int>)
    requires |a| == |b|
    ensures |Add(a, b)| == |a|
    ensures Sub(Add(a, b), b) == a
  {
  }

  // ---------------------------------------------------------------------
  // Square matrices

  /** `m` has `n` rows, each of length `n`. */
  predicate IsSquare(m: seq<seq<int>>, n: nat) {
    |m| == n && forall i :: 0 <= i < n ==> |m[i]| == n
  }

  function ZeroMatrix(n: nat): seq<seq<int>> {
    seq(n, _ => Zeros(n))
  }

  /** The `j`-th column of `m`. */
  function Column(m: seq<seq<int>>, j: nat): seq<int>
    requires forall i :: 0 <= i < |m| ==> j < |m[i]|
  {
    seq(|m|, i requires 0 <= i < |m| => m[i][j])
  }

  function MatScale(m: seq<seq<int>>, c: int): seq<seq<int>> {
    seq(|m|, i requires 0 <= i < |m| => MulScalar(m[i], c))
  }

  function MatAdd(a: seq<seq<int>>, b: seq<seq<int>>): seq<seq<int>>
    requires |a| == |b| && forall i :: 0 <= i < |a| ==> |a[i]| == |b[i]|
  {
    seq(|a|, i requires 0 <= i < |a| => Add(a[i], b[i]))
  }

  function MatSub(a: seq<seq<int>>, b: seq<seq<int>>): seq<seq<int>>
    requires |a| == |b| && forall i :: 0 <= i < |a| ==> |a[i]| == |b[i]|
  {
    seq(|a|, i requires 0 <= i < |a| => Sub(a[i], b[i]))
  }

  /** `MatVec(m, v)[i]` is the sum over `j` of `m[i][j] * v[j]`. */
  function MatVec(m: seq<seq<int>>, v: seq<int>): seq<int>
    requires forall i :: 0 <= i < |m| ==> |m[i]| == |v|
  {
    seq(|m|, i requires 0 <= i < |m| => Dot(m[i], v))
  }

  /** The row vector `x` times the matrix `b` of `|x|` rows of length `n`:
      entry `j` is the sum over `k` of `x[k] * b[k][j]`. */
  function RowTimes(x: seq<int>, b: seq<seq<int>>, n: nat): seq<int>
    requires |x| == |b| && forall k :: 0 <= k < |b| ==> |b[k]| == n
  {
    seq(n, j requires 0 <= j < n => Dot(x, Column(b, j)))
  }

  /** `MatMul(a, b)[i][j]` is the sum over `k` of `a[i][k] * b[k][j]`. */
  function MatMul(a: seq<seq<int>>, b: seq<seq<int>>): seq<seq<int>>
    requires IsSquare(a, |a|) && IsSquare(b, |a|)
  {
    seq(|a|, i requires 0 <= i < |a| => RowTimes(a[i], b, |a|))
  }

  /** Before any contraction step a row of the product is zero. */
  lemma RowTimesEmpty(x: seq<int>, b: seq<seq<int>>, n: nat)
    requires |x| == |b| && forall k :: 0 <= k < |b| ==> |b[k]| == n
    ensures RowTimes(x[..0], b[..0], n) == Zeros(n)
  {
  }

  /** One step of the contraction index: taking row `k` of `b` into account
      adds `x[k]` times that row. This is what the middle loop of the
      i-k-j product does to row `i` of the result. */
  lemma RowTimesStep(x: seq<int>, b: seq<seq<int>>, n: nat, k: nat)
    requires |x| == |b| && forall r :: 0 <= r < |b| ==> |b[r]| == n
    requires k < |x|
    ensures RowTimes(x[..k + 1], b[..k + 1], n) == Add(RowTimes(x[..k], b[..k], n), MulScalar(b[k], x[k]))
  {
    forall j | 0 <= j < n
      ensures RowTimes(x[..k + 1], b[..k + 1], n)[j] == RowTimes(x[..k], b[..k], n)[j] + b[k][j] * x[k]
    {
      assert Column(b[..k + 1], j) == Column(b, j)[..k + 1];
      assert Column(b[..k], j) == Column(b, j)[..k];
      DotStep(x, Column(b, j), k);
    }
  }

  /** The row vector `x` times `b`, applied to `v`, is `x` applied to `b`
      times `v`: the contraction over `k` and the one over `j` commute. */
  lemma {:induction false} RowTimesDot(x: seq<int>, b: seq<seq<int>>, n: nat, v: seq<int>)
    requires |x| == |b| && forall k :: 0 <= k < |b| ==> |b[k]| == n
    requires |v| == n
    ensures Dot(RowTimes(x, b, n), v) == Dot(x, MatVec(b, v))
    decreases |x|
  {
    var m := |x|;
    if m == 0 {
      assert RowTimes(x, b, n) == Zeros(n);
      DotZerosLeft(n, v);
    } else {
      var k := m - 1;
      assert x[..k + 1] == x && b[..k + 1] == b;
      RowTimesStep(x, b, n, k);
      var prev := RowTimes(x[..k], b[..k], n);
      RowTimesDot(x[..k], b[..k], n, v);
      DotAddLeft(prev, MulScalar(b[k], x[k]), v);
      DotScaleLeft(b[k], x[k], v);
      assert MatVec(b, v)[..k] == MatVec(b[..k], v);
    }
  }

  /** `MatMul(a, b)` is the composition of the linear maps of `a` and `b`:
      multiplying by the product is multiplying by `b`, then by `a`. */
  lemma MatMulComposes(a: seq<seq<int>>, b: seq<seq<int>>, v: seq<int>)
    requires IsSquare(a, |a|) && IsSquare(b, |a|) && |v| == |a|
    ensures MatVec(MatMul(a, b), v) == MatVec(a, MatVec(b, v))
  {
    forall i | 0 <= i < |a|
      ensures Dot(MatMul(a, b)[i], v) == Dot(a[i], MatVec(b, v))
    {
      RowTimesDot(a[i], b, |a|, v);
    }
  }

  /** Multiplying a vector by `a + b` is adding its products with `a` and with `b`. */
  lemma MatVecAdd(a: seq<seq<int>>, b: seq<seq<int>>, v: seq<int>)
    requires IsSquare(a, |v|) && IsSquare(b, |v|)
    ensures MatVec(MatAdd(a, b), v) == Add(MatVec(a, v), MatVec(b, v))
  {
    forall i | 0 <= i < |a|
      ensures Dot(MatAdd(a, b)[i], v) == Dot(a[i], v) + Dot(b[i], v)
    {
      DotAddLeft(a[i], b[i], v);
    }
  }

  /** Multiplying a vector by `a - b` is subtracting its product with `b`
      from its product with `a`. */
  lemma MatVecSub(a: seq<seq<int>>, b: seq<seq<int>>, v: seq<int>)
    requires IsSquare(a, |v|) && IsSquare(b, |v|)
    ensures MatVec(MatSub(a, b), v) == Sub(MatVec(a, v), MatVec(b, v))
  {
    forall i | 0 <= i < |a|
      ensures Dot(MatSub(a, b)[i], v) == Dot(a[i], v) - Dot(b[i], v)
    {
      DotSubLeft(a[i], b[i], v);
    }
  }

  /** Multiplying a vector by `c * a` is scaling its product with `a` by `c`. */
  lemma MatVecScale(a: seq<seq<int>>, c: int, v: seq<int>)
    requires IsSquare(a, |v|)
    ensures MatVec(MatScale(a, c), v) == MulScalar(MatVec(a, v), c)
  {
    forall i | 0 <= i < |a|
      ensures Dot(MatScale(a, c)[i], v) == Dot(a[i], v) * c
    {
      DotScaleLeft(a[i], c, v);
    }
  }

  /** Adding a matrix and subtracting it again gives the matrix back. */
  lemma MatAddSubRoundTrip(a: seq<seq<int>>, b: seq<seq<int>>)
    requires IsSquare(a, |a|) && IsSquare(b, |a|)
    ensures IsSquare(MatAdd(a, b), |a|)
    ensures MatSub(MatAdd(a, b), b) == a
  {
    forall i | 0 <= i < |a|
      ensures Sub(Add(a[i], b[i]), b[i]) == a[i]
    {
      AddSubRoundTrip(a[i], b[i]);
    }
  }

  // ---------------------------------------------------------------------
  // Worked examples

  lemma AddExample()
    ensures Add([1, 2, 3], [423, 122, 13]) == [424, 124, 16]
  {
  }

  lemma SubExample()
    ensures Sub([1, 2, 3], [423, 122, 13]) == [-422, -120, -10]
  {
  }

  lemma MatSubExample()
    ensures MatSub([[1, 2], [3, 4]], [[3, 4], [5, 6]]) == [[-2, -2], [-2, -2]]
  {
    assert Sub([1, 2], [3, 4]) == [-2, -2];
    assert Sub([3, 4], [5, 6]) == [-2, -2];
  }

  lemma MatVecExample()
    ensures MatVec([[12, 4], [4, 1]], [1, 2]) == [20, 6]
  {
    DotTwo([12, 4], [1, 2]);
    DotTwo([4, 1], [1, 2]);
  }

  lemma DotExample()
    ensures Dot([12, 13], [9, 53]) == 797
  {
    assert [12, 13][..1] == [12] && [9, 53][..1] == [9];
    assert [12][..0] == [] && [9][..0] == [];
  }

  lemma MatMulExample()
    ensures MatMul([[5, 1], [7, 45]], [[-4, 0], [63, 4]]) == [[43, 4], [2807, 180]]
  {
    var a, b := [[5, 1], [7, 45]], [[-4, 0], [63, 4]];
    assert Column(b, 0) == [-4, 63] && Column(b, 1) == [0, 4];
    DotTwo(a[0], Column(b, 0));
    DotTwo(a[0], Column(b, 1));
    DotTwo(a[1], Column(b, 0));
    DotTwo(a[1], Column(b, 1));
    assert RowTimes(a[0], b, 2) == [43, 4];
    assert RowTimes(a[1], b, 2) == [2807, 180];
  }

  /** The dot product of two vectors of length two, written out. */
  lemma DotTwo(a: seq<int>, b: seq<int>)
    requires |a| == |b| == 2
    ensures Dot(a, b) == a[0] * b[0] + a[1] * b[1]
  {
    DotStep(a, b, 0);
    DotStep(a, b, 1);
    assert a[..2] == a && b[..2] == b;
  }
}
