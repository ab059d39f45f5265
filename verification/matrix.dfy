/** `TDynamicMatrix<int>`: a square matrix stored as a vector of row vectors.

    The object keeps its dimension `sz` and an array `rows` of `sz` distinct
    `DynamicVector` objects, each of length `sz` and each owning its own
    buffer. The value it stands for is `Contents()`, the rows read as
    sequences. Operators that build a new matrix return one whose every
    object is fresh, so neither the receiver nor the operands change. */
module Matrix {
  import opened Errors
  import opened Algebra
  import opened Vector

  /** The largest dimension a matrix may be created with. */
  const MaxMatrixSize: nat := 10000

  class DynamicMatrix {
    var sz: nat
    var rows: array<DynamicVector>

    /** Every row is a valid vector of length `sz`, and no two rows share a
        buffer. It reads only the row objects, not the element buffers, so
        writing an element never disturbs it. */
    ghost predicate Valid()
      reads this, rows, rows[..]
    {
      rows.Length == sz && 1 <= sz <= MaxMatrixSize &&
      (forall i :: 0 <= i < sz ==> rows[i].Valid() && rows[i].sz == sz) &&
      (forall i, j :: 0 <= i < sz && 0 <= j < sz && i != j ==> rows[i].mem != rows[j].mem)
    }

    /** The element buffers of the rows. */
    ghost function Buffers(): set<array<int>>
      reads this, rows, rows[..]
    {
      set i | 0 <= i < rows.Length :: rows[i].mem
    }


    ghost function Contents(): (c: seq<seq<int>>)
      requires Valid()
      reads this, rows, rows[..], Buffers()
      ensures IsSquare(c, sz)
      ensures forall i :: 0 <= i < sz ==> c[i] == rows[i].mem[..]
    {
      seq(sz, i requires 0 <= i < sz && Valid() reads this, rows, rows[..], Buffers() => rows[i].mem[..])
    }

    /** `s` distinct rows with distinct buffers, each a valid vector of length `s`. */
    static ghost predicate RowsOfLength(r: array<DynamicVector>, s: nat)
      reads r, r[..]
    {
      r.Length == s &&
      (forall p :: 0 <= p < s ==> r[p].Valid() && r[p].sz == s) &&
      (forall p, q :: 0 <= p < s && 0 <= q < s && p != q ==> r[p].mem != r[q].mem)
    }

    /** The rows of a fresh zero matrix: the outer array is first filled with
        a placeholder row, then each entry is replaced by a fresh row of
        length `s`. */
    static method ZeroRows(s: nat) returns (r: array<DynamicVector>)
      requires 1 <= s <= MaxMatrixSize
      ensures fresh(r) && RowsOfLength(r, s)
      ensures forall p :: 0 <= p < s ==> fresh(r[p]) && fresh(r[p].mem) && r[p].mem[..] == Zeros(s)
    {
      var filler := new DynamicVector.Init(1);
      r := new DynamicVector[s](_ => filler);
      var i := 0;
      while i < s
        invariant 0 <= i <= s && fresh(r) && r.Length == s
        invariant forall p :: 0 <= p < i ==>
          fresh(r[p]) && fresh(r[p].mem) && r[p].Valid() && r[p].sz == s && r[p].mem[..] == Zeros(s)
        invariant forall p, q :: 0 <= p < i && 0 <= q < i && p != q ==> r[p].mem != r[q].mem
      {
        var row := new DynamicVector.Init(s);
        r[i] := row;
        i := i + 1;
      }
    }

    /** Fresh deep copies of the rows of `m`. */
    static method CopyRows(m: DynamicMatrix) returns (r: array<DynamicVector>)
      requires m.Valid()
      ensures fresh(r) && RowsOfLength(r, m.sz)
      ensures forall p :: 0 <= p < m.sz ==>
        fresh(r[p]) && fresh(r[p].mem) && r[p].mem[..] == m.rows[p].mem[..]
    {
      var filler := new DynamicVector.Init(1);
      r := new DynamicVector[m.sz](_ => filler);
      var i := 0;
      while i < m.sz
        invariant 0 <= i <= m.sz && fresh(r) && r.Length == m.sz
        invariant forall p :: 0 <= p < i ==>
          fresh(r[p]) && fresh(r[p].mem) && r[p].Valid() && r[p].sz == m.sz &&
          r[p].mem[..] == m.rows[p].mem[..]
        invariant forall p, q :: 0 <= p < i && 0 <= q < i && p != q ==> r[p].mem != r[q].mem
      {
        var row := new DynamicVector.Copy(m.rows[i]);
        r[i] := row;
        i := i + 1;
      }
    }

    /** Allocation of a zero matrix (the body of the size constructor once its
        checks have passed). */
    constructor Init(s: nat)
      requires 1 <= s <= MaxMatrixSize
      ensures Valid() && fresh(rows)
      ensures forall i :: 0 <= i < sz ==> fresh(rows[i]) && fresh(rows[i].mem)
      ensures sz == s && Contents() == ZeroMatrix(s)
    {
      var r := ZeroRows(s);
      sz := s;
      rows := r;
    }

    /** The size constructor: `OutOfRange` for a dimension of 0 or one above
        `MaxMatrixSize`, otherwise the zero matrix of that dimension. */
    static method Create(s: nat := 1) returns (r: Result<DynamicMatrix>)
      ensures r.Err? <==> s == 0 || s > MaxMatrixSize
      ensures r.Err? ==> r.error == OutOfRange
      ensures r.Ok? ==> fresh(r.value) && fresh(r.value.rows) && r.value.Valid()
      ensures r.Ok? ==> forall i :: 0 <= i < r.value.sz ==> fresh(r.value.rows[i]) && fresh(r.value.rows[i].mem)
      ensures r.Ok? ==> r.value.sz == s && r.value.Contents() == ZeroMatrix(s)
    {
      // the outer vector's own checks
      if s == 0 || s > MaxVectorSize {
        return Err(OutOfRange);
      }
      // the matrix's checks
      if s > MaxMatrixSize {
        return Err(OutOfRange);
      }
      var m := new DynamicMatrix.Init(s);
      r := Ok(m);
    }

    /** The copy constructor: a deep copy, row by row. */
    constructor Copy(m: DynamicMatrix)
      requires m.Valid()
      ensures Valid() && fresh(rows)
      ensures forall i :: 0 <= i < sz ==> fresh(rows[i]) && fresh(rows[i].mem)
      ensures sz == m.sz && Contents() == m.Contents()
    {
      var r := CopyRows(m);
      sz := m.sz;
      rows := r;
    }

    /** One row of the copy-assignment when the dimensions agree: the row
        vector's own assignment, which copies the elements of `other` into
        the existing buffer of row `i`. */
    method CopyIntoRow(i: nat, other: array<int>)
      requires Valid() && i < sz && other.Length == sz
      requires other == rows[i].mem || other !in Buffers()
      modifies rows[i].mem
      ensures Valid()
      ensures Contents() == old(Contents())[i := old(other[..])]
    {
      var row := rows[i].mem;
      var j := 0;
      while j < sz
        invariant 0 <= j <= sz
        invariant forall q :: 0 <= q < j ==> row[q] == old(other[q])
        invariant forall q :: j <= q < sz ==> row[q] == old(row[q]) && other[q] == old(other[q])
      {
        row[j] := other[j];
        j := j + 1;
      }
      assert row[..] == old(other[..]);
    }

    /** Row `i` of `m` copied into row `i` of this matrix, and what that
        does to `m`: nothing, unless `m` is this matrix. */
    method CopyRowFrom(i: nat, m: DynamicMatrix)
      requires Valid() && m.Valid() && i < sz && m.sz == sz
      requires this == m || Buffers() !! m.Buffers()
      modifies rows[i].mem
      ensures Valid() && m.Valid()
      ensures Contents() == old(Contents())[i := old(m.Contents())[i]]
      ensures this != m ==> m.Contents() == old(m.Contents())
    {
      assert m.rows[i].mem in m.Buffers();
      CopyIntoRow(i, m.rows[i].mem);
    }

    /** The copy loop of the assignment when the dimensions agree: every row
        of `m` is copied into the existing buffer of the same row here. */
    method CopyRowsInPlace(m: DynamicMatrix)
      requires Valid() && m.Valid() && m.sz == sz
      requires this == m || Buffers() !! m.Buffers()
      modifies Buffers()
      ensures Valid() && Contents() == old(m.Contents())
      ensures this != m ==> m.Valid() && m.Contents() == old(m.Contents())
    {
      ghost var b := m.Contents();
      var i := 0;
      while i < sz
        modifies Buffers()
        invariant 0 <= i <= sz
        invariant |Contents()| == sz
        invariant forall p :: 0 <= p < i ==> Contents()[p] == b[p]
        invariant m.Valid()
        invariant this == m ==> forall p :: i <= p < sz ==> Contents()[p] == b[p]
        invariant this != m ==> m.Contents() == b
      {
        CopyRowFrom(i, m);
        i := i + 1;
      }
    }

    /** Copy assignment, the implicit one that runs the vector assignment on
        the outer vector of rows. On a different dimension the rows are
        replaced by fresh copies of the rows of `m`; on an equal dimension
        every row is copied into its existing buffer, so assigning a matrix
        to itself changes nothing. Two distinct matrices own disjoint
        buffers, as they do in the library. */
    method Assign(m: DynamicMatrix)
      requires Valid() && m.Valid()
      requires this == m || Buffers() !! m.Buffers()
      modifies this, Buffers()
      ensures Valid()
      ensures sz == old(m.sz) && Contents() == old(m.Contents())
      ensures old(sz) == old(m.sz) ==> rows == old(rows)
      ensures old(sz) != old(m.sz) ==> fresh(rows)
      ensures m == this ==> Contents() == old(Contents())
      ensures this != m ==> m.Valid() && m.Contents() == old(m.Contents())
    {
      if sz != m.sz {
        var r := CopyRows(m);
        sz := m.sz;
        rows := r;
        return;
      }
      CopyRowsInPlace(m);
    }

    /** Move assignment, the implicit one that runs the vector move
        assignment on the outer vector: the two matrices exchange their
        dimensions and rows. */
    method MoveAssign(m: DynamicMatrix)
      requires Valid() && m.Valid()
      modifies this, m
      ensures Valid() && m.Valid()
      ensures sz == old(m.sz) && rows == old(m.rows) && Contents() == old(m.Contents())
      ensures m.sz == old(sz) && m.rows == old(rows) && m.Contents() == old(Contents())
    {
      rows, m.rows := m.rows, rows;
      sz, m.sz := m.sz, sz;
    }

    /** `size()`: the dimension, the number of rows and of columns. */
    function Size(): (n: nat)
      requires Valid()
      reads this, rows, rows[..], Buffers()
      ensures n == |Contents()| && forall i :: 0 <= i < n ==> |Contents()[i]| == n
    {
      sz
    }

    /** Unchecked `m[i][j]` read; the caller guarantees both indices are in range. */
    method Get(i: nat, j: nat) returns (x: int)
      requires Valid() && i < sz && j < sz
      ensures x == Contents()[i][j]
    {
      x := rows[i].mem[j];
    }

    /** Unchecked `m[i][j] = x`; the caller guarantees both indices are in range. */
    method Set(i: nat, j: nat, x: int)
      requires Valid() && i < sz && j < sz
      modifies rows[i].mem
      ensures Valid()
      ensures Contents() == old(Contents())[i := old(Contents())[i][j := x]]
    {
      rows[i].mem[j] := x;
    }

    /** Checked read: `LogicError` exactly when `i >= sz` or `j >= sz`. */
    method At(i: nat, j: nat) returns (r: Result<int>)
      requires Valid()
      ensures r.Err? <==> i >= |Contents()| || j >= |Contents()|
      ensures r.Err? ==> r.error == LogicError
      ensures r.Ok? ==> r.value == Contents()[i][j]
    {
      if i >= sz || j >= sz {
        return Err(LogicError);
      }
      r := Ok(rows[i].mem[j]);
    }

    /** Checked write: `LogicError` exactly when `i >= sz` or `j >= sz`, and
        then nothing changes; otherwise entry `(i, j)` and no other becomes `x`. */
    method SetAt(i: nat, j: nat, x: int) returns (r: Result<()>)
      requires Valid()
      modifies Buffers()
      ensures Valid()
      ensures r.Err? <==> i >= sz || j >= sz
      ensures r.Err? ==> r.error == LogicError && Contents() == old(Contents())
      ensures r.Ok? ==> Contents() == old(Contents())[i := old(Contents())[i][j := x]]
    {
      if i >= sz || j >= sz {
        return Err(LogicError);
      }
      rows[i].mem[j] := x;
      r := Ok(());
    }

    /** `operator==`, the outer vector's equality: false on different
        dimensions, otherwise rows compared in order with the row vectors'
        `operator!=`. */
    method Equals(m: DynamicMatrix) returns (b: bool)
      requires Valid() && m.Valid()
      ensures b <==> Contents() == m.Contents()
    {
      if sz != m.sz {
        assert |Contents()| != |m.Contents()|;
        return false;
      }
      var i := 0;
      while i < sz
        invariant 0 <= i <= sz
        invariant forall p :: 0 <= p < i ==> rows[p].mem[..] == m.rows[p].mem[..]
      {
        var ne := rows[i].NotEquals(m.rows[i]);
        if ne {
          assert Contents()[i] != m.Contents()[i];
          return false;
        }
        i := i + 1;
      }
      b := true;
    }

    /** `operator!=`: the negation of `Equals`. */
    method NotEquals(m: DynamicMatrix) returns (b: bool)
      requires Valid() && m.Valid()
      ensures b <==> Contents() != m.Contents()
    {
      var e := Equals(m);
      b := !e;
    }

    /** The inner loop of `m * c`: `m[i][j] *= c` for every `j` of row `i`. */
    method ScaleRow(i: nat, c: int)
      requires Valid() && i < sz
      modifies rows[i].mem
      ensures Valid()
      ensures Contents() == old(Contents())[i := MulScalar(old(Contents())[i], c)]
    {
      var row := rows[i].mem;
      var j := 0;
      while j < sz
        invariant 0 <= j <= sz
        invariant forall q :: 0 <= q < j ==> row[q] == old(row[q]) * c
        invariant forall q :: j <= q < sz ==> row[q] == old(row[q])
      {
        row[j] := row[j] * c;
        j := j + 1;
      }
      assert row[..] == MulScalar(old(row[..]), c);
    }

    /** `m * c`: a new matrix with every entry multiplied by `c`. */
    method TimesScalar(c: int) returns (res: DynamicMatrix)
      requires Valid()
      ensures fresh(res) && fresh(res.rows) && res.Valid()
      ensures forall i :: 0 <= i < res.sz ==> fresh(res.rows[i]) && fresh(res.rows[i].mem)
      ensures res.Contents() == MatScale(Contents(), c)
    {
      ghost var a := Contents();
      res := new DynamicMatrix.Copy(this);
      var i := 0;
      while i < sz
        modifies res.Buffers()
        invariant 0 <= i <= sz
        invariant |res.Contents()| == sz
        invariant forall p :: 0 <= p < i ==> res.Contents()[p] == MulScalar(a[p], c)
        invariant forall p :: i <= p < sz ==> res.Contents()[p] == a[p]
      {
        res.ScaleRow(i, c);
        i := i + 1;
      }
    }

    /** The inner loop of `m * v` for row `i`: `out[i] += x[j] * y[j]` for
        every `j`, so that `out[i]` gains the dot product of `x` and `y`. */
    static method AccumulateDot(out: array<int>, i: nat, x: array<int>, y: array<int>)
      requires i < out.Length && x.Length == y.Length && out != x && out != y
      modifies out
      ensures out[..] == old(out[..])[i := old(out[i]) + Dot(x[..], y[..])]
    {
      var j := 0;
      while j < x.Length
        invariant 0 <= j <= x.Length
        invariant out[..] == old(out[..])[i := old(out[i]) + Dot(x[..j], y[..j])]
      {
        DotStep(x[..], y[..], j);
        assert x[..][..j + 1] == x[..j + 1] && y[..][..j + 1] == y[..j + 1];
        out[i] := out[i] + x[j] * y[j];
        j := j + 1;
      }
      assert x[..] == x[..x.Length] && y[..] == y[..y.Length];
    }

    /** `m * v`: `LogicError` when the vector's length differs from the
        dimension, otherwise entry `i` of the result is the sum over `j` of
        `m[i][j] * v[j]`, accumulated into a zero vector. */
    method TimesVector(v: DynamicVector) returns (r: Result<DynamicVector>)
      requires Valid() && v.Valid()
      ensures r.Err? <==> sz != v.sz
      ensures r.Err? ==> r.error == LogicError
      ensures r.Ok? ==> fresh(r.value) && fresh(r.value.mem) && r.value.Valid()
      ensures r.Ok? ==> r.value.Contents() == MatVec(Contents(), v.Contents())
    {
      if sz != v.sz {
        return Err(LogicError);
      }
      var res := new DynamicVector.Init(sz);
      var i := 0;
      while i < sz
        invariant 0 <= i <= sz
        invariant fresh(res) && fresh(res.mem) && res.Valid() && res.sz == sz
        invariant forall p :: 0 <= p < i ==> res.mem[p] == Dot(rows[p].mem[..], v.mem[..])
        invariant forall p :: i <= p < sz ==> res.mem[p] == 0
      {
        AccumulateDot(res.mem, i, rows[i].mem, v.mem);
        i := i + 1;
      }
      r := Ok(res);
    }

    /** The inner loop of `m + n`: `m[i][j] += other[j]` for every `j` of row `i`. */
    method AddToRow(i: nat, other: array<int>)
      requires Valid() && i < sz && other.Length == sz && other != rows[i].mem
      modifies rows[i].mem
      ensures Valid()
      ensures Contents() == old(Contents())[i := Add(old(Contents())[i], other[..])]
    {
      var row := rows[i].mem;
      var j := 0;
      while j < sz
        invariant 0 <= j <= sz
        invariant forall q :: 0 <= q < j ==> row[q] == old(row[q]) + other[q]
        invariant forall q :: j <= q < sz ==> row[q] == old(row[q])
      {
        row[j] := row[j] + other[j];
        j := j + 1;
      }
      assert row[..] == Add(old(row[..]), other[..]);
    }

    /** `m + n`: `LogicError` when the dimensions differ, otherwise the
        entrywise sum. */
    method Plus(m: DynamicMatrix) returns (r: Result<DynamicMatrix>)
      requires Valid() && m.Valid()
      ensures r.Err? <==> sz != m.sz
      ensures r.Err? ==> r.error == LogicError
      ensures r.Ok? ==> fresh(r.value) && fresh(r.value.rows) && r.value.Valid()
      ensures r.Ok? ==> forall i :: 0 <= i < r.value.sz ==> fresh(r.value.rows[i]) && fresh(r.value.rows[i].mem)
      ensures r.Ok? ==> r.value.Contents() == MatAdd(Contents(), m.Contents())
    {
      if sz != m.sz {
        return Err(LogicError);
      }
      ghost var a, b := Contents(), m.Contents();
      var res := new DynamicMatrix.Copy(this);
      var i := 0;
      while i < sz
        modifies res.Buffers()
        invariant 0 <= i <= sz
        invariant |res.Contents()| == sz
        invariant forall p :: 0 <= p < i ==> res.Contents()[p] == Add(a[p], b[p])
        invariant forall p :: i <= p < sz ==> res.Contents()[p] == a[p]
      {
        res.AddToRow(i, m.rows[i].mem);
        i := i + 1;
      }
      r := Ok(res);
    }

    /** The inner loop of `m - n`: `m[i][j] -= other[j]` for every `j` of row `i`. */
    method SubFromRow(i: nat, other: array<int>)
      requires Valid() && i < sz && other.Length == sz && other != rows[i].mem
      modifies rows[i].mem
      ensures Valid()
      ensures Contents() == old(Contents())[i := Sub(old(Contents())[i], other[..])]
    {
      var row := rows[i].mem;
      var j := 0;
      while j < sz
        invariant 0 <= j <= sz
        invariant forall q :: 0 <= q < j ==> row[q] == old(row[q]) - other[q]
        invariant forall q :: j <= q < sz ==> row[q] == old(row[q])
      {
        row[j] := row[j] - other[j];
        j := j + 1;
      }
      assert row[..] == Sub(old(row[..]), other[..]);
    }

    /** `m - n`: `LogicError` when the dimensions differ, otherwise the
        entrywise difference. */
    method Minus(m: DynamicMatrix) returns (r: Result<DynamicMatrix>)
      requires Valid() && m.Valid()
      ensures r.Err? <==> sz != m.sz
      ensures r.Err? ==> r.error == LogicError
      ensures r.Ok? ==> fresh(r.value) && fresh(r.value.rows) && r.value.Valid()
      ensures r.Ok? ==> forall i :: 0 <= i < r.value.sz ==> fresh(r.value.rows[i]) && fresh(r.value.rows[i].mem)
      ensures r.Ok? ==> r.value.Contents() == MatSub(Contents(), m.Contents())
    {
      if sz != m.sz {
        return Err(LogicError);
      }
      ghost var a, b := Contents(), m.Contents();
      var res := new DynamicMatrix.Copy(this);
      var i := 0;
      while i < sz
        modifies res.Buffers()
        invariant 0 <= i <= sz
        invariant |res.Contents()| == sz
        invariant forall p :: 0 <= p < i ==> res.Contents()[p] == Sub(a[p], b[p])
        invariant forall p :: i <= p < sz ==> res.Contents()[p] == a[p]
      {
        res.SubFromRow(i, m.rows[i].mem);
        i := i + 1;
      }
      r := Ok(res);
    }

    /** The innermost loop of `m * n`: `m[i][j] += x * other[j]` for every `j`
        of row `i`. */
    method AddScaledToRow(i: nat, x: int, other: array<int>)
      requires Valid() && i < sz && other.Length == sz && other != rows[i].mem
      modifies rows[i].mem
      ensures Valid()
      ensures Contents() == old(Contents())[i := Add(old(Contents())[i], MulScalar(other[..], x))]
    {
      var row := rows[i].mem;
      var j := 0;
      while j < sz
        invariant 0 <= j <= sz
        invariant forall q :: 0 <= q < j ==> row[q] == old(row[q]) + x * other[q]
        invariant forall q :: j <= q < sz ==> row[q] == old(row[q])
      {
        row[j] := row[j] + x * other[j];
        j := j + 1;
      }
      assert row[..] == Add(old(row[..]), MulScalar(other[..], x));
    }

    /** The middle loop of `a * m` for row `i`, starting from a zero row:
        for each `k` in turn, `a[i][k]` times row `k` of `m` is added to row
        `i` of this result matrix. */
    method AccumulateProductRow(i: nat, a: DynamicMatrix, m: DynamicMatrix)
      requires Valid() && a.Valid() && m.Valid() && i < sz && a.sz == sz && m.sz == sz
      requires rows[i].mem !in a.Buffers() && rows[i].mem !in m.Buffers()
      requires Contents()[i] == Zeros(sz)
      modifies rows[i].mem
      ensures Valid() && a.Valid() && m.Valid()
      ensures a.Contents() == old(a.Contents()) && m.Contents() == old(m.Contents())
      ensures Contents() == old(Contents())[i := RowTimes(a.Contents()[i], m.Contents(), sz)]
    {
      ghost var x, b := a.Contents()[i], m.Contents();
      RowTimesEmpty(x, b, sz);
      var k := 0;
      while k < sz
        invariant 0 <= k <= sz
        invariant a.Contents() == old(a.Contents()) && m.Contents() == b
        invariant Contents() == old(Contents())[i := RowTimes(x[..k], b[..k], sz)]
      {
        RowTimesStep(x, b, sz, k);
        AddScaledToRow(i, a.rows[i].mem[k], m.rows[k].mem);
        k := k + 1;
      }
      assert x[..sz] == x && b[..sz] == b;
    }

    /** `m * n`: `LogicError` when the dimensions differ, otherwise entry
        `(i, j)` of the result is the sum over `k` of `m[i][k] * n[k][j]`,
        accumulated into a zero matrix in i-k-j loop order. */
    method Times(m: DynamicMatrix) returns (r: Result<DynamicMatrix>)
      requires Valid() && m.Valid()
      ensures r.Err? <==> sz != m.sz
      ensures r.Err? ==> r.error == LogicError
      ensures r.Ok? ==> fresh(r.value) && fresh(r.value.rows) && r.value.Valid()
      ensures r.Ok? ==> forall i :: 0 <= i < r.value.sz ==> fresh(r.value.rows[i]) && fresh(r.value.rows[i].mem)
      ensures r.Ok? ==> r.value.Contents() == MatMul(Contents(), m.Contents())
    {
      if sz != m.sz {
        return Err(LogicError);
      }
      ghost var a, b := Contents(), m.Contents();
      var res := new DynamicMatrix.Init(sz);
      var i := 0;
      while i < sz
        modifies res.Buffers()
        invariant 0 <= i <= sz
        invariant Contents() == a && m.Contents() == b
        invariant |res.Contents()| == sz
        invariant forall p :: 0 <= p < i ==> res.Contents()[p] == RowTimes(a[p], b, sz)
        invariant forall p :: i <= p < sz ==> res.Contents()[p] == Zeros(sz)
      {
        res.AccumulateProductRow(i, this, m);
        i := i + 1;
      }
      r := Ok(res);
    }
  }
}
