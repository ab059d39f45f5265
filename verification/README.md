# Dynamic vector and square matrix, verified model

This project models the two containers of the header `include/tmatrix.h`, with the element type fixed to `int`:

- **`TDynamicVector<int>`** is a fixed-length vector that owns a heap buffer. It has:
  - a size constructor checked against `MAX_VECTOR_SIZE`, and a buffer constructor;
  - deep copy and move construction, copy- and move-assignment;
  - unchecked `[]` and bounds-checked `at`;
  - `==` and `!=`;
  - elementwise `+ - *` with a scalar, elementwise `+ -` with a vector, and the dot product.
- **`TDynamicMatrix<int>`** is a square matrix stored as a vector of row vectors. It has:
  - a constructor checked against `MAX_MATRIX_SIZE`, the implicit deep copy constructor, and the implicit copy- and move-assignment;
  - checked `at(i, j)` and row-wise equality;
  - scalar `*`, matrix `+` and `-`, matrix × vector, and the i-k-j triple-loop matrix × matrix product.

Structure:
- `errors.dfy` (`Errors`) names the outcomes of the exceptions the library throws. `OutOfRange` is `std::out_of_range`, `InvalidArgument` is `std::invalid_argument`, and `LogicError` is `std::logic_error`. An operation that would throw returns `Err(...)` instead.
- `algebra.dfy` (`Algebra`) holds the meaning of the operations on values: vectors as `seq<int>`, matrices as `seq<seq<int>>`. The dot product is accumulated in index order, exactly as the loops do it. The lemmas there are the partners of the operations:
  - the inverse laws of `+` and `-`;
  - the distributive laws of the dot product;
  - the contraction step that the middle loop of the product performs;
  - the composition law `MatVec(MatMul(a, b), v) == MatVec(a, MatVec(b, v))`, which says what the product of two matrices means;
  - the concrete examples of the library's test suites.
- `vector.dfy` (`Vector`) is the class `DynamicVector`. Its fields are `sz` and `mem: array<int>`, and its value is `Contents() == mem[..]`.
- `matrix.dfy` (`Matrix`) is the class `DynamicMatrix`. Its fields are `sz` and `rows: array<DynamicVector>`; the rows have pairwise distinct buffers. Its value is `Contents()`, the rows as sequences.
  - Every operator is a method with the loops of the source and their invariants. Its `ensures` ties the result to the `Algebra` function of the operands.
  - The inner loops of the matrix operators are separate methods. Each states what it does to one row.

Three behaviours of the code worth noting:
- the matrix `at(i, j)` throws `std::logic_error`, not an out-of-range error (`include/tmatrix.h:305-323`);
- every size mismatch of a binary operator throws `std::logic_error` (`include/tmatrix.h:209-212`, `include/tmatrix.h:355-358`);
- the matrix constructor first runs the checks of the vector constructor of its outer vector, and only then its own bound `MAX_MATRIX_SIZE` (`include/tmatrix.h:286-296`). Both checks throw `std::out_of_range`, so the observable outcome is the same.

## Model

| member | source | states |
|---|---|---|
| Vector.DynamicVector.Init | include/tmatrix.h:30-43 | a vector of the requested length `1..MaxVectorSize`, every element value-initialised to 0, in a fresh buffer |
| Vector.DynamicVector.Create | include/tmatrix.h:30-43 | fails with `OutOfRange` exactly when the size is 0 or above `MaxVectorSize`; otherwise `size` zeros; the size defaults to 1 |
| Vector.DynamicVector.FromArray | include/tmatrix.h:45-64 | a fresh buffer holding a copy of the first `s` elements of the caller's buffer |
| Vector.DynamicVector.CreateFrom | include/tmatrix.h:45-64 | `InvalidArgument` for a null buffer; then `OutOfRange` exactly when `s` is 0 or above the maximum; otherwise a deep copy of `arr[..s]` |
| Vector.DynamicVector.Copy | include/tmatrix.h:66-72 | equal length and equal elements in a buffer of its own |
| Vector.DynamicVector.Move | include/tmatrix.h:74-81 | the new vector takes the source's buffer and elements; the source is left with length 0 |
| Vector.DynamicVector.Assign | include/tmatrix.h:88-101 | afterwards length and elements equal the source's; the buffer is reallocated exactly when the lengths differed; self-assignment leaves the elements unchanged; the source is unchanged |
| Vector.DynamicVector.MoveAssign | include/tmatrix.h:103-109 | the two vectors exchange lengths, buffers and elements |
| Vector.DynamicVector.Size | include/tmatrix.h:111 | the size is the number of elements |
| Vector.DynamicVector.Get | include/tmatrix.h:119-122 | unchecked read of element `i` |
| Vector.DynamicVector.Set | include/tmatrix.h:114-117 | unchecked write: element `i` becomes `x`, no other element changes |
| Vector.DynamicVector.At | include/tmatrix.h:135-143 | fails with `OutOfRange` exactly when `ind >= size`; otherwise element `ind` |
| Vector.DynamicVector.SetAt | include/tmatrix.h:125-133 | fails with `OutOfRange` exactly when `ind >= size`, changing nothing; otherwise element `ind` becomes `x` and no other changes |
| Vector.DynamicVector.Equals | include/tmatrix.h:146-162 | true exactly when both vectors have the same length and the same elements |
| Vector.DynamicVector.NotEquals | include/tmatrix.h:164-167 | the exact negation of equality |
| Vector.DynamicVector.PlusScalar | include/tmatrix.h:170-180 | a fresh vector of the same length with `c` added to every element |
| Vector.DynamicVector.MinusScalar | include/tmatrix.h:182-192 | a fresh vector of the same length with `c` subtracted from every element |
| Vector.DynamicVector.TimesScalar | include/tmatrix.h:194-204 | a fresh vector of the same length with every element multiplied by `c` |
| Vector.DynamicVector.Plus | include/tmatrix.h:207-221 | `LogicError` exactly when the lengths differ; otherwise a fresh vector, the elementwise sum |
| Vector.DynamicVector.Minus | include/tmatrix.h:223-237 | `LogicError` exactly when the lengths differ; otherwise a fresh vector, the elementwise difference |
| Vector.DynamicVector.DotProduct | include/tmatrix.h:239-253 | `LogicError` exactly when the lengths differ; otherwise the sum of `v[i] * w[i]` accumulated from 0 |
| Matrix.DynamicMatrix.ZeroRows | include/tmatrix.h:286-300 | `s` fresh rows with pairwise distinct fresh buffers, each of length `s` and zero-filled |
| Matrix.DynamicMatrix.CopyRows | include/tmatrix.h:66-72 | fresh deep copies of the rows of a matrix, with pairwise distinct buffers |
| Matrix.DynamicMatrix.Init | include/tmatrix.h:286-300 | a valid matrix of dimension `s` whose contents are the zero matrix, every object fresh |
| Matrix.DynamicMatrix.Create | include/tmatrix.h:286-300 | fails with `OutOfRange` exactly when the dimension is 0 or above `MaxMatrixSize`; otherwise the zero matrix of that dimension; the dimension defaults to 1 |
| Matrix.DynamicMatrix.Copy | include/tmatrix.h:66-72 | the implicit copy constructor: a deep copy with equal contents whose rows and buffers are all fresh |
| Matrix.DynamicMatrix.CopyIntoRow | include/tmatrix.h:88-101 | a row's own assignment between rows of equal length: row `i` becomes the given row, every other row is unchanged |
| Matrix.DynamicMatrix.CopyRowFrom | include/tmatrix.h:98 | row `i` of `m` is copied into row `i`; `m` is unchanged unless it is the same matrix |
| Matrix.DynamicMatrix.CopyRowsInPlace | include/tmatrix.h:98 | on equal dimensions every row of `m` is copied into the existing rows; afterwards the contents equal `m`'s old contents and a distinct `m` is unchanged |
| Matrix.DynamicMatrix.Assign | include/tmatrix.h:88-101 | the implicit matrix copy-assignment: afterwards dimension and entries equal the source's; the row array is kept exactly when the dimensions agreed and is fresh otherwise; self-assignment changes nothing; a distinct source is unchanged |
| Matrix.DynamicMatrix.MoveAssign | include/tmatrix.h:103-109 | the implicit matrix move-assignment: the two matrices exchange dimensions, rows and entries |
| Matrix.DynamicMatrix.Size | include/tmatrix.h:303 | the size is the number of rows and the length of every row |
| Matrix.DynamicMatrix.Get | include/tmatrix.h:302 | unchecked `m[i][j]` read of entry `(i, j)` |
| Matrix.DynamicMatrix.Set | include/tmatrix.h:302 | unchecked `m[i][j] = x`: entry `(i, j)` becomes `x`, no other entry changes |
| Matrix.DynamicMatrix.At | include/tmatrix.h:315-323 | fails with `LogicError` exactly when `i >= size` or `j >= size`; otherwise entry `(i, j)` |
| Matrix.DynamicMatrix.SetAt | include/tmatrix.h:305-313 | fails with `LogicError` exactly when an index is out of range, changing nothing; otherwise only entry `(i, j)` becomes `x` |
| Matrix.DynamicMatrix.Equals | include/tmatrix.h:326-329 | true exactly when both matrices have the same dimension and the same entries |
| Matrix.DynamicMatrix.NotEquals | include/tmatrix.h:331-334 | the exact negation of equality |
| Matrix.DynamicMatrix.ScaleRow | include/tmatrix.h:343-346 | row `i` is multiplied by `c`; every other row is unchanged |
| Matrix.DynamicMatrix.TimesScalar | include/tmatrix.h:337-350 | a fresh matrix whose every entry is the receiver's times `c` |
| Matrix.DynamicMatrix.AccumulateDot | include/tmatrix.h:364-367 | entry `i` of the result gains the dot product of row `i` and the vector; no other entry changes |
| Matrix.DynamicMatrix.TimesVector | include/tmatrix.h:353-371 | `LogicError` exactly when the vector's length differs from the dimension; otherwise a fresh vector with entry `i` the sum over `j` of `m[i][j] * v[j]` |
| Matrix.DynamicMatrix.AddToRow | include/tmatrix.h:384-387 | row `i` becomes its sum with the given row; every other row is unchanged |
| Matrix.DynamicMatrix.Plus | include/tmatrix.h:374-391 | `LogicError` exactly when the dimensions differ; otherwise a fresh matrix, the entrywise sum |
| Matrix.DynamicMatrix.SubFromRow | include/tmatrix.h:403-406 | row `i` becomes its difference with the given row; every other row is unchanged |
| Matrix.DynamicMatrix.Minus | include/tmatrix.h:393-410 | `LogicError` exactly when the dimensions differ; otherwise a fresh matrix, the entrywise difference |
| Matrix.DynamicMatrix.AddScaledToRow | include/tmatrix.h:424-427 | the innermost loop of the product: row `i` gains `x` times the given row |
| Matrix.DynamicMatrix.AccumulateProductRow | include/tmatrix.h:422-428 | starting from a zero row, row `i` of the result becomes row `i` of the left factor times the right factor; both factors are unchanged |
| Matrix.DynamicMatrix.Times | include/tmatrix.h:412-432 | `LogicError` exactly when the dimensions differ; otherwise a fresh matrix with entry `(i, j)` the sum over `k` of `m[i][k] * n[k][j]` |
| Algebra.DotStep | include/tmatrix.h:247-250 | one step of the accumulating loop adds `a[k] * b[k]` to the dot product of the prefixes |
| Algebra.DotSymmetric | include/tmatrix.h:239-253 | the dot product does not depend on the order of its operands |
| Algebra.DotZerosLeft | include/tmatrix.h:239-253 | the dot product with a zero vector is 0 |
| Algebra.DotAddLeft | include/tmatrix.h:239-253 | the dot product distributes over vector `+` |
| Algebra.DotSubLeft | include/tmatrix.h:239-253 | the dot product distributes over vector `-` |
| Algebra.DotScaleLeft | include/tmatrix.h:239-253 | scaling a vector by `c` scales its dot products by `c` |
| Algebra.ScalarShiftRoundTrip | include/tmatrix.h:170-192 | `(v + c) - c == v` |
| Algebra.AddSubRoundTrip | include/tmatrix.h:207-237 | `(v + w) - w == v` |
| Algebra.MatAddSubRoundTrip | include/tmatrix.h:374-410 | `(m + n) - n == m` for square matrices of equal dimension |
| Algebra.RowTimesEmpty | include/tmatrix.h:418-422 | before the contraction loop a row of the product is the zero row it was created as |
| Algebra.RowTimesStep | include/tmatrix.h:422-428 | one iteration over `k` adds `a[i][k]` times row `k` of the right factor to row `i` |
| Algebra.RowTimesDot | include/tmatrix.h:412-432 | a row of the product applied to `v` equals the left row applied to the right factor times `v` |
| Algebra.MatMulComposes | include/tmatrix.h:412-432 | multiplying a vector by `m * n` is multiplying it by `n` and then by `m` |
| Algebra.MatVecAdd | include/tmatrix.h:353-391 | `(m + n) * v == m * v + n * v` |
| Algebra.MatVecSub | include/tmatrix.h:353-410 | `(m - n) * v == m * v - n * v` |
| Algebra.MatVecScale | include/tmatrix.h:337-371 | `(m * c) * v == (m * v) * c` |
| Algebra.AddExample | test/test_tvector.cpp:170-179 | `[1,2,3] + [423,122,13] == [424,124,16]` |
| Algebra.SubExample | test/test_tvector.cpp:187-196 | `[1,2,3] - [423,122,13] == [-422,-120,-10]` |
| Algebra.DotExample | test/test_tvector.cpp:204-213 | `[12,13] * [9,53] == 797` |
| Algebra.MatSubExample | test/test_tmatrix.cpp:162-174 | `[[1,2],[3,4]] - [[3,4],[5,6]]` has every entry `-2` |
| Algebra.MatMulExample | test/test_tmatrix.cpp:182-194 | `[[5,1],[7,45]] * [[-4,0],[63,4]] == [[43,4],[2807,180]]` |
| Algebra.MatVecExample | test/test_tmatrix.cpp:202-213 | `[[12,4],[4,1]] * [1,2] == [20,6]` |

## Left out

- Stream input and output (`operator>>` and `operator<<` of both classes) are text I/O on `istream` and `ostream`, so they are not modelled.
- The destructor and the explicit `new[]`/`delete[]` are not modelled. Ownership is modelled instead: every constructor except `Move`, and every operator result, gets fresh Dafny arrays. `Move` takes over the source's buffer.
- Genericity over `T` is not modelled. The element type is `int`.
- Overflow is not modelled. Dafny's `int` is unbounded, so C++ signed overflow (undefined behaviour for 32-bit `int`) does not arise in the model. Every arithmetic result, `DotProduct` and `Times` included, is the exact mathematical value.
- Sizes and indices are `nat`. A negative `int` passed as a `size_t` size or as the index of `at` wraps around to a large unsigned value. That is C++ conversion behaviour outside the library. For a size it ends in the same `OutOfRange` as any size above the maximum, and for an index in the same error as any index at or beyond the length.
- The null-pointer case of the buffer constructor is modelled with `array?`. The C++ requirement that a non-null buffer holds `s` readable elements becomes a precondition of `CreateFrom`.
- The matrix's `operator[]` returns a mutable reference to a whole row. Through it a caller could assign a row of another length and break squareness. The model offers only the element-level `m[i][j]` access that the library itself uses (`Get` and `Set`), so every matrix stays square.
- Matrix.DynamicMatrix.Assign: requires two distinct matrices to own disjoint row buffers. The library guarantees this by ownership, but the model's `Valid` does not record it.
- Using a vector after it has been moved from is not modelled. A moved-from vector is modelled as a valid vector of length 0, with an empty buffer in place of a null pointer.
