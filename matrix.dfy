/**
 * The dense matrix of matrix/src/matrix.cpp: `rows × cols` cells stored row
 * by row in one flat buffer. Cells hold integers (exact arithmetic); the
 * buffer is an `array<int>` that `resize` replaces.
 *
 * The source reports misuse by throwing `OutOfBoundsException` or
 * `SizeMismatchException`; here every operation that can throw returns the
 * error instead, and leaves the receiver as it was.
 */
module Matrices {

  datatype Error = OutOfBounds | SizeMismatch

  /** What a value-returning operation yields: its value, or the exception it throws. */
  datatype Result<T> = Success(value: T) | Failure(error: Error)

  /** What an operation without a value yields: done, or the exception it throws. */
  datatype Outcome = Done | Fail(error: Error)

  // ---------------------------------------------------------------------
  // Row-major indexing

  lemma MulMono(a: nat, b: nat, c: nat)
    requires a <= b
    ensures a * c <= b * c
  {
  }

  lemma DivMod(i: nat, j: nat, cols: nat)
    requires j < cols
    ensures (i * cols + j) / cols == i && (i * cols + j) % cols == j
  {
    var k := i * cols + j;
    var q := k / cols;
    if q < i {
      MulMono(q + 1, i, cols);
      assert false;
    } else if q > i {
      MulMono(i + 1, q, cols);
      assert false;
    }
  }

  /** Flat position of cell (i, j): `i * cols + j`, inside the buffer and determined by (i, j). */
  function Idx(i: nat, j: nat, rows: nat, cols: nat): (k: nat)
    requires i < rows && j < cols
    ensures k < rows * cols
    ensures k / cols == i && k % cols == j
  {
    MulMono(i + 1, rows, cols);
    DivMod(i, j, cols);
    i * cols + j
  }

  /** Every flat position is the position of some cell. */
  lemma IdxOnto(k: nat, rows: nat, cols: nat)
    requires k < rows * cols
    ensures cols > 0 && k / cols < rows && Idx(k / cols, k % cols, rows, cols) == k
  {
    if cols == 0 {
      assert false;
    } else if k / cols >= rows {
      MulMono(rows, k / cols, cols);
      assert false;
    }
  }

  // ---------------------------------------------------------------------
  // Matrices as values: a shape and the flat cell sequence

  /** Cell (i, j) of a `rows × cols` cell sequence, or 0 outside it. */
  function Cell(s: seq<int>, rows: nat, cols: nat, i: nat, j: nat): int
  {
    if i < rows && j < cols && |s| == rows * cols then s[Idx(i, j, rows, cols)] else 0
  }

  /** Two cell sequences of the same shape that agree cell by cell are equal. */
  lemma CellsDetermine(s: seq<int>, t: seq<int>, rows: nat, cols: nat)
    requires |s| == rows * cols && |t| == rows * cols
    requires forall i, j :: 0 <= i < rows && 0 <= j < cols ==> Cell(s, rows, cols, i, j) == Cell(t, rows, cols, i, j)
    ensures s == t
  {
    forall k | 0 <= k < |s| ensures s[k] == t[k] {
      IdxOnto(k, rows, cols);
      assert Cell(s, rows, cols, k / cols, k % cols) == Cell(t, rows, cols, k / cols, k % cols);
    }
  }

  /** `t` is `s` resized from `r × c` to `nr × nc`: shared cells kept, new cells 0. */
  ghost predicate IsResize(s: seq<int>, r: nat, c: nat, t: seq<int>, nr: nat, nc: nat)
  {
    |t| == nr * nc &&
    forall i, j :: 0 <= i < nr && 0 <= j < nc ==>
      Cell(t, nr, nc, i, j) == (if i < r && j < c then Cell(s, r, c, i, j) else 0)
  }

  /** `t` (`c × r`) is the transpose of `s` (`r × c`). */
  ghost predicate IsTranspose(s: seq<int>, r: nat, c: nat, t: seq<int>)
  {
    |t| == c * r &&
    forall i, j :: 0 <= i < c && 0 <= j < r ==> Cell(t, c, r, i, j) == Cell(s, r, c, j, i)
  }

  /** Σ_{k < n} s[i][k] · t[k][j] for `s` of width `sc` and `t` of shape `tr × tc`. */
  function Dot(s: seq<int>, sr: nat, sc: nat, t: seq<int>, tr: nat, tc: nat, i: nat, j: nat, n: nat): int
  {
    if n == 0 then 0
    else Dot(s, sr, sc, t, tr, tc, i, j, n - 1) + Cell(s, sr, sc, i, n - 1) * Cell(t, tr, tc, n - 1, j)
  }

  /** `p` (`r × tc`) is the product of `s` (`r × c`) and `t` (`c × tc`). */
  ghost predicate IsProduct(s: seq<int>, r: nat, c: nat, t: seq<int>, tc: nat, p: seq<int>)
  {
    |p| == r * tc &&
    forall i, j :: 0 <= i < r && 0 <= j < tc ==> Cell(p, r, tc, i, j) == Dot(s, r, c, t, c, tc, i, j, c)
  }

  /** Σ_{k < n} s[k][k]. */
  function Diagonal(s: seq<int>, rows: nat, cols: nat, n: nat): int
  {
    if n == 0 then 0 else Diagonal(s, rows, cols, n - 1) + Cell(s, rows, cols, n - 1, n - 1)
  }

  /** The `r × c` sequence the sizing constructor builds: 1 on the diagonal when square, else 0. */
  ghost predicate IsIdentityOrZero(s: seq<int>, r: nat, c: nat)
  {
    |s| == r * c &&
    forall i, j :: 0 <= i < r && 0 <= j < c ==> Cell(s, r, c, i, j) == (if r == c && i == j then 1 else 0)
  }

  /** Growing and then shrinking back restores the original cells. */
  lemma ResizeRoundTrip(s: seq<int>, r: nat, c: nat, t: seq<int>, nr: nat, nc: nat, u: seq<int>)
    requires |s| == r * c && r <= nr && c <= nc
    requires IsResize(s, r, c, t, nr, nc) && IsResize(t, nr, nc, u, r, c)
    ensures u == s
  {
    forall i, j | 0 <= i < r && 0 <= j < c ensures Cell(u, r, c, i, j) == Cell(s, r, c, i, j) {
      assert Cell(u, r, c, i, j) == Cell(t, nr, nc, i, j);
    }
    CellsDetermine(u, s, r, c);
  }

  /** Transposing twice gives back the original cells. */
  lemma TransposeInvolution(s: seq<int>, r: nat, c: nat, t: seq<int>, u: seq<int>)
    requires |s| == r * c && IsTranspose(s, r, c, t) && IsTranspose(t, c, r, u)
    ensures u == s
  {
    forall i, j | 0 <= i < r && 0 <= j < c ensures Cell(u, r, c, i, j) == Cell(s, r, c, i, j) {
      assert Cell(u, r, c, i, j) == Cell(t, c, r, j, i);
    }
    CellsDetermine(u, s, r, c);
  }

  /** A matrix and its transpose have the same trace. */
  lemma {:induction false} TransposeKeepsDiagonal(s: seq<int>, n: nat, t: seq<int>, k: nat)
    requires |s| == n * n && IsTranspose(s, n, n, t) && k <= n
    ensures Diagonal(t, n, n, k) == Diagonal(s, n, n, k)
  {
    if k > 0 {
      TransposeKeepsDiagonal(s, n, t, k - 1);
    }
  }

  lemma {:induction false} DotIdentity(s: seq<int>, r: nat, c: nat, id: seq<int>, i: nat, j: nat, n: nat)
    requires IsIdentityOrZero(id, c, c) && i < r && j < c && n <= c
    ensures Dot(s, r, c, id, c, c, i, j, n) == if j < n then Cell(s, r, c, i, j) else 0
  {
    if n > 0 {
      DotIdentity(s, r, c, id, i, j, n - 1);
    }
  }

  /** Multiplying by the square sizing-constructor matrix (the identity) changes nothing. */
  lemma ProductWithIdentity(s: seq<int>, r: nat, c: nat, id: seq<int>, p: seq<int>)
    requires |s| == r * c && IsIdentityOrZero(id, c, c) && IsProduct(s, r, c, id, c, p)
    ensures p == s
  {
    forall i, j | 0 <= i < r && 0 <= j < c ensures Cell(p, r, c, i, j) == Cell(s, r, c, i, j) {
      DotIdentity(s, r, c, id, i, j, c);
    }
    CellsDetermine(p, s, r, c);
  }

  lemma {:induction false} DiagonalOfIdentity(id: seq<int>, n: nat, k: nat)
    requires IsIdentityOrZero(id, n, n) && k <= n
    ensures Diagonal(id, n, n, k) == k
  {
    if k > 0 {
      DiagonalOfIdentity(id, n, k - 1);
    }
  }

  // ---------------------------------------------------------------------
  // The matrix object

  class Matrix {
    var rows: nat
    var cols: nat
    /** The flat row-major buffer (`array`). */
    var data: array<int>

    ghost predicate Valid()
      reads this
    {
      data.Length == rows * cols
    }

    /** The cells as a value. */
    ghost function Cells(): seq<int>
      reads this, data
    {
      data[..]
    }

    /** The default constructor: a 1 × 1 matrix holding 1. */
    constructor Default()
      ensures Valid() && fresh(data) && rows == 1 && cols == 1 && Cells() == [1]
    {
      rows, cols := 1, 1;
      data := new int[1];
      new;
      data[0] := 1;
    }

    /** `Matrix(rows, cols)`: the identity when square, all zeros otherwise. */
    constructor Sized(rows: nat, cols: nat)
      ensures Valid() && fresh(data) && this.rows == rows && this.cols == cols
      ensures IsIdentityOrZero(Cells(), rows, cols)
    {
      this.rows, this.cols := rows, cols;
      var buffer := IdentityOrZero(rows, cols);
      data := buffer;
    }

    /** The buffer the sizing constructor fills, row by row. */
    static method IdentityOrZero(rows: nat, cols: nat) returns (buffer: array<int>)
      ensures fresh(buffer) && IsIdentityOrZero(buffer[..], rows, cols)
    {
      buffer := new int[rows * cols];
      for r := 0 to rows
        modifies buffer
        invariant forall i, j :: 0 <= i < r && 0 <= j < cols ==>
          buffer[Idx(i, j, rows, cols)] == (if rows == cols && i == j then 1 else 0)
      {
        IdentityRow(buffer, rows, cols, r);
      }
    }

    /** Row r of the sizing constructor's buffer; other rows untouched. */
    static method IdentityRow(buffer: array<int>, rows: nat, cols: nat, r: nat)
      requires buffer.Length == rows * cols && r < rows
      modifies buffer
      ensures forall j :: 0 <= j < cols ==> buffer[Idx(r, j, rows, cols)] == (if rows == cols && r == j then 1 else 0)
      ensures forall i, j :: 0 <= i < rows && i != r && 0 <= j < cols ==>
        buffer[Idx(i, j, rows, cols)] == old(buffer[Idx(i, j, rows, cols)])
    {
      for c := 0 to cols
        invariant forall j :: 0 <= j < c ==> buffer[Idx(r, j, rows, cols)] == (if rows == cols && r == j then 1 else 0)
        invariant forall i, j :: 0 <= i < rows && i != r && 0 <= j < cols ==>
          buffer[Idx(i, j, rows, cols)] == old(buffer[Idx(i, j, rows, cols)])
      {
        buffer[Idx(r, c, rows, cols)] := if rows == cols && r == c then 1 else 0;
      }
    }

    /** The copy constructor (copy_array): same shape, same cells, a buffer of its own. */
    constructor Copy(from: Matrix)
      requires from.Valid()
      ensures Valid() && fresh(data) && rows == from.rows && cols == from.cols
      ensures Cells() == from.Cells()
    {
      rows, cols := from.rows, from.cols;
      var buffer := Copied(from.data, from.rows, from.cols);
      data := buffer;
    }

    /** copy_array: a new buffer holding the same cells, copied row by row. */
    static method Copied(src: array<int>, rows: nat, cols: nat) returns (buffer: array<int>)
      requires src.Length == rows * cols
      ensures fresh(buffer) && buffer[..] == src[..]
    {
      buffer := new int[rows * cols];
      for r := 0 to rows
        modifies buffer
        invariant forall i, j :: 0 <= i < r && 0 <= j < cols ==> buffer[Idx(i, j, rows, cols)] == src[Idx(i, j, rows, cols)]
      {
        CopyRow(src, buffer, rows, cols, r);
      }
      forall i, j | 0 <= i < rows && 0 <= j < cols
        ensures Cell(buffer[..], rows, cols, i, j) == Cell(src[..], rows, cols, i, j)
      {
      }
      CellsDetermine(buffer[..], src[..], rows, cols);
    }

    /** Row r of copy_array; other rows untouched. */
    static method CopyRow(src: array<int>, buffer: array<int>, rows: nat, cols: nat, r: nat)
      requires src.Length == rows * cols && buffer.Length == rows * cols && src != buffer && r < rows
      modifies buffer
      ensures forall j :: 0 <= j < cols ==> buffer[Idx(r, j, rows, cols)] == src[Idx(r, j, rows, cols)]
      ensures forall i, j :: 0 <= i < rows && i != r && 0 <= j < cols ==>
        buffer[Idx(i, j, rows, cols)] == old(buffer[Idx(i, j, rows, cols)])
    {
      for c := 0 to cols
        invariant forall j :: 0 <= j < c ==> buffer[Idx(r, j, rows, cols)] == src[Idx(r, j, rows, cols)]
        invariant forall i, j :: 0 <= i < rows && i != r && 0 <= j < cols ==>
          buffer[Idx(i, j, rows, cols)] == old(buffer[Idx(i, j, rows, cols)])
      {
        buffer[Idx(r, c, rows, cols)] := src[Idx(r, c, rows, cols)];
      }
    }

    /** check_bound: the cell exists. */
    predicate InBounds(row: nat, col: nat)
      reads this
      ensures InBounds(row, col) ==> row < rows && col < cols && Idx(row, col, rows, cols) < rows * cols
    {
      row < rows && col < cols
    }

    /** get: the cell's value, or OutOfBounds exactly when the cell does not exist. */
    method Get(row: nat, col: nat) returns (res: Result<int>)
      requires Valid()
      ensures res.Failure? <==> !(row < rows && col < cols)
      ensures res.Failure? ==> res.error == OutOfBounds
      ensures res.Success? ==> res.value == Cell(Cells(), rows, cols, row, col)
    {
      if !InBounds(row, col) {
        return Failure(OutOfBounds);
      }
      res := Success(data[Idx(row, col, rows, cols)]);
    }

    /** set: overwrite one cell, or OutOfBounds exactly when it does not exist. */
    method Set(row: nat, col: nat, value: int) returns (res: Outcome)
      requires Valid()
      modifies data
      ensures Valid()
      ensures res.Fail? <==> !(row < rows && col < cols)
      ensures res.Fail? ==> res.error == OutOfBounds && Cells() == old(Cells())
      ensures res.Done? ==> forall i, j :: 0 <= i < rows && 0 <= j < cols ==>
        Cell(Cells(), rows, cols, i, j) == (if i == row && j == col then value else Cell(old(Cells()), rows, cols, i, j))
    {
      if !InBounds(row, col) {
        return Fail(OutOfBounds);
      }
      data[Idx(row, col, rows, cols)] := value;
      res := Done;
    }

    /** resize: a fresh buffer of the new shape; cells inside both shapes keep their values, the rest are 0. */
    method Resize(newRows: nat, newCols: nat)
      requires Valid()
      modifies this
      ensures Valid() && fresh(data) && rows == newRows && cols == newCols
      ensures IsResize(old(Cells()), old(rows), old(cols), Cells(), rows, cols)
    {
      var buffer := Resized(data, rows, cols, newRows, newCols);
      rows, cols, data := newRows, newCols, buffer;
    }

    /** The buffer resize builds: row by row, the old cell where both shapes have it, else 0. */
    static method Resized(src: array<int>, rows: nat, cols: nat, newRows: nat, newCols: nat) returns (buffer: array<int>)
      requires src.Length == rows * cols
      ensures fresh(buffer) && buffer.Length == newRows * newCols
      ensures IsResize(src[..], rows, cols, buffer[..], newRows, newCols)
    {
      buffer := new int[newRows * newCols];
      for r := 0 to newRows
        modifies buffer
        invariant forall i, j :: 0 <= i < r && 0 <= j < newCols ==>
          buffer[Idx(i, j, newRows, newCols)] == (if i < rows && j < cols then src[Idx(i, j, rows, cols)] else 0)
      {
        ResizeRow(src, rows, cols, buffer, newRows, newCols, r);
      }
      assert forall i, j :: 0 <= i < newRows && 0 <= j < newCols ==>
        Cell(buffer[..], newRows, newCols, i, j) == (if i < rows && j < cols then Cell(src[..], rows, cols, i, j) else 0);
    }

    /** The inner loop of resize: fill row r of the new buffer, leaving every other row as it was. */
    static method ResizeRow(src: array<int>, rows: nat, cols: nat, buffer: array<int>, newRows: nat, newCols: nat, r: nat)
      requires src.Length == rows * cols && buffer.Length == newRows * newCols && r < newRows && src != buffer
      modifies buffer
      ensures forall j :: 0 <= j < newCols ==>
        buffer[Idx(r, j, newRows, newCols)] == (if r < rows && j < cols then src[Idx(r, j, rows, cols)] else 0)
      ensures forall i, j :: 0 <= i < newRows && i != r && 0 <= j < newCols ==>
        buffer[Idx(i, j, newRows, newCols)] == old(buffer[Idx(i, j, newRows, newCols)])
    {
      for c := 0 to newCols
        invariant forall j :: 0 <= j < c ==>
          buffer[Idx(r, j, newRows, newCols)] == (if r < rows && j < cols then src[Idx(r, j, rows, cols)] else 0)
        invariant forall i, j :: 0 <= i < newRows && i != r && 0 <= j < newCols ==>
          buffer[Idx(i, j, newRows, newCols)] == old(buffer[Idx(i, j, newRows, newCols)])
      {
        buffer[Idx(r, c, newRows, newCols)] := if r < rows && c < cols then src[Idx(r, c, rows, cols)] else 0;
      }
    }

    /** transpose: resize to `cols × rows`, then copy cell (i, j) of the old cells to (j, i). */
    method Transpose()
      requires Valid()
      modifies this
      ensures Valid() && fresh(data) && rows == old(cols) && cols == old(rows)
      ensures IsTranspose(old(Cells()), old(rows), old(cols), Cells())
    {
      var previous := new Matrix.Copy(this);
      var oldRows, oldCols := rows, cols;
      Resize(cols, rows);
      for i := 0 to oldRows
        modifies data
        invariant Valid() && rows == oldCols && cols == oldRows && data != previous.data
        invariant forall r, c :: 0 <= r < i && 0 <= c < oldCols ==>
          data[Idx(c, r, rows, cols)] == previous.data[Idx(r, c, oldRows, oldCols)]
      {
        TransposeRow(previous.data, data, oldRows, oldCols, i);
      }
    }

    /** The inner loop of transpose: row i of `src` becomes column i of `dst`; other columns untouched. */
    static method TransposeRow(src: array<int>, dst: array<int>, rows: nat, cols: nat, i: nat)
      requires src.Length == rows * cols && dst.Length == cols * rows && src != dst && i < rows
      modifies dst
      ensures forall c :: 0 <= c < cols ==> dst[Idx(c, i, cols, rows)] == src[Idx(i, c, rows, cols)]
      ensures forall r, c :: 0 <= r < rows && r != i && 0 <= c < cols ==>
        dst[Idx(c, r, cols, rows)] == old(dst[Idx(c, r, cols, rows)])
    {
      for j := 0 to cols
        invariant forall c :: 0 <= c < j ==> dst[Idx(c, i, cols, rows)] == src[Idx(i, c, rows, cols)]
        invariant forall r, c :: 0 <= r < rows && r != i && 0 <= c < cols ==>
          dst[Idx(c, r, cols, rows)] == old(dst[Idx(c, r, cols, rows)])
      {
        dst[Idx(j, i, cols, rows)] := src[Idx(i, j, rows, cols)];
      }
    }

    /** transposed: the transpose as a new matrix; the receiver is left as it was. */
    method Transposed() returns (m: Matrix)
      requires Valid()
      ensures fresh(m) && fresh(m.data) && m.Valid() && m.rows == cols && m.cols == rows
      ensures IsTranspose(Cells(), rows, cols, m.Cells())
    {
      m := new Matrix.Copy(this);
      m.Transpose();
    }

    /** check_size: the other matrix has the same shape. */
    predicate SameShape(a: Matrix)
      reads this, a
      ensures SameShape(a) ==> rows * cols == a.rows * a.cols
    {
      a.rows == rows && a.cols == cols
    }

    /** `+=`: SizeMismatch unless the shapes agree; otherwise add cell by cell. */
    method AddAssign(a: Matrix) returns (res: Outcome)
      requires Valid() && a.Valid()
      modifies data
      ensures Valid() && a.Valid()
      ensures res.Fail? <==> !(a.rows == rows && a.cols == cols)
      ensures res.Fail? ==> res.error == SizeMismatch && Cells() == old(Cells())
      ensures res.Done? ==> forall k :: 0 <= k < data.Length ==> data[k] == old(data[k]) + old(a.data[k])
    {
      if !SameShape(a) {
        return Fail(SizeMismatch);
      }
      for i := 0 to rows * cols
        invariant forall k :: 0 <= k < i ==> data[k] == old(data[k]) + old(a.data[k])
        invariant forall k :: i <= k < data.Length ==> data[k] == old(data[k]) && a.data[k] == old(a.data[k])
      {
        data[i] := data[i] + a.data[i];
      }
      res := Done;
    }

    /** `-=`: SizeMismatch unless the shapes agree; otherwise subtract cell by cell. */
    method SubAssign(a: Matrix) returns (res: Outcome)
      requires Valid() && a.Valid()
      modifies data
      ensures Valid() && a.Valid()
      ensures res.Fail? <==> !(a.rows == rows && a.cols == cols)
      ensures res.Fail? ==> res.error == SizeMismatch && Cells() == old(Cells())
      ensures res.Done? ==> forall k :: 0 <= k < data.Length ==> data[k] == old(data[k]) - old(a.data[k])
    {
      if !SameShape(a) {
        return Fail(SizeMismatch);
      }
      for i := 0 to rows * cols
        invariant forall k :: 0 <= k < i ==> data[k] == old(data[k]) - old(a.data[k])
        invariant forall k :: i <= k < data.Length ==> data[k] == old(data[k]) && a.data[k] == old(a.data[k])
      {
        data[i] := data[i] - a.data[i];
      }
      res := Done;
    }

    /**
     * `*=`: SizeMismatch unless `cols == a.rows`; otherwise the receiver
     * becomes `rows × a.cols`, each cell the sum over k of old[i][k]·a[k][j].
     */
    method MulAssign(a: Matrix) returns (res: Outcome)
      requires Valid() && a.Valid()
      modifies this
      ensures Valid()
      ensures res.Fail? <==> old(cols) != old(a.rows)
      ensures res.Fail? ==> res.error == SizeMismatch && data == old(data) && Cells() == old(Cells())
      ensures res.Fail? ==> rows == old(rows) && cols == old(cols)
      ensures res.Done? ==> fresh(data) && rows == old(rows) && cols == old(a.cols)
      ensures res.Done? && a != this ==>
        IsProduct(old(Cells()), old(rows), old(cols), old(a.Cells()), a.cols, Cells())
    {
      if cols != a.rows {
        return Fail(SizeMismatch);
      }
      var previous := new Matrix.Copy(this);
      Resize(rows, a.cols);
      FillProduct(previous, a);
      res := Done;
    }

    /**
     * The triple loop of `*=`: cell (i, j) is zeroed, then accumulates
     * old[i][k]·a[k][j]. When `a` is the receiver itself, `a[k][j]` reads
     * the buffer being written, so the product is stated only for `a != this`.
     */
    method FillProduct(previous: Matrix, a: Matrix)
      requires Valid() && previous.Valid() && a.Valid()
      requires rows == previous.rows && cols == a.cols && previous.cols == a.rows
      requires data != previous.data && (a != this ==> a.data != data)
      modifies data
      ensures a != this ==> IsProduct(previous.Cells(), rows, previous.cols, a.Cells(), cols, Cells())
    {
      ghost var left := previous.data[..];
      ghost var right := a.data[..];
      var n := previous.cols;
      for i := 0 to rows
        modifies data
        invariant a != this ==> right == a.data[..]
        invariant a != this ==> forall r, c :: 0 <= r < i && 0 <= c < cols ==>
          data[Idx(r, c, rows, cols)] == Dot(left, rows, n, right, n, cols, r, c, n)
      {
        FillProductRow(previous, a, i, left, right);
      }
      if a != this {
        forall r, c | 0 <= r < rows && 0 <= c < cols
          ensures Cell(Cells(), rows, cols, r, c) == Dot(left, rows, n, right, n, cols, r, c, n)
        {
        }
      }
    }

    /** The middle loop of `*=`: every cell of row i, other rows untouched. */
    method FillProductRow(previous: Matrix, a: Matrix, i: nat, ghost left: seq<int>, ghost right: seq<int>)
      requires Valid() && previous.Valid() && a.Valid()
      requires rows == previous.rows && cols == a.cols && previous.cols == a.rows && i < rows
      requires data != previous.data && (a != this ==> a.data != data)
      requires left == previous.data[..] && (a != this ==> right == a.data[..])
      modifies data
      ensures a != this ==> forall c :: 0 <= c < cols ==>
        data[Idx(i, c, rows, cols)] == Dot(left, rows, previous.cols, right, previous.cols, cols, i, c, previous.cols)
      ensures forall r, c :: 0 <= r < rows && r != i && 0 <= c < cols ==>
        data[Idx(r, c, rows, cols)] == old(data[Idx(r, c, rows, cols)])
    {
      var n := previous.cols;
      for j := 0 to a.cols
        invariant a != this ==> right == a.data[..]
        invariant a != this ==> forall c :: 0 <= c < j ==>
          data[Idx(i, c, rows, cols)] == Dot(left, rows, n, right, n, cols, i, c, n)
        invariant forall r, c :: 0 <= r < rows && r != i && 0 <= c < cols ==>
          data[Idx(r, c, rows, cols)] == old(data[Idx(r, c, rows, cols)])
      {
        FillProductCell(previous, a, i, j, left, right);
      }
    }

    /** The inner loop of `*=`: cell (i, j) is zeroed, then accumulates old[i][k]·a[k][j]. */
    method FillProductCell(previous: Matrix, a: Matrix, i: nat, j: nat, ghost left: seq<int>, ghost right: seq<int>)
      requires Valid() && previous.Valid() && a.Valid()
      requires rows == previous.rows && cols == a.cols && previous.cols == a.rows && i < rows && j < cols
      requires data != previous.data && (a != this ==> a.data != data)
      requires left == previous.data[..] && (a != this ==> right == a.data[..])
      modifies data
      ensures a != this ==>
        data[Idx(i, j, rows, cols)] == Dot(left, rows, previous.cols, right, previous.cols, cols, i, j, previous.cols)
      ensures forall x :: 0 <= x < data.Length && x != Idx(i, j, rows, cols) ==> data[x] == old(data[x])
    {
      var n := previous.cols;
      var cell := Idx(i, j, rows, cols);
      data[cell] := 0;
      for k := 0 to n
        invariant forall x :: 0 <= x < data.Length && x != cell ==> data[x] == old(data[x])
        invariant a != this ==> data[cell] == Dot(left, rows, n, right, n, cols, i, j, k)
      {
        data[cell] := data[cell] + previous.data[Idx(i, k, rows, n)] * a.data[Idx(k, j, a.rows, a.cols)];
      }
    }

    /** trace: SizeMismatch unless square; otherwise the sum of the diagonal. */
    method Trace() returns (res: Result<int>)
      requires Valid()
      ensures res.Failure? <==> rows != cols
      ensures res.Failure? ==> res.error == SizeMismatch
      ensures res.Success? ==> res.value == Diagonal(Cells(), rows, cols, rows)
    {
      if rows != cols {
        return Failure(SizeMismatch);
      }
      var s := 0;
      for i := 0 to rows
        invariant s == Diagonal(data[..], rows, cols, i)
      {
        s := s + data[Idx(i, i, rows, cols)];
      }
      res := Success(s);
    }
  }
}
