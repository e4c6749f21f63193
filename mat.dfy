/**
  The dense-matrix storage of Mat.h: a struct holding the dimensions m and n
  and a flat row-major buffer of doubles, with initMat, cleanMat, getElem,
  setElem and the rref stub.

  Mat.h:4-5 defines DISABLE_ERROR_HANDLE and undefines it right away, so the
  shipped build runs the guarded paths. The preprocessor switch becomes the
  Mode parameter below; every diagnostic printf becomes a report value that
  names the branch taken. Doubles are only stored and returned, so they are
  modelled as `real`.
 */
module Matrix {
  import opened RowMajor

  /** Error handling in force for an operation. */
  datatype Mode =
    | Checked        // DISABLE_ERROR_HANDLE undefined: the guards as written (the shipped build)
    | Unchecked      // DISABLE_ERROR_HANDLE defined: every guard compiled out
    | StrictChecked  // the guards corrected: dimensions positive, indices inside [0, m) x [0, n)

  /** The mode Mat.h:4-5 selects. */
  const Shipped: Mode := Checked

  /** Outcome of initMat: rejected (a diagnostic, nothing touched) or fields assigned. */
  datatype InitReport = DimensionRejected | Initialized

  /**
    Outcome of setElem: rejected by the row guard or by the column guard, a
    write to buffer position `cell`, or a write the guards let through to a
    position outside the buffer, which is undefined behaviour in C.
   */
  datatype SetReport = RowExceeds | ColExceeds | Written(cell: int) | OutOfBuffer(cell: int)

  /** Outcome of rref: one of its two shape diagnostics, or the (empty) body ran. */
  datatype RrefReport = RowMismatch | ColMismatch | Completed

  /**
    Which branch initMat takes for dimensions (rows, cols) (Mat.h:16-21).
    A guarded build never accepts a zero dimension; the corrected guard
    accepts only positive ones; nothing but the guard ever rejects.
   */
  function InitAction(mode: Mode, rows: int, cols: int): (r: InitReport)
    ensures r == Initialized && mode != Unchecked ==> rows != 0 && cols != 0
    ensures r == Initialized && mode == StrictChecked ==> 0 < rows && 0 < cols
    ensures 0 < rows && 0 < cols ==> r == Initialized
  {
    match mode
    case Unchecked => Initialized
    case Checked => if rows == 0 || cols == 0 then DimensionRejected else Initialized
    case StrictChecked => if rows <= 0 || cols <= 0 then DimensionRejected else Initialized
  }

  /**
    Whether setElem's row guard rejects row i (Mat.h:39). A rejected row is
    never a row of the matrix; the corrected guard rejects every other row.
   */
  function RowRejected(mode: Mode, m: int, i: int): (rejected: bool)
    ensures rejected ==> !(0 <= i < m)
    ensures mode == StrictChecked && !(0 <= i < m) ==> rejected
  {
    match mode
    case Unchecked => false
    case Checked => i > m
    case StrictChecked => !(0 <= i < m)
  }

  /**
    Whether setElem's column guard rejects column j (Mat.h:43). A rejected
    column is never a column of the matrix; the corrected guard rejects
    every other column.
   */
  function ColRejected(mode: Mode, n: int, j: int): (rejected: bool)
    ensures rejected ==> !(0 <= j < n)
    ensures mode == StrictChecked && !(0 <= j < n) ==> rejected
  {
    match mode
    case Unchecked => false
    case Checked => j > n
    case StrictChecked => !(0 <= j < n)
  }

  /**
    What setElem does with (i, j) on an m-by-n matrix whose buffer holds
    `len` cells (Mat.h:38-49): the row guard, then the column guard, then
    the write at Index(i, j, n), in or out of the buffer.
   */
  function SetAction(mode: Mode, m: int, n: int, len: nat, i: int, j: int): (r: SetReport)
    ensures r.Written? || r.OutOfBuffer? ==> r.cell == Index(i, j, n)
    ensures r.Written? ==> 0 <= r.cell < len
    ensures r.OutOfBuffer? ==> !(0 <= r.cell < len)
    ensures r == RowExceeds ==> !(0 <= i < m)
    ensures r == ColExceeds ==> !(0 <= j < n)
  {
    if RowRejected(mode, m, i) then RowExceeds
    else if ColRejected(mode, n, j) then ColExceeds
    else if 0 <= Index(i, j, n) < len then Written(Index(i, j, n))
    else OutOfBuffer(Index(i, j, n))
  }

  /** Every mode writes every in-range cell of a well-formed matrix, at its row-major position. */
  lemma SetActionInRange(mode: Mode, m: int, n: int, i: int, j: int)
    requires 0 <= i < m && 0 <= j < n
    ensures m * n >= 0
    ensures SetAction(mode, m, n, m * n, i, j) == Written(Index(i, j, n))
  {
    IndexInRange(m, n, i, j);
  }

  /**
    The corrected guards: nothing reaches memory outside the buffer, and a
    write happens exactly for the cells inside [0, m) x [0, n).
   */
  lemma StrictSetSafe(m: int, n: int, len: nat, i: int, j: int)
    requires len == m * n
    ensures !SetAction(StrictChecked, m, n, len, i, j).OutOfBuffer?
    ensures SetAction(StrictChecked, m, n, len, i, j).Written? <==> 0 <= i < m && 0 <= j < n
  {
    if 0 <= i < m && 0 <= j < n {
      IndexInRange(m, n, i, j);
    }
  }

  /** As written, the row guard lets row i == m through and the write leaves the buffer. */
  lemma CheckedRowPastEnd(m: int, n: int, j: int)
    requires 0 < m && 0 < n && 0 <= j <= n
    ensures SetAction(Shipped, m, n, m * n, m, j) == OutOfBuffer(m * n + j)
  {
  }

  /**
    As written, the column guard lets column j == n through, and for any row
    but the last the write lands on cell (i + 1, 0) of the next row.
   */
  lemma CheckedColumnAliases(m: int, n: int, i: int)
    requires 0 < n && 0 <= i && i + 1 < m
    ensures SetAction(Shipped, m, n, m * n, i, n) == Written(Index(i + 1, 0, n))
  {
    ColumnOverrun(n, i);
    IndexInRange(m, n, i + 1, 0);
  }

  /** As written, negative indices pass both guards: row -1 writes before the buffer. */
  lemma CheckedNegativeRow(m: int, n: int, j: int)
    requires 0 < m && 0 < n && 0 <= j < n
    ensures SetAction(Shipped, m, n, m * n, -1, j) == OutOfBuffer(j - n)
  {
  }

  /**
    As written, a negative column also passes both guards: column -1 of any
    row but the first writes the last cell of the row before, inside the buffer.
   */
  lemma CheckedNegativeColumnAliases(m: int, n: int, i: int)
    requires 0 < n && 0 < i < m
    ensures SetAction(Shipped, m, n, m * n, i, -1) == Written(Index(i - 1, n - 1, n))
  {
    assert Index(i, -1, n) == Index(i - 1, n - 1, n);
    IndexInRange(m, n, i - 1, n - 1);
  }

  /** As written, initMat accepts two negative dimensions, whose product is positive. */
  lemma CheckedInitAcceptsNegative(rows: int, cols: int)
    requires rows < 0 && cols < 0
    ensures InitAction(Shipped, rows, cols) == Initialized && rows * cols > 0
  {
    assert rows * cols == (-rows) * (-cols);
  }

  /** The corrected initMat guard accepts exactly the positive dimensions. */
  lemma StrictInitPositive(rows: int, cols: int)
    ensures InitAction(StrictChecked, rows, cols) == Initialized <==> 0 < rows && 0 < cols
  {
  }

  /** A well-formed matrix has m rows, and read row after row they are exactly its buffer. */
  lemma ContentsIsBuffer(mat: Mat)
    requires mat.Valid()
    ensures |mat.Contents()| == mat.m && Flatten(mat.Contents()) == mat.matrix[..]
  {
    FlattenRowsOf(mat.matrix[..], mat.m, mat.n);
  }

  /** The Mat struct (Mat.h:10-13): dimensions and a flat row-major buffer. */
  class Mat {
    var m: int
    var n: int
    var matrix: array?<real>
    /** Whether cleanMat has released the buffer. */
    ghost var released: bool

    /**
      A declared, not yet initialised struct. C leaves its fields
      indeterminate, so they are parameters here.
     */
    constructor Declare(m: int, n: int, matrix: array?<real>)
      ensures this.m == m && this.n == n && this.matrix == matrix && !released
    {
      this.m := m;
      this.n := n;
      this.matrix := matrix;
      released := false;
    }

    /** Shape invariant of an initialised matrix: positive dimensions and m * n cells. */
    ghost predicate Valid()
      reads this
    {
      matrix != null && 0 < m && 0 < n && matrix.Length == m * n
    }

    /** Number of cells behind the buffer pointer: none when it is null. */
    function Live(): nat
      reads this
    {
      if matrix == null then 0 else matrix.Length
    }

    /** The matrix as m rows of n values. */
    ghost function Contents(): (grid: seq<seq<real>>)
      reads this, matrix
      requires Valid()
    {
      RowsOf(matrix[..], m, n)
    }

    /**
      initMat (Mat.h:15-27): unless the guard rejects the dimensions, set m
      and n and allocate rows * cols cells of unspecified contents. A negative
      product wraps to a huge size_t request that malloc cannot meet, so the
      buffer is null.
     */
    method InitMat(mode: Mode, rows: int, cols: int) returns (r: InitReport)
      modifies this
      ensures r == InitAction(mode, rows, cols)
      ensures r == DimensionRejected ==>
        m == old(m) && n == old(n) && matrix == old(matrix) && released == old(released)
      ensures r == Initialized ==> m == rows && n == cols && !released
      ensures r == Initialized && rows * cols >= 0 ==>
        matrix != null && fresh(matrix) && matrix.Length == rows * cols
      ensures r == Initialized && rows * cols < 0 ==> matrix == null
      ensures r == Initialized && 0 < rows && 0 < cols ==> Valid()
      ensures mode == StrictChecked && r == Initialized ==> Valid()
    {
      r := InitAction(mode, rows, cols);
      if r == DimensionRejected {
        return;
      }
      m := rows;
      n := cols;
      if rows * cols >= 0 {
        matrix := new real[rows * cols];
      } else {
        matrix := null;
      }
      released := false;
    }

    /** cleanMat (Mat.h:29-31): the buffer is released; a second release is undefined. */
    method Clean()
      requires !released
      modifies this
      ensures released
      ensures m == old(m) && n == old(n) && matrix == old(matrix)
    {
      released := true;
    }

    /**
      getElem (Mat.h:33-35): the buffer cell at Index(i, j, n), with no bounds
      check in any mode; reading outside the buffer is undefined, so the
      position must lie inside it. In a well-formed matrix this is cell
      (i, j), and column n reads the first cell of the next row.
     */
    function Get(i: int, j: int): (r: real)
      reads this, matrix
      requires matrix != null && !released
      requires 0 <= Index(i, j, n) < matrix.Length
      ensures Valid() && 0 <= i < m && 0 <= j < n ==> r == Contents()[i][j]
      ensures Valid() && 0 <= i && i + 1 < m && j == n ==> r == Contents()[i + 1][0]
    {
      assert Valid() && 0 <= i < m && 0 <= j < n ==> matrix[Index(i, j, n)] == Contents()[i][j] by {
        if Valid() && 0 <= i < m && 0 <= j < n {
          RowsOfCell(matrix[..], m, n, i, j);
        }
      }
      assert Valid() && 0 <= i && i + 1 < m && j == n ==> matrix[Index(i, j, n)] == Contents()[i + 1][0] by {
        if Valid() && 0 <= i && i + 1 < m && j == n {
          ColumnOverrun(n, i);
          RowsOfCell(matrix[..], m, n, i + 1, 0);
        }
      }
      matrix[Index(i, j, n)]
    }

    /**
      setElem (Mat.h:37-50): after the guards of `mode`, write `val` at
      Index(i, j, n). Only that buffer cell changes; m, n and the buffer
      itself stay. A write the guards let through to a position outside the
      buffer (any position, when the buffer is null) is reported as
      OutOfBuffer and performs nothing.
     */
    method SetElem(mode: Mode, i: int, j: int, val: real) returns (r: SetReport)
      requires !released
      modifies matrix
      ensures r == SetAction(mode, m, n, Live(), i, j)
      ensures r.Written? ==> matrix != null && matrix[..] == old(matrix[..])[r.cell := val]
      ensures !r.Written? && matrix != null ==> matrix[..] == old(matrix[..])
      ensures mode == StrictChecked && Live() == m * n ==>
        !r.OutOfBuffer? && (r.Written? <==> 0 <= i < m && 0 <= j < n)
      ensures r.Written? ==> matrix != null && Get(i, j) == val
      ensures Valid() && 0 <= i < m && 0 <= j < n ==>
        r.Written? && Contents() == old(Contents())[i := old(Contents())[i][j := val]]
      ensures Valid() && mode != StrictChecked && 0 <= i && i + 1 < m && j == n ==>
        r.Written? && Contents() == old(Contents())[i + 1 := old(Contents())[i + 1][0 := val]]
    {
      r := SetAction(mode, m, n, Live(), i, j);
      if r.Written? {
        matrix[r.cell] := val;
      }
      if mode == StrictChecked && Live() == m * n {
        StrictSetSafe(m, n, Live(), i, j);
      }
      if Valid() && 0 <= i < m && 0 <= j < n {
        RowsOfUpdate(old(matrix[..]), m, n, i, j, val);
      }
      if Valid() && mode != StrictChecked && 0 <= i && i + 1 < m && j == n {
        ColumnOverrun(n, i);
        RowsOfUpdate(old(matrix[..]), m, n, i + 1, 0, val);
      }
    }
  }

  /**
    rref (Mat.h:52-63): in the guarded modes it checks that `output` has the
    shape of `mat`, rows first; the body is empty, so nothing changes in
    either matrix on any path (the method modifies nothing).
   */
  method Rref(mode: Mode, mat: Mat, output: Mat) returns (r: RrefReport)
    ensures r == RowMismatch <==> mode != Unchecked && mat.m != output.m
    ensures r == ColMismatch <==> mode != Unchecked && mat.m == output.m && mat.n != output.n
    ensures r == Completed <==> mode == Unchecked || (mat.m == output.m && mat.n == output.n)
  {
    if mode != Unchecked {
      if mat.m != output.m {
        return RowMismatch;
      }
      if mat.n != output.n {
        return ColMismatch;
      }
    }
    return Completed;
  }
}
