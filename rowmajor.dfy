/**
  Row-major addressing shared by getElem and setElem (Mat.h:34, Mat.h:49):
  cell (i, j) of a matrix with `cols` columns lives at buffer position
  i * cols + j. This module proves that the addressing is a bijection between
  the in-range cells and the buffer, and gives the two-dimensional view of a
  flat buffer that the matrix contracts are stated in.
 */
module RowMajor {

  /** Buffer position of cell (i, j) when every row holds `cols` cells. */
  function Index(i: int, j: int, cols: int): int
  {
    i * cols + j
  }

  /**
    With the column in range, dividing the buffer position by `cols` gives
    back the row and the remainder gives back the column.
   */
  lemma IndexDecode(i: int, j: int, cols: int)
    requires 0 <= j < cols
    ensures Index(i, j, cols) / cols == i && Index(i, j, cols) % cols == j
  {
    DivModUnique(i * cols + j, cols, i, j);
  }

  /** A whole row of cols cells separates row a from any later row b. */
  lemma MulGap(cols: int, a: int, b: int)
    requires 0 < cols && a < b
    ensures a * cols + cols <= b * cols
  {
    var d := b - a - 1;
    assert 0 <= d * cols by { assert 0 <= d && 0 < cols; }
    assert b * cols == a * cols + cols + d * cols;
  }

  /** Euclidean division has one quotient and remainder: k == q * cols + r with r in [0, cols). */
  lemma DivModUnique(k: int, cols: int, q: int, r: int)
    requires 0 <= r < cols && k == q * cols + r
    ensures k / cols == q && k % cols == r
  {
    var q', r' := k / cols, k % cols;
    assert k == q' * cols + r';
    if q' < q {
      MulGap(cols, q', q);
      assert false;
    } else if q < q' {
      MulGap(cols, q, q');
      assert false;
    }
  }

  /** An earlier row always comes first in the buffer, whatever the columns. */
  lemma RowOrder(cols: int, i1: int, j1: int, i2: int, j2: int)
    requires 0 <= j1 < cols && 0 <= j2
    requires i1 < i2
    ensures Index(i1, j1, cols) < Index(i2, j2, cols)
  {
    MulGap(cols, i1, i2);
  }

  /** Every in-range cell is addressed inside a buffer of rows * cols cells. */
  lemma {:induction false} IndexInRange(rows: int, cols: int, i: int, j: int)
    requires 0 <= i < rows && 0 <= j < cols
    ensures 0 <= Index(i, j, cols) < rows * cols
  {
    assert 0 <= i * cols;
    RowOrder(cols, i, j, rows, 0);
  }

  /** Two different cells whose columns are in range never share a buffer position. */
  lemma {:induction false} IndexInjective(cols: int, i1: int, j1: int, i2: int, j2: int)
    requires 0 <= j1 < cols && 0 <= j2 < cols
    requires i1 != i2 || j1 != j2
    ensures Index(i1, j1, cols) != Index(i2, j2, cols)
  {
    if i1 < i2 {
      RowOrder(cols, i1, j1, i2, j2);
    } else if i2 < i1 {
      RowOrder(cols, i2, j2, i1, j1);
    }
  }

  /** Every buffer position is the address of exactly the cell (k / cols, k % cols). */
  lemma {:induction false} IndexCovers(rows: int, cols: int, k: int)
    requires 0 < cols && 0 <= k < rows * cols
    ensures 0 <= k / cols < rows && 0 <= k % cols < cols
    ensures Index(k / cols, k % cols, cols) == k
  {
    var i, j := k / cols, k % cols;
    assert k == i * cols + j;
    if i >= rows {
      RowOrder(cols, rows - 1, cols - 1, i, j);
      assert false;
    }
  }

  /** Overrunning a row by one column addresses the first cell of the next row. */
  lemma ColumnOverrun(cols: int, i: int)
    ensures Index(i, cols, cols) == Index(i + 1, 0, cols)
  {
    assert (i + 1) * cols == i * cols + cols;
  }

  /** A row that starts at position r * cols of a buffer of rows * cols cells ends inside it. */
  lemma RowFits(rows: nat, cols: nat, r: nat)
    requires r < rows
    ensures r * cols + cols <= rows * cols
  {
    if 0 < cols {
      MulGap(cols, r, rows);
    }
  }

  /** Row r of a flat buffer of rows * cols cells: the cols cells from position r * cols. */
  function RowSlice<T>(buf: seq<T>, rows: nat, cols: nat, r: nat): (row: seq<T>)
    requires |buf| == rows * cols && r < rows
    ensures |row| == cols
  {
    RowFits(rows, cols, r);
    assert 0 <= r * cols;
    buf[r * cols .. r * cols + cols]
  }

  /** The rows of a flat buffer of rows * cols cells, each of length cols. */
  function RowsOf<T>(buf: seq<T>, rows: nat, cols: nat): (grid: seq<seq<T>>)
    requires |buf| == rows * cols
    ensures |grid| == rows
    ensures forall r :: 0 <= r < rows ==> |grid[r]| == cols
  {
    seq(rows, r requires 0 <= r < rows => RowSlice(buf, rows, cols, r))
  }

  /** Row i of the grid view is the slice of cols cells starting at position i * cols. */
  lemma RowsOfRow<T>(buf: seq<T>, rows: nat, cols: nat, i: nat)
    requires |buf| == rows * cols && i < rows
    ensures 0 <= i * cols && i * cols + cols <= |buf|
    ensures RowsOf(buf, rows, cols)[i] == buf[i * cols .. i * cols + cols]
  {
    RowFits(rows, cols, i);
  }

  /** Peeling one row off a block of k rows of cols cells. */
  lemma PeelRow(k: nat, cols: nat)
    requires 0 < k
    ensures k * cols == (k - 1) * cols + cols && 0 <= (k - 1) * cols
  {
  }

  /** A slice of the suffix buf[c..] is the slice of buf shifted by c. */
  lemma SliceOfSuffix<T>(buf: seq<T>, c: nat, a: nat, b: nat)
    requires c <= |buf| && a <= b <= |buf| - c
    ensures buf[c..][a..b] == buf[c + a .. c + b]
  {
  }

  /** The grid view of a non-empty buffer is its first row followed by the grid view of the rest. */
  lemma RowsOfPeel<T>(buf: seq<T>, rows: nat, cols: nat)
    requires |buf| == rows * cols && 0 < rows
    ensures cols <= |buf| && |buf[cols..]| == (rows - 1) * cols
    ensures RowsOf(buf, rows, cols) == [buf[..cols]] + RowsOf(buf[cols..], rows - 1, cols)
  {
    PeelRow(rows, cols);
    var rest := buf[cols..];
    var whole := RowsOf(buf, rows, cols);
    var peeled := [buf[..cols]] + RowsOf(rest, rows - 1, cols);
    forall r | 0 <= r < rows
      ensures whole[r] == peeled[r]
    {
      RowsOfRow(buf, rows, cols, r);
      if 0 < r {
        PeelRow(r, cols);
        RowsOfRow(rest, rows - 1, cols, r - 1);
        SliceOfSuffix(buf, cols, (r - 1) * cols, (r - 1) * cols + cols);
      }
    }
  }

  /** The cells of a grid, row after row: the flat buffer a grid view comes from. */
  function Flatten<T>(grid: seq<seq<T>>): seq<T>
  {
    if grid == [] then [] else grid[0] + Flatten(grid[1..])
  }

  /** Cutting a buffer into rows loses nothing: the rows read back in order are the buffer. */
  lemma {:induction false} FlattenRowsOf<T>(buf: seq<T>, rows: nat, cols: nat)
    requires |buf| == rows * cols
    ensures Flatten(RowsOf(buf, rows, cols)) == buf
  {
    if rows > 0 {
      RowsOfPeel(buf, rows, cols);
      FlattenRowsOf(buf[cols..], rows - 1, cols);
      var grid := RowsOf(buf, rows, cols);
      assert grid[1..] == RowsOf(buf[cols..], rows - 1, cols);
      assert buf == buf[..cols] + buf[cols..];
    }
  }

  /** A grid of equal-length rows is the grid view of its own flattening. */
  lemma {:induction false} RowsOfFlatten<T>(grid: seq<seq<T>>, cols: nat)
    requires forall r :: 0 <= r < |grid| ==> |grid[r]| == cols
    ensures |Flatten(grid)| == |grid| * cols
    ensures RowsOf(Flatten(grid), |grid|, cols) == grid
  {
    if grid != [] {
      var rest := grid[1..];
      RowsOfFlatten(rest, cols);
      assert |Flatten(grid)| == cols + |rest| * cols == |grid| * cols;
      RowsOfPeel(Flatten(grid), |grid|, cols);
      assert Flatten(grid)[..cols] == grid[0];
      assert Flatten(grid)[cols..] == Flatten(rest);
      assert grid == [grid[0]] + rest;
    }
  }

  /** Cell (i, j) of the grid view is buffer position Index(i, j, cols). */
  lemma RowsOfCell<T>(buf: seq<T>, rows: nat, cols: nat, i: nat, j: nat)
    requires |buf| == rows * cols && i < rows && j < cols
    ensures 0 <= Index(i, j, cols) < |buf|
    ensures RowsOf(buf, rows, cols)[i][j] == buf[Index(i, j, cols)]
  {
    IndexInRange(rows, cols, i, j);
    RowsOfRow(buf, rows, cols, i);
  }

  /**
    Writing buffer position Index(i, j, cols) changes cell (i, j) of the grid
    view and no other cell.
   */
  lemma RowsOfUpdate<T>(buf: seq<T>, rows: nat, cols: nat, i: nat, j: nat, v: T)
    requires |buf| == rows * cols && i < rows && j < cols
    ensures 0 <= Index(i, j, cols) < |buf|
    ensures RowsOf(buf[Index(i, j, cols) := v], rows, cols)
         == RowsOf(buf, rows, cols)[i := RowsOf(buf, rows, cols)[i][j := v]]
  {
    IndexInRange(rows, cols, i, j);
    var k := Index(i, j, cols);
    var before := RowsOf(buf, rows, cols);
    var after := RowsOf(buf[k := v], rows, cols);
    var expected := before[i := before[i][j := v]];
    forall r | 0 <= r < rows
      ensures after[r] == expected[r]
    {
      forall c | 0 <= c < cols
        ensures after[r][c] == expected[r][c]
      {
        RowsOfCell(buf, rows, cols, r, c);
        RowsOfCell(buf[k := v], rows, cols, r, c);
        if r != i || c != j {
          IndexInjective(cols, r, c, i, j);
        }
      }
    }
  }
}
