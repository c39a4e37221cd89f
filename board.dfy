/** Value-level vocabulary of a minefield: difficulty presets, the set of
    board cells, and the count of mines in the 3x3 window around a cell. */
module Board {

  /** A cell position as (row, column). */
  type Coord = (int, int)

  /** Board rows, board columns and number of mines. */
  datatype Dims = Dims(rows: nat, cols: nat, mines: nat)

  /** The difficulty presets: 1 = beginner, 2 = intermediate, 3 = expert.
      Any other level leaves the three fields at Java's default value 0,
      that is, an empty board without mines. */
  function Preset(level: int): (d: Dims)
    ensures 1 <= level <= 3 <==> d.mines > 0
    ensures 1 <= level <= 3 ==> d.rows * d.cols - d.mines > 0
    ensures !(1 <= level <= 3) ==> d.rows * d.cols == 0
  {
    if level == 1 then Dims(9, 9, 10)
    else if level == 2 then Dims(16, 16, 40)
    else if level == 3 then Dims(16, 30, 99)
    else Dims(0, 0, 0)
  }

  /** All cells of a rows x cols board. */
  ghost function Cells(rows: int, cols: int): set<Coord>
  {
    set i, j | 0 <= i < rows && 0 <= j < cols :: (i, j)
  }

  /** The cells of row r of a board with cols columns. */
  ghost function RowCells(r: int, cols: int): set<Coord>
  {
    set j | 0 <= j < cols :: (r, j)
  }

  lemma {:induction false} RowCellsCount(r: int, cols: nat)
    ensures |RowCells(r, cols)| == cols
  {
    if cols == 0 {
      assert RowCells(r, cols) == {};
    } else {
      RowCellsCount(r, cols - 1);
      assert RowCells(r, cols) == RowCells(r, cols - 1) + {(r, cols - 1)};
    }
  }

  /** A rows x cols board has exactly rows * cols cells. */
  lemma {:induction false} CellsCount(rows: nat, cols: nat)
    ensures |Cells(rows, cols)| == rows * cols
  {
    if rows == 0 {
      assert Cells(rows, cols) == {};
    } else {
      CellsCount(rows - 1, cols);
      RowCellsCount(rows - 1, cols);
      assert Cells(rows, cols) == Cells(rows - 1, cols) + RowCells(rows - 1, cols);
      assert Cells(rows - 1, cols) * RowCells(rows - 1, cols) == {};
      assert rows * cols == (rows - 1) * cols + cols;
    }
  }

  /** The first n candidates as a set. */
  ghost function Drawn(candidates: seq<Coord>, n: int): set<Coord>
    requires 0 <= n <= |candidates|
  {
    set k | 0 <= k < n :: candidates[k]
  }

  /** Pairwise distinct candidates draw as many cells as they are. */
  lemma {:induction false} DrawnCount(candidates: seq<Coord>, n: nat)
    requires n <= |candidates|
    requires forall a, b :: 0 <= a < b < n ==> candidates[a] != candidates[b]
    ensures |Drawn(candidates, n)| == n
  {
    if n > 0 {
      DrawnCount(candidates, n - 1);
      assert Drawn(candidates, n) == Drawn(candidates, n - 1) + {candidates[n - 1]};
      assert candidates[n - 1] !in Drawn(candidates, n - 1);
    }
  }

  /** The mines that lie in rows r0 .. r1-1 and columns c0 .. c1-1. */
  ghost function MinesIn(mines: set<Coord>, r0: int, r1: int, c0: int, c1: int): set<Coord>
  {
    set p | p in mines && r0 <= p.0 < r1 && c0 <= p.1 < c1
  }

  /** The number of mines in the 3x3 window centred on (i, j), the centre
      included. Mines only ever lie on the board, so the window is clipped
      to the board. */
  ghost function Surrounding(mines: set<Coord>, i: int, j: int): nat
  {
    |MinesIn(mines, i - 1, i + 2, j - 1, j + 2)|
  }

  /** The character a set board holds at (i, j): '*' on a mine, otherwise
      the digit of the window count. */
  ghost predicate Numeral(mines: set<Coord>, i: int, j: int, ch: char)
  {
    if (i, j) in mines then ch == '*'
    else ch as int == '0' as int + Surrounding(mines, i, j)
  }

  /** Extending a box of one row by one column adds at most the one cell
      (r, c) to the mines found in it. */
  lemma ColumnStep(mines: set<Coord>, r: int, c0: int, c: int)
    requires c0 <= c
    ensures MinesIn(mines, r, r + 1, c0, c + 1)
         == MinesIn(mines, r, r + 1, c0, c) + (if (r, c) in mines then {(r, c)} else {})
    ensures (r, c) !in MinesIn(mines, r, r + 1, c0, c)
  {
  }

  /** The count over one row grows by one exactly when the added cell is a mine. */
  lemma ColumnCount(mines: set<Coord>, r: int, c0: int, c: int, mine: bool)
    requires c0 <= c
    requires mine <==> (r, c) in mines
    ensures |MinesIn(mines, r, r + 1, c0, c + 1)|
         == |MinesIn(mines, r, r + 1, c0, c)| + (if mine then 1 else 0)
  {
    ColumnStep(mines, r, c0, c);
  }

  /** The count over a box is the count over its first rows plus the count over its last row. */
  lemma RowCount(mines: set<Coord>, r0: int, r: int, c0: int, c1: int)
    requires r0 <= r
    ensures |MinesIn(mines, r0, r + 1, c0, c1)|
         == |MinesIn(mines, r0, r, c0, c1)| + |MinesIn(mines, r, r + 1, c0, c1)|
  {
    RowSplit(mines, r0, r, c0, c1);
  }

  /** A box splits into its first rows and its last row, without overlap. */
  lemma RowSplit(mines: set<Coord>, r0: int, r: int, c0: int, c1: int)
    requires r0 <= r
    ensures MinesIn(mines, r0, r + 1, c0, c1)
         == MinesIn(mines, r0, r, c0, c1) + MinesIn(mines, r, r + 1, c0, c1)
    ensures MinesIn(mines, r0, r, c0, c1) * MinesIn(mines, r, r + 1, c0, c1) == {}
  {
  }

  /** A subset is no larger than its superset, and equally large only when equal. */
  lemma SubsetCount<T>(a: set<T>, b: set<T>)
    requires a <= b
    ensures |a| <= |b|
    ensures |a| == |b| <==> a == b
  {
    assert b == a + (b - a);
    if |a| == |b| {
      assert |b - a| == 0;
    }
  }

  /** Removing a subset removes exactly its elements from the count. */
  lemma DifferenceCount<T>(a: set<T>, b: set<T>)
    requires b <= a
    ensures |a - b| == |a| - |b|
  {
    assert a == (a - b) + b;
  }

  /** Around a cell that is not a mine, the window count is the number of
      mine neighbours (diagonals included) and so lies in 0..8. */
  lemma SafeCellSurrounding(mines: set<Coord>, i: int, j: int)
    requires (i, j) !in mines
    ensures Surrounding(mines, i, j) == |MinesIn(mines, i - 1, i + 2, j - 1, j + 2) - {(i, j)}|
    ensures Surrounding(mines, i, j) <= 8
  {
    var w := MinesIn(mines, i - 1, i + 2, j - 1, j + 2);
    var ring := {(i - 1, j - 1), (i - 1, j), (i - 1, j + 1),
                 (i, j - 1), (i, j + 1),
                 (i + 1, j - 1), (i + 1, j), (i + 1, j + 1)};
    assert w - {(i, j)} == w;
    forall p | p in w
      ensures p in ring
    {
      assert p.0 == i - 1 || p.0 == i || p.0 == i + 1;
      assert p.1 == j - 1 || p.1 == j || p.1 == j + 1;
    }
    SubsetCount(w, ring);
  }
}
