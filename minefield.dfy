/** The game engine of Minefield.java without its Swing shell: board set-up,
    left click (reveal) and right click (flag toggle). */
module Game {
  import opened Board

  /** What the button over a cell shows: covered and clickable (text ""),
      flagged (the flag symbol, disabled), or uncovered (the grid character
      as its text, disabled). */
  datatype Cell = Hidden | Revealed | Flagged

  /** The answer to a left click: nothing happened, the cell's character is
      now shown, the game is won, or the game is lost. */
  datatype RevealOutcome = Ignored | Shown(content: char) | Won | Lost

  /** The answer to a right click; Rejected is the "no more flags than
      mines" notice. */
  datatype FlagOutcome = Unchanged | Placed | Removed | Rejected

  class Minefield {
    const rows: nat
    const cols: nat
    const totMines: nat
    const totNonmines: int
    /** '*' for a mine, '0'..'8' for a counted cell once the board is set. */
    const grid: array2<char>
    const cells: array2<Cell>
    var flagCount: int
    var nonmineCount: int
    var gameOver: bool
    var isWinner: bool

    predicate InBoard(r: int, c: int)
    {
      0 <= r < rows && 0 <= c < cols
    }

    ghost predicate Shape()
    {
      grid.Length0 == rows && grid.Length1 == cols &&
      cells.Length0 == rows && cells.Length1 == cols
    }

    /** The cells of the grid that hold a mine. */
    ghost function Mines(): set<Coord>
      requires Shape()
      reads grid
    {
      set p | p in Cells(rows, cols) && 0 <= p.0 < rows && 0 <= p.1 < cols && grid[p.0, p.1] == '*'
    }

    /** A cell holds a mine exactly when it is on the board and its character is '*'. */
    lemma MineAt(r: int, c: int)
      requires Shape()
      ensures (r, c) in Mines() <==> InBoard(r, c) && grid[r, c] == '*'
    {
      if InBoard(r, c) && grid[r, c] == '*' {
        assert (r, c) in Mines();
      }
    }

    /** The cells that are not mines. */
    ghost function SafeCells(): set<Coord>
      requires Shape()
      reads grid
    {
      Cells(rows, cols) - Mines()
    }

    /** The cells whose button is uncovered. */
    ghost function RevealedCells(): set<Coord>
      requires Shape()
      reads cells
    {
      set p | p in Cells(rows, cols) && 0 <= p.0 < rows && 0 <= p.1 < cols && cells[p.0, p.1] == Revealed
    }

    /** The cells whose button carries a flag. */
    ghost function FlaggedCells(): set<Coord>
      requires Shape()
      reads cells
    {
      set p | p in Cells(rows, cols) && 0 <= p.0 < rows && 0 <= p.1 < cols && cells[p.0, p.1] == Flagged
    }

    lemma CellAt(r: int, c: int)
      requires Shape()
      ensures (r, c) in RevealedCells() <==> InBoard(r, c) && cells[r, c] == Revealed
      ensures (r, c) in FlaggedCells() <==> InBoard(r, c) && cells[r, c] == Flagged
    {
      if InBoard(r, c) {
        assert (r, c) in Cells(rows, cols);
      }
    }

    /** Sets what the button over (r, c) shows; only that cell's membership
        in the revealed and flagged sets changes. */
    method SetCell(r: int, c: int, v: Cell)
      requires Shape() && InBoard(r, c)
      modifies cells
      ensures cells[r, c] == v
      ensures forall i, j :: 0 <= i < rows && 0 <= j < cols && (i, j) != (r, c) ==>
                cells[i, j] == old(cells[i, j])
      ensures RevealedCells() == old(RevealedCells()) - {(r, c)} + (if v == Revealed then {(r, c)} else {})
      ensures FlaggedCells() == old(FlaggedCells()) - {(r, c)} + (if v == Flagged then {(r, c)} else {})
    {
      cells[r, c] := v;
    }

    ghost predicate IsLost()
      reads this
    {
      gameOver && !isWinner
    }

    /** The invariant of a game in progress or finished. While the game is not
        lost, the reveal counter counts the uncovered cells, none of which is a
        mine, and flags remaining plus flags placed is the number of mines.
        A lost game shows every cell. */
    ghost predicate Valid()
      reads this, grid, cells
    {
      && Shape()
      && totNonmines == rows * cols - totMines
      && 0 <= flagCount <= totMines
      && (isWinner ==> gameOver && nonmineCount >= totNonmines)
      && (0 < nonmineCount && totNonmines <= nonmineCount ==> isWinner)
      && (IsLost() ==> forall i, j :: 0 <= i < rows && 0 <= j < cols ==> cells[i, j] == Revealed)
      && (!IsLost() ==>
            && nonmineCount == |RevealedCells()|
            && RevealedCells() * Mines() == {}
            && flagCount + |FlaggedCells()| == totMines)
    }

    /** The state right after construction: nothing clicked yet. */
    ghost predicate Unplayed()
      requires Shape()
      reads this, cells
    {
      !gameOver && !isWinner && nonmineCount == 0 && flagCount == totMines &&
      RevealedCells() == {} && FlaggedCells() == {}
    }

    /** Every cell holds '*' or the digit of its window count. */
    ghost predicate Numbered()
      requires Shape()
      reads grid
    {
      forall i, j :: 0 <= i < rows && 0 <= j < cols ==> Numeral(Mines(), i, j, grid[i, j])
    }

    /** A fully set board: the right number of mines, every other cell numbered. */
    ghost predicate Generated()
      reads grid
    {
      Shape() && |Mines()| == totMines && Numbered()
    }

    constructor (level: int)
      ensures Valid() && Unplayed() && Mines() == {}
      ensures Dims(rows, cols, totMines) == Preset(level)
      ensures level == 1 ==> rows == 9 && cols == 9 && totMines == 10
      ensures level == 2 ==> rows == 16 && cols == 16 && totMines == 40
      ensures level == 3 ==> rows == 16 && cols == 30 && totMines == 99
      ensures flagCount == totMines && nonmineCount == 0
      ensures totNonmines == rows * cols - totMines
      ensures fresh(grid) && fresh(cells)
    {
      var d := Preset(level);
      rows, cols, totMines := d.rows, d.cols, d.mines;
      flagCount := d.mines;
      totNonmines := d.rows * d.cols - d.mines;
      nonmineCount := 0;
      grid := new char[d.rows, d.cols]((i, j) => '\0');
      cells := new Cell[d.rows, d.cols]((i, j) => Hidden);
      gameOver, isWinner := false, false;
      new;
      assert Mines() == {};
      assert RevealedCells() == {};
      assert FlaggedCells() == {};
    }

    /** Draws mine positions from candidates, in order, accepting only those
        that are not already mines, until totMines positions were accepted or
        the candidates run out. Every drawn candidate is a mine afterwards,
        each accepted one is a new mine, and no candidate is drawn once
        totMines were accepted. */
    method PlaceMines(candidates: seq<Coord>) returns (used: nat, placed: nat)
      requires Shape()
      requires forall k :: 0 <= k < |candidates| ==> InBoard(candidates[k].0, candidates[k].1)
      modifies grid
      ensures used <= |candidates| && placed <= totMines
      ensures placed == totMines || used == |candidates|
      ensures Mines() == old(Mines()) + Drawn(candidates, used)
      ensures |Mines()| == |old(Mines())| + placed
      ensures 0 < used ==> |old(Mines()) + Drawn(candidates, used - 1)| < |old(Mines())| + totMines
    {
      ghost var m0 := Mines();
      var mineCount := 0;
      used := 0;
      while mineCount < totMines && used < |candidates|
        invariant used <= |candidates| && mineCount <= totMines
        invariant Mines() == m0 + Drawn(candidates, used)
        invariant |Mines()| == |m0| + mineCount
        invariant 0 < used ==> |m0 + Drawn(candidates, used - 1)| < |m0| + totMines
      {
        var r, c := candidates[used].0, candidates[used].1;
        assert Drawn(candidates, used + 1) == Drawn(candidates, used) + {(r, c)};
        var accepted := TryMine(r, c);
        if accepted {
          mineCount := mineCount + 1;
        }
        used := used + 1;
      }
      placed := mineCount;
    }

    /** One draw of the mine-placing loop: (r, c) becomes a mine, and the draw
        is accepted when it was not one before. */
    method TryMine(r: int, c: int) returns (accepted: bool)
      requires Shape() && InBoard(r, c)
      modifies grid
      ensures accepted <==> (r, c) !in old(Mines())
      ensures Mines() == old(Mines()) + {(r, c)}
      ensures |Mines()| == |old(Mines())| + (if accepted then 1 else 0)
      ensures forall i, j :: 0 <= i < rows && 0 <= j < cols && grid[i, j] != '*' ==>
                grid[i, j] == old(grid[i, j])
    {
      MineAt(r, c);
      accepted := grid[r, c] != '*';
      if accepted {
        grid[r, c] := '*';
      }
    }

    /** The number of mines in the 3x3 window around (i, j), looking only at
        window cells that fall within the board. */
    method CheckSurrounding(i: int, j: int) returns (count: int)
      requires Shape()
      ensures count == Surrounding(Mines(), i, j)
    {
      ghost var m := Mines();
      count := 0;
      for di := -1 to 2
        invariant count == |MinesIn(m, i - 1, i + di, j - 1, j + 2)|
      {
        RowCount(m, i - 1, i + di, j - 1, j + 2);
        for dj := -1 to 2
          invariant count == |MinesIn(m, i - 1, i + di, j - 1, j + 2)|
                           + |MinesIn(m, i + di, i + di + 1, j - 1, j + dj)|
        {
          var r, c := i + di, j + dj;
          var mine := 0 <= r < rows && 0 <= c < cols && grid[r, c] == '*';
          MineAt(r, c);
          ColumnCount(m, r, j - 1, c, mine);
          if mine {
            count := count + 1;
          }
        }
      }
    }

    /** Replaces every cell that is not a mine with the digit of its window
        count; the mines stay, so the grid afterwards is determined by them. */
    method PlaceNumbers()
      requires Shape()
      modifies grid
      ensures Mines() == old(Mines())
      ensures Numbered()
    {
      ghost var m := Mines();
      for i := 0 to rows
        invariant Mines() == m
        invariant forall i', j :: 0 <= i' < i && 0 <= j < cols ==> Numeral(m, i', j, grid[i', j])
      {
        for j := 0 to cols
          invariant Mines() == m
          invariant forall i', j' :: 0 <= i' < i && 0 <= j' < cols ==> Numeral(m, i', j', grid[i', j'])
          invariant forall j' :: 0 <= j' < j ==> Numeral(m, i, j', grid[i, j'])
        {
          NumberCell(i, j);
        }
      }
    }

    /** One step of the numbering pass: a cell that is not a mine gets the
        digit of its window count. */
    method NumberCell(i: int, j: int)
      requires Shape() && InBoard(i, j)
      modifies grid
      ensures Mines() == old(Mines())
      ensures Numeral(Mines(), i, j, grid[i, j])
      ensures forall i', j' :: 0 <= i' < rows && 0 <= j' < cols && (i', j') != (i, j) ==>
                grid[i', j'] == old(grid[i', j'])
    {
      MineAt(i, j);
      if grid[i, j] != '*' {
        var k := CheckSurrounding(i, j);
        SafeCellSurrounding(Mines(), i, j);
        grid[i, j] := (k + 48) as char;
      }
    }

    /** Sets the board: mines first, then the numbers. */
    method SetBoard(candidates: seq<Coord>) returns (complete: bool)
      requires Valid() && Unplayed() && Mines() == {}
      requires forall k :: 0 <= k < |candidates| ==> InBoard(candidates[k].0, candidates[k].1)
      modifies grid
      ensures Valid() && Unplayed() && Numbered()
      ensures Mines() <= Drawn(candidates, |candidates|)
      ensures !complete ==> Mines() == Drawn(candidates, |candidates|)
      ensures complete <==> |Mines()| == totMines
      ensures complete ==> Generated()
    {
      var used, placed := PlaceMines(candidates);
      assert placed < totMines ==> used == |candidates|;
      PlaceNumbers();
      complete := placed == totMines;
    }

    /** End of game: a won game only shows a dialog; a lost one uncovers every cell. */
    method EndGame()
      requires Shape()
      modifies cells
      ensures forall i, j :: 0 <= i < rows && 0 <= j < cols ==>
                cells[i, j] == if isWinner then old(cells[i, j]) else Revealed
    {
      if !isWinner {
        for i := 0 to rows
          invariant forall i', j :: 0 <= i' < i && 0 <= j < cols ==> cells[i', j] == Revealed
        {
          for j := 0 to cols
            invariant forall i', j' :: 0 <= i' < i && 0 <= j' < cols ==> cells[i', j'] == Revealed
            invariant forall j' :: 0 <= j' < j ==> cells[i, j'] == Revealed
          {
            cells[i, j] := Revealed;
          }
        }
      }
    }

    /** A left click can take effect: the cell is on the board, the game is
        not over and the cell is still covered. */
    predicate CanReveal(r: int, c: int)
      requires Shape()
      reads this, cells
    {
      InBoard(r, c) && !gameOver && cells[r, c] == Hidden
    }

    /** A right click can take effect: the cell is on the board, the game is
        not over and the cell is not uncovered. */
    predicate CanToggle(r: int, c: int)
      requires Shape()
      reads this, cells
    {
      InBoard(r, c) && !gameOver && cells[r, c] != Revealed
    }

    /** The left-click handler as the listener runs it, with no check of
        gameOver or of the cell's state. A mine ends the game; any other cell
        is uncovered and counted, and reaching totNonmines wins. */
    method LeftClick(r: int, c: int)
      requires Shape()
      modifies this, cells
      ensures flagCount == old(flagCount)
      ensures !InBoard(r, c) ==> unchanged(this, cells)
      ensures InBoard(r, c) && grid[r, c] == '*' ==>
                && gameOver && isWinner == old(isWinner) && nonmineCount == old(nonmineCount)
                && forall i, j :: 0 <= i < rows && 0 <= j < cols ==>
                     cells[i, j] == if isWinner then old(cells[i, j]) else Revealed
      ensures InBoard(r, c) && grid[r, c] != '*' ==>
                && nonmineCount == old(nonmineCount) + 1
                && gameOver == (old(gameOver) || nonmineCount >= totNonmines)
                && isWinner == (old(isWinner) || nonmineCount >= totNonmines)
                && cells[r, c] == Revealed
                && (forall i, j :: 0 <= i < rows && 0 <= j < cols && (i, j) != (r, c) ==>
                      cells[i, j] == old(cells[i, j]))
                && RevealedCells() == old(RevealedCells()) + {(r, c)}
                && FlaggedCells() == old(FlaggedCells()) - {(r, c)}
    {
      if InBoard(r, c) {
        if grid[r, c] == '*' {
          gameOver := true;
          EndGame();
        } else {
          SetCell(r, c, Revealed);
          nonmineCount := nonmineCount + 1;
          if nonmineCount >= totNonmines {
            gameOver := true;
            isWinner := true;
            EndGame();
          }
        }
      }
    }

    /** Left click with the intended guards: it takes effect only on a covered
        cell of a game still in progress. Revealing a mine loses (never wins)
        and uncovers the whole board; revealing any other cell uncovers it,
        counts it, and wins when every non-mine cell is counted. */
    method Reveal(r: int, c: int) returns (out: RevealOutcome)
      requires Valid()
      modifies this, cells
      ensures Valid()
      ensures flagCount == old(flagCount)
      ensures !old(CanReveal(r, c)) ==> out == Ignored && unchanged(this, cells)
      ensures old(CanReveal(r, c)) && (r, c) in Mines() ==>
                && out == Lost && gameOver && !isWinner
                && nonmineCount == old(nonmineCount)
                && forall i, j :: 0 <= i < rows && 0 <= j < cols ==> cells[i, j] == Revealed
      ensures old(CanReveal(r, c)) && (r, c) !in Mines() ==>
                && cells[r, c] == Revealed
                && (forall i, j :: 0 <= i < rows && 0 <= j < cols && (i, j) != (r, c) ==>
                      cells[i, j] == old(cells[i, j]))
                && RevealedCells() == old(RevealedCells()) + {(r, c)}
                && nonmineCount == old(nonmineCount) + 1
                && gameOver == isWinner == (nonmineCount >= totNonmines)
                && out == if isWinner then Won else Shown(grid[r, c])
    {
      if !CanReveal(r, c) {
        return Ignored;
      }
      MineAt(r, c);
      CellAt(r, c);
      LeftClick(r, c);
      if grid[r, c] == '*' {
        out := Lost;
      } else if isWinner {
        out := Won;
      } else {
        out := Shown(grid[r, c]);
      }
    }

    /** The right-click handler as the listener runs it, with no check of
        gameOver. On a covered cell it spends a flag, and takes the spending
        back when that leaves fewer than none; on a flagged cell it takes the
        flag back; on an uncovered cell it does nothing. */
    method RightClick(r: int, c: int) returns (out: FlagOutcome)
      requires Shape()
      modifies this, cells
      ensures gameOver == old(gameOver) && isWinner == old(isWinner)
      ensures nonmineCount == old(nonmineCount)
      ensures RevealedCells() == old(RevealedCells())
      ensures !InBoard(r, c) || old(cells[r, c]) == Revealed ==> out == Unchanged && unchanged(this, cells)
      ensures InBoard(r, c) && old(cells[r, c]) == Hidden && old(flagCount) <= 0 ==>
                out == Rejected && unchanged(this, cells)
      ensures InBoard(r, c) && old(cells[r, c]) == Hidden && old(flagCount) > 0 ==>
                && out == Placed && cells[r, c] == Flagged
                && flagCount == old(flagCount) - 1
                && FlaggedCells() == old(FlaggedCells()) + {(r, c)}
      ensures InBoard(r, c) && old(cells[r, c]) == Flagged ==>
                && out == Removed && cells[r, c] == Hidden
                && flagCount == old(flagCount) + 1
                && FlaggedCells() == old(FlaggedCells()) - {(r, c)}
      ensures forall i, j :: 0 <= i < rows && 0 <= j < cols && (i, j) != (r, c) ==>
                cells[i, j] == old(cells[i, j])
    {
      out := Unchanged;
      if InBoard(r, c) {
        CellAt(r, c);
        if cells[r, c] == Hidden {
          flagCount := flagCount - 1;
          if totMines - flagCount > totMines {
            flagCount := flagCount + 1;
            out := Rejected;
          } else {
            SetCell(r, c, Flagged);
            out := Placed;
          }
        } else if cells[r, c] == Flagged {
          flagCount := flagCount + 1;
          SetCell(r, c, Hidden);
          out := Removed;
        }
      }
    }

    /** Right click with the intended guard that the game is not over. A
        placement with no flag left is rejected and changes nothing, so the
        flags left stay within 0 .. totMines and, with the flags placed, add
        up to totMines. */
    method ToggleFlag(r: int, c: int) returns (out: FlagOutcome)
      requires Valid()
      modifies this, cells
      ensures Valid()
      ensures gameOver == old(gameOver) && isWinner == old(isWinner)
      ensures nonmineCount == old(nonmineCount)
      ensures RevealedCells() == old(RevealedCells())
      ensures !old(CanToggle(r, c)) ==> out == Unchanged && unchanged(this, cells)
      ensures old(CanToggle(r, c)) && old(cells[r, c]) == Hidden && old(flagCount) == 0 ==>
                out == Rejected && unchanged(this, cells)
      ensures old(CanToggle(r, c)) && old(cells[r, c]) == Hidden && old(flagCount) > 0 ==>
                && out == Placed && cells[r, c] == Flagged
                && flagCount == old(flagCount) - 1
                && FlaggedCells() == old(FlaggedCells()) + {(r, c)}
      ensures old(CanToggle(r, c)) && old(cells[r, c]) == Flagged ==>
                && out == Removed && cells[r, c] == Hidden
                && flagCount == old(flagCount) + 1
                && FlaggedCells() == old(FlaggedCells()) - {(r, c)}
      ensures forall i, j :: 0 <= i < rows && 0 <= j < cols && (i, j) != (r, c) ==>
                cells[i, j] == old(cells[i, j])
    {
      if gameOver {
        return Unchanged;
      }
      if InBoard(r, c) {
        CellAt(r, c);
      }
      out := RightClick(r, c);
    }
  }

  /** The non-mine cells of a board with totMines mines number rows * cols - totMines. */
  lemma SafeCount(m: Minefield)
    requires m.Shape() && |m.Mines()| == m.totMines
    ensures |m.SafeCells()| == m.rows * m.cols - m.totMines
  {
    CellsCount(m.rows, m.cols);
    DifferenceCount(Cells(m.rows, m.cols), m.Mines());
  }

  /** In a game not lost, every uncovered cell is a non-mine cell. */
  lemma RevealedAreSafe(m: Minefield)
    requires m.Valid() && !m.IsLost()
    ensures m.RevealedCells() <= m.SafeCells()
  {
    forall p | p in m.RevealedCells()
      ensures p in m.SafeCells()
    {
      m.CellAt(p.0, p.1);
      assert p in Cells(m.rows, m.cols);
      assert p !in m.RevealedCells() * m.Mines();
    }
  }

  /** While the game is not lost, the reveal counter never passes the number
      of non-mine cells, and it reaches that number exactly when every
      non-mine cell is uncovered; with at least one non-mine cell, that is
      exactly when the game is won. */
  lemma WinMeansAllSafeRevealed(m: Minefield)
    requires m.Valid() && |m.Mines()| == m.totMines && !m.IsLost()
    ensures m.nonmineCount <= m.totNonmines
    ensures m.nonmineCount == m.totNonmines <==> m.RevealedCells() == m.SafeCells()
    ensures m.totNonmines > 0 ==> (m.isWinner <==> m.RevealedCells() == m.SafeCells())
  {
    SafeCount(m);
    RevealedAreSafe(m);
    SubsetCount(m.RevealedCells(), m.SafeCells());
  }

  /** A set board holds '*' on its mines and a digit '0'..'8' on every other
      cell, and has exactly totNonmines cells that are not mines. */
  lemma GeneratedBoard(m: Minefield)
    requires m.Valid() && m.Generated()
    ensures |m.SafeCells()| == m.totNonmines
    ensures forall i, j :: 0 <= i < m.rows && 0 <= j < m.cols ==>
              m.grid[i, j] == '*' || '0' <= m.grid[i, j] <= '8'
  {
    SafeCount(m);
    forall i, j | 0 <= i < m.rows && 0 <= j < m.cols
      ensures m.grid[i, j] == '*' || '0' <= m.grid[i, j] <= '8'
    {
      m.MineAt(i, j);
      if (i, j) !in m.Mines() {
        SafeCellSurrounding(m.Mines(), i, j);
      }
    }
  }

  /** A beginner board whose ten mines fill row 0 and the first cell of
      row 1, drawn in that order, so that the bottom-right cell (8, 8) is safe. */
  method BeginnerBoard() returns (m: Minefield)
    ensures m.Valid() && m.Unplayed() && m.Generated()
    ensures |m.Mines()| == 10
    ensures m.rows == 9 && m.cols == 9 && m.totMines == 10 && m.totNonmines == 71
    ensures (8, 8) !in m.Mines() && m.grid[8, 8] != '*'
    ensures fresh(m) && fresh(m.grid) && fresh(m.cells)
  {
    m := new Minefield(1);
    var candidates := seq(10, k => (k / 9, k % 9));
    assert forall k :: 0 <= k < |candidates| ==> candidates[k].0 <= 1 && m.InBoard(candidates[k].0, candidates[k].1);
    DrawnCount(candidates, 10);
    var complete := m.SetBoard(candidates);
    assert (8, 8) !in Drawn(candidates, |candidates|);
    m.MineAt(8, 8);
  }

  /** The left-click handler does not look at what the button shows: a
      player who presses the same non-mine cell 71 times wins a beginner
      game with a single cell uncovered. */
  method RepeatedClickWins() returns (m: Minefield)
    ensures m.Shape() && m.totNonmines == 71
    ensures m.gameOver && m.isWinner
    ensures m.RevealedCells() == {(8, 8)}
    ensures m.Generated() && m.RevealedCells() != m.SafeCells()
  {
    m := BeginnerBoard();
    ghost var g := m.Mines();
    var k := 0;
    while k < 71
      invariant 0 <= k <= 71
      invariant m.Shape() && m.rows == 9 && m.cols == 9 && m.totNonmines == 71
      invariant m.grid[8, 8] != '*'
      invariant m.nonmineCount == k
      invariant m.gameOver == m.isWinner == (k == 71)
      invariant m.RevealedCells() == if k == 0 then {} else {(8, 8)}
      invariant m.Mines() == g && m.Generated()
      modifies m, m.cells
    {
      m.LeftClick(8, 8);
      k := k + 1;
    }
    SafeCount(m);
  }

  /** A flagged cell can still be left-clicked: it is uncovered, its flag
      disappears, and the flag spent on it is never returned, so the
      remaining-flag counter no longer matches the flags on the board. */
  method FlaggedClickLosesFlag() returns (m: Minefield)
    ensures m.Shape() && !m.gameOver
    ensures m.RevealedCells() == {(8, 8)} && m.FlaggedCells() == {}
    ensures m.flagCount == m.totMines - 1
    ensures !m.Valid()
  {
    m := BeginnerBoard();
    m.CellAt(8, 8);
    var placed := m.ToggleFlag(8, 8);
    assert placed == Placed;
    m.LeftClick(8, 8);
  }
}
