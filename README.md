# Minesweeper engine

A Dafny model of the game engine in `Minefield.java` of Simple-Minesweeper,
with its Swing shell removed. The model covers:

- the difficulty presets and the counters the constructor sets up;
- board generation: mines placed at drawn positions, then every other cell
  numbered with the count of mines in its 3x3 window;
- the left click (reveal) and the right click (flag toggle), and the end of
  the game.

`board.dfy` (module `Board`) holds the value-level vocabulary:

- the presets;
- the set of board cells;
- the window count `Surrounding` and the character `Numeral` a set board holds at a cell;
- the counting lemmas about them.

`minefield.dfy` (module `Game`) holds the class `Minefield`:

- a `char` grid (`array2<char>`, `'*'` for a mine, `'0'..'8'` otherwise);
- a per-cell display state (`array2<Cell>`, `Hidden | Revealed | Flagged`), which stands in for each button's text and enabled flag;
- the fields `flagCount`, `nonmineCount`, `gameOver` and `isWinner`.

Board generation and the listener's handlers are methods that update these
in place.

`Valid()` is the invariant of a game. While the game is not lost, it holds that:

- the reveal counter equals the number of uncovered cells;
- no uncovered cell is a mine;
- flags left plus flags placed is the number of mines.

A lost game shows every cell.

The click handlers appear twice:

- `LeftClick` and `RightClick` are the handlers as written. They never look at `gameOver`, and `LeftClick` never looks at what the button shows.
- `Reveal` and `ToggleFlag` add the intended guards: the game is not over, and the cell to reveal must be covered (neither flagged nor uncovered). Both preserve `Valid()`.

The counterexamples under "## Findings" show what the missing guards allow.

`Math.random()` is replaced by a sequence of candidate coordinates that the
caller supplies.

## Model

| member | source | states |
|---|---|---|
| Board.Preset | Minefield.java:51-65 | Levels 1..3 are the only ones that give a board with mines and at least one non-mine cell; any other level leaves an empty board (the fields keep Java's default 0) |
| Board.CellsCount | Minefield.java:67 | A rows x cols board has exactly rows*cols cells, which totNonmines = rows*cols - totMines relies on |
| Board.SafeCellSurrounding | Minefield.java:132-148 | For a cell that is not a mine, the window count is the number of mine neighbours (the centre adds nothing) and lies in 0..8 |
| Game.Minefield.constructor | Minefield.java:48-68 | Dimensions and mines are the level's preset (9x9/10, 16x16/40, 16x30/99); flagCount == totMines, totNonmines == rows*cols - totMines, nonmineCount == 0; no mine, nothing uncovered or flagged, and Valid() holds |
| Game.Minefield.PlaceMines | Minefield.java:88-103 | Draws until totMines draws were accepted (or the candidates run out). Every drawn position is a mine afterwards; the mine count grows by exactly the accepted draws, so accepted positions are distinct; no candidate is drawn after totMines were accepted |
| Game.Minefield.TryMine | Minefield.java:98-101 | A draw is accepted exactly when its cell was not yet a mine; the cell is a mine afterwards and the mine count grows by one exactly on acceptance |
| Game.Minefield.CheckSurrounding | Minefield.java:132-148 | Returns the number of mines in the 3x3 window around (i, j) clipped to the board, the centre included |
| Game.Minefield.PlaceNumbers | Minefield.java:111-120 | Mines are unchanged; every other cell holds '0' plus its window count |
| Game.Minefield.NumberCell | Minefield.java:115-116 | One cell of the numbering pass: a mine stays '*', any other cell gets '0' plus its window count, no other cell changes |
| Game.Minefield.SetBoard | Minefield.java:191-194 | The board is numbered and its mines are among the drawn candidates. It is complete (totMines distinct mines, every other cell numbered) exactly when totMines draws were accepted; otherwise every candidate was drawn and is a mine. The game is still unplayed and valid |
| Game.Minefield.EndGame | Minefield.java:277-293 | A won game keeps every cell as it was; a lost game uncovers every cell |
| Game.Minefield.LeftClick | Minefield.java:209-234 | The left click as written. A mine ends the game and isWinner keeps its value; any other cell is uncovered, the counter grows by one, and reaching totNonmines sets gameOver and isWinner |
| Game.Minefield.Reveal | Minefield.java:215-229 | The guarded left click. It is ignored off the board, after the game is over, or on a cell that is not covered. On a mine the game is lost, never won, and every cell is uncovered. Otherwise exactly that cell is uncovered and counted once, and the game ends, as a win, exactly when the counter reaches totNonmines. Valid() is preserved |
| Game.Minefield.RightClick | Minefield.java:235-263 | The right click as written. A covered cell gets a flag and flagCount drops by one, unless flagCount was not positive: then it is restored and the cell stays covered. A flagged cell loses its flag and becomes covered again, and flagCount grows by one. An uncovered cell or a position off the board changes nothing |
| Game.Minefield.ToggleFlag | Minefield.java:243-258 | The guarded right click. Placing with no flag left is rejected and changes nothing; otherwise placing and removing move flagCount by one in step with the flagged set. Valid() is preserved, so 0 <= flagCount <= totMines, and while the game is not lost flagCount + #flagged == totMines (a lost game uncovers every cell, flags included, without returning them) |
| Game.SafeCount | Minefield.java:67 | On a board with totMines mines, the non-mine cells number exactly rows*cols - totMines, the value the constructor gives totNonmines |
| Game.RevealedAreSafe | Minefield.java:215-224 | In a game not lost, every uncovered cell is a non-mine cell |
| Game.WinMeansAllSafeRevealed | Minefield.java:224-229 | On a complete board in a game not lost, nonmineCount never exceeds totNonmines; it equals totNonmines exactly when every non-mine cell is uncovered; and with at least one non-mine cell, the game is won exactly then |
| Game.GeneratedBoard | Minefield.java:111-120 | A complete board has totNonmines non-mine cells, and each cell holds '*' or a digit '0'..'8' |
| Game.BeginnerBoard | Minefield.java:191-194 | A level-1 board set from ten distinct candidates in the top rows is complete, with exactly 10 mines and 71 cells to count; it is valid and unplayed, and its corner (8, 8) is not a mine |
| Game.RepeatedClickWins | Minefield.java:219-229 | Pressing the same non-mine cell 71 times with the as-written handler wins a complete beginner game while only that one cell is uncovered, so not every non-mine cell is |
| Game.FlaggedClickLosesFlag | Minefield.java:215-224 | Flagging a cell and then left-clicking it with the as-written handler uncovers it and removes the flag, but the flag is not returned: flagCount == totMines - 1 with no flag on the board, so Valid() fails |

## Left out

- The Swing shell is not modelled, for it holds no game logic:
  - the window and panel set-up in the constructor;
  - `coverMinefield`, the button styling and the `JOptionPane` dialogs;
  - the "Flags remaining" label.
- `printMinefield` is not modelled. It is console output only.
- `Minesweeper.java` is not part of this model. It is the dialog that reads the level.
- The scan over every button to find the one clicked is not modelled. The handlers take (row, column) directly, and a position off the board changes nothing, as when the scan finds no match.
- `Math.random()` is replaced by injected candidates:
  - `(int)(Math.random() * n)` always lies in 0..n-1, so each candidate is required to lie on the board.
  - Game.Minefield.PlaceMines: also stops when the candidates run out. The source keeps drawing until it has totMines mines. The postcondition says which of the two ended the loop.
- Game.Minefield.PlaceMines: does not state that cells other than the new mines keep their character. TryMine states this for each draw, but the loop does not carry it.
- Game.Minefield.Reveal and Game.Minefield.ToggleFlag add guards the source does not have:
  - the game is not over;
  - for a reveal, the cell is covered.
  The as-written behaviour is LeftClick and RightClick, and its consequences are under "## Findings".
- Game.Minefield.ToggleFlag: after the game is over it changes nothing, while the source still toggles flags.
- A level outside 1..3 is not rejected: as in the source, it gives a 0x0 board without mines.
- A click always comes from one of the board's buttons, so the source has no out-of-board case; the model treats a position off the board as a click that changes nothing.
- The flag-limit test `totMines - flagCount > totMines` is kept as written. After the decrement it holds exactly when no flag was left before the click, so it rejects exactly that placement.
- `int` overflow is not modelled. The board sizes, mine counts and flagCount stay below 500. nonmineCount is the only counter without a bound: the as-written left click adds one on every press of a non-mine button, so it would overflow only after 2^31 presses.
- The button texts `""` and the flag symbol, and the string identity comparison on them, are modelled as the display state `Hidden` / `Flagged`.

## Findings

| source | as written | input that shows it | evidently intended | confidence | as-written member | corrected member |
|---|---|---|---|---|---|---|
| Minefield.java:209-229 | The left-click handler checks neither gameOver nor whether the cell is already uncovered. It relies on `setEnabled(false)`, but mouse listeners still receive presses on a disabled button, as the unflag path at lines 254-257 itself depends on. | A beginner board; left-click one safe cell 71 times | Each cell is counted once, and the game is won only when every non-mine cell is uncovered | not executed; relies on disabled buttons delivering mouse presses | Game.RepeatedClickWins | Game.Minefield.Reveal |
| Minefield.java:215-224 | A flagged cell still answers a left click. It is uncovered (or the game is lost on a mine), and the flag spent on it is never returned. | A beginner board; right-click (8, 8), then left-click (8, 8) | A flagged cell is protected from the left click (it is disabled at line 251), so flags left plus flags placed stays totMines | not executed; relies on disabled buttons delivering mouse presses | Game.FlaggedClickLosesFlag | Game.Minefield.Reveal |
