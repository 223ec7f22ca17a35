# Mine-sweeper board model

A Dafny model of the board state machine of the mine-sweeper game. The game has two
near-identical board classes. `Board.java` is the solo board. `MultiplayerBoard.java`
is the same board plus an optional 2-to-4-player mode with cell owners, scores and a
round-robin turn.

Both boards keep the game in a flat `int[] field` of `rows * cols` cell codes:

| codes | meaning |
|---|---|
| 0..8 | an open cell showing its adjacent-mine count |
| 9 | an open mine |
| 10..18 | a covered safe cell |
| 19 | a covered mine |
| 20..28 | a marked safe cell |
| 29 | a marked mine |

The model has one module per concern. The generation and flood-fill code is the same
in both classes, so one definition serves both.

- `Options`: the `Option` result type.
- `Cells`: the code constants, and a decode/encode pair between a code and a
  (layer, content) cell.
- `Grid`: the board dimensions and the neighbour list in the order the source visits
  it, proved equal to geometric 8-adjacency.
- `Layout`: the mine set, the adjacent-mine count and the "every digit is exact" invariant.
- `Generation`: `newGame`'s mine placement. It draws candidate positions from a
  caller-supplied sequence and returns `None` if the draws run out.
- `FloodFill`: `find_empty_cells` as a pair of mutually recursive functions over a
  sweep (field, owner map, points gained). It terminates because the sum of the field
  drops by 10 at every touch.
- `Paint`: the image chosen for each cell and the won/lost decision of `paintComponent`.
- `Solo`: the `Board.java` commands (toggle mark, reveal, click on a finished game)
  and the board invariant they keep.
- `Multiplayer`: the `MultiplayerBoard.java` game, with owners, scores, turn, winner
  and its own click rules.

The source's quirks are modelled as written:

- The flood fill also strips marks. It takes 10 off any neighbour above 9, so a marked
  safe cell goes back to covered. The fill can then open it later, and in multiplayer
  mode it gets an owner and a point.
- The win test counts only covered, unmarked cells (codes 10..19).
- A direct reveal of a cell showing `k` scores `k + 1`, and a mine scores 10 before
  the 10-point penalty.
- The solo board starts a new game on a click after the game ends and applies the
  click to it. The multiplayer board starts a new game and ignores the click.
- A winning reveal still passes the turn, because the win is only noticed by the
  next repaint.
- A repaint of a board already declared won reports it lost.

## Model

| member | source | states |
|---|---|---|
| Cells.Encode | src/main/java/mines/Board.java:21-26 | every valid (layer, content) cell has a code in 0..29 whose digit is its count, or 9 for a mine |
| Cells.Decode | src/main/java/mines/Board.java:21-26 | every code in 0..29 stands for a valid cell, and it is a mine exactly when its digit is 9 |
| Cells.DecodeEncode | src/main/java/mines/Board.java:21-26 | decoding the code of a cell gives the cell back |
| Cells.EncodeDecode | src/main/java/mines/Board.java:21-26 | encoding the meaning of a code gives the code back, so the codes 0..29 and the valid cells are in one-to-one correspondence |
| Grid.Neighbours | src/main/java/mines/Board.java:172-210 | the column and row guards list at most 8 candidates; the lemmas below say which |
| Grid.NeighboursAreAdjacent | src/main/java/mines/Board.java:172-210 | the column and row guards list exactly the in-grid cells one row and one column away, with no wrap-around between rows |
| Grid.NeighboursDistinct | src/main/java/mines/Board.java:172-210 | no neighbour is listed twice, and there are at most 8 |
| Grid.NeighboursInGrid | src/main/java/mines/Board.java:172-210 | every listed neighbour is a cell of the grid |
| Layout.ExactCountsGuardZeros | src/main/java/mines/Board.java:216-287 | on a board whose digits count the adjacent mines, no cell showing 0 has a mine among the cells the fill visits from it |
| Layout.SameDigits | src/main/java/mines/Board.java:351-383 | changing only layers keeps the mine set and the exactness of every count |
| Generation.BumpAllPointwise | src/main/java/mines/Board.java:172-210 | raising the listed neighbours raises each listed non-mine cell by one and changes nothing else |
| Generation.BumpAllFrame | src/main/java/mines/Board.java:172-210 | a cell that is not listed, or is a covered mine, is never raised, even when a list repeats a cell |
| Generation.PlaceMine | src/main/java/mines/Board.java:168-210 | the placed cell ends up a covered mine whatever the bumps of its neighbours do |
| Generation.PlaceMineFrame | src/main/java/mines/Board.java:168-210 | placing a mine changes only the placed cell and the neighbours the guards list |
| Generation.PlaceMinePointwise | src/main/java/mines/Board.java:165-210 | after a new mine at `p`, every mine cell holds 19 and every other cell holds 10 plus its adjacent-mine count with `p` included |
| Generation.PlaceMineKeepsGenerated | src/main/java/mines/Board.java:165-210 | placing a mine on a free cell keeps the field freshly generated and adds exactly that cell to the mine set |
| Generation.GeneratedMeaning | src/main/java/mines/Board.java:156-210 | a freshly generated field is all covered, its 19s are exactly its mines, and every count is exact |
| Generation.PlaceMinesSound | src/main/java/mines/Board.java:161-212 | a placement that finishes adds exactly the requested number of new mines, each one a drawn position, and keeps every count exact |
| Generation.PlaceMinesNeedsDraws | src/main/java/mines/Board.java:161-170 | each loop turn places at most one mine, so fewer draws than mines still to place never finish |
| Generation.PlaceMinesSucceeds | src/main/java/mines/Board.java:161-170 | placement finishes whenever the draws contain at least as many distinct free in-grid positions as mines still to place |
| Generation.Blank | src/main/java/mines/Board.java:156-157 | the all-10 field is a generated field with no mines |
| Generation.NewField | src/main/java/mines/Board.java:142-213 | a generated field has exactly `mines` mines, all drawn, and exact counts |
| Generation.NewFieldSucceeds | src/main/java/mines/Board.java:161-170 | generation finishes when the draws hold at least `mines` distinct in-grid positions |
| Generation.NewFieldTooManyMines | src/main/java/mines/Board.java:161-170 | asking for more mines than cells never finishes (the source loops forever) |
| FloodFill.Touch | src/main/java/mines/MultiplayerBoard.java:258-263 | a touch takes exactly 10 off the touched cell and, when owners are tracked, leaves the cell owned |
| FloodFill.TouchLowers | src/main/java/mines/Board.java:223-226 | one touch takes exactly 10 off the field sum, keeps codes in range and keeps every digit |
| FloodFill.Step | src/main/java/mines/Board.java:221-227 | touching a cell above 9, and filling on if it became 0, strictly lowers the field sum, which is why the fill terminates |
| FloodFill.Fill | src/main/java/mines/Board.java:216-287 | the fill keeps the field in range and only takes whole layers off cells, never changing a digit |
| FloodFill.Visit | src/main/java/mines/Board.java:220-286 | visiting the neighbours in the source's order keeps codes in range, only takes whole layers off cells and never raises the field sum |
| FloodFill.FillLocal | src/main/java/mines/Board.java:216-287 | every cell the fill changes is a neighbour of the start or of a cell the fill turned into 0 |
| FloodFill.FillClosed | src/main/java/mines/Board.java:216-287 | every neighbour of the start and of every cell turned into 0 ends up unmarked, and ends up open if it was not marked |
| FloodFill.FillSparesMines | src/main/java/mines/Board.java:216-287 | started at a 0 on a board where no 0 touches a mine, the fill changes no mine and never produces a revealed mine |
| FloodFill.FillOwners | src/main/java/mines/MultiplayerBoard.java:251-354 | existing owners are kept; when owners are tracked, every changed cell gets the current player as owner; the points gained equal the number of new owners |
| FloodFill.FillFieldOnly | src/main/java/mines/MultiplayerBoard.java:251-354 | the field a fill leaves does not depend on owner tracking, so both classes' fills open the same cells |
| Paint.InGameImage | src/main/java/mines/Board.java:314-318 | while playing every code has an image below 13, never the wrong-mark image, and the mine image only for an open mine |
| Paint.OverImage | src/main/java/mines/Board.java:303-312 | after the game every code has an image below 13, and the mine image marks exactly the unmarked mines, open or covered |
| Paint.Outcome | src/main/java/mines/Board.java:326-330 | the game keeps running iff it ran, no mine is open and the win count is not met; a stopped game always reads as lost |
| Paint.Paint | src/main/java/mines/Board.java:290-331 | each cell's image follows the in-game mapping until the first open mine and the game-over mapping from there on; every image is below 13; the repaint wins iff the game ran, no mine is open and exactly `mines` cells are in 10..19; it loses iff it did not win and either the game had stopped or a mine is open |
| Paint.ImageInRange | src/main/java/mines/Board.java:300-322 | every code in 0..29 has an image index in 0..12 in both mappings |
| Paint.InGameImageShows | src/main/java/mines/Board.java:314-318 | while playing, the mark image is shown iff the cell is marked, the cover image iff it is covered, and an open cell shows its digit |
| Paint.OverImageShows | src/main/java/mines/Board.java:303-312 | after the game, unmarked mines are shown, correct marks stay marks, wrong marks are flagged, covered safe cells stay covered |
| Paint.WinMeansCleared | src/main/java/mines/Board.java:326-330 | with no marks and no open mine, the win count says exactly that every safe cell is open |
| Paint.MarkBlocksWin | src/main/java/mines/Board.java:314-330 | on any board whose safe cells are all open, one correctly marked mine keeps the repaint from declaring a win |
| Solo.NewGame | src/main/java/mines/Board.java:142-213 | a new board is valid, running, generated, and has the whole flag budget available |
| Solo.ToggleMarkAt | src/main/java/mines/Board.java:351-366 | a covered cell gains a mark and uses a flag only while flags remain; a marked cell loses its mark and returns a flag; open cells and every other cell are untouched |
| Solo.ToggleMarkMeaning | src/main/java/mines/Board.java:351-366 | a toggle changes only the layer of the clicked cell (covered to marked while flags remain, marked to covered) and never its content |
| Solo.ToggleMarkTwice | src/main/java/mines/Board.java:351-366 | a toggle that changed the board is undone by a second toggle |
| Solo.ToggleMarkBudget | src/main/java/mines/Board.java:351-366 | a toggle keeps `mines_left` plus the number of marked cells, keeps `mines_left` non-negative and keeps every digit |
| Solo.ToggleMarkValid | src/main/java/mines/Board.java:351-366 | a toggle keeps the board invariant |
| Solo.SoloFill | src/main/java/mines/Board.java:216-287 | the solo board's fill keeps codes in range and only takes whole layers off cells |
| Solo.RevealAt | src/main/java/mines/Board.java:369-383 | a click on an open or marked cell changes nothing; on a covered cell it takes exactly 10 off, ends the game iff a mine appears, and changes no other cell unless the cell became 0 |
| Solo.RevealFloods | src/main/java/mines/Board.java:373-383 | revealing a covered 0 floods exactly as the fill does from it, changes no mine and reveals no mine |
| Solo.RevealSparesMines | src/main/java/mines/Board.java:369-383 | on a valid board a reveal changes no mine except the clicked cell |
| Solo.RevealValid | src/main/java/mines/Board.java:369-383 | a reveal keeps the board invariant: codes in range, exact counts, `mines` mines, flag budget, no open mine while running |
| Solo.Apply | src/main/java/mines/Board.java:350-389 | a click outside the grid changes nothing |
| Solo.ApplyValid | src/main/java/mines/Board.java:350-389 | every click keeps the board invariant |
| Solo.Press | src/main/java/mines/Board.java:336-389 | a running game takes the click; a finished game is replaced by a new one, which then takes the click; the result is always valid |
| Solo.Repaint | src/main/java/mines/Board.java:326-330 | a repaint only lowers `inGame`, and it stays up iff no mine is open and the win count is not met |
| Solo.RepaintAfterWin | src/main/java/mines/Board.java:326-330 | the repaint that declares a win stops the game, so the next repaint of the same board reports it lost |
| Solo.RepaintValid | src/main/java/mines/Board.java:326-330 | a repaint keeps the board invariant |
| Solo.WonIffCleared | src/main/java/mines/Board.java:314-330 | on a valid running board with no marks, a repaint is won iff every safe cell is open |
| Multiplayer.Create | src/main/java/mines/MultiplayerBoard.java:52-61 | multiplayer mode is on iff it was asked for with 2 to 4 players, with one score per player; the new game is valid and running |
| Multiplayer.Restart | src/main/java/mines/MultiplayerBoard.java:167-190 | a new game has no owners, player 0 to move, every score 0, the whole flag budget and a generated field; it is valid |
| Multiplayer.NextPlayer | src/main/java/mines/MultiplayerBoard.java:370-375 | the turn passes round-robin and stays a player index in multiplayer mode, and nothing changes in solo mode |
| Multiplayer.Winner | src/main/java/mines/MultiplayerBoard.java:449-457 | the winner has the highest score and every earlier player has a strictly lower one |
| Multiplayer.RevealPoints | src/main/java/mines/MultiplayerBoard.java:510 | a revealed cell showing `k` is worth `k + 1`, including 1 for an empty cell |
| Multiplayer.RevealSweep | src/main/java/mines/MultiplayerBoard.java:502-522 | the multiplayer reveal and fill leave the same field as the solo reveal, and only add owners for the cells they change |
| Multiplayer.FillFrom | src/main/java/mines/MultiplayerBoard.java:520-522 | the fill runs only from a cell that became 0; it keeps codes in range, takes off whole layers, and only adds owners for the cells it changes |
| Multiplayer.RevealMpField | src/main/java/mines/MultiplayerBoard.java:251-354 | the fill that tracks owners leaves the same field as the solo board's fill |
| Multiplayer.RevealMp | src/main/java/mines/MultiplayerBoard.java:498-527 | the board changes as on the solo board; a click that uncovers nothing changes nothing; the turn passes iff in multiplayer mode the click uncovered a cell and the game still runs |
| Multiplayer.Uncover | src/main/java/mines/MultiplayerBoard.java:505-526 | an uncovering click takes the sweep's field and owners, ends the game iff the cell was a covered mine, keeps the flag budget, and in multiplayer mode passes the turn round-robin iff the game still runs |
| Multiplayer.UncoverScores | src/main/java/mines/MultiplayerBoard.java:508-519 | an uncovering click pays the current player one point per new owner, the clicked cell's number on top if it was free, and minus 10 for a mine |
| Multiplayer.RevealMpOwners | src/main/java/mines/MultiplayerBoard.java:508-512 | an owner once set never changes, new owners are the current player, and the owned cells grow by exactly the changed cells (none in solo mode) |
| Multiplayer.RevealMpScores | src/main/java/mines/MultiplayerBoard.java:508-519 | a reveal changes only the current player's score, by the number of new owners plus the clicked cell's number if it was free, minus 10 for a mine |
| Multiplayer.ToggleMarkMp | src/main/java/mines/MultiplayerBoard.java:479-496 | a mark toggle follows the solo rule and never moves the turn, an owner or a score |
| Multiplayer.Press | src/main/java/mines/MultiplayerBoard.java:461-535 | a click on a finished game only restarts it; a click outside the grid changes nothing; every result is a valid game |
| Multiplayer.RevealMpValid | src/main/java/mines/MultiplayerBoard.java:498-527 | a reveal keeps the game invariant: the board invariant, owners that are cells and players, owned mines open, every open cell owned, scores non-negative |
| Multiplayer.RevealKeepsOwnersInRange | src/main/java/mines/MultiplayerBoard.java:508-512 | every owned cell stays a grid cell owned by a player |
| Multiplayer.RevealKeepsOwnedMines | src/main/java/mines/MultiplayerBoard.java:508-519 | a mine gets an owner only when it is clicked and revealed |
| Multiplayer.RevealOwnsOpenCells | src/main/java/mines/MultiplayerBoard.java:505-512 | in multiplayer mode every open cell has an owner after a reveal |
| Multiplayer.RevealKeepsScores | src/main/java/mines/MultiplayerBoard.java:508-519 | no score goes negative, because a mine's penalty follows its own 10 points |
| Multiplayer.ToggleMarkMpValid | src/main/java/mines/MultiplayerBoard.java:479-496 | a mark toggle keeps the game invariant |
| Multiplayer.MineRevealNetZero | src/main/java/mines/MultiplayerBoard.java:510-526 | clicking a covered mine leaves every score unchanged, ends the game, keeps the turn and gives the mine to the current player |
| Multiplayer.SafeRevealAdvances | src/main/java/mines/MultiplayerBoard.java:524-526 | every click that uncovers a safe cell passes the turn, including the click that wins |
| Multiplayer.FinishedGameClick | src/main/java/mines/MultiplayerBoard.java:470-474 | after a finished game, the solo board's click opens the clicked cell of the new game, while the multiplayer board's new game keeps it covered |

## Left out

- Swing rendering is left out: image loading, placeholder images, colours, `repaint()` scheduling and the owner borders drawn in multiplayer mode. `Paint.Paint` returns the image indices instead of drawing them.
- The translation from a mouse event to a cell index is left out. A command names a cell index directly, and an index at or beyond `rows * cols` stands for a click outside the panel.
- `java.util.Random` is replaced by the caller-supplied draws. A draw at or beyond `rows * cols` is skipped, like the `position < all_cells` guard.
- Generation.NewField: the source retries for ever, and loops for ever when there are more mines than cells. The model stops with `None` when the draws run out, so it does not state that generation eventually succeeds with a real random source.
- The status bar text and console logging are left out, including the winner announcement. `Multiplayer.Winner` computes the winner that announcement names.
- Player names and colours are left out. A player is a score in a sequence, and `resetScore`/`addPoints` are updates of that sequence.
- The repaint that follows a click is a separate function, `Solo.Repaint`. The caller composes it with `Press`, as the event loop does.
- The paint loop runs over rows and then columns. The model walks the flat field in index order, which is the same order because `i * cols + j` counts up.
- Java's 32-bit `int` overflow is not modelled. Scores grow by at most the number of cells per click.
- `MultiplayerMines.java` is not part of this model. It only builds the window and the mode-selection dialog.
- The `maintenance` package is not part of this model. It is a report generator that never touches the board.
- The multiplayer paint's outcome is the solo paint's outcome with different status text, so `Paint.Paint` serves both classes.
- Cells.Digit is defined by subtracting the layer offset; on codes 0..29 this equals `v % 10`.
