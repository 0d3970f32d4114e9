# fp-tetris engine in Dafny

This is a model of the game engine of `fp-tetris.js`, a browser Tetris. The page holds a flat, row-major array of
200 playable cells, with one floor row of ten taken cells below them, and each cell carries the "taken" and
"tetromino" classes. A closure of variables holds the current piece (`currentPosition`, `currentRotation`,
`random`, `current`), the previewed next kind (`nextRandom`), `score` and `speed`, the interval in milliseconds
that the start button passes to `setInterval` the next time it starts the timer. The functions `draw`,
`undraw`, `moveDown`, `freeze`, `moveLeft`, `moveRight`, `rotate`, `addScore`, `gameOver` and `control` update
these in place.

The model has four modules.

- `Shapes`: the seven rotation tables and the preview table, written for any grid width, with lemmas about
  their geometry.
- `Grid`: the cell record and the pure operations on a grid. These are painting, erasing, locking, the
  `.some` tests (read in offset order, stopping at the first taken cell), and the row clearer of `addScore`
  as a function (`ClearRows`), with its lemmas.
- `Rules`: the game's variables as a value (`State`) and one function per function of the game, taking the
  same steps in the same order. The lemmas in `Rules` state what the transitions guarantee.
- `Session`: the class `Game`. Its fields are the closure variables, and it has one method per function of
  the game. Each method mutates the fields as the source does. The `forEach` loops over a piece's cells or a
  row's cells are methods over the grid (`PaintCells`, `UnpaintCells`, `LockCells`, `BlankCells`), and the
  row scan of `addScore`, with its splice, is a loop in `Game.AddScore`. Each method is proved to keep
  `Valid()` and to leave the object in the state that the matching `Rules` function computes. `Valid()`
  includes `current == Shape(random, currentRotation)`.

Behaviour of the source that the model keeps as written:

- `rotate` tests neither the edges nor taken cells (`Rules.RotateIgnoresTakenCells`).
- `rotate` wraps the index when it reaches `current.length`. That is the number of cells of a piece (4),
  which happens to equal the number of rotations.
- The edge test of `moveLeft`/`moveRight` looks at the cells before the move. The collision test reads the
  shifted cells whatever the edge test found.
- Each collision test is a `.some`: it reads the cells in offset order and stops at the first taken one
  (`Grid.SomeReadable`, `Grid.SomeTaken`). Cells after that one are never read, so they need not exist
  (`Rules.ReadsStopAtFloor`). A test that finds no taken cell has read every cell (`Grid.SomeMissReadsAll`).
- `addScore` tests a row of ten cells written out and scans the row starts 0, 10, …, 190 (`i < 199`). It never
  examines or moves the floor row (`Grid.ClearRowsKeepsFloor`).
- `speed` has no lower bound.
- Frozen cells keep their "tetromino" flag, because only "taken" is added.
- In `freeze`, `addScore` and `draw` run before `gameOver`, so the game-over test sees the grid after full
  rows are cleared, with the new piece drawn (`Rules.FreezeSpec`). The flag, once raised, stays raised.
- The active piece can overlap a locked cell: `rotate` can turn it onto one.
- After a freeze the cells of the frozen piece are taken only as long as no row is cleared
  (`Rules.FreezeLocksPiece`). A cleared row moves or empties those cells.

## Model

| member | source | states |
|---|---|---|
| Shapes.Tetrominoes | fp-tetris.js:103 | the table lists seven kinds, each with four rotations |
| Shapes.ShapeWellFormed | fp-tetris.js:51-99 | every rotation of every kind lists four pairwise distinct offsets, each in the 4x4 box below and right of the anchor (column and row of the offset at most 3) |
| Shapes.ShapeSize | fp-tetris.js:51-99 | every rotation lists four cells, so `current.length` is 4 |
| Shapes.ShapeBounds | fp-tetris.js:51-99 | every offset lies between 0 and 3 * width + 3 |
| Shapes.UpNextIsSpawnRotation | fp-tetris.js:255-266 | preview entry k is rotation 0 of kind k in the order of `theTetrominoes`, with `width` replaced by `displayWidth` |
| Grid.PaintKeepsTaken | fp-tetris.js:126-139 | draw and undraw change no "taken" flag |
| Grid.AnyTakenSame | fp-tetris.js:358 | the game-over `.some` test over cells that all exist depends only on the "taken" flags |
| Grid.SomeTakenAgrees | fp-tetris.js:144 | when every cell the test could read exists, the test reads safely and is true exactly when some cell is taken |
| Grid.SomeMissReadsAll | fp-tetris.js:144 | a test that reads safely and finds no taken cell has read every cell, so all of them exist |
| Grid.SomeTakenUnlessAllFree | fp-tetris.js:144 | where the test reads safely, it is true exactly when the cells are not all present and free |
| Grid.SomeTakenSame | fp-tetris.js:190-191 | whether the test reads safely, and its value, depend only on the "taken" flags, so undrawing first changes neither |
| Grid.LeftStaysInRow | fp-tetris.js:190-194 | when no cell is in column 0, every cell moved one to the left stays in its row |
| Grid.RightStaysInRow | fp-tetris.js:204-208 | when no cell is in the last column, every cell moved one to the right stays in its row |
| Grid.ClearRows | fp-tetris.js:319-350 | the row scan keeps the grid's length |
| Grid.ClearRowMoves | fp-tetris.js:328-348 | clearing one full row keeps the length and the multiset of cells (the cleared row's cells now empty), puts ten empty cells at the front, shifts the cells above the row down one row in order, and leaves the cells below in place |
| Grid.ClearRowLayout | fp-tetris.js:332-348 | where each cell lands: ten empty cells at the front, the cells above the row one row further down in order, the cells below in place |
| Grid.ClearRowPermutes | fp-tetris.js:347-348 | the splice and prepend rearrange the emptied grid without adding or dropping a cell |
| Grid.ClearRowsKeepsFloor | fp-tetris.js:319 | cells at index 200 and beyond are never moved by the scan |
| Grid.ClearRowsFloor | fp-tetris.js:319 | the floor row is still taken after `addScore` |
| Grid.ClearRowsLeavesNoFullRow | fp-tetris.js:319-350 | scanning from a row start with no full row above it leaves no full row at any scanned start |
| Grid.ClearedGridHasNoFullRow | fp-tetris.js:316-352 | after `addScore` no row starting at 0, 10, …, 190 is fully taken |
| Grid.NoFullRowNoChange | fp-tetris.js:319-350 | from any row start, the count of full rows is 0 exactly when no scanned row is full, and then the scan changes nothing |
| Grid.NoFullRowMeansNoClear | fp-tetris.js:316-352 | the number of full rows is 0 exactly when no scanned row is full, and then `squares` is unchanged |
| Rules.Start | fp-tetris.js:106-114 | the initial variables satisfy the invariant, with anchor 4, rotation 0, score 0 and speed 1000 |
| Rules.Draw | fp-tetris.js:126-131 | draw keeps the invariant |
| Rules.Undraw | fp-tetris.js:135-139 | undraw keeps the invariant |
| Rules.Turned | fp-tetris.js:239-242 | the rotation index after the increment and wrap is below 4 |
| Rules.Respawn | fp-tetris.js:165-170 | the respawned piece at anchor 4, rotation 0 lies on the grid |
| Rules.AddScore | fp-tetris.js:316-352 | addScore keeps the invariant (floor row taken, piece on the grid) |
| Rules.GameOver | fp-tetris.js:357-362 | gameOver keeps the invariant |
| Rules.Freeze | fp-tetris.js:160-175 | freeze keeps the invariant |
| Rules.MoveDown | fp-tetris.js:143-151 | moveDown keeps the invariant |
| Rules.Fall | fp-tetris.js:145-147 | the fall branch of moveDown keeps the invariant |
| Rules.MoveLeft | fp-tetris.js:182-196 | moveLeft keeps the invariant |
| Rules.MoveRight | fp-tetris.js:202-210 | moveRight keeps the invariant |
| Rules.Rotate | fp-tetris.js:237-245 | rotate keeps the invariant |
| Rules.Control | fp-tetris.js:215-225 | control keeps the invariant |
| Rules.RedrawKeepsTaken | fp-tetris.js:126-139 | undraw, a new anchor and rotation, then draw change only the anchor, the rotation and the drawing, and no "taken" flag |
| Rules.MoveLeftSpec | fp-tetris.js:182-196 | where the test reads safely, the anchor drops by exactly 1 if and only if no cell is in column 0 and the cells to the left all exist and are free, and otherwise stays put. Rotation, kind, next kind, score, speed, game-over flag and every "taken" flag are unchanged. An accepted move keeps every cell in its row, and a piece clear of taken cells stays clear |
| Rules.MoveRightSpec | fp-tetris.js:202-210 | the mirror image of MoveLeftSpec, with the last column and the cells to the right |
| Rules.CyclicSuccessor | fp-tetris.js:239-242 | the increment with a wrap at 4 is the successor modulo 4 |
| Rules.RotateSpec | fp-tetris.js:237-245 | the rotation becomes (r + 1) mod 4 and `current` the table entry of the same kind at that rotation. The anchor, the other variables and every "taken" flag are unchanged, and nothing is tested |
| Rules.RotateStep | fp-tetris.js:237-245 | when every rotation fits at the anchor, rotate advances the index cyclically and every rotation still fits |
| Rules.RotateFourTimes | fp-tetris.js:237-245 | four rotations restore the rotation index, the offsets and the anchor |
| Rules.RotateIgnoresTakenCells | fp-tetris.js:237-245 | a piece clear of taken cells can rotate onto a taken cell |
| Rules.LeftReadLeavesGrid | fp-tetris.js:190-191 | a valid state at the left edge (an O piece at index 0) has a collision read before the start of the grid |
| Rules.ReadsStopAtFloor | fp-tetris.js:144 | an L piece turned into the floor row has cells below and right of it past the end of the grid, yet both tests read safely: moveDown freezes and moveRight stays |
| Rules.FallSpec | fp-tetris.js:144-147 | with the cells one row below present and free, the fall moves the anchor down by `width`, changes nothing else but the drawing and no "taken" flag, and the piece lands on free cells |
| Rules.MoveDownSpec | fp-tetris.js:143-151 | where the test reads safely: when the cells one row below all exist and are free, the anchor grows by `width`, nothing else but the drawing changes, and the piece stays clear. Otherwise moveDown is freeze |
| Rules.FreezeSpec | fp-tetris.js:160-175 | the next kind spawns at anchor 4, rotation 0, with the new roll as next kind. Score and speed change by 10 and 80 per full row. The taken flags are those of the grid with the piece's cells locked and full rows cleared. The game is over exactly when it already was or the new piece covers a taken cell of the cleared grid. Without a full row the grid keeps the locked flags |
| Rules.FreezeLocksPiece | fp-tetris.js:161 | when freeze clears no row, every cell of the frozen piece is taken afterwards |
| Rules.AddScoreSpec | fp-tetris.js:316-352 | score rises by exactly 10 and speed falls by exactly 80 per full row, no scanned row is full afterwards, no full row means nothing changes, and the piece is untouched |
| Rules.GameOverSpec | fp-tetris.js:357-362 | the flag is raised exactly when a cell of the piece is taken, is never lowered, and nothing else changes |
| Rules.ControlIgnoresOtherKeys | fp-tetris.js:215-225 | a key code other than 37, 38, 39, 40 changes nothing |
| Session.PaintCells | fp-tetris.js:127-130 | the loop over the offsets marks exactly the cells at the anchor "tetromino" in the kind's colour and leaves every other cell as it was |
| Session.UnpaintCells | fp-tetris.js:136-139 | the loop clears "tetromino" and the colour of exactly those cells |
| Session.LockCells | fp-tetris.js:161 | the loop makes exactly those cells taken and changes nothing else in them or elsewhere |
| Session.BlankCells | fp-tetris.js:332-338 | the loop empties exactly the cells of the row |
| Session.Game.constructor | fp-tetris.js:106-114 | the object starts in the state `Rules.Start` describes |
| Session.Game.Draw | fp-tetris.js:126-131 | draw marks exactly the piece's cells "tetromino" in the kind's colour, as `Rules.Draw` describes |
| Session.Game.Undraw | fp-tetris.js:135-139 | undraw clears "tetromino" and the colour of exactly the piece's cells, as `Rules.Undraw` describes |
| Session.Game.MoveDown | fp-tetris.js:143-151 | the method leaves the object in the state `Rules.MoveDown` describes |
| Session.Game.LockPiece | fp-tetris.js:161 | the first step of freeze makes exactly the piece's cells taken and changes nothing else |
| Session.Game.Freeze | fp-tetris.js:160-175 | the method leaves the object in the state `Rules.Freeze` describes |
| Session.Game.MoveLeft | fp-tetris.js:182-196 | the method leaves the object in the state `Rules.MoveLeft` describes |
| Session.Game.MoveRight | fp-tetris.js:202-210 | the method leaves the object in the state `Rules.MoveRight` describes |
| Session.Game.Rotate | fp-tetris.js:237-245 | the method leaves the object in the state `Rules.Rotate` describes, with `current` the new table entry |
| Session.Game.AddScore | fp-tetris.js:316-352 | the scan with its in-place blanking and splice leaves the grid, score and speed as `Rules.AddScore` computes them |
| Session.Game.GameOver | fp-tetris.js:357-362 | the method leaves the object in the state `Rules.GameOver` describes |
| Session.Game.Control | fp-tetris.js:215-225 | the dispatch leaves the object in the state `Rules.Control` describes |

## Left out

- The page: `querySelector`, the `classList` strings, `style.backgroundColor`, `innerHTML` and the
  `appendChild` re-rendering. The classes become the fields of `Cell`, a colour is the index of its kind, and
  the score text is the `score` field.
- The page markup is assumed to supply 200 cells plus a floor row of ten taken cells. That is the `Floor`
  predicate, which every operation requires and keeps.
- `Math.random`: every draw of a new next kind is a parameter (`roll`, or `first` and `second` for the two
  initial draws).
- The start/pause button with `setInterval`/`clearInterval`, and the tick timer. `speed` is read only when the
  button starts the timer (fp-tetris.js:300), so a running timer keeps its old interval after `addScore` lowers
  `speed` until the game is paused and resumed. Pausing and resuming keep the
  anchor and rotation. Resuming also draws the piece and re-rolls `nextRandom`, and `gameOver` stops the timer
  without resetting `timerId`. The `over` flag stands for the stopped timer.
- `displayShape` rendering into the preview grid. Only the preview table is modelled, as data.
- The `keyup` listener registration and the colour strings.
- Session.Game.MoveDown, Session.Game.MoveLeft, Session.Game.MoveRight and Session.Game.Rotate require
  `Rules.CanReadBelow`, `Rules.CanReadLeft`, `Rules.CanReadRight` and `Rules.CanTurn` respectively, and
  Session.Game.Control requires the one its key needs. The first three say that each read the `.some` test
  makes, up to and including the first taken cell, finds a cell. `CanTurn` says that the cells rotate draws
  exist. In the source a read or draw past the grid throws out of the event handler, and the model does not
  follow that path. `Rules.LeftReadLeavesGrid` shows that a valid state can fail `CanReadLeft`.
