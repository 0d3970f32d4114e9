/**
 * The game's transitions as functions over a snapshot of its variables:
 * one function per function of the game (draw, undraw, moveDown, freeze,
 * moveLeft, moveRight, rotate, addScore, gameOver, control), each doing the
 * same steps in the same order. The class in module Session performs these
 * steps by mutation and is proved to agree with them; the lemmas here state
 * what the transitions guarantee.
 */
module Rules {
  import opened Shapes
  import opened Grid

  datatype Option<T> = None | Some(value: T)

  /** The four inputs, from the arrow keys. */
  datatype Command = Left | Right | Turn | Down

  /**
   * The game's variables: the grid, the anchor (currentPosition), the
   * rotation index, the current kind (random), the next kind (nextRandom),
   * score, speed (the interval in milliseconds that the next press of the
   * start button gives the timer), and whether gameOver has stopped the game.
   */
  datatype State = State(
    squares: seq<Cell>,
    position: int,
    rotation: nat,
    kind: nat,
    next: nat,
    score: int,
    speed: int,
    over: bool)

  /** Where a new piece is anchored. */
  const Spawn := 4
  const InitialSpeed := 1000
  const ScoreStep := 10
  const SpeedStep := 80

  const KeyLeft := 37
  const KeyUp := 38
  const KeyRight := 39
  const KeyDown := 40

  /**
   * What holds between transitions: the grid has its floor, the kinds and
   * rotation index the tables, and the piece's cells lie on the grid.
   */
  predicate Inv(st: State) {
    && Floor(st.squares)
    && st.kind < KindCount && st.next < KindCount && st.rotation < RotationCount
    && Within(st.position, Shape(st.kind, st.rotation), |st.squares|)
  }

  /** The offsets of the current piece (`current`). */
  function Piece(st: State): seq<int>
    requires st.kind < KindCount && st.rotation < RotationCount
  {
    Shape(st.kind, st.rotation)
  }

  /** The grid indices the current piece covers. */
  function Occupied(st: State): set<int>
    requires st.kind < KindCount && st.rotation < RotationCount
  {
    Cells(st.position, Piece(st))
  }

  /** The variables as the game sets them up: anchor 4, rotation 0, score 0, speed 1000. */
  function Start(cells: seq<Cell>, first: nat, second: nat): (st: State)
    requires Floor(cells) && first < KindCount && second < KindCount
    ensures Inv(st)
    ensures st.position == Spawn && st.rotation == 0 && st.score == 0 && st.speed == InitialSpeed
  {
    ShapeBounds(first, 0);
    State(cells, Spawn, 0, first, second, 0, InitialSpeed, false)
  }

  function Draw(st: State): (r: State)
    requires Inv(st)
    ensures Inv(r)
  {
    st.(squares := Paint(st.squares, Occupied(st), st.kind))
  }

  function Undraw(st: State): (r: State)
    requires Inv(st)
    ensures Inv(r)
  {
    st.(squares := Unpaint(st.squares, Occupied(st)))
  }

  // ---------------------------------------------------------------------
  // Unguarded reads: the cells each move inspects must exist
  // ---------------------------------------------------------------------

  /**
   * moveDown reads the cell one row below each cell of the piece, in offset
   * order, up to the first taken one.
   */
  predicate CanReadBelow(st: State)
    requires Inv(st)
  {
    SomeReadable(st.squares, st.position + Width, Piece(st))
  }

  /** moveLeft reads the cell left of each cell up to the first taken one, even at the left edge. */
  predicate CanReadLeft(st: State)
    requires Inv(st)
  {
    SomeReadable(st.squares, st.position - 1, Piece(st))
  }

  /** moveRight reads the cell right of each cell up to the first taken one, even at the right edge. */
  predicate CanReadRight(st: State)
    requires Inv(st)
  {
    SomeReadable(st.squares, st.position + 1, Piece(st))
  }

  /**
   * The rotation index after rotate: the source wraps to 0 when the index
   * reaches `current.length`, the number of cells of the piece, which is 4.
   */
  function Turned(st: State): (r: nat)
    requires Inv(st)
    ensures r < RotationCount
  {
    ShapeSize(st.kind, st.rotation);
    if st.rotation + 1 == |Piece(st)| then 0 else st.rotation + 1
  }

  /** rotate draws the next rotation at the same anchor, so its cells must exist. */
  predicate CanTurn(st: State)
    requires Inv(st)
  {
    Within(st.position, Shape(st.kind, Turned(st)), |st.squares|)
  }

  // ---------------------------------------------------------------------
  // The transitions
  // ---------------------------------------------------------------------

  /** addScore: the scan of the grid, with 10 points and 80 ms off `speed` per full row. */
  function AddScore(st: State): (r: State)
    requires Inv(st)
    ensures Inv(r)
  {
    ClearRowsFloor(st.squares);
    var n := FullRowCount(st.squares, 0);
    st.(squares := ClearRows(st.squares, 0),
        score := st.score + ScoreStep * n,
        speed := st.speed - SpeedStep * n)
  }

  /** gameOver: stop when the piece just drawn covers a taken cell. */
  function GameOver(st: State): (r: State)
    requires Inv(st)
    ensures Inv(r)
  {
    if AnyTaken(st.squares, st.position, Piece(st)) then st.(over := true) else st
  }

  /** The new piece: anchor 4, rotation 0, the next kind becomes current, `roll` becomes next. */
  function Respawn(st: State, roll: nat): (r: State)
    requires Floor(st.squares) && st.next < KindCount && roll < KindCount
    ensures Inv(r)
  {
    ShapeBounds(st.next, 0);
    st.(position := Spawn, rotation := 0, kind := st.next, next := roll)
  }

  /** freeze: lock the piece's cells, respawn, clear rows, draw, test for game over. */
  function Freeze(st: State, roll: nat): (r: State)
    requires Inv(st) && roll < KindCount
    ensures Inv(r)
  {
    var locked := st.(squares := Lock(st.squares, Occupied(st)));
    GameOver(Draw(AddScore(Respawn(locked, roll))))
  }

  /** moveDown: fall one row if the cells below are free, otherwise freeze. */
  function MoveDown(st: State, roll: nat): (r: State)
    requires Inv(st) && CanReadBelow(st) && roll < KindCount
    ensures Inv(r)
  {
    if !SomeTaken(st.squares, st.position + Width, Piece(st)) then
      SomeMissReadsAll(st.squares, st.position + Width, Piece(st));
      Fall(st)
    else
      Freeze(st, roll)
  }

  /** The first branch of moveDown: undraw, one row down, draw. */
  function Fall(st: State): (r: State)
    requires Inv(st) && Within(st.position + Width, Piece(st), |st.squares|)
    ensures Inv(r)
  {
    Draw(Undraw(st).(position := st.position + Width))
  }

  /** moveLeft: undraw, test the edge and the cells to the left, move if both pass, draw. */
  function MoveLeft(st: State): (r: State)
    requires Inv(st) && CanReadLeft(st)
    ensures Inv(r)
  {
    var e := Undraw(st);
    PaintKeepsTaken(st.squares, Occupied(st), st.kind);
    SomeTakenSame(e.squares, st.squares, st.position - 1, Piece(st));
    var isAtLeftEdge := AtLeftEdge(st.position, Piece(st));
    var collideToLeft := SomeTaken(e.squares, st.position - 1, Piece(st));
    if !isAtLeftEdge && !collideToLeft then
      SomeMissReadsAll(e.squares, st.position - 1, Piece(st));
      Draw(e.(position := st.position - 1))
    else
      Draw(e)
  }

  /** moveRight: undraw, test the edge and the cells to the right, move if both pass, draw. */
  function MoveRight(st: State): (r: State)
    requires Inv(st) && CanReadRight(st)
    ensures Inv(r)
  {
    var e := Undraw(st);
    PaintKeepsTaken(st.squares, Occupied(st), st.kind);
    SomeTakenSame(e.squares, st.squares, st.position + 1, Piece(st));
    var isAtRightEdge := AtRightEdge(st.position, Piece(st));
    var collideToRight := SomeTaken(e.squares, st.position + 1, Piece(st));
    if !isAtRightEdge && !collideToRight then
      SomeMissReadsAll(e.squares, st.position + 1, Piece(st));
      Draw(e.(position := st.position + 1))
    else
      Draw(e)
  }

  /** rotate: undraw, advance the rotation index, draw; nothing is tested. */
  function Rotate(st: State): (r: State)
    requires Inv(st) && CanTurn(st)
    ensures Inv(r)
  {
    Draw(Undraw(st).(rotation := Turned(st)))
  }

  /** control: the key codes of the arrow keys. */
  function CommandOf(keyCode: int): Option<Command> {
    if keyCode == KeyLeft then Some(Left)
    else if keyCode == KeyRight then Some(Right)
    else if keyCode == KeyUp then Some(Turn)
    else if keyCode == KeyDown then Some(Down)
    else None
  }

  /** The cells the command reads exist. */
  predicate CanRun(st: State, c: Command)
    requires Inv(st)
  {
    match c
    case Left => CanReadLeft(st)
    case Right => CanReadRight(st)
    case Turn => CanTurn(st)
    case Down => CanReadBelow(st)
  }

  function Control(st: State, keyCode: int, roll: nat): (r: State)
    requires Inv(st) && roll < KindCount
    requires CommandOf(keyCode).Some? ==> CanRun(st, CommandOf(keyCode).value)
    ensures Inv(r)
  {
    match CommandOf(keyCode)
    case None => st
    case Some(Left) => MoveLeft(st)
    case Some(Right) => MoveRight(st)
    case Some(Turn) => Rotate(st)
    case Some(Down) => MoveDown(st, roll)
  }

  // ---------------------------------------------------------------------
  // What the transitions guarantee
  // ---------------------------------------------------------------------

  /** The piece covers no taken cell. */
  predicate Clear(st: State)
    requires Inv(st)
  {
    !AnyTaken(st.squares, st.position, Piece(st))
  }

  /**
   * Undrawing, moving to `pos` and `rotation`, and drawing again changes the
   * anchor, the rotation index and the drawing, and no "taken" flag.
   */
  lemma RedrawKeepsTaken(st: State, m: State)
    requires Inv(st) && Inv(m)
    requires m == Undraw(st).(position := m.position, rotation := m.rotation)
    ensures var r := Draw(m);
      && r == st.(squares := r.squares, position := m.position, rotation := m.rotation)
      && SameTaken(r.squares, st.squares)
  {
    PaintKeepsTaken(st.squares, Occupied(st), st.kind);
    PaintKeepsTaken(m.squares, Occupied(m), m.kind);
  }

  /** moveLeft as its two outcomes, with the collision test read as "not all free". */
  lemma LeftOutcome(st: State)
    requires Inv(st) && CanReadLeft(st)
    ensures var e := Undraw(st);
      var accepted := !AtLeftEdge(st.position, Piece(st)) && AllFree(st.squares, st.position - 1, Piece(st));
      && (accepted ==> Within(st.position - 1, Piece(st), |st.squares|))
      && MoveLeft(st) == Draw(if accepted then e.(position := st.position - 1) else e)
  {
    var e := Undraw(st);
    PaintKeepsTaken(st.squares, Occupied(st), st.kind);
    SomeTakenSame(e.squares, st.squares, st.position - 1, Piece(st));
    SomeTakenUnlessAllFree(st.squares, st.position - 1, Piece(st));
  }

  /**
   * moveLeft moves the anchor one column left exactly when no cell is in
   * column 0 and the cells to the left all exist and are free; otherwise it
   * stays. Nothing but the anchor and the drawing changes, and an accepted
   * move keeps every cell in its row.
   */
  lemma MoveLeftSpec(st: State)
    requires Inv(st) && CanReadLeft(st)
    ensures var r := MoveLeft(st);
      var accepted := !AtLeftEdge(st.position, Piece(st))
                      && AllFree(st.squares, st.position - 1, Piece(st));
      && r.position == (if accepted then st.position - 1 else st.position)
      && r.rotation == st.rotation && r.kind == st.kind && r.next == st.next
      && r.score == st.score && r.speed == st.speed && r.over == st.over
      && SameTaken(r.squares, st.squares)
      && (accepted ==> forall o :: o in Piece(st) ==> (r.position + o) / Width == (st.position + o) / Width)
      && (Clear(st) ==> Clear(r))
  {
    LeftOutcome(st);
    var e := Undraw(st);
    var accepted := !AtLeftEdge(st.position, Piece(st)) && AllFree(st.squares, st.position - 1, Piece(st));
    var m := if accepted then e.(position := st.position - 1) else e;
    assert Inv(m);
    RedrawKeepsTaken(st, m);
    var r := Draw(m);
    AnyTakenSame(r.squares, st.squares, m.position, Piece(st));
    AnyTakenSame(r.squares, st.squares, st.position, Piece(st));
    if accepted {
      LeftStaysInRow(st.position, Piece(st));
    }
  }

  /** moveRight as its two outcomes, with the collision test read as "not all free". */
  lemma RightOutcome(st: State)
    requires Inv(st) && CanReadRight(st)
    ensures var e := Undraw(st);
      var accepted := !AtRightEdge(st.position, Piece(st)) && AllFree(st.squares, st.position + 1, Piece(st));
      && (accepted ==> Within(st.position + 1, Piece(st), |st.squares|))
      && MoveRight(st) == Draw(if accepted then e.(position := st.position + 1) else e)
  {
    var e := Undraw(st);
    PaintKeepsTaken(st.squares, Occupied(st), st.kind);
    SomeTakenSame(e.squares, st.squares, st.position + 1, Piece(st));
    SomeTakenUnlessAllFree(st.squares, st.position + 1, Piece(st));
  }

  /** moveRight, the mirror image: last column, the cells to the right. */
  lemma MoveRightSpec(st: State)
    requires Inv(st) && CanReadRight(st)
    ensures var r := MoveRight(st);
      var accepted := !AtRightEdge(st.position, Piece(st))
                      && AllFree(st.squares, st.position + 1, Piece(st));
      && r.position == (if accepted then st.position + 1 else st.position)
      && r.rotation == st.rotation && r.kind == st.kind && r.next == st.next
      && r.score == st.score && r.speed == st.speed && r.over == st.over
      && SameTaken(r.squares, st.squares)
      && (accepted ==> forall o :: o in Piece(st) ==> (r.position + o) / Width == (st.position + o) / Width)
      && (Clear(st) ==> Clear(r))
  {
    RightOutcome(st);
    var e := Undraw(st);
    var accepted := !AtRightEdge(st.position, Piece(st)) && AllFree(st.squares, st.position + 1, Piece(st));
    var m := if accepted then e.(position := st.position + 1) else e;
    assert Inv(m);
    RedrawKeepsTaken(st, m);
    var r := Draw(m);
    AnyTakenSame(r.squares, st.squares, m.position, Piece(st));
    AnyTakenSame(r.squares, st.squares, st.position, Piece(st));
    if accepted {
      RightStaysInRow(st.position, Piece(st));
    }
  }

  /** The increment-and-wrap of rotate is the successor modulo 4. */
  lemma CyclicSuccessor(x: nat)
    requires x < RotationCount
    ensures (x + 1) % RotationCount == if x == RotationCount - 1 then 0 else x + 1
  {
    if x == 0 {
    } else if x == 1 {
    } else if x == 2 {
    } else {
    }
  }

  /**
   * rotate advances the index cyclically and takes the next rotation of the
   * same kind at the same anchor, whatever cells it lands on.
   */
  lemma RotateSpec(st: State)
    requires Inv(st) && CanTurn(st)
    ensures var r := Rotate(st);
      && r.rotation == (st.rotation + 1) % RotationCount
      && Piece(r) == Shape(st.kind, r.rotation)
      && r.position == st.position && r.kind == st.kind && r.next == st.next
      && r.score == st.score && r.speed == st.speed && r.over == st.over
      && SameTaken(r.squares, st.squares)
  {
    ShapeSize(st.kind, st.rotation);
    CyclicSuccessor(st.rotation);
    var m := Undraw(st).(rotation := Turned(st));
    assert Inv(m);
    RedrawKeepsTaken(st, m);
  }

  /** Every rotation of the piece's kind fits the grid at its anchor. */
  predicate AllTurnsFit(st: State)
    requires Inv(st)
  {
    forall k :: 0 <= k < RotationCount ==> Within(st.position, Shape(st.kind, k), |st.squares|)
  }

  lemma RotateStep(st: State)
    requires Inv(st) && AllTurnsFit(st)
    ensures CanTurn(st) && AllTurnsFit(Rotate(st))
    ensures Rotate(st).rotation == if st.rotation == RotationCount - 1 then 0 else st.rotation + 1
    ensures Rotate(st).position == st.position && Rotate(st).kind == st.kind
  {
    RotateSpec(st);
    var r := Rotate(st);
    CyclicSuccessor(st.rotation);
    assert r.kind == st.kind && r.position == st.position && |r.squares| == |st.squares|;
  }

  /** Four rotations bring back the rotation index and the offsets. */
  lemma RotateFourTimes(st: State)
    requires Inv(st) && AllTurnsFit(st)
    ensures CanTurn(st)
    ensures var r1 := Rotate(st);
      CanTurn(r1) && var r2 := Rotate(r1);
      CanTurn(r2) && var r3 := Rotate(r2);
      CanTurn(r3) && var r4 := Rotate(r3);
      r4.rotation == st.rotation && Piece(r4) == Piece(st) && r4.position == st.position
  {
    RotateStep(st);
    var r1 := Rotate(st);
    RotateStep(r1);
    var r2 := Rotate(r1);
    RotateStep(r2);
    var r3 := Rotate(r2);
    RotateStep(r3);
  }

  /**
   * The fall of moveDown moves the anchor one row down and changes nothing
   * else but the drawing; a piece whose cells below are free lands clear.
   */
  lemma FallSpec(st: State)
    requires Inv(st) && AllFree(st.squares, st.position + Width, Piece(st))
    ensures var r := Fall(st);
      && r.position == st.position + Width
      && r.rotation == st.rotation && r.kind == st.kind && r.next == st.next
      && r.score == st.score && r.speed == st.speed && r.over == st.over
      && SameTaken(r.squares, st.squares)
      && Clear(r)
  {
    var m := Undraw(st).(position := st.position + Width);
    assert Inv(m);
    RedrawKeepsTaken(st, m);
    var r := Draw(m);
    AnyTakenSame(r.squares, st.squares, r.position, Piece(st));
  }

  /**
   * moveDown falls one row, changing no "taken" flag, when the cells below
   * all exist and are free; otherwise it is freeze.
   */
  lemma MoveDownSpec(st: State, roll: nat)
    requires Inv(st) && CanReadBelow(st) && roll < KindCount
    ensures var r := MoveDown(st, roll);
      && (AllFree(st.squares, st.position + Width, Piece(st)) ==>
            && r.position == st.position + Width
            && r.rotation == st.rotation && r.kind == st.kind && r.next == st.next
            && r.score == st.score && r.speed == st.speed && r.over == st.over
            && SameTaken(r.squares, st.squares)
            && Clear(r))
      && (!AllFree(st.squares, st.position + Width, Piece(st)) ==> r == Freeze(st, roll))
  {
    SomeTakenUnlessAllFree(st.squares, st.position + Width, Piece(st));
    if AllFree(st.squares, st.position + Width, Piece(st)) {
      FallSpec(st);
    }
  }

  /**
   * freeze: the piece's four cells become taken, then the next kind spawns
   * at anchor 4 in rotation 0 with `roll` as the new next kind; addScore
   * then scores 10 and takes 80 ms per full row, and the game is over
   * exactly when the new piece covers a taken cell of the cleared grid.
   * Without a full row the grid keeps the locked flags.
   */
  lemma FreezeSpec(st: State, roll: nat)
    requires Inv(st) && roll < KindCount
    ensures var r := Freeze(st, roll);
      var locked := Lock(st.squares, Occupied(st));
      var n := FullRowCount(locked, 0);
      && r.position == Spawn && r.rotation == 0 && r.kind == st.next && r.next == roll
      && r.score == st.score + ScoreStep * n && r.speed == st.speed - SpeedStep * n
      && SameTaken(r.squares, ClearRows(locked, 0))
      && (r.over <==> st.over || AnyTaken(ClearRows(locked, 0), Spawn, Shape(st.next, 0)))
      && (n == 0 ==> SameTaken(r.squares, locked))
  {
    var locked := Lock(st.squares, Occupied(st));
    var a := AddScore(Respawn(st.(squares := locked), roll));
    var d := Draw(a);
    PaintKeepsTaken(a.squares, Occupied(a), a.kind);
    AnyTakenSame(d.squares, a.squares, Spawn, Shape(st.next, 0));
    NoFullRowMeansNoClear(locked);
  }

  /** When freeze clears no row, every cell of the frozen piece is taken afterwards. */
  lemma FreezeLocksPiece(st: State, roll: nat)
    requires Inv(st) && roll < KindCount
    ensures FullRowCount(Lock(st.squares, Occupied(st)), 0) == 0 ==>
      forall o :: o in Piece(st) ==> Freeze(st, roll).squares[st.position + o].taken
  {
    FreezeSpec(st, roll);
    var locked := Lock(st.squares, Occupied(st));
    forall o | o in Piece(st) ensures locked[st.position + o].taken {
      assert st.position + o in Occupied(st);
    }
  }

  /** addScore scores exactly 10 and takes exactly 80 ms per full row, and leaves no full row. */
  lemma AddScoreSpec(st: State)
    requires Inv(st)
    ensures var r := AddScore(st);
      var n := FullRowCount(st.squares, 0);
      && r.score - st.score == ScoreStep * n
      && st.speed - r.speed == SpeedStep * n
      && NoFullRow(r.squares, 0, ScanLimit)
      && (n == 0 <==> NoFullRow(st.squares, 0, ScanLimit))
      && (n == 0 ==> r == st)
      && r.position == st.position && r.rotation == st.rotation && r.kind == st.kind
  {
    ClearedGridHasNoFullRow(st.squares);
    NoFullRowMeansNoClear(st.squares);
  }

  /** gameOver raises the flag exactly when the piece covers a taken cell, and never lowers it. */
  lemma GameOverSpec(st: State)
    requires Inv(st)
    ensures GameOver(st).over <==> st.over || !Clear(st)
    ensures GameOver(st).(over := st.over) == st
  {
  }

  /**
   * rotate tests nothing: an I piece standing free at the spawn anchor turns
   * onto a taken cell (index 14, left of its horizontal rotation's second cell).
   */
  lemma RotateIgnoresTakenCells(cells: seq<Cell>)
    requires Floor(cells) && cells[14].taken
    requires !cells[5].taken && !cells[15].taken && !cells[25].taken && !cells[35].taken
    ensures var st := State(cells, Spawn, 0, 4, 0, 0, InitialSpeed, false);
      && Inv(st) && CanTurn(st) && Clear(st)
      && !Clear(Rotate(st))
  {
    var st := State(cells, Spawn, 0, 4, 0, 0, InitialSpeed, false);
    assert Piece(st) == [1, 11, 21, 31];
    assert Shape(4, 1) == [10, 11, 12, 13];
    assert Inv(st);
    assert !AnyTaken(cells, Spawn, Piece(st)) by {
      forall o | o in Piece(st) ensures !cells[Spawn + o].taken {
        assert o == 1 || o == 11 || o == 21 || o == 31;
      }
    }
    assert Turned(st) == 1;
    RotateSpec(st);
    var r := Rotate(st);
    assert r.rotation == 1 && r.kind == 4 && r.position == Spawn;
    assert 10 in Piece(r) && r.squares[14].taken;
  }

  /**
   * moveLeft reads the cell left of each cell before it knows the edge test
   * failed: an O piece at the top-left corner is a valid state whose read
   * falls off the front of the grid.
   */
  lemma LeftReadLeavesGrid(cells: seq<Cell>)
    requires Floor(cells)
    ensures var st := State(cells, 0, 0, 3, 0, 0, InitialSpeed, false);
      && Inv(st) && AtLeftEdge(st.position, Piece(st)) && !CanReadLeft(st)
  {
    var st := State(cells, 0, 0, 3, 0, 0, InitialSpeed, false);
    assert Piece(st) == [0, 1, Width, Width + 1];
    assert Piece(st)[0] in Piece(st) && (st.position + Piece(st)[0]) % Width == 0;
    assert !(0 <= st.position - 1 + Piece(st)[0]);
  }

  /**
   * The tests stop at the first taken cell. An L piece that rotate has
   * turned into the floor row (anchor 187, rotation 2, cells 188, 198, 208
   * and 209) has the cells below and right of 209 past the end of the grid,
   * yet moveDown meets the floor at 208 first and freezes, and moveRight
   * meets it at 209 first and stays.
   */
  lemma ReadsStopAtFloor(cells: seq<Cell>, roll: nat)
    requires Floor(cells) && roll < KindCount
    ensures var st := State(cells, 187, 2, 5, 0, 0, InitialSpeed, false);
      && Inv(st) && Occupied(st) == {188, 198, 208, 209}
      && CanReadBelow(st) && !Within(st.position + Width, Piece(st), |cells|)
      && MoveDown(st, roll) == Freeze(st, roll)
      && CanReadRight(st) && !Within(st.position + 1, Piece(st), |cells|)
      && MoveRight(st).position == st.position
  {
    var st := State(cells, 187, 2, 5, 0, 0, InitialSpeed, false);
    assert Piece(st) == [1, 11, 21, 22];
    assert Inv(st);
    assert Occupied(st) == {188, 198, 208, 209} by {
      var offsets := [1, 11, 21, 22];
      forall c | c in Cells(187, offsets) ensures c in {188, 198, 208, 209} {
        var o :| o in offsets && c == 187 + o;
      }
      assert offsets[0] in offsets && offsets[1] in offsets && offsets[2] in offsets && offsets[3] in offsets;
    }
    assert cells[208].taken && cells[209].taken;
    assert !FreeUpTo(cells, st.position + Width, Piece(st), 2);
    assert CanReadBelow(st);
    assert Piece(st)[3] in Piece(st) && !(st.position + Width + Piece(st)[3] < |cells|);
    assert !FreeUpTo(cells, st.position + 1, Piece(st), 3);
    assert CanReadRight(st);
    assert Piece(st)[3] in Piece(st) && !(st.position + 1 + Piece(st)[3] < |cells|);
    MoveDownSpec(st, roll);
    MoveRightSpec(st);
  }

  /** Any other key leaves the game as it is. */
  lemma ControlIgnoresOtherKeys(st: State, keyCode: int, roll: nat)
    requires Inv(st) && roll < KindCount
    requires keyCode !in {KeyLeft, KeyRight, KeyUp, KeyDown}
    ensures Control(st, keyCode, roll) == st
  {
  }
}
