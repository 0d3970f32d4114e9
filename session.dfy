/**
 * The running game: the variables the game's functions share and update in
 * place, as fields of one object, and one method per function. Each method
 * takes the same steps as the source (the `forEach` loops over the piece's
 * cells, written once below as methods over the grid, and the row scan of
 * addScore with its splice) and is proved to leave the object in the state
 * the matching function of module Rules describes.
 */
module Session {
  import opened Shapes
  import opened Grid
  import Rules

  /** The `forEach` of draw over the cells of `offsets` at `pos`: "tetromino" and the colour of `kind`. */
  method PaintCells(s: seq<Cell>, pos: int, offsets: seq<int>, kind: nat) returns (t: seq<Cell>)
    requires Within(pos, offsets, |s|)
    ensures t == Paint(s, Cells(pos, offsets), kind)
  {
    t := s;
    for k := 0 to |offsets|
      invariant t == Paint(s, Cells(pos, offsets[..k]), kind)
    {
      assert offsets[k] in offsets;
      var index := pos + offsets[k];
      CellsSnoc(pos, offsets, k);
      PaintOneMore(s, Cells(pos, offsets[..k]), index, kind);
      t := t[index := t[index].(tetromino := true, colour := Colour(kind))];
    }
    assert offsets[..|offsets|] == offsets;
  }

  /** The `forEach` of undraw: the cells lose "tetromino" and their colour. */
  method UnpaintCells(s: seq<Cell>, pos: int, offsets: seq<int>) returns (t: seq<Cell>)
    requires Within(pos, offsets, |s|)
    ensures t == Unpaint(s, Cells(pos, offsets))
  {
    t := s;
    for k := 0 to |offsets|
      invariant t == Unpaint(s, Cells(pos, offsets[..k]))
    {
      assert offsets[k] in offsets;
      var index := pos + offsets[k];
      CellsSnoc(pos, offsets, k);
      UnpaintOneMore(s, Cells(pos, offsets[..k]), index);
      t := t[index := t[index].(tetromino := false, colour := Blank)];
    }
    assert offsets[..|offsets|] == offsets;
  }

  /** The `forEach` of freeze: the cells get "taken". */
  method LockCells(s: seq<Cell>, pos: int, offsets: seq<int>) returns (t: seq<Cell>)
    requires Within(pos, offsets, |s|)
    ensures t == Lock(s, Cells(pos, offsets))
  {
    t := s;
    for k := 0 to |offsets|
      invariant t == Lock(s, Cells(pos, offsets[..k]))
    {
      assert offsets[k] in offsets;
      var index := pos + offsets[k];
      CellsSnoc(pos, offsets, k);
      LockOneMore(s, Cells(pos, offsets[..k]), index);
      t := t[index := t[index].(taken := true)];
    }
    assert offsets[..|offsets|] == offsets;
  }

  /** The `row.forEach` of addScore: the cells from `lo` to `hi` lose "taken", "tetromino" and their colour. */
  method BlankCells(s: seq<Cell>, lo: int, hi: int) returns (t: seq<Cell>)
    requires 0 <= lo <= hi <= |s|
    ensures t == Blanked(s, lo, hi)
  {
    t := s;
    assert t == Blanked(s, lo, lo);
    for j := lo to hi
      invariant t == Blanked(s, lo, j)
    {
      BlankOneMore(s, lo, j);
      t := t[j := EmptyCell];
    }
  }

  class Game {
    var squares: seq<Cell>
    var currentPosition: int
    var currentRotation: nat
    /** The current kind. */
    var random: nat
    /** The kind shown in the preview, which spawns next. */
    var nextRandom: nat
    /** The offsets of the current kind in the current rotation. */
    var current: seq<int>
    var score: int
    /** The interval in milliseconds the next start gives the timer; the running timer keeps its own. */
    var speed: int
    /** gameOver has fired and stopped the timer. */
    var over: bool

    /** The variables as a value. */
    function Model(): Rules.State
      reads this
    {
      Rules.State(squares, currentPosition, currentRotation, random, nextRandom, score, speed, over)
    }

    /** The invariant of the variables, and `current` is the table entry of the kind and rotation. */
    ghost predicate Valid()
      reads this
    {
      Rules.Inv(Model()) && current == Shape(random, currentRotation)
    }

    /**
     * The game as the page loads it: `cells` are the page's squares, `first`
     * and `second` the two kinds drawn at random for the current and next piece.
     */
    constructor (cells: seq<Cell>, first: nat, second: nat)
      requires Floor(cells) && first < KindCount && second < KindCount
      ensures Valid() && Model() == Rules.Start(cells, first, second)
    {
      squares := cells;
      score := 0;
      speed := Rules.InitialSpeed;
      currentPosition := Rules.Spawn;
      currentRotation := 0;
      random := first;
      nextRandom := second;
      current := Shape(first, 0);
      over := false;
      ShapeBounds(first, 0);
    }

    /** draw: mark each cell of the piece "tetromino" in the kind's colour. */
    method Draw()
      requires Valid()
      modifies this
      ensures Valid() && Model() == Rules.Draw(old(Model()))
    {
      squares := PaintCells(squares, currentPosition, current, random);
    }

    /** undraw: clear "tetromino" and the colour of each cell of the piece. */
    method Undraw()
      requires Valid()
      modifies this
      ensures Valid() && Model() == Rules.Undraw(old(Model()))
    {
      squares := UnpaintCells(squares, currentPosition, current);
    }

    /** moveDown: one row down if the cells below are free, else freeze. */
    method MoveDown(roll: nat)
      requires Valid() && Rules.CanReadBelow(Model()) && roll < KindCount
      modifies this
      ensures Valid() && Model() == Rules.MoveDown(old(Model()), roll)
    {
      if !SomeTaken(squares, currentPosition + Width, current) {
        SomeMissReadsAll(squares, currentPosition + Width, current);
        Undraw();
        currentPosition := currentPosition + Width;
        Draw();
      } else {
        Freeze(roll);
      }
    }

    /** The `forEach` of freeze that marks each cell of the piece "taken". */
    method LockPiece()
      requires Valid()
      modifies this
      ensures Valid() && Model() == old(Model()).(squares := Lock(old(squares), Rules.Occupied(old(Model()))))
      ensures current == old(current)
    {
      squares := LockCells(squares, currentPosition, current);
    }

    /**
     * freeze: mark the piece's cells "taken", spawn the next kind (`roll`
     * stands for the new random next kind), then addScore, draw, gameOver.
     */
    method Freeze(roll: nat)
      requires Valid() && roll < KindCount
      modifies this
      ensures Valid() && Model() == Rules.Freeze(old(Model()), roll)
    {
      LockPiece();
      currentPosition := Rules.Spawn;
      currentRotation := 0;
      random := nextRandom;
      nextRandom := roll;
      current := Shape(random, currentRotation);
      ghost var spawned := Model();
      assert spawned == Rules.Respawn(old(Model()).(squares := Lock(old(squares), Rules.Occupied(old(Model())))), roll);
      AddScore();
      ghost var scored := Model();
      Draw();
      ghost var drawn := Model();
      GameOver();
      assert Model() == Rules.GameOver(drawn) && drawn == Rules.Draw(scored) && scored == Rules.AddScore(spawned);
    }

    /** moveLeft: undraw, test the left edge and the cells to the left, move, draw. */
    method MoveLeft()
      requires Valid() && Rules.CanReadLeft(Model())
      modifies this
      ensures Valid() && Model() == Rules.MoveLeft(old(Model()))
    {
      Undraw();
      var isAtLeftEdge := AtLeftEdge(currentPosition, current);
      PaintKeepsTaken(old(squares), Rules.Occupied(old(Model())), random);
      SomeTakenSame(squares, old(squares), currentPosition - 1, current);
      var collideToLeft := SomeTaken(squares, currentPosition - 1, current);
      if !isAtLeftEdge && !collideToLeft {
        SomeMissReadsAll(squares, currentPosition - 1, current);
        currentPosition := currentPosition - 1;
      }
      Draw();
    }

    /** moveRight: undraw, test the right edge and the cells to the right, move, draw. */
    method MoveRight()
      requires Valid() && Rules.CanReadRight(Model())
      modifies this
      ensures Valid() && Model() == Rules.MoveRight(old(Model()))
    {
      Undraw();
      var isAtRightEdge := AtRightEdge(currentPosition, current);
      PaintKeepsTaken(old(squares), Rules.Occupied(old(Model())), random);
      SomeTakenSame(squares, old(squares), currentPosition + 1, current);
      var collideToRight := SomeTaken(squares, currentPosition + 1, current);
      if !isAtRightEdge && !collideToRight {
        SomeMissReadsAll(squares, currentPosition + 1, current);
        currentPosition := currentPosition + 1;
      }
      Draw();
    }

    /** rotate: undraw, next rotation index (back to 0 at `current.length`), draw. */
    method Rotate()
      requires Valid() && Rules.CanTurn(Model())
      modifies this
      ensures Valid() && Model() == Rules.Rotate(old(Model()))
    {
      ShapeSize(random, currentRotation);
      Undraw();
      currentRotation := currentRotation + 1;
      if currentRotation == |current| {
        currentRotation := 0;
      }
      current := Shape(random, currentRotation);
      Draw();
    }

    /**
     * addScore: scan the row starts 0, 10, ... below 199; a row whose ten
     * cells are all taken scores 10, takes 80 ms off `speed`, is
     * emptied, spliced out and put back at the front of the grid.
     */
    method AddScore()
      requires Valid()
      modifies this
      ensures Valid() && Model() == Rules.AddScore(old(Model()))
    {
      ghost var start := squares;
      ClearRowsFloor(start);
      var i := 0;
      while i < ScanLimit
        invariant 0 <= i <= PlayCells && i % Width == 0
        invariant Floor(squares)
        invariant ClearRows(squares, i) == ClearRows(start, 0)
        invariant score == old(score) + Rules.ScoreStep * (FullRowCount(start, 0) - FullRowCount(squares, i))
        invariant speed == old(speed) - Rules.SpeedStep * (FullRowCount(start, 0) - FullRowCount(squares, i))
        invariant currentPosition == old(currentPosition) && currentRotation == old(currentRotation)
        invariant random == old(random) && nextRandom == old(nextRandom)
        invariant current == old(current) && over == old(over)
      {
        ScannedRowFits(i);
        if RowFull(squares, i) {
          score := score + Rules.ScoreStep;
          speed := speed - Rules.SpeedStep;
          var s := BlankCells(squares, i, i + RowCells);
          ClearRowMoves(squares, i);
          var squaresRemoved := s[i..i + Width];
          squares := squaresRemoved + s[..i] + s[i + Width..];
        }
        i := i + Width;
      }
    }

    /** gameOver: the piece just drawn covers a taken cell. */
    method GameOver()
      requires Valid()
      modifies this
      ensures Valid() && Model() == Rules.GameOver(old(Model()))
    {
      if AnyTaken(squares, currentPosition, current) {
        over := true;
      }
    }

    /** control: dispatch on the key code of a released key. */
    method Control(keyCode: int, roll: nat)
      requires Valid() && roll < KindCount
      requires Rules.CommandOf(keyCode).Some? ==> Rules.CanRun(Model(), Rules.CommandOf(keyCode).value)
      modifies this
      ensures Valid() && Model() == Rules.Control(old(Model()), keyCode, roll)
    {
      if keyCode == Rules.KeyLeft {
        MoveLeft();
      } else if keyCode == Rules.KeyRight {
        MoveRight();
      } else if keyCode == Rules.KeyUp {
        Rotate();
      } else if keyCode == Rules.KeyDown {
        MoveDown(roll);
      }
    }
  }
}
