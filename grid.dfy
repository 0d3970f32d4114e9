/**
 * The play field: a flat, row-major sequence of cells. Row r, column c is
 * index r * Width + c. The 20 playable rows hold indices 0..199; below them
 * the page supplies one floor row of ten cells that are taken from the start,
 * which is what stops a falling piece at the bottom.
 */
module Grid {
  import opened Shapes

  /** The background colour of a cell: none, or the colour of a kind. */
  datatype Background = Blank | Colour(kind: nat)

  /**
   * One square of the grid. `taken` is the "taken" class (locked terrain),
   * `tetromino` the "tetromino" class (drawn piece), `colour` its background.
   */
  datatype Cell = Cell(taken: bool, tetromino: bool, colour: Background)

  const Rows := 20
  /** Cells of the playable rows. */
  const PlayCells := Rows * Width
  /** Cells of the whole grid: the playable rows and the floor row. */
  const GridCells := PlayCells + Width
  /** The row tested and cleared by the line clearer is written out as ten cells. */
  const RowCells := 10
  /** The line clearer scans row starts below this bound. */
  const ScanLimit := 199

  const EmptyCell := Cell(false, false, Blank)

  /** A grid of the page's size whose floor row is taken. */
  predicate Floor(s: seq<Cell>) {
    |s| == GridCells && forall i :: PlayCells <= i < GridCells ==> s[i].taken
  }

  /** The grid indices covered by `offsets` placed at anchor `pos`. */
  function Cells(pos: int, offsets: seq<int>): set<int> {
    set o | o in offsets :: pos + o
  }

  /** Every cell of `offsets` at `pos` is an index of a grid of `n` cells. */
  predicate Within(pos: int, offsets: seq<int>, n: int) {
    forall o :: o in offsets ==> 0 <= pos + o < n
  }

  /** Two grids of one size whose cells agree on "taken". */
  predicate SameTaken(a: seq<Cell>, b: seq<Cell>) {
    |a| == |b| && forall i :: 0 <= i < |a| ==> a[i].taken == b[i].taken
  }

  /** draw: the cells get the "tetromino" class and the kind's colour. */
  function Paint(s: seq<Cell>, cells: set<int>, kind: nat): seq<Cell> {
    seq(|s|, i requires 0 <= i < |s| =>
      if i in cells then s[i].(tetromino := true, colour := Colour(kind)) else s[i])
  }

  /** undraw: the cells lose the "tetromino" class and their colour. */
  function Unpaint(s: seq<Cell>, cells: set<int>): seq<Cell> {
    seq(|s|, i requires 0 <= i < |s| =>
      if i in cells then s[i].(tetromino := false, colour := Blank) else s[i])
  }

  /** freeze: the cells get the "taken" class and keep everything else. */
  function Lock(s: seq<Cell>, cells: set<int>): seq<Cell> {
    seq(|s|, i requires 0 <= i < |s| => if i in cells then s[i].(taken := true) else s[i])
  }

  /** Some cell at `pos` plus an offset is taken; every such cell must exist. */
  predicate AnyTaken(s: seq<Cell>, pos: int, offsets: seq<int>)
    requires Within(pos, offsets, |s|)
  {
    exists o :: o in offsets && s[pos + o].taken
  }

  /**
   * Some cell is in column 0. The cells tested are always indices of the grid,
   * so Dafny's remainder agrees with the source's `%` here.
   */
  predicate AtLeftEdge(pos: int, offsets: seq<int>) {
    exists o :: o in offsets && (pos + o) % Width == 0
  }

  /** Some cell is in the last column. */
  predicate AtRightEdge(pos: int, offsets: seq<int>) {
    exists o :: o in offsets && (pos + o) % Width == Width - 1
  }

  /** Painting and erasing never touch "taken". */
  lemma PaintKeepsTaken(s: seq<Cell>, cells: set<int>, kind: nat)
    ensures SameTaken(Paint(s, cells, kind), s)
    ensures SameTaken(Unpaint(s, cells), s)
  {
  }

  /** Whether some cell is taken depends only on the "taken" flags. */
  lemma AnyTakenSame(a: seq<Cell>, b: seq<Cell>, pos: int, offsets: seq<int>)
    requires SameTaken(a, b) && Within(pos, offsets, |a|)
    ensures AnyTaken(a, pos, offsets) == AnyTaken(b, pos, offsets)
  {
    if AnyTaken(a, pos, offsets) {
      var o :| o in offsets && a[pos + o].taken;
      assert b[pos + o].taken;
    }
  }

  /**
   * The first `k` reads of the `.some` test "is the cell at `pos` plus an
   * offset taken" each find a cell, and a free one.
   */
  predicate FreeUpTo(s: seq<Cell>, pos: int, offsets: seq<int>, k: int) {
    forall j :: 0 <= j < k && j < |offsets| ==> 0 <= pos + offsets[j] < |s| && !s[pos + offsets[j]].taken
  }

  /**
   * The test reads the offsets in order and stops at the first taken cell:
   * the read of offset `i` happens when the reads before it found free
   * cells, and every read that happens must find a cell.
   */
  predicate SomeReadable(s: seq<Cell>, pos: int, offsets: seq<int>) {
    forall i :: 0 <= i < |offsets| && FreeUpTo(s, pos, offsets, i) ==> 0 <= pos + offsets[i] < |s|
  }

  /** The value of the test: it meets a taken cell before running out of offsets. */
  predicate SomeTaken(s: seq<Cell>, pos: int, offsets: seq<int>)
    requires SomeReadable(s, pos, offsets)
  {
    !FreeUpTo(s, pos, offsets, |offsets|)
  }

  /** When every cell exists, the test reads safely and agrees with `AnyTaken`. */
  lemma SomeTakenAgrees(s: seq<Cell>, pos: int, offsets: seq<int>)
    requires Within(pos, offsets, |s|)
    ensures SomeReadable(s, pos, offsets)
    ensures SomeTaken(s, pos, offsets) == AnyTaken(s, pos, offsets)
  {
    forall i | 0 <= i < |offsets| ensures 0 <= pos + offsets[i] < |s| {
      assert offsets[i] in offsets;
    }
    if AnyTaken(s, pos, offsets) {
      var o :| o in offsets && s[pos + o].taken;
      var j :| 0 <= j < |offsets| && offsets[j] == o;
      assert s[pos + offsets[j]].taken;
    } else {
      forall j | 0 <= j < |offsets| ensures !s[pos + offsets[j]].taken {
        assert offsets[j] in offsets;
      }
    }
  }

  /** A test that finds no taken cell has read every cell, so they all exist. */
  lemma SomeMissReadsAll(s: seq<Cell>, pos: int, offsets: seq<int>)
    requires SomeReadable(s, pos, offsets) && !SomeTaken(s, pos, offsets)
    ensures Within(pos, offsets, |s|)
  {
    forall o | o in offsets ensures 0 <= pos + o < |s| {
      var j :| 0 <= j < |offsets| && offsets[j] == o;
    }
  }

  /** Every cell at `pos` plus an offset exists and none is taken. */
  predicate AllFree(s: seq<Cell>, pos: int, offsets: seq<int>) {
    Within(pos, offsets, |s|) && !AnyTaken(s, pos, offsets)
  }

  /**
   * Wherever the test can be read, it finds a taken cell exactly when the
   * cells are not all there and free.
   */
  lemma SomeTakenUnlessAllFree(s: seq<Cell>, pos: int, offsets: seq<int>)
    requires SomeReadable(s, pos, offsets)
    ensures SomeTaken(s, pos, offsets) <==> !AllFree(s, pos, offsets)
  {
    if !SomeTaken(s, pos, offsets) {
      SomeMissReadsAll(s, pos, offsets);
    }
    if Within(pos, offsets, |s|) {
      SomeTakenAgrees(s, pos, offsets);
    }
  }

  /** The test and whether it can be read depend only on the "taken" flags. */
  lemma SomeTakenSame(a: seq<Cell>, b: seq<Cell>, pos: int, offsets: seq<int>)
    requires SameTaken(a, b) && SomeReadable(b, pos, offsets)
    ensures SomeReadable(a, pos, offsets)
    ensures SomeTaken(a, pos, offsets) == SomeTaken(b, pos, offsets)
  {
    forall k ensures FreeUpTo(a, pos, offsets, k) == FreeUpTo(b, pos, offsets, k) {
    }
  }

  /** A cell not in column 0 moved one left stays in its row. */
  lemma LeftStaysInRow(pos: int, offsets: seq<int>)
    requires Within(pos, offsets, GridCells) && !AtLeftEdge(pos, offsets)
    ensures forall o :: o in offsets ==> (pos - 1 + o) / Width == (pos + o) / Width
  {
  }

  /** A cell not in the last column moved one right stays in its row. */
  lemma RightStaysInRow(pos: int, offsets: seq<int>)
    requires Within(pos, offsets, GridCells) && !AtRightEdge(pos, offsets)
    ensures forall o :: o in offsets ==> (pos + 1 + o) / Width == (pos + o) / Width
  {
  }

  // ---------------------------------------------------------------------
  // The line clearer
  // ---------------------------------------------------------------------

  /** The ten cells from row start `i` are all taken. */
  predicate RowFull(s: seq<Cell>, i: nat)
    requires i + RowCells <= |s|
  {
    forall j :: i <= j < i + RowCells ==> s[j].taken
  }

  /** The cells in [lo, hi) lose "taken", "tetromino" and their colour. */
  function Blanked(s: seq<Cell>, lo: int, hi: int): seq<Cell> {
    seq(|s|, j requires 0 <= j < |s| => if lo <= j < hi then EmptyCell else s[j])
  }

  /** The ten cells from `i` emptied, as `row.forEach` does. */
  function BlankRow(s: seq<Cell>, i: nat): seq<Cell>
    requires i + RowCells <= |s|
  {
    Blanked(s, i, i + RowCells)
  }

  /** `squares.splice(i, width)` followed by prepending the removed cells. */
  function SpliceToFront(s: seq<Cell>, i: nat): seq<Cell>
    requires i + Width <= |s|
  {
    s[i..i + Width] + s[..i] + s[i + Width..]
  }

  /** What one iteration of the scan does with a full row at `i`. */
  function ClearRow(s: seq<Cell>, i: nat): seq<Cell>
    requires i + RowCells <= |s|
  {
    SpliceToFront(BlankRow(s, i), i)
  }

  /**
   * The scan of addScore from row start `i` on: each full row met is
   * cleared and moved to the front before the scan goes on to `i + Width`
   * in the rearranged grid.
   */
  function ClearRows(s: seq<Cell>, i: nat): (r: seq<Cell>)
    requires |s| == GridCells
    ensures |r| == |s|
    decreases ScanLimit - i
  {
    if i >= ScanLimit then s
    else if RowFull(s, i) then ClearRows(ClearRow(s, i), i + Width)
    else ClearRows(s, i + Width)
  }

  /** How many full rows that scan meets. */
  function FullRowCount(s: seq<Cell>, i: nat): nat
    requires |s| == GridCells
    decreases ScanLimit - i
  {
    if i >= ScanLimit then 0
    else if RowFull(s, i) then 1 + FullRowCount(ClearRow(s, i), i + Width)
    else FullRowCount(s, i + Width)
  }

  /** A row start the scan visits. */
  predicate Scanned(r: int) {
    0 <= r < ScanLimit && r % Width == 0
  }

  /** No visited row start in [lo, hi) begins a full row. */
  predicate NoFullRow(s: seq<Cell>, lo: int, hi: int)
    requires |s| == GridCells
  {
    forall r :: lo <= r < hi && Scanned(r) ==> !RowFull(s, r)
  }

  /** The row start before a visited one is visited too. */
  lemma ScannedBefore(r: int)
    requires Scanned(r) && r != 0
    ensures Scanned(r - Width)
  {
  }

  lemma ScannedRowFits(r: int)
    requires Scanned(r)
    ensures r + Width <= PlayCells
  {
  }

  /**
   * Clearing the full row at `i`: the grid keeps its size and its multiset
   * of cells, the cleared cells are empty and sit at the front, the rows
   * above `i` move down one row in their order, and the rows below stay.
   */
  lemma ClearRowMoves(s: seq<Cell>, i: nat)
    requires i + Width <= |s|
    ensures |ClearRow(s, i)| == |s|
    ensures multiset(ClearRow(s, i)) == multiset(BlankRow(s, i))
    ensures forall j :: 0 <= j < Width ==> ClearRow(s, i)[j] == EmptyCell
    ensures forall j :: Width <= j < i + Width ==> ClearRow(s, i)[j] == s[j - Width]
    ensures forall j :: i + Width <= j < |s| ==> ClearRow(s, i)[j] == s[j]
  {
    ClearRowLayout(s, i);
    ClearRowPermutes(s, i);
  }

  /** Where each cell of the grid lands when the full row at `i` is cleared. */
  lemma ClearRowLayout(s: seq<Cell>, i: nat)
    requires i + Width <= |s|
    ensures |ClearRow(s, i)| == |s|
    ensures forall j :: 0 <= j < Width ==> ClearRow(s, i)[j] == EmptyCell
    ensures forall j :: Width <= j < i + Width ==> ClearRow(s, i)[j] == s[j - Width]
    ensures forall j :: i + Width <= j < |s| ==> ClearRow(s, i)[j] == s[j]
  {
    var b := BlankRow(s, i);
    var c := ClearRow(s, i);
    var front := b[i..i + Width];
    var above := b[..i];
    var below := b[i + Width..];
    assert c == front + above + below;
    forall j | 0 <= j < Width ensures c[j] == EmptyCell {
      assert c[j] == front[j] == b[i + j];
    }
    forall j | Width <= j < i + Width ensures c[j] == s[j - Width] {
      assert c[j] == above[j - Width] == b[j - Width];
    }
    forall j | i + Width <= j < |s| ensures c[j] == s[j] {
      assert c[j] == below[j - i - Width] == b[j];
    }
  }

  /** Clearing the full row at `i` rearranges the emptied grid's cells and adds or drops none. */
  lemma ClearRowPermutes(s: seq<Cell>, i: nat)
    requires i + Width <= |s|
    ensures multiset(ClearRow(s, i)) == multiset(BlankRow(s, i))
  {
    var b := BlankRow(s, i);
    assert b == b[..i] + b[i..i + Width] + b[i + Width..];
    calc {
      multiset(ClearRow(s, i));
      multiset(b[i..i + Width]) + multiset(b[..i]) + multiset(b[i + Width..]);
      multiset(b[..i] + b[i..i + Width] + b[i + Width..]);
    }
  }

  /** Rows at index PlayCells and beyond, the floor, are never examined or moved. */
  lemma {:induction false} ClearRowsKeepsFloor(s: seq<Cell>, i: nat)
    requires |s| == GridCells && i % Width == 0
    ensures |ClearRows(s, i)| == GridCells
    ensures forall j :: PlayCells <= j < GridCells ==> ClearRows(s, i)[j] == s[j]
    decreases ScanLimit - i
  {
    if i < ScanLimit {
      ScannedRowFits(i);
      if RowFull(s, i) {
        ClearRowMoves(s, i);
        ClearRowsKeepsFloor(ClearRow(s, i), i + Width);
      } else {
        ClearRowsKeepsFloor(s, i + Width);
      }
    }
  }

  /** Clearing keeps the floor row taken. */
  lemma ClearRowsFloor(s: seq<Cell>)
    requires Floor(s)
    ensures Floor(ClearRows(s, 0))
  {
    ClearRowsKeepsFloor(s, 0);
  }

  /** A row whose cells are the cells of a row of another grid is full exactly when that one is. */
  lemma RowFullMoved(a: seq<Cell>, ra: nat, b: seq<Cell>, rb: nat)
    requires ra + RowCells <= |a| && rb + RowCells <= |b|
    requires forall j :: ra <= j < ra + RowCells ==> a[j] == b[j - ra + rb]
    ensures RowFull(a, ra) == RowFull(b, rb)
  {
    if RowFull(a, ra) {
      forall j | rb <= j < rb + RowCells ensures b[j].taken {
        assert a[j - rb + ra] == b[j];
      }
    }
  }

  /**
   * If no visited row before `i` is full, then after the scan from `i` no
   * visited row is full: each cleared row comes back empty at the top and
   * pushes rows already seen down by one.
   */
  lemma {:induction false} ClearRowsLeavesNoFullRow(s: seq<Cell>, i: nat)
    requires |s| == GridCells && i % Width == 0
    requires NoFullRow(s, 0, i)
    ensures NoFullRow(ClearRows(s, i), 0, ScanLimit)
    decreases ScanLimit - i
  {
    if i >= ScanLimit {
      assert NoFullRow(s, 0, ScanLimit) by {
        forall r | 0 <= r < ScanLimit && Scanned(r) ensures !RowFull(s, r) {
          assert r < i;
        }
      }
    } else if RowFull(s, i) {
      ClearRowKeepsRowsAboveOpen(s, i);
      ClearRowsLeavesNoFullRow(ClearRow(s, i), i + Width);
    } else {
      forall r | 0 <= r < i + Width && Scanned(r) ensures !RowFull(s, r) {
        if r != i {
          assert r < i;
        }
      }
      ClearRowsLeavesNoFullRow(s, i + Width);
    }
  }

  /** After the full row at `i` is cleared, the rows up to `i` are not full if those before `i` were not. */
  lemma ClearRowKeepsRowsAboveOpen(s: seq<Cell>, i: nat)
    requires |s| == GridCells && Scanned(i)
    requires NoFullRow(s, 0, i)
    ensures NoFullRow(ClearRow(s, i), 0, i + Width)
  {
    var t := ClearRow(s, i);
    ScannedRowFits(i);
    ClearRowMoves(s, i);
    forall r | 0 <= r < i + Width && Scanned(r) ensures !RowFull(t, r) {
      if r == 0 {
        assert !t[0].taken;
      } else {
        ScannedBefore(r);
        RowFullMoved(t, r, s, r - Width);
      }
    }
  }

  /** After addScore no visited row of the grid is full. */
  lemma ClearedGridHasNoFullRow(s: seq<Cell>)
    requires |s| == GridCells
    ensures NoFullRow(ClearRows(s, 0), 0, ScanLimit)
  {
    ClearRowsLeavesNoFullRow(s, 0);
  }

  /**
   * The scan from `i` meets no full row exactly when no visited row from `i`
   * on is full, and then it leaves the grid as it was.
   */
  lemma {:induction false} NoFullRowNoChange(s: seq<Cell>, i: nat)
    requires |s| == GridCells && i % Width == 0
    ensures FullRowCount(s, i) == 0 <==> NoFullRow(s, i, ScanLimit)
    ensures FullRowCount(s, i) == 0 ==> ClearRows(s, i) == s
    decreases ScanLimit - i
  {
    if i < ScanLimit {
      NoFullRowNoChange(s, i + Width);
      if NoFullRow(s, i + Width, ScanLimit) && !RowFull(s, i) {
        forall r | i <= r < ScanLimit && Scanned(r) ensures !RowFull(s, r) {
          if r != i {
            assert r >= i + Width;
          }
        }
      }
    }
  }

  /** addScore changes nothing exactly when no visited row is full. */
  lemma NoFullRowMeansNoClear(s: seq<Cell>)
    requires |s| == GridCells
    ensures FullRowCount(s, 0) == 0 <==> NoFullRow(s, 0, ScanLimit)
    ensures NoFullRow(s, 0, ScanLimit) ==> ClearRows(s, 0) == s
  {
    NoFullRowNoChange(s, 0);
  }

  // ---------------------------------------------------------------------
  // Helpers for the loops that update one cell at a time
  // ---------------------------------------------------------------------

  lemma CellsSnoc(pos: int, offsets: seq<int>, k: nat)
    requires k < |offsets|
    ensures Cells(pos, offsets[..k + 1]) == Cells(pos, offsets[..k]) + {pos + offsets[k]}
  {
    var a, b := offsets[..k + 1], offsets[..k];
    assert a == b + [offsets[k]];
    forall x ensures x in Cells(pos, a) <==> x in Cells(pos, b) + {pos + offsets[k]} {
      if x in Cells(pos, a) {
        var o :| o in a && x == pos + o;
        assert o in b || o == offsets[k];
      }
      if x in Cells(pos, b) {
        var o :| o in b && x == pos + o;
        assert o in a;
      }
      if x == pos + offsets[k] {
        assert offsets[k] in a;
      }
    }
  }

  lemma PaintOneMore(s: seq<Cell>, cells: set<int>, x: int, kind: nat)
    requires 0 <= x < |s|
    ensures Paint(s, cells + {x}, kind)
         == Paint(s, cells, kind)[x := Paint(s, cells, kind)[x].(tetromino := true, colour := Colour(kind))]
  {
  }

  lemma UnpaintOneMore(s: seq<Cell>, cells: set<int>, x: int)
    requires 0 <= x < |s|
    ensures Unpaint(s, cells + {x})
         == Unpaint(s, cells)[x := Unpaint(s, cells)[x].(tetromino := false, colour := Blank)]
  {
  }

  lemma LockOneMore(s: seq<Cell>, cells: set<int>, x: int)
    requires 0 <= x < |s|
    ensures Lock(s, cells + {x}) == Lock(s, cells)[x := Lock(s, cells)[x].(taken := true)]
  {
  }

  lemma BlankOneMore(s: seq<Cell>, lo: int, hi: int)
    requires 0 <= lo <= hi < |s|
    ensures Blanked(s, lo, hi + 1) == Blanked(s, lo, hi)[hi := EmptyCell]
  {
  }
}
