/**
 * The geometry tables of the game: the seven tetrominoes, each with four
 * rotations, written as offsets from the piece's anchor cell in a row-major
 * grid (one column right adds 1, one row down adds the grid's width), and
 * the smaller table used for the "up next" preview.
 */
module Shapes {

  /** Columns of the play field. */
  const Width := 10
  /** Columns of the preview mini-grid. */
  const DisplayWidth := 4
  /** Number of tetromino kinds in the table. */
  const KindCount := 7
  /** Number of rotation states of every kind. */
  const RotationCount := 4
  /** Cells of one piece. */
  const PieceCells := 4

  function LTetromino(w: int): seq<seq<int>> {
    [[1, 2, w + 1, w * 2 + 1],
     [w, w + 1, w + 2, w * 2 + 2],
     [1, w + 1, w * 2, w * 2 + 1],
     [w, w * 2, w * 2 + 1, w * 2 + 2]]
  }

  function ZTetromino(w: int): seq<seq<int>> {
    [[w + 1, w + 2, w * 2, w * 2 + 1],
     [0, w, w + 1, w * 2 + 1],
     [w + 1, w + 2, w * 2, w * 2 + 1],
     [0, w, w + 1, w * 2 + 1]]
  }

  function TTetromino(w: int): seq<seq<int>> {
    [[1, w, w + 1, w + 2],
     [1, w + 1, w + 2, w * 2 + 1],
     [w, w + 1, w + 2, w * 2 + 1],
     [1, w, w + 1, w * 2 + 1]]
  }

  function OTetromino(w: int): seq<seq<int>> {
    [[0, 1, w, w + 1],
     [0, 1, w, w + 1],
     [0, 1, w, w + 1],
     [0, 1, w, w + 1]]
  }

  function ITetromino(w: int): seq<seq<int>> {
    [[1, w + 1, w * 2 + 1, w * 3 + 1],
     [w, w + 1, w + 2, w + 3],
     [1, w + 1, w * 2 + 1, w * 3 + 1],
     [w, w + 1, w + 2, w + 3]]
  }

  function L2Tetromino(w: int): seq<seq<int>> {
    [[0, 1, w + 1, w * 2 + 1],
     [2, w, w + 1, w + 2],
     [1, w + 1, w * 2 + 1, w * 2 + 2],
     [0, 1, 2, w]]
  }

  function Z2Tetromino(w: int): seq<seq<int>> {
    [[w, w + 1, w * 2 + 1, w * 2 + 2],
     [1, w, w + 1, w * 2],
     [w, w + 1, w * 2 + 1, w * 2 + 2],
     [1, w, w + 1, w * 2]]
  }

  /** All kinds, in the order the game indexes them, for a grid `w` columns wide. */
  function Tetrominoes(w: int): (t: seq<seq<seq<int>>>)
    ensures |t| == KindCount
    ensures forall k :: 0 <= k < KindCount ==> |t[k]| == RotationCount
  {
    [LTetromino(w), ZTetromino(w), TTetromino(w), OTetromino(w),
     ITetromino(w), L2Tetromino(w), Z2Tetromino(w)]
  }

  /** The offsets of kind `kind` in rotation `rotation` on the play field. */
  function Shape(kind: nat, rotation: nat): seq<int>
    requires kind < KindCount && rotation < RotationCount
  {
    Tetrominoes(Width)[kind][rotation]
  }

  /** The preview table, written out for the four-column mini-grid. */
  function UpNext(): seq<seq<int>> {
    [[1, 2, DisplayWidth + 1, DisplayWidth * 2 + 1],
     [DisplayWidth + 1, DisplayWidth + 2, DisplayWidth * 2, DisplayWidth * 2 + 1],
     [1, DisplayWidth, DisplayWidth + 1, DisplayWidth + 2],
     [0, 1, DisplayWidth, DisplayWidth + 1],
     [1, DisplayWidth + 1, DisplayWidth * 2 + 1, DisplayWidth * 3 + 1],
     [0, 1, DisplayWidth + 1, DisplayWidth * 2 + 1],
     [DisplayWidth, DisplayWidth + 1, DisplayWidth * 2 + 1, DisplayWidth * 2 + 2]]
  }

  /** The offsets of a piece fit a 4x4 box whose top-left cell is the anchor. */
  predicate InBox(o: int) {
    0 <= o && o % Width <= 3 && o / Width <= 3
  }

  predicate WellFormed(offsets: seq<int>) {
    && |offsets| == PieceCells
    && (forall i, j :: 0 <= i < j < |offsets| ==> offsets[i] != offsets[j])
    && (forall i :: 0 <= i < |offsets| ==> InBox(offsets[i]))
  }

  /** Every rotation of every kind lists four distinct cells inside a 4x4 box. */
  lemma ShapeWellFormed(kind: nat, rotation: nat)
    requires kind < KindCount && rotation < RotationCount
    ensures WellFormed(Shape(kind, rotation))
  {
    var t := Tetrominoes(Width)[kind];
    if kind == 0 { assert t == LTetromino(Width); }
    else if kind == 1 { assert t == ZTetromino(Width); }
    else if kind == 2 { assert t == TTetromino(Width); }
    else if kind == 3 { assert t == OTetromino(Width); }
    else if kind == 4 { assert t == ITetromino(Width); }
    else if kind == 5 { assert t == L2Tetromino(Width); }
    else { assert t == Z2Tetromino(Width); }
  }

  /** Every rotation lists four cells. */
  lemma ShapeSize(kind: nat, rotation: nat)
    requires kind < KindCount && rotation < RotationCount
    ensures |Shape(kind, rotation)| == PieceCells
  {
  }

  /** Every offset lies between the anchor and the bottom-right cell of its box. */
  lemma ShapeBounds(kind: nat, rotation: nat)
    requires kind < KindCount && rotation < RotationCount
    ensures forall o :: o in Shape(kind, rotation) ==> 0 <= o <= 3 * Width + 3
  {
    ShapeWellFormed(kind, rotation);
  }

  /** Preview entry k is rotation 0 of kind k, drawn on the preview's width. */
  lemma UpNextIsSpawnRotation(kind: nat)
    requires kind < KindCount
    ensures |UpNext()| == KindCount
    ensures UpNext()[kind] == Tetrominoes(DisplayWidth)[kind][0]
  {
  }
}
