/**
 * Concrete consequences of the shape operations for the game's own pieces:
 * what a single rotation and a row clear do to particular spawn layouts, and
 * a client that drives a shape object through spawn, moves and a row clear.
 */
module ShapeScenarios {
  import opened Cells
  import opened Shapes

  /** One quarter-turn stands the I piece on end, in column 1. */
  lemma IRotatedOnce()
    ensures RotateCells(Tetromino(I).cells, Tetromino(I).anchor)
            == {Pos(1, -1), Pos(1, 0), Pos(1, 1), Pos(1, 2)}
  {
    var pivot := Pos(1, 0);
    assert Tetromino(I) == Blueprint({Pos(0, 0), Pos(1, 0), Pos(2, 0), Pos(3, 0)}, pivot);
    ImageOfFour(Pos(0, 0), Pos(1, 0), Pos(2, 0), Pos(3, 0), p => Rotate(p, pivot));
  }

  /** The O piece is left exactly where it was by a quarter-turn. */
  lemma ORotationFixed()
    ensures RotateCells(Tetromino(O).cells, Tetromino(O).anchor) == Tetromino(O).cells
  {
    var pivot := Pos(0, 0);
    assert Tetromino(O) == Blueprint({Pos(0, 0), Pos(1, 0), Pos(0, 1), Pos(1, 1)}, pivot);
    ImageOfFour(Pos(0, 0), Pos(1, 0), Pos(0, 1), Pos(1, 1), p => Rotate(p, pivot));
  }

  /** Clearing row 1 under a T piece drops its bar onto row 1 and removes its stem. */
  lemma TRowClear()
    ensures ClearRow(Tetromino(T).cells, 1) == {Pos(0, 1), Pos(1, 1), Pos(2, 1)}
  {
    var b := Tetromino(T);
    forall q
      ensures q in ClearRow(b.cells, 1) <==> q in {Pos(0, 1), Pos(1, 1), Pos(2, 1)}
    {
      ClearRowMembership(b.cells, 1, q);
    }
  }

  /**
   * Clearing the row an I piece lies on empties it, and its anchor is then
   * none of its cells: a shape is not kept non-empty, nor its anchor inside it.
   */
  lemma IRowClearEmpties()
    ensures ClearRow(Tetromino(I).cells, 0) == {}
  {
    var b := Tetromino(I);
    forall q
      ensures q !in ClearRow(b.cells, 0)
    {
      ClearRowMembership(b.cells, 0, q);
    }
  }

  /**
   * Clearing row 0 under a T piece leaves only its stem, dropped onto row 1,
   * while the anchor (1, 0) stays where it was, outside the remaining cells.
   */
  lemma TRowClearLeavesAnchorOutside()
    ensures ClearRow(Tetromino(T).cells, 0) == {Pos(1, 1)}
    ensures Tetromino(T).anchor !in ClearRow(Tetromino(T).cells, 0)
  {
    var b := Tetromino(T);
    forall q
      ensures q in ClearRow(b.cells, 0) <==> q == Pos(1, 1)
    {
      ClearRowMembership(b.cells, 0, q);
    }
  }

  /** An I piece and its copy ten columns to the right share no cell. */
  lemma ITranslatedApart()
    ensures Shift(Tetromino(I).cells, Pos(10, 0)) * Tetromino(I).cells == {}
  {
    assert Tetromino(I).cells == {Pos(0, 0), Pos(1, 0), Pos(2, 0), Pos(3, 0)};
    ImageOfFour(Pos(0, 0), Pos(1, 0), Pos(2, 0), Pos(3, 0), (p: Pos) => p.Plus(Pos(10, 0)));
    assert Shift(Tetromino(I).cells, Pos(10, 0)) == {Pos(10, 0), Pos(11, 0), Pos(12, 0), Pos(13, 0)};
  }

  /** Spawn an I: it collides with itself and not with its copy ten columns to the right. */
  method SpawnAndMoveI()
  {
    var piece := new Shape.NewI();
    CollidesWithSelf(piece);
    var far := piece.Plus(Pos(10, 0));
    ITranslatedApart();
    assert far.positions * piece.positions == {};
    assert !far.CollidesWith(piece);
  }

  /** Four rotations of a spawned T give back its cells; then a row clear under it. */
  method RotateAndClearT()
  {
    var t := new Shape.NewT();
    var r1 := t.Rotated();
    var r2 := r1.Rotated();
    var r3 := r2.Rotated();
    var r4 := r3.Rotated();
    RotateCellsOrderFour(t.positions, t.anchor);
    assert r4.positions == t.positions && r4.anchor == t.anchor && r4.typ == T;

    t.RemoveLine(1);
    TRowClear();
    assert t.positions == {Pos(0, 1), Pos(1, 1), Pos(2, 1)};
    assert t.anchor == Pos(1, 0) && t.typ == T;
  }
}
