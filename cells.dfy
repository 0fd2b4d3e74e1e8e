/**
 * Grid cells and the cell-set maps a falling piece is transformed by.
 *
 * Every shape operation of the game builds its new cell set by mapping a
 * function over the old one (`iter().map(f).collect()` into a hash set);
 * `Image` is that step, and `Shift`, `RotateCells` and `ClearRow` are the three
 * maps the game uses. The lemmas say exactly which cells end up in the result
 * and how many there are.
 */
module Cells {

  /** An occupied cell: x grows to the right, y grows downward. */
  datatype Pos = Pos(x: int, y: int) {

    /** Vector addition, used to translate a cell by a displacement. */
    function Plus(d: Pos): Pos {
      Pos(x + d.x, y + d.y)
    }

    /** Vector subtraction: the one cell that `Plus(d)` sends here. */
    function Minus(d: Pos): (p: Pos)
      ensures p.Plus(d) == this
      ensures forall p': Pos :: p'.Plus(d) == this ==> p' == p
    {
      Pos(x - d.x, y - d.y)
    }
  }

  /** The zero displacement. */
  const Origin: Pos := Pos(0, 0)

  lemma PlusAssociative(p: Pos, d1: Pos, d2: Pos)
    ensures p.Plus(d1).Plus(d2) == p.Plus(d1.Plus(d2))
  {
  }

  lemma PlusOrigin(p: Pos)
    ensures p.Plus(Origin) == p
  {
  }

  // ---------------------------------------------------------------------------
  // Images of cell sets

  /** The set of cells `f(p)` for the cells `p` of `cells`. */
  function Image(cells: set<Pos>, f: Pos -> Pos): set<Pos> {
    set p | p in cells :: f(p)
  }

  /** No two cells of `cells` are sent to the same cell by `f`. */
  ghost predicate InjectiveOn(cells: set<Pos>, f: Pos -> Pos) {
    forall p, q :: p in cells && q in cells && f(p) == f(q) ==> p == q
  }

  /** A map that merges no two cells of a set keeps its cell count. */
  lemma {:induction false} ImageCardinality(cells: set<Pos>, f: Pos -> Pos)
    requires InjectiveOn(cells, f)
    ensures |Image(cells, f)| == |cells|
    decreases |cells|
  {
    if cells == {} {
      assert Image(cells, f) == {};
    } else {
      var p :| p in cells;
      var rest := cells - {p};
      ImageCardinality(rest, f);
      assert Image(cells, f) == Image(rest, f) + {f(p)};
      assert f(p) !in Image(rest, f);
    }
  }

  /** The image of a four-cell set, cell by cell. */
  lemma ImageOfFour(a: Pos, b: Pos, c: Pos, d: Pos, f: Pos -> Pos)
    ensures Image({a, b, c, d}, f) == {f(a), f(b), f(c), f(d)}
  {
    var img := Image({a, b, c, d}, f);
    assert f(a) in img && f(b) in img && f(c) in img && f(d) in img;
  }

  // ---------------------------------------------------------------------------
  // Translation

  /** Every cell moved by the displacement `d`. */
  function Shift(cells: set<Pos>, d: Pos): set<Pos> {
    Image(cells, (p: Pos) => p.Plus(d))
  }

  /** A cell is in the translated set exactly when the cell `d` behind it was in the original. */
  lemma ShiftMembership(cells: set<Pos>, d: Pos, q: Pos)
    ensures q in Shift(cells, d) <==> q.Minus(d) in cells
  {
    if q.Minus(d) in cells {
      assert ((p: Pos) => p.Plus(d))(q.Minus(d)) == q;
    }
  }

  /** Translation never merges two cells. */
  lemma ShiftCardinality(cells: set<Pos>, d: Pos)
    ensures |Shift(cells, d)| == |cells|
  {
    ImageCardinality(cells, (p: Pos) => p.Plus(d));
  }

  /** Translating twice is translating once by the sum of the displacements. */
  lemma ShiftCompose(cells: set<Pos>, d1: Pos, d2: Pos)
    ensures Shift(Shift(cells, d1), d2) == Shift(cells, d1.Plus(d2))
  {
    forall q
      ensures q in Shift(Shift(cells, d1), d2) <==> q in Shift(cells, d1.Plus(d2))
    {
      ShiftMembership(Shift(cells, d1), d2, q);
      ShiftMembership(cells, d1, q.Minus(d2));
      ShiftMembership(cells, d1.Plus(d2), q);
      assert q.Minus(d2).Minus(d1) == q.Minus(d1.Plus(d2));
    }
  }

  /** Translating by the zero displacement changes nothing. */
  lemma ShiftOrigin(cells: set<Pos>)
    ensures Shift(cells, Origin) == cells
  {
    forall q
      ensures q in Shift(cells, Origin) <==> q in cells
    {
      ShiftMembership(cells, Origin, q);
      assert q.Minus(Origin) == q;
    }
  }

  // ---------------------------------------------------------------------------
  // Rotation

  /**
   * The game's quarter-turn of cell `p` with the anchor `pivot` = (a, b):
   * (x, y) goes to (-y + b + 1, x - a + b). The new x uses the constant 1,
   * not a, so this is not a rotation about the anchor itself.
   */
  function Rotate(p: Pos, pivot: Pos): Pos {
    Pos(-p.y + pivot.y + 1, p.x - pivot.x + pivot.y)
  }

  /** The inverse quarter-turn: the cell that `Rotate` sends to `q`. */
  function Unrotate(q: Pos, pivot: Pos): (p: Pos)
    ensures Rotate(p, pivot) == q
    ensures forall p' :: Rotate(p', pivot) == q ==> p' == p
  {
    Pos(q.y + pivot.x - pivot.y, pivot.y + 1 - q.x)
  }

  /** Four quarter-turns with the same anchor bring every cell back, whatever the anchor. */
  lemma RotateOrderFour(p: Pos, pivot: Pos)
    ensures Rotate(Rotate(Rotate(Rotate(p, pivot), pivot), pivot), pivot) == p
  {
  }

  /** The quarter-turn about `pivot` itself: (x, y) goes to (a - (y - b), b + (x - a)). */
  function TurnAbout(p: Pos, pivot: Pos): Pos {
    Pos(pivot.x - (p.y - pivot.y), pivot.y + (p.x - pivot.x))
  }

  /** `TurnAbout` is a quarter-turn about `pivot`: it keeps the pivot and has order four. */
  lemma TurnAboutIsQuarterTurn(p: Pos, pivot: Pos)
    ensures TurnAbout(pivot, pivot) == pivot
    ensures TurnAbout(TurnAbout(TurnAbout(TurnAbout(p, pivot), pivot), pivot), pivot) == p
    ensures TurnAbout(TurnAbout(p, pivot), pivot) != p <==> p != pivot
  {
  }

  /**
   * The game's formula is the quarter-turn about the anchor followed by a
   * horizontal shift of 1 - a; it agrees with the quarter-turn about the
   * anchor exactly when the anchor's x is 1.
   */
  lemma RotateIsTurnThenShift(p: Pos, pivot: Pos)
    ensures Rotate(p, pivot) == TurnAbout(p, pivot).Plus(Pos(1 - pivot.x, 0))
    ensures Rotate(p, pivot) == TurnAbout(p, pivot) <==> pivot.x == 1
  {
  }

  /** The anchor is a fixed point of the formula exactly when its x is 1. */
  lemma RotateFixesAnchor(pivot: Pos)
    ensures Rotate(pivot, pivot) == pivot <==> pivot.x == 1
  {
  }

  /** Every cell of the set given a quarter-turn with the anchor `pivot`. */
  function RotateCells(cells: set<Pos>, pivot: Pos): set<Pos> {
    Image(cells, p => Rotate(p, pivot))
  }

  /** A cell is in the rotated set exactly when its inverse quarter-turn was in the original. */
  lemma RotateCellsMembership(cells: set<Pos>, pivot: Pos, q: Pos)
    ensures q in RotateCells(cells, pivot) <==> Unrotate(q, pivot) in cells
  {
    if Unrotate(q, pivot) in cells {
      assert (p => Rotate(p, pivot))(Unrotate(q, pivot)) == q;
    }
  }

  /** Rotation never merges two cells. */
  lemma RotateCellsCardinality(cells: set<Pos>, pivot: Pos)
    ensures |RotateCells(cells, pivot)| == |cells|
  {
    ImageCardinality(cells, p => Rotate(p, pivot));
  }

  /** Rotating a cell set four times with the same anchor gives back the same set. */
  lemma RotateCellsOrderFour(cells: set<Pos>, pivot: Pos)
    ensures RotateCells(RotateCells(RotateCells(RotateCells(cells, pivot), pivot), pivot), pivot) == cells
  {
    var r1 := RotateCells(cells, pivot);
    var r2 := RotateCells(r1, pivot);
    var r3 := RotateCells(r2, pivot);
    var r4 := RotateCells(r3, pivot);
    forall q
      ensures q in r4 <==> q in cells
    {
      var u1 := Unrotate(q, pivot);
      var u2 := Unrotate(u1, pivot);
      var u3 := Unrotate(u2, pivot);
      RotateCellsMembership(r3, pivot, q);
      RotateCellsMembership(r2, pivot, u1);
      RotateCellsMembership(r1, pivot, u2);
      RotateCellsMembership(cells, pivot, u3);
      RotateOrderFour(Unrotate(u3, pivot), pivot);
      assert Unrotate(u3, pivot) == q;
    }
  }

  /**
   * Rotating a translated cell set about the translated anchor gives the
   * rotated original moved only vertically, by d.y: the horizontal part of a
   * translation does not survive a rotation.
   */
  lemma RotateCellsAfterShift(cells: set<Pos>, pivot: Pos, d: Pos)
    ensures RotateCells(Shift(cells, d), pivot.Plus(d)) == Shift(RotateCells(cells, pivot), Pos(0, d.y))
  {
    var lhs := RotateCells(Shift(cells, d), pivot.Plus(d));
    var rhs := Shift(RotateCells(cells, pivot), Pos(0, d.y));
    forall q
      ensures q in lhs <==> q in rhs
    {
      RotateCellsMembership(Shift(cells, d), pivot.Plus(d), q);
      ShiftMembership(cells, d, Unrotate(q, pivot.Plus(d)));
      ShiftMembership(RotateCells(cells, pivot), Pos(0, d.y), q);
      RotateCellsMembership(cells, pivot, q.Minus(Pos(0, d.y)));
      assert Unrotate(q, pivot.Plus(d)).Minus(d) == Unrotate(q.Minus(Pos(0, d.y)), pivot);
    }
  }

  // ---------------------------------------------------------------------------
  // Clearing a row

  /**
   * Where a surviving cell goes when row `row` is cleared: cells below the
   * row (y greater than row) stay, cells above it drop by one.
   */
  function Settle(p: Pos, row: int): Pos {
    if p.y >= row then p else Pos(p.x, p.y + 1)
  }

  /** The cells of `cells` that sit on row `row`. */
  function OnRow(cells: set<Pos>, row: int): set<Pos> {
    set p | p in cells && p.y == row
  }

  /** The cells of `cells` that are not on row `row`. */
  function OffRow(cells: set<Pos>, row: int): set<Pos> {
    set p | p in cells && p.y != row
  }

  /** The cell set after row `row` is cleared and the rows above it drop by one. */
  function ClearRow(cells: set<Pos>, row: int): set<Pos> {
    Image(OffRow(cells, row), p => Settle(p, row))
  }

  /**
   * A cell below the cleared row is in the result exactly when it was there
   * before; a cell on or above it exactly when the cell one row higher was.
   * In particular the old cells of the row are gone, cells above it move down
   * by one with the same x, and cells below it stay put.
   */
  lemma ClearRowMembership(cells: set<Pos>, row: int, q: Pos)
    ensures q in ClearRow(cells, row) <==>
              if q.y > row then q in cells else Pos(q.x, q.y - 1) in cells
  {
    var settle := p => Settle(p, row);
    if q.y > row {
      if q in cells {
        assert q in OffRow(cells, row) && settle(q) == q;
      }
    } else {
      var above := Pos(q.x, q.y - 1);
      if above in cells {
        assert above in OffRow(cells, row) && settle(above) == q;
      }
    }
  }

  /** Clearing a row never merges two cells: settled cells land on rows at most `row`, the others stay below it. */
  lemma SettleInjective(cells: set<Pos>, row: int)
    ensures InjectiveOn(OffRow(cells, row), p => Settle(p, row))
  {
  }

  /** Clearing a row removes exactly the cells that were on it. */
  lemma ClearRowCardinality(cells: set<Pos>, row: int)
    ensures |ClearRow(cells, row)| == |cells| - |OnRow(cells, row)|
  {
    SettleInjective(cells, row);
    ImageCardinality(OffRow(cells, row), p => Settle(p, row));
    assert cells == OffRow(cells, row) + OnRow(cells, row);
    assert OffRow(cells, row) * OnRow(cells, row) == {};
  }
}
