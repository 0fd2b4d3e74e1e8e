/**
 * A tetromino: a variant tag, the set of cells it occupies in absolute grid
 * coordinates, and the anchor its rotation formula is computed from.
 *
 * Translation and rotation build a new shape; clearing a row changes the
 * shape's cells in place and leaves its tag and anchor as they were.
 */
module Shapes {
  import opened Cells

  /** The seven tetromino variants. */
  datatype Variant = I | O | T | J | L | S | Z

  /** A variant's spawn cells and anchor, relative to the origin. */
  datatype Blueprint = Blueprint(cells: set<Pos>, anchor: Pos)

  /** The table of the seven spawn layouts. */
  function Tetromino(v: Variant): (b: Blueprint)
    ensures |b.cells| == 4
    ensures b.anchor in b.cells && Origin in b.cells
  {
    match v
    case I => Blueprint({Pos(0, 0), Pos(1, 0), Pos(2, 0), Pos(3, 0)}, Pos(1, 0))
    case O => Blueprint({Pos(0, 0), Pos(1, 0), Pos(0, 1), Pos(1, 1)}, Pos(0, 0))
    case T => Blueprint({Pos(0, 0), Pos(1, 0), Pos(2, 0), Pos(1, 1)}, Pos(1, 0))
    case J => Blueprint({Pos(0, 0), Pos(0, 1), Pos(0, 2), Pos(-1, 2)}, Pos(0, 1))
    case L => Blueprint({Pos(0, 0), Pos(0, 1), Pos(0, 2), Pos(1, 2)}, Pos(0, 1))
    case S => Blueprint({Pos(0, 0), Pos(1, 0), Pos(0, 1), Pos(-1, 1)}, Pos(0, 0))
    case Z => Blueprint({Pos(0, 0), Pos(-1, 0), Pos(0, 1), Pos(1, 1)}, Pos(0, 0))
  }

  /** No two variants share a spawn layout. */
  lemma TetrominoInjective(v: Variant, w: Variant)
    requires v != w
    ensures Tetromino(v).cells != Tetromino(w).cells
  {
  }

  /** The variant drawn for index `i` of the random spawn. */
  function VariantAt(i: nat): Variant
    requires i < 7
  {
    [I, O, T, J, L, S, Z][i]
  }

  /** The index that draws variant `v`: every variant is drawn by exactly one index. */
  function IndexOf(v: Variant): (i: nat)
    ensures i < 7 && VariantAt(i) == v
    ensures forall j: nat :: j < 7 && VariantAt(j) == v ==> j == i
  {
    match v
    case I => 0
    case O => 1
    case T => 2
    case J => 3
    case L => 4
    case S => 5
    case Z => 6
  }

  class Shape {
    const typ: Variant
    var positions: set<Pos>
    const anchor: Pos

    /** A shape with the given parts. */
    constructor (typ: Variant, positions: set<Pos>, anchor: Pos)
      ensures this.typ == typ && this.positions == positions && this.anchor == anchor
    {
      this.typ := typ;
      this.positions := positions;
      this.anchor := anchor;
    }

    /** The shape is variant `v` in its spawn layout at the origin. */
    predicate Spawned(v: Variant)
      reads this
    {
      typ == v && positions == Tetromino(v).cells && anchor == Tetromino(v).anchor
    }

    constructor NewI()
      ensures Spawned(I)
    {
      typ, positions, anchor := I, Tetromino(I).cells, Tetromino(I).anchor;
    }

    constructor NewO()
      ensures Spawned(O)
    {
      typ, positions, anchor := O, Tetromino(O).cells, Tetromino(O).anchor;
    }

    constructor NewT()
      ensures Spawned(T)
    {
      typ, positions, anchor := T, Tetromino(T).cells, Tetromino(T).anchor;
    }

    constructor NewJ()
      ensures Spawned(J)
    {
      typ, positions, anchor := J, Tetromino(J).cells, Tetromino(J).anchor;
    }

    constructor NewL()
      ensures Spawned(L)
    {
      typ, positions, anchor := L, Tetromino(L).cells, Tetromino(L).anchor;
    }

    constructor NewS()
      ensures Spawned(S)
    {
      typ, positions, anchor := S, Tetromino(S).cells, Tetromino(S).anchor;
    }

    constructor NewZ()
      ensures Spawned(Z)
    {
      typ, positions, anchor := Z, Tetromino(Z).cells, Tetromino(Z).anchor;
    }

    /** A fresh shape of the variant that index `i` draws, in its spawn layout. */
    static method NewRandom(i: nat) returns (s: Shape)
      requires i < 7
      ensures fresh(s) && s.Spawned(VariantAt(i))
    {
      if i == 0 {
        s := new Shape.NewI();
      } else if i == 1 {
        s := new Shape.NewO();
      } else if i == 2 {
        s := new Shape.NewT();
      } else if i == 3 {
        s := new Shape.NewJ();
      } else if i == 4 {
        s := new Shape.NewL();
      } else if i == 5 {
        s := new Shape.NewS();
      } else {
        s := new Shape.NewZ();
      }
    }

    /** A new shape moved by `d`: same variant, every cell and the anchor shifted by `d`. */
    method Plus(d: Pos) returns (r: Shape)
      ensures fresh(r)
      ensures r.typ == typ && r.anchor == anchor.Plus(d)
      ensures r.positions == Shift(positions, d)
      ensures |r.positions| == |positions|
    {
      ShiftCardinality(positions, d);
      r := new Shape(typ, Shift(positions, d), anchor.Plus(d));
    }

    /** Whether the shape occupies cell `p`. */
    predicate HasPosition(p: Pos)
      reads this
    {
      p in positions
    }

    /** Whether the two shapes occupy a common cell. */
    predicate CollidesWith(other: Shape)
      reads this, other
      ensures CollidesWith(other) <==> exists p :: p in positions && p in other.positions
    {
      var common := positions * other.positions;
      assert (exists p :: p in common) <==> |common| > 0;
      assert forall p :: p in common <==> p in positions && p in other.positions;
      |common| > 0
    }

    /** A new shape with the same variant and anchor and every cell given the quarter-turn. */
    method Rotated() returns (r: Shape)
      ensures fresh(r)
      ensures r.typ == typ && r.anchor == anchor
      ensures r.positions == RotateCells(positions, anchor)
      ensures |r.positions| == |positions|
    {
      RotateCellsCardinality(positions, anchor);
      r := new Shape(typ, RotateCells(positions, anchor), anchor);
    }

    /**
     * Clears row `y`: the shape's cells on that row disappear and its cells
     * above it drop by one. The variant and the anchor are constant fields,
     * so the anchor is not moved.
     */
    method RemoveLine(y: int)
      modifies this
      ensures positions == ClearRow(old(positions), y)
      ensures |positions| == |old(positions)| - |OnRow(old(positions), y)|
    {
      ClearRowCardinality(positions, y);
      positions := ClearRow(positions, y);
    }
  }

  /** Collision does not depend on the order of the two shapes. */
  lemma CollidesWithSymmetric(a: Shape, b: Shape)
    ensures a.CollidesWith(b) == b.CollidesWith(a)
  {
  }

  /** A shape with at least one cell collides with itself. */
  lemma CollidesWithSelf(a: Shape)
    requires a.positions != {}
    ensures a.CollidesWith(a)
  {
  }

  /** A translated shape occupies `q` exactly when the original occupied the cell `d` behind it. */
  lemma HasPositionAfterPlus(s: Shape, r: Shape, d: Pos, q: Pos)
    requires r.positions == Shift(s.positions, d)
    ensures r.HasPosition(q) <==> s.HasPosition(q.Minus(d))
  {
    ShiftMembership(s.positions, d, q);
  }

  /** A rotated shape occupies `q` exactly when the original occupied the inverse quarter-turn of `q`. */
  lemma HasPositionAfterRotated(s: Shape, r: Shape, q: Pos)
    requires r.positions == RotateCells(s.positions, s.anchor)
    ensures r.HasPosition(q) <==> s.HasPosition(Unrotate(q, s.anchor))
  {
    RotateCellsMembership(s.positions, s.anchor, q);
  }

  /**
   * After row `y` is cleared from the cells `before`, the shape occupies a
   * cell below the row exactly when it did before, and a cell on or above the
   * row exactly when it occupied the cell one row up.
   */
  lemma HasPositionAfterRemoveLine(s: Shape, before: set<Pos>, y: int, q: Pos)
    requires s.positions == ClearRow(before, y)
    ensures s.HasPosition(q) <==> if q.y > y then q in before else Pos(q.x, q.y - 1) in before
  {
    ClearRowMembership(before, y, q);
  }
}
