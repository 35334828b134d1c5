/**
 The mine field of the sweeper with every DOM handle stripped away: a cell is
 its mine flag, its count of touching mines and the checked state of its
 checkbox (checked = revealed). The field keeps its row and column counts
 beside the rows, because the bounds checks of the game read those counts.
 */
module Grid {

  /** One square of the field. */
  datatype Cell = Cell(isMine: bool, touchingMines: nat, checked: bool)

  /** A position. Coordinates are unbounded integers: the 3x3 block around a
      border cell reaches outside the field. */
  datatype Loc = Loc(row: int, col: int)

  /** A freshly built cell: no mine, count zero, checkbox unchecked. */
  const FreshCell: Cell := Cell(false, 0, false)

  datatype Field = Field(rowCount: nat, columnCount: nat, rows: seq<seq<Cell>>) {

    /** The rows really form a rowCount x columnCount rectangle. */
    predicate Valid() {
      && |rows| == rowCount
      && forall r :: 0 <= r < |rows| ==> |rows[r]| == columnCount
    }

    /** The bounds test the game applies before it dereferences a position. */
    predicate InBounds(p: Loc) {
      0 <= p.row < rowCount && 0 <= p.col < columnCount
    }

    function At(p: Loc): Cell
      requires Valid() && InBounds(p)
    {
      rows[p.row][p.col]
    }

    /** Replace the cell at `p`; every other cell keeps its value. */
    function Set(p: Loc, cell: Cell): (f: Field)
      requires Valid() && InBounds(p)
      ensures f.Valid() && f.rowCount == rowCount && f.columnCount == columnCount
      ensures f.At(p) == cell
      ensures forall q :: InBounds(q) && q != p ==> f.At(q) == At(q)
    {
      Field(rowCount, columnCount, rows[p.row := rows[p.row][p.col := cell]])
    }

    /** The positions whose checkbox is still unchecked. */
    function Unchecked(): (u: set<Loc>)
      requires Valid()
      ensures forall p :: p in u <==> InBounds(p) && !At(p).checked
    {
      var u := set r, c | 0 <= r < rowCount && 0 <= c < columnCount && !rows[r][c].checked :: Loc(r, c);
      assert forall p :: InBounds(p) && !At(p).checked ==> Loc(p.row, p.col) in u;
      u
    }
  }

  /** `g` has the shape of `f`, and differs from it at most by checkboxes
      that went from unchecked to checked. */
  ghost predicate RevealOnly(f: Field, g: Field) {
    && f.Valid() && g.Valid()
    && g.rowCount == f.rowCount && g.columnCount == f.columnCount
    && forall p :: f.InBounds(p) ==>
         && g.At(p).isMine == f.At(p).isMine
         && g.At(p).touchingMines == f.At(p).touchingMines
         && (f.At(p).checked ==> g.At(p).checked)
  }

  /** `g` has the shape of `f` and the same mines. */
  ghost predicate SameMines(f: Field, g: Field) {
    && f.Valid() && g.Valid()
    && g.rowCount == f.rowCount && g.columnCount == f.columnCount
    && forall p :: f.InBounds(p) ==> g.At(p).isMine == f.At(p).isMine
  }

  /** Checking one more unchecked box removes exactly that position from the
      unchecked set. */
  lemma CheckOne(f: Field, p: Loc)
    requires f.Valid() && f.InBounds(p) && !f.At(p).checked
    ensures RevealOnly(f, f.Set(p, f.At(p).(checked := true)))
    ensures f.Set(p, f.At(p).(checked := true)).Unchecked() == f.Unchecked() - {p}
  {
  }

  /** A reveal-only change never adds to the unchecked set. */
  lemma RevealOnlyShrinks(f: Field, g: Field)
    requires RevealOnly(f, g)
    ensures g.Unchecked() <= f.Unchecked()
  {
  }

  lemma RevealOnlyTransitive(f: Field, g: Field, h: Field)
    requires RevealOnly(f, g) && RevealOnly(g, h)
    ensures RevealOnly(f, h)
  {
  }
}
