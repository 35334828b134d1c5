/**
 The click handler. A click on a mine loses the game, and losing checks every
 checkbox of the field (the handler staggers those with random timers; only
 their joint effect is kept). A click elsewhere reads the cell's position back
 from its id and starts the reveal there.
 */
module Dispatch {
  import opened Grid
  import opened Counting
  import opened CellId
  import opened Reveal

  /** The net effect of losing: every cell checked, nothing else changed. */
  function Lost(f: Field): (g: Field)
    requires f.Valid()
    ensures RevealOnly(f, g)
    ensures forall p :: g.InBounds(p) ==> g.At(p).checked
  {
    Field(f.rowCount, f.columnCount,
      seq(f.rowCount, r requires 0 <= r < f.rowCount =>
        seq(f.columnCount, c requires 0 <= c < f.columnCount => f.rows[r][c].(checked := true))))
  }

  /** A change event on the checkbox of the cell `clicked`. The 'mine' class
      of a checkbox is added and removed together with the mine flag of its
      cell, so the class test is a test of that flag. Ids are read back with
      32-bit conversions, so the field's sides stay within 2^31. */
  function OnChange(f: Field, clicked: Loc, recursive: bool): (g: Field)
    requires f.Valid() && f.InBounds(clicked)
    requires f.rowCount <= TwoTo31 && f.columnCount <= TwoTo31
    ensures RevealOnly(f, g)
    ensures g.At(clicked).checked
    ensures f.At(clicked).isMine ==> forall p :: g.InBounds(p) ==> g.At(p).checked
    ensures !f.At(clicked).isMine ==> g == Bleed(f, clicked, recursive)
  {
    if f.At(clicked).isMine then Lost(f)
    else
      var loc := ParseId(Id(clicked));
      IdRoundTrip(clicked);
      BleedCoversBlock(f, loc, recursive);
      Bleed(f, loc, recursive)
  }

  /** On a consistent field, a click on a cell without a mine checks no mine. */
  lemma SafeClickRevealsNoMine(f: Field, clicked: Loc, recursive: bool)
    requires f.Valid() && f.InBounds(clicked)
    requires f.rowCount <= TwoTo31 && f.columnCount <= TwoTo31
    requires CountsConsistent(f) && !f.At(clicked).isMine
    ensures forall p :: NewlyChecked(f, OnChange(f, clicked, recursive), p) ==> !f.At(p).isMine
  {
    BleedRevealsNoMine(f, clicked, recursive);
  }

  /** On a fresh consistent field without mines, one click in recursive mode
      checks every cell: all counts are 0, so the reveal never stops. */
  lemma MineFreeFieldFloods(f: Field, clicked: Loc)
    requires f.Valid() && f.InBounds(clicked)
    requires f.rowCount <= TwoTo31 && f.columnCount <= TwoTo31
    requires CountsConsistent(f)
    requires forall p :: f.InBounds(p) ==> !f.At(p).isMine && !f.At(p).checked
    ensures forall p :: f.InBounds(p) ==> OnChange(f, clicked, true).At(p).checked
  {
    forall p | f.InBounds(p)
      ensures f.At(p).touchingMines == 0
    {
      AdjacentMinesMembers(f, p);
      assert AdjacentMines(f, p) == {};
    }
    UniformFieldFloods(f, clicked);
  }
}
