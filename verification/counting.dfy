/**
 The counting pass: every non-mine cell adds to its `touchingMines` the number
 of mines inside the in-bounds part of its 3x3 block. The reference notion is
 the set of mine cells among its (up to eight) Moore neighbours.
 */
module Counting {
  import opened Grid
  import opened Neighbourhood

  /** How many entries of `s` are inside the field and hold a mine: the
      increments of one pass over a list of positions. */
  function MinesIn(f: Field, s: seq<Loc>): (n: nat)
    requires f.Valid()
    ensures n <= |s|
  {
    if |s| == 0 then 0
    else (if f.InBounds(s[0]) && f.At(s[0]).isMine then 1 else 0) + MinesIn(f, s[1..])
  }

  /** The increment the game computes for the cell at `loc`. */
  function TouchCount(f: Field, loc: Loc): nat
    requires f.Valid()
  {
    MinesIn(f, CellsAround(loc))
  }

  /** The mine cells among the Moore neighbours of `loc` that lie inside the
      field; `loc` itself is not a neighbour. */
  ghost function AdjacentMines(f: Field, loc: Loc): set<Loc>
    requires f.Valid()
  {
    set r, c | loc.row - 1 <= r <= loc.row + 1 && loc.col - 1 <= c <= loc.col + 1
               && 0 <= r < f.rowCount && 0 <= c < f.columnCount
               && Loc(r, c) != loc && f.rows[r][c].isMine
      :: Loc(r, c)
  }

  lemma AdjacentMinesMembers(f: Field, loc: Loc)
    requires f.Valid()
    ensures forall p :: p in AdjacentMines(f, loc) <==>
      InBlock(loc, p) && p != loc && f.InBounds(p) && f.At(p).isMine
  {
  }

  /** Every non-mine cell carries the number of its adjacent mines; every
      mine cell carries 0. */
  ghost predicate CountsConsistent(f: Field)
    requires f.Valid()
  {
    forall p :: f.InBounds(p) ==>
      f.At(p).touchingMines == if f.At(p).isMine then 0 else |AdjacentMines(f, p)|
  }

  /** Every count is still zero, as on a freshly built or reset field. */
  ghost predicate ZeroCounts(f: Field)
    requires f.Valid()
  {
    forall p :: f.InBounds(p) ==> f.At(p).touchingMines == 0
  }

  ghost function MineSet(f: Field, s: seq<Loc>): set<Loc>
    requires f.Valid()
  {
    set p | p in s && f.InBounds(p) && f.At(p).isMine
  }

  /** Over a list without repetitions, the pass counts each mine once. */
  lemma {:induction false} MinesInIsCardinality(f: Field, s: seq<Loc>)
    requires f.Valid()
    requires forall i, j :: 0 <= i < j < |s| ==> s[i] != s[j]
    ensures MinesIn(f, s) == |MineSet(f, s)|
  {
    if |s| > 0 {
      MinesInIsCardinality(f, s[1..]);
      var head := if f.InBounds(s[0]) && f.At(s[0]).isMine then {s[0]} else {};
      assert s[0] !in s[1..];
      assert MineSet(f, s) == head + MineSet(f, s[1..]);
      assert head !! MineSet(f, s[1..]);
    }
  }

  /** One entry that is not a mine inside the field keeps the count below |s|. */
  lemma {:induction false} MinesInMissing(f: Field, s: seq<Loc>, k: nat)
    requires f.Valid() && k < |s| && !(f.InBounds(s[k]) && f.At(s[k]).isMine)
    ensures MinesIn(f, s) <= |s| - 1
  {
    if k > 0 {
      MinesInMissing(f, s[1..], k - 1);
    }
  }

  /** The game's 3x3 count is the number of adjacent mines, plus one when
      the centre is a mine itself. */
  lemma TouchCountIsAdjacent(f: Field, loc: Loc)
    requires f.Valid()
    ensures TouchCount(f, loc) == |AdjacentMines(f, loc)| + if f.InBounds(loc) && f.At(loc).isMine then 1 else 0
  {
    var s := CellsAround(loc);
    MinesInIsCardinality(f, s);
    AdjacentMinesMembers(f, loc);
    var centre: set<Loc> := if f.InBounds(loc) && f.At(loc).isMine then {loc} else {};
    assert MineSet(f, s) == AdjacentMines(f, loc) + centre;
    assert AdjacentMines(f, loc) !! centre;
  }

  /** No cell has more than eight adjacent mines. */
  lemma AdjacentAtMostEight(f: Field, loc: Loc)
    requires f.Valid()
    ensures |AdjacentMines(f, loc)| <= 8
  {
    TouchCountIsAdjacent(f, loc);
    if !(f.InBounds(loc) && f.At(loc).isMine) {
      MinesInMissing(f, CellsAround(loc), 4);
    }
  }

  /** Adjacent mines are read from the mine layer alone. */
  lemma AdjacentMinesOfSameMines(f: Field, g: Field, loc: Loc)
    requires SameMines(f, g)
    ensures AdjacentMines(g, loc) == AdjacentMines(f, loc)
  {
    AdjacentMinesMembers(f, loc);
    AdjacentMinesMembers(g, loc);
  }

  /** Consistency survives any change that leaves mines and counts alone. */
  lemma ConsistentUnderReveal(f: Field, g: Field)
    requires RevealOnly(f, g) && CountsConsistent(f)
    ensures CountsConsistent(g)
  {
    forall p | g.InBounds(p)
      ensures g.At(p).touchingMines == if g.At(p).isMine then 0 else |AdjacentMines(g, p)|
    {
      AdjacentMinesOfSameMines(f, g, p);
    }
  }

  /** On a consistent field every count lies in [0, 8]. */
  lemma CountsAtMostEight(f: Field)
    requires f.Valid() && CountsConsistent(f)
    ensures forall p :: f.InBounds(p) ==> f.At(p).touchingMines <= 8
  {
    forall p | f.InBounds(p)
      ensures f.At(p).touchingMines <= 8
    {
      AdjacentAtMostEight(f, p);
    }
  }

  /** The count of one cell: every in-bounds mine of its block is added to
      its current value, its own mine included when it is one. */
  function SetCellMineTouchCount(f: Field, loc: Loc): (g: Field)
    requires f.Valid() && f.InBounds(loc)
    ensures SameMines(f, g)
    ensures g.At(loc) == f.At(loc).(touchingMines := f.At(loc).touchingMines + |AdjacentMines(f, loc)|
                                                     + if f.At(loc).isMine then 1 else 0)
    ensures forall q :: f.InBounds(q) && q != loc ==> g.At(q) == f.At(q)
  {
    TouchCountIsAdjacent(f, loc);
    var cell := f.At(loc);
    f.Set(loc, cell.(touchingMines := cell.touchingMines + TouchCount(f, loc)))
  }

  /** What the whole pass leaves in the cell at `p`. */
  ghost function Counted(f: Field, p: Loc): Cell
    requires f.Valid() && f.InBounds(p)
  {
    var cell := f.At(p);
    if cell.isMine then cell else cell.(touchingMines := cell.touchingMines + |AdjacentMines(f, p)|)
  }

  /** Counting every cell of a zero-count field gives a consistent field. */
  lemma CountedFromZeroIsConsistent(f: Field, g: Field)
    requires SameMines(f, g) && ZeroCounts(f)
    requires forall p :: f.InBounds(p) ==> g.At(p) == Counted(f, p)
    ensures CountsConsistent(g)
  {
    forall p | g.InBounds(p)
      ensures g.At(p).touchingMines == if g.At(p).isMine then 0 else |AdjacentMines(g, p)|
    {
      AdjacentMinesOfSameMines(f, g, p);
    }
  }

  /** The per-cell work of the pass: a mine cell is skipped, any other cell
      is counted. */
  function CountCell(g: Field, loc: Loc): (h: Field)
    requires g.Valid() && g.InBounds(loc)
    ensures SameMines(g, h)
    ensures h.At(loc) == Counted(g, loc)
    ensures forall q :: g.InBounds(q) && q != loc ==> h.At(q) == g.At(q)
  {
    if g.At(loc).isMine then g else SetCellMineTouchCount(g, loc)
  }

  /** Row-major order: `p` comes before row r, column c. */
  predicate Before(p: Loc, r: int, c: int) {
    p.row < r || (p.row == r && p.col < c)
  }

  /** The pass has counted, in `g`, exactly the cells of `f` before (r, c). */
  ghost predicate CountedBefore(f: Field, g: Field, r: int, c: int) {
    && SameMines(f, g)
    && forall p :: f.InBounds(p) ==> g.At(p) == if Before(p, r, c) then Counted(f, p) else f.At(p)
  }

  lemma CountStep(f: Field, g: Field, r: nat, c: nat)
    requires CountedBefore(f, g, r, c) && f.InBounds(Loc(r, c))
    ensures CountedBefore(f, CountCell(g, Loc(r, c)), r, c + 1)
  {
    var loc := Loc(r, c);
    AdjacentMinesOfSameMines(f, g, loc);
    assert Counted(g, loc) == Counted(f, loc);
  }

  /** The inner loop of the pass: counts the cells of row `r`, left to right,
      given that the rows above are already counted. */
  method CountRow(f: Field, g0: Field, r: nat) returns (g: Field)
    requires CountedBefore(f, g0, r, 0) && r < f.rowCount
    ensures CountedBefore(f, g, r + 1, 0)
  {
    g := g0;
    var c := 0;
    while c < f.columnCount
      invariant 0 <= c <= f.columnCount
      invariant CountedBefore(f, g, r, c)
    {
      CountStep(f, g, r, c);
      g := CountCell(g, Loc(r, c));
      c := c + 1;
    }
  }

  /** The counting pass over the field, row by row: each non-mine cell gets
      its adjacent-mine count added, mine cells are skipped. Starting from
      all-zero counts, it leaves the field consistent. */
  method SetCellsIfTouchingMines(f: Field) returns (g: Field)
    requires f.Valid()
    ensures SameMines(f, g)
    ensures forall p :: f.InBounds(p) ==> g.At(p).checked == f.At(p).checked
    ensures forall p :: f.InBounds(p) ==>
      g.At(p).touchingMines == f.At(p).touchingMines + if f.At(p).isMine then 0 else |AdjacentMines(f, p)|
    ensures ZeroCounts(f) ==> CountsConsistent(g)
  {
    g := f;
    var r := 0;
    while r < f.rowCount
      invariant 0 <= r <= f.rowCount
      invariant CountedBefore(f, g, r, 0)
    {
      g := CountRow(f, g, r);
      r := r + 1;
    }
    assert forall p :: f.InBounds(p) ==> g.At(p) == Counted(f, p);
    if ZeroCounts(f) {
      CountedFromZeroIsConsistent(f, g);
    }
  }
}
