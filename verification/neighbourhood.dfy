/**
 The 3x3 block around a position, as the game lists it, and the bounds filter
 its callers apply before they touch a cell of the block.
 */
module Neighbourhood {
  import opened Grid

  /** `p` lies in the 3x3 block centred on `centre` (the centre included). */
  predicate InBlock(centre: Loc, p: Loc) {
    -1 <= p.row - centre.row <= 1 && -1 <= p.col - centre.col <= 1
  }

  /** The block around `loc` in the game's order: row above, own row, row
      below, each left to right. Nothing is bounds-filtered and the centre is
      the fifth entry. */
  function CellsAround(loc: Loc): (s: seq<Loc>)
    ensures |s| == 9 && s[4] == loc
    ensures forall p :: p in s <==> InBlock(loc, p)
    ensures forall i, j :: 0 <= i < j < |s| ==> s[i] != s[j]
  {
    var s := [
      Loc(loc.row - 1, loc.col - 1), Loc(loc.row - 1, loc.col), Loc(loc.row - 1, loc.col + 1),
      Loc(loc.row, loc.col - 1),     loc,                       Loc(loc.row, loc.col + 1),
      Loc(loc.row + 1, loc.col - 1), Loc(loc.row + 1, loc.col), Loc(loc.row + 1, loc.col + 1)
    ];
    BlockEntries(loc, s);
    s
  }

  /** The listed block holds each position of the 3x3 block exactly once. */
  lemma BlockEntries(loc: Loc, s: seq<Loc>)
    requires s == [
      Loc(loc.row - 1, loc.col - 1), Loc(loc.row - 1, loc.col), Loc(loc.row - 1, loc.col + 1),
      Loc(loc.row, loc.col - 1),     loc,                       Loc(loc.row, loc.col + 1),
      Loc(loc.row + 1, loc.col - 1), Loc(loc.row + 1, loc.col), Loc(loc.row + 1, loc.col + 1)
    ]
    ensures forall p :: p in s <==> InBlock(loc, p)
    ensures forall i, j :: 0 <= i < j < |s| ==> s[i] != s[j]
  {
  }

  /** The entries of `s` that lie inside the field, in their original order. */
  function InBoundsOf(f: Field, s: seq<Loc>): (r: seq<Loc>)
    ensures |r| <= |s|
    ensures forall p :: p in r <==> p in s && f.InBounds(p)
  {
    if |s| == 0 then []
    else (if f.InBounds(s[0]) then [s[0]] else []) + InBoundsOf(f, s[1..])
  }

  /** The part of the block around `loc` that the game may dereference. */
  function InBoundsBlock(f: Field, loc: Loc): (r: seq<Loc>)
    ensures forall i :: 0 <= i < |r| ==> f.InBounds(r[i])
    ensures forall p :: p in r <==> InBlock(loc, p) && f.InBounds(p)
  {
    InBoundsOf(f, CellsAround(loc))
  }

  /** How many of the lines x-1, x, x+1 fall inside [0, n). */
  function Span(x: int, n: nat): nat {
    (if 0 <= x - 1 < n then 1 else 0) + (if 0 <= x < n then 1 else 0) + (if 0 <= x + 1 < n then 1 else 0)
  }

  function Triple(row: int, col: int): seq<Loc> {
    [Loc(row, col - 1), Loc(row, col), Loc(row, col + 1)]
  }

  lemma {:induction false} InBoundsOfAppend(f: Field, a: seq<Loc>, b: seq<Loc>)
    ensures InBoundsOf(f, a + b) == InBoundsOf(f, a) + InBoundsOf(f, b)
    decreases |a|
  {
    if |a| == 0 {
      assert a + b == b;
    } else {
      assert (a + b)[1..] == a[1..] + b;
      InBoundsOfAppend(f, a[1..], b);
    }
  }

  lemma TripleSize(f: Field, row: int, col: int)
    ensures |InBoundsOf(f, Triple(row, col))| == if 0 <= row < f.rowCount then Span(col, f.columnCount) else 0
  {
    var t := Triple(row, col);
    assert t[1..] == [t[1], t[2]] && t[1..][1..] == [t[2]] && t[1..][1..][1..] == [];
    assert |InBoundsOf(f, t[1..][1..])| == if f.InBounds(t[2]) then 1 else 0;
  }

  /** The bounds filter keeps Span(row) x Span(col) positions of the block. */
  lemma {:induction false} BlockSize(f: Field, loc: Loc)
    ensures |InBoundsBlock(f, loc)| == Span(loc.row, f.rowCount) * Span(loc.col, f.columnCount)
  {
    var a, b, c := Triple(loc.row - 1, loc.col), Triple(loc.row, loc.col), Triple(loc.row + 1, loc.col);
    assert CellsAround(loc) == a + b + c;
    var n := |InBoundsOf(f, a)| + |InBoundsOf(f, b)| + |InBoundsOf(f, c)|;
    assert |InBoundsBlock(f, loc)| == n by {
      InBoundsOfAppend(f, a + b, c);
      InBoundsOfAppend(f, a, b);
    }
    TripleSize(f, loc.row - 1, loc.col);
    TripleSize(f, loc.row, loc.col);
    TripleSize(f, loc.row + 1, loc.col);
    var s := Span(loc.col, f.columnCount);
    var x, y, z := (if 0 <= loc.row - 1 < f.rowCount then 1 else 0), (if 0 <= loc.row < f.rowCount then 1 else 0),
      (if 0 <= loc.row + 1 < f.rowCount then 1 else 0);
    assert n == x * s + y * s + z * s;
    assert x * s + y * s + z * s == (x + y + z) * s;
  }

  /** A position on the first or last line of a dimension of size n. */
  predicate OnEdge(x: int, n: nat) {
    x == 0 || x == n - 1
  }

  /** On a field at least two cells wide and high, the filtered block holds
      4 positions for a corner cell, 6 for a border cell and 9 for an
      interior cell, the cell itself included. */
  lemma BlockSizeByPosition(f: Field, loc: Loc)
    requires f.InBounds(loc) && f.rowCount >= 2 && f.columnCount >= 2
    ensures OnEdge(loc.row, f.rowCount) && OnEdge(loc.col, f.columnCount) ==> |InBoundsBlock(f, loc)| == 4
    ensures OnEdge(loc.row, f.rowCount) != OnEdge(loc.col, f.columnCount) ==> |InBoundsBlock(f, loc)| == 6
    ensures !OnEdge(loc.row, f.rowCount) && !OnEdge(loc.col, f.columnCount) ==> |InBoundsBlock(f, loc)| == 9
  {
    BlockSize(f, loc);
  }
}
