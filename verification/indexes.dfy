/**
 The index filter of the game: from a list of flat cell indexes it keeps, in
 their original order, those that address a cell of the field.
 */
module Indexes {
  import opened Grid

  /** The number of cells, i.e. the length of the game's flat cell list. */
  function CellCount(f: Field): nat {
    f.rowCount * f.columnCount
  }

  /** The entries of `s` within [0, n), in order. */
  function KeepInRange(s: seq<int>, n: nat): seq<int> {
    if |s| == 0 then []
    else KeepInRange(s[..|s| - 1], n) + (if 0 <= s[|s| - 1] < n then [s[|s| - 1]] else [])
  }

  /** Filtering a concatenation filters each part and keeps them in order. */
  lemma {:induction false} KeepInRangeAppend(a: seq<int>, b: seq<int>, n: nat)
    ensures KeepInRange(a + b, n) == KeepInRange(a, n) + KeepInRange(b, n)
    decreases |b|
  {
    if |b| == 0 {
      assert a + b == a;
    } else {
      assert (a + b)[..|a + b| - 1] == a + b[..|b| - 1];
      KeepInRangeAppend(a, b[..|b| - 1], n);
    }
  }

  /** Each in-range value is kept as often as it occurs; no other value is. */
  lemma {:induction false} KeepInRangeContents(s: seq<int>, n: nat)
    ensures forall x :: multiset(KeepInRange(s, n))[x] == if 0 <= x < n then multiset(s)[x] else 0
  {
    if |s| > 0 {
      KeepInRangeContents(s[..|s| - 1], n);
      assert s == s[..|s| - 1] + [s[|s| - 1]];
      assert multiset(s) == multiset(s[..|s| - 1]) + multiset{s[|s| - 1]};
    }
  }

  /** The filter as the game runs it: one pass, appending every index in
      [0, CellCount(f)). */
  method ValidateIndexes(f: Field, indexes: seq<int>) returns (kept: seq<int>)
    ensures kept == KeepInRange(indexes, CellCount(f))
    ensures forall i :: 0 <= i < |kept| ==> 0 <= kept[i] < CellCount(f)
    ensures forall x :: multiset(kept)[x] == if 0 <= x < CellCount(f) then multiset(indexes)[x] else 0
  {
    kept := [];
    var i := 0;
    while i < |indexes|
      invariant 0 <= i <= |indexes|
      invariant kept == KeepInRange(indexes[..i], CellCount(f))
    {
      assert indexes[..i + 1][..i] == indexes[..i];
      if 0 <= indexes[i] < CellCount(f) {
        kept := kept + [indexes[i]];
      }
      i := i + 1;
    }
    assert indexes[..i] == indexes;
    KeepInRangeContents(indexes, CellCount(f));
    forall i | 0 <= i < |kept|
      ensures 0 <= kept[i] < CellCount(f)
    {
      assert kept[i] in multiset(kept);
    }
  }
}
