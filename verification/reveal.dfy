/**
 The reveal ("bleed") of the game. Starting from a position, it walks the 3x3
 block around it in order; every in-bounds cell of the block that is still
 unchecked and whose count equals the count of the current centre gets
 checked, and in recursive mode the walk restarts from that cell, which then
 becomes the centre its own block is compared against. The centre is part of
 its own block, so it is revealed too. Only the unchecked guard stops the
 recursion: every recursive step follows the checking of one more cell.
 */
module Reveal {
  import opened Grid
  import opened Neighbourhood
  import opened Counting

  /** The reveal started at `loc`. */
  function Bleed(f: Field, loc: Loc, recursive: bool): (g: Field)
    requires f.Valid() && f.InBounds(loc)
    ensures RevealOnly(f, g)
    decreases f.Unchecked(), 10
  {
    BleedFrom(f, loc, 0, recursive)
  }

  /** The walk over the block around `loc` from its entry `i` on. */
  function BleedFrom(f: Field, loc: Loc, i: nat, recursive: bool): (g: Field)
    requires f.Valid() && f.InBounds(loc) && i <= 9
    ensures RevealOnly(f, g)
    decreases f.Unchecked(), 9 - i
  {
    if i == 9 then f
    else
      var p := CellsAround(loc)[i];
      if f.InBounds(p) && f.At(loc).touchingMines == f.At(p).touchingMines && !f.At(p).checked then
        var g := f.Set(p, f.At(p).(checked := true));
        CheckOne(f, p);
        var h := if recursive then Bleed(g, p, recursive) else g;
        AfterCheck(f, p, h);
        var res := BleedFrom(h, loc, i + 1, recursive);
        RevealOnlyTransitive(f, h, res);
        res
      else
        BleedFrom(f, loc, i + 1, recursive)
  }

  /** `p` was unchecked in `f` and is checked in `g`. */
  ghost predicate NewlyChecked(f: Field, g: Field, p: Loc)
    requires RevealOnly(f, g)
  {
    f.InBounds(p) && !f.At(p).checked && g.At(p).checked
  }

  /** Checking the unchecked cell `p` and then revealing more from there is
      reveal-only, strictly shrinks the unchecked set and leaves `p` checked. */
  lemma AfterCheck(f: Field, p: Loc, h: Field)
    requires f.Valid() && f.InBounds(p) && !f.At(p).checked
    requires RevealOnly(f.Set(p, f.At(p).(checked := true)), h)
    ensures RevealOnly(f, h) && h.Unchecked() < f.Unchecked() && h.At(p).checked
  {
    var g := f.Set(p, f.At(p).(checked := true));
    CheckOne(f, p);
    RevealOnlyShrinks(g, h);
    RevealOnlyTransitive(f, g, h);
  }

  /** A cell newly checked over one step of the walk was checked by the step
      itself, by the recursive reveal from there, or by the rest of the walk. */
  lemma NewlyAcrossStep(f: Field, g: Field, h: Field, res: Field, p: Loc)
    requires f.Valid() && f.InBounds(p) && !f.At(p).checked && g == f.Set(p, f.At(p).(checked := true))
    requires RevealOnly(g, h) && RevealOnly(f, h) && RevealOnly(h, res) && RevealOnly(f, res)
    ensures forall q :: NewlyChecked(f, res, q) ==> q == p || NewlyChecked(g, h, q) || NewlyChecked(h, res, q)
  {
  }

  /** Every in-bounds entry of the block from `i` on whose count equals the
      centre's is checked after the walk, whatever the mode. */
  lemma {:induction false} BleedFromCovers(f: Field, loc: Loc, i: nat, recursive: bool)
    requires f.Valid() && f.InBounds(loc) && i <= 9
    ensures forall j :: i <= j < 9 && f.InBounds(CellsAround(loc)[j])
                        && f.At(CellsAround(loc)[j]).touchingMines == f.At(loc).touchingMines
                        ==> BleedFrom(f, loc, i, recursive).At(CellsAround(loc)[j]).checked
    decreases 9 - i
  {
    if i < 9 {
      var p := CellsAround(loc)[i];
      if f.InBounds(p) && f.At(loc).touchingMines == f.At(p).touchingMines && !f.At(p).checked {
        var g := f.Set(p, f.At(p).(checked := true));
        CheckOne(f, p);
        var h := if recursive then Bleed(g, p, recursive) else g;
        AfterCheck(f, p, h);
        BleedFromCovers(h, loc, i + 1, recursive);
      } else {
        BleedFromCovers(f, loc, i + 1, recursive);
      }
    }
  }

  /** After a reveal at `loc`, in either mode, every in-bounds cell of the
      block around `loc` with the count of `loc` is checked; `loc` itself
      among them. */
  lemma BleedCoversBlock(f: Field, loc: Loc, recursive: bool)
    requires f.Valid() && f.InBounds(loc)
    ensures forall p :: f.InBounds(p) && InBlock(loc, p) && f.At(p).touchingMines == f.At(loc).touchingMines
                        ==> Bleed(f, loc, recursive).At(p).checked
    ensures Bleed(f, loc, recursive).At(loc).checked
  {
    BleedFromCovers(f, loc, 0, recursive);
    var s := CellsAround(loc);
    forall p | f.InBounds(p) && InBlock(loc, p) && f.At(p).touchingMines == f.At(loc).touchingMines
      ensures Bleed(f, loc, recursive).At(p).checked
    {
      var j :| 0 <= j < 9 && s[j] == p;
    }
  }

  lemma {:induction false} BleedFromNonRecursive(f: Field, loc: Loc, i: nat)
    requires f.Valid() && f.InBounds(loc) && i <= 9
    ensures forall p :: f.InBounds(p) ==>
      (BleedFrom(f, loc, i, false).At(p).checked <==>
         f.At(p).checked || (p in CellsAround(loc)[i..] && f.At(p).touchingMines == f.At(loc).touchingMines))
    decreases 9 - i
  {
    if i < 9 {
      var s := CellsAround(loc);
      var p := s[i];
      assert s[i..] == [p] + s[i + 1..];
      if f.InBounds(p) && f.At(loc).touchingMines == f.At(p).touchingMines && !f.At(p).checked {
        var g := f.Set(p, f.At(p).(checked := true));
        BleedFromNonRecursive(g, loc, i + 1);
      } else {
        BleedFromNonRecursive(f, loc, i + 1);
      }
    }
  }

  /** Without recursion the reveal checks exactly the unchecked in-bounds
      cells of the block around `loc` (`loc` included) whose count equals
      the count of `loc`, and nothing else. */
  lemma {:induction false} NonRecursiveReveal(f: Field, loc: Loc)
    requires f.Valid() && f.InBounds(loc)
    ensures forall p :: f.InBounds(p) ==>
      (Bleed(f, loc, false).At(p).checked <==>
         f.At(p).checked || (InBlock(loc, p) && f.At(p).touchingMines == f.At(loc).touchingMines))
  {
    BleedFromNonRecursive(f, loc, 0);
    assert CellsAround(loc)[0..] == CellsAround(loc);
  }

  /** Every cell one reveal checks has the count of the cell it started
      from: each is compared with its predecessor, and equality chains. */
  lemma {:induction false} BleedSameCount(f: Field, loc: Loc, recursive: bool)
    requires f.Valid() && f.InBounds(loc)
    ensures forall p :: NewlyChecked(f, Bleed(f, loc, recursive), p) ==>
      f.At(p).touchingMines == f.At(loc).touchingMines
    decreases f.Unchecked(), 10
  {
    BleedFromSameCount(f, loc, 0, recursive);
  }

  lemma {:induction false} BleedFromSameCount(f: Field, loc: Loc, i: nat, recursive: bool)
    requires f.Valid() && f.InBounds(loc) && i <= 9
    ensures forall p :: NewlyChecked(f, BleedFrom(f, loc, i, recursive), p) ==>
      f.At(p).touchingMines == f.At(loc).touchingMines
    decreases f.Unchecked(), 9 - i
  {
    if i < 9 {
      var p := CellsAround(loc)[i];
      if f.InBounds(p) && f.At(loc).touchingMines == f.At(p).touchingMines && !f.At(p).checked {
        var g := f.Set(p, f.At(p).(checked := true));
        CheckOne(f, p);
        var h := if recursive then Bleed(g, p, recursive) else g;
        if recursive {
          BleedSameCount(g, p, recursive);
        }
        AfterCheck(f, p, h);
        BleedFromSameCount(h, loc, i + 1, recursive);
        var res := BleedFrom(h, loc, i + 1, recursive);
        RevealOnlyTransitive(f, h, res);
        NewlyAcrossStep(f, g, h, res, p);
      } else {
        BleedFromSameCount(f, loc, i + 1, recursive);
      }
    }
  }

  /** In `g`, every in-bounds cell of the block around `q` with the count of
      `q` is checked: the recursive reveal has nothing left to do at `q`. */
  ghost predicate Closed(g: Field, q: Loc)
    requires g.Valid() && g.InBounds(q)
  {
    forall p :: g.InBounds(p) && InBlock(q, p) && g.At(p).touchingMines == g.At(q).touchingMines ==> g.At(p).checked
  }

  lemma ClosedStable(g: Field, h: Field, q: Loc)
    requires RevealOnly(g, h) && g.InBounds(q) && Closed(g, q)
    ensures Closed(h, q)
  {
  }

  /** The recursive reveal leaves nothing half done: around the start and
      around every cell it checked, each equal-count neighbour is checked. */
  lemma {:induction false} RecursiveRevealClosed(f: Field, loc: Loc)
    requires f.Valid() && f.InBounds(loc)
    ensures Closed(Bleed(f, loc, true), loc)
    ensures forall q :: NewlyChecked(f, Bleed(f, loc, true), q) ==> Closed(Bleed(f, loc, true), q)
    decreases f.Unchecked(), 10
  {
    BleedCoversBlock(f, loc, true);
    BleedFromClosed(f, loc, 0);
  }

  lemma {:induction false} BleedFromClosed(f: Field, loc: Loc, i: nat)
    requires f.Valid() && f.InBounds(loc) && i <= 9
    ensures forall q :: NewlyChecked(f, BleedFrom(f, loc, i, true), q) ==> Closed(BleedFrom(f, loc, i, true), q)
    decreases f.Unchecked(), 9 - i
  {
    if i < 9 {
      var p := CellsAround(loc)[i];
      if f.InBounds(p) && f.At(loc).touchingMines == f.At(p).touchingMines && !f.At(p).checked {
        var g := f.Set(p, f.At(p).(checked := true));
        CheckOne(f, p);
        var h := Bleed(g, p, true);
        RecursiveRevealClosed(g, p);
        AfterCheck(f, p, h);
        BleedFromClosed(h, loc, i + 1);
        ClosedAcrossStep(f, g, h, BleedFrom(h, loc, i + 1, true), p);
      } else {
        BleedFromClosed(f, loc, i + 1);
      }
    }
  }

  /** The cells one step of the walk checks are closed at its end, when those
      of the recursive reveal (`g` to `h`) and of the rest of the walk (`h`
      to `res`) are. */
  lemma ClosedAcrossStep(f: Field, g: Field, h: Field, res: Field, p: Loc)
    requires f.Valid() && f.InBounds(p) && !f.At(p).checked && g == f.Set(p, f.At(p).(checked := true))
    requires RevealOnly(g, h) && RevealOnly(f, h) && RevealOnly(h, res) && RevealOnly(f, res)
    requires Closed(h, p) && forall q :: NewlyChecked(g, h, q) ==> Closed(h, q)
    requires forall q :: NewlyChecked(h, res, q) ==> Closed(res, q)
    ensures forall q :: NewlyChecked(f, res, q) ==> Closed(res, q)
  {
    NewlyAcrossStep(f, g, h, res, p);
    forall q | NewlyChecked(f, res, q)
      ensures Closed(res, q)
    {
      if q == p || NewlyChecked(g, h, q) {
        ClosedStable(h, res, q);
      }
    }
  }

  /** One step of a recursive reveal as seen from the field it started on:
      from `a` to an in-bounds cell `b` of its block that was unchecked and
      carries the count `k`. */
  ghost predicate Step(f: Field, k: nat, a: Loc, b: Loc)
    requires f.Valid()
  {
    f.InBounds(b) && InBlock(a, b) && !f.At(b).checked && f.At(b).touchingMines == k
  }

  /** Consecutive entries of `path` are steps with count `k`. */
  ghost predicate IsPath(f: Field, k: nat, path: seq<Loc>)
    requires f.Valid()
  {
    |path| >= 1 && forall j :: 0 <= j < |path| - 1 ==> Step(f, k, path[j], path[j + 1])
  }

  /** `q` is connected to `loc` in `f` by a chain of block steps through
      unchecked in-bounds cells that all carry the count of `loc`. */
  ghost predicate Reach(f: Field, loc: Loc, q: Loc)
    requires f.Valid() && f.InBounds(loc)
  {
    exists path :: IsPath(f, f.At(loc).touchingMines, path) && path[0] == loc && path[|path| - 1] == q
  }

  lemma ReachStart(f: Field, loc: Loc)
    requires f.Valid() && f.InBounds(loc)
    ensures Reach(f, loc, loc)
  {
    assert IsPath(f, f.At(loc).touchingMines, [loc]);
  }

  /** A step from a reachable cell reaches further. */
  lemma ReachExtend(f: Field, loc: Loc, a: Loc, b: Loc)
    requires f.Valid() && f.InBounds(loc) && Reach(f, loc, a) && Step(f, f.At(loc).touchingMines, a, b)
    ensures Reach(f, loc, b)
  {
    var k := f.At(loc).touchingMines;
    var path :| IsPath(f, k, path) && path[0] == loc && path[|path| - 1] == a;
    var longer := path + [b];
    assert forall j :: 0 <= j < |longer| - 1 ==> longer[j] == path[j];
    assert IsPath(f, k, longer);
  }

  /** `region` is closed under steps with count `k` in `f0`: a step from a
      cell of the region stays in the region. */
  ghost predicate StepClosed(f0: Field, k: nat, region: iset<Loc>)
    requires f0.Valid()
  {
    forall a, b :: a in region && Step(f0, k, a, b) ==> b in region
  }

  /** The recursive reveal from `loc`, nested inside a reveal on `f0` whose
      cells carry the count `k`, stays inside any step-closed region that
      holds `loc`. */
  lemma {:induction false} BleedWithinRegion(f0: Field, k: nat, region: iset<Loc>, f: Field, loc: Loc)
    requires f0.Valid() && StepClosed(f0, k, region) && RevealOnly(f0, f)
    requires f.InBounds(loc) && loc in region && f.At(loc).touchingMines == k
    ensures forall q :: NewlyChecked(f, Bleed(f, loc, true), q) ==> q in region
    decreases f.Unchecked(), 10
  {
    BleedFromWithinRegion(f0, k, region, f, loc, 0);
  }

  lemma {:induction false} BleedFromWithinRegion(f0: Field, k: nat, region: iset<Loc>, f: Field, loc: Loc, i: nat)
    requires f0.Valid() && StepClosed(f0, k, region) && RevealOnly(f0, f)
    requires f.InBounds(loc) && loc in region && f.At(loc).touchingMines == k && i <= 9
    ensures forall q :: NewlyChecked(f, BleedFrom(f, loc, i, true), q) ==> q in region
    decreases f.Unchecked(), 9 - i
  {
    if i < 9 {
      var p := CellsAround(loc)[i];
      if f.InBounds(p) && f.At(loc).touchingMines == f.At(p).touchingMines && !f.At(p).checked {
        var g := f.Set(p, f.At(p).(checked := true));
        RegionGuard(f0, k, region, f, loc, p);
        var h := Bleed(g, p, true);
        BleedWithinRegion(f0, k, region, g, p);
        AfterCheck(f, p, h);
        RevealOnlyTransitive(f0, f, h);
        BleedFromWithinRegion(f0, k, region, h, loc, i + 1);
        var res := BleedFrom(h, loc, i + 1, true);
        RevealOnlyTransitive(f, h, res);
        RegionAcrossStep(region, f, g, h, res, p);
      } else {
        BleedFromWithinRegion(f0, k, region, f, loc, i + 1);
      }
    }
  }

  /** A cell that passes the guard of the walk around `loc` is a step from
      `loc` in `f0`, so it is in the region, and the recursive reveal from it
      starts on a reveal-only successor of `f0`. */
  lemma RegionGuard(f0: Field, k: nat, region: iset<Loc>, f: Field, loc: Loc, p: Loc)
    requires f0.Valid() && StepClosed(f0, k, region) && RevealOnly(f0, f)
    requires f.InBounds(loc) && loc in region && f.At(loc).touchingMines == k
    requires f.InBounds(p) && InBlock(loc, p) && f.At(loc).touchingMines == f.At(p).touchingMines && !f.At(p).checked
    ensures p in region
    ensures RevealOnly(f0, f.Set(p, f.At(p).(checked := true)))
  {
    assert Step(f0, k, loc, p);
    CheckOne(f, p);
    RevealOnlyTransitive(f0, f, f.Set(p, f.At(p).(checked := true)));
  }

  /** The cells one step of the walk checks are in the region, when the
      step's own cell and those of the recursive reveal (`g` to `h`) and of
      the rest of the walk (`h` to `res`) are. */
  lemma RegionAcrossStep(region: iset<Loc>, f: Field, g: Field, h: Field, res: Field, p: Loc)
    requires f.Valid() && f.InBounds(p) && !f.At(p).checked && g == f.Set(p, f.At(p).(checked := true))
    requires RevealOnly(g, h) && RevealOnly(f, h) && RevealOnly(h, res) && RevealOnly(f, res)
    requires p in region && forall q :: NewlyChecked(g, h, q) ==> q in region
    requires forall q :: NewlyChecked(h, res, q) ==> q in region
    ensures forall q :: NewlyChecked(f, res, q) ==> q in region
  {
    NewlyAcrossStep(f, g, h, res, p);
  }

  /** The cells reachable from `loc` form a step-closed region. */
  lemma ReachClosed(f: Field, loc: Loc)
    requires f.Valid() && f.InBounds(loc)
    ensures StepClosed(f, f.At(loc).touchingMines, iset q | Reach(f, loc, q))
  {
    forall a, b | Reach(f, loc, a) && Step(f, f.At(loc).touchingMines, a, b)
      ensures Reach(f, loc, b)
    {
      ReachExtend(f, loc, a, b);
    }
  }

  /** Every cell on a path from `loc` is checked after the recursive reveal
      `g`, given that `g` is closed around `loc` and around every cell it
      checked. */
  lemma {:induction false} PathChecked(f: Field, loc: Loc, g: Field, path: seq<Loc>, j: nat)
    requires f.Valid() && f.InBounds(loc) && RevealOnly(f, g)
    requires IsPath(f, f.At(loc).touchingMines, path) && path[0] == loc && j < |path|
    requires Closed(g, loc) && forall q :: NewlyChecked(f, g, q) ==> Closed(g, q)
    ensures f.InBounds(path[j]) && g.At(path[j]).checked
    decreases j
  {
    var k := f.At(loc).touchingMines;
    if j == 0 {
      assert InBlock(loc, loc);
    } else {
      PathChecked(f, loc, g, path, j - 1);
      var a, b := path[j - 1], path[j];
      assert Step(f, k, a, b);
      assert g.At(a).touchingMines == k by {
        if j - 1 > 0 {
          assert Step(f, k, path[j - 2], a);
        }
      }
      assert Closed(g, a) by {
        if j - 1 > 0 {
          assert Step(f, k, path[j - 2], a);
          assert NewlyChecked(f, g, a);
        }
      }
    }
  }

  /** With recursion the reveal checks exactly the cells reachable from
      `loc`: a cell ends checked when it was checked already or a chain of
      block steps through unchecked cells with the count of `loc` leads to it
      from `loc`, and in no other case. */
  lemma RecursiveReveal(f: Field, loc: Loc)
    requires f.Valid() && f.InBounds(loc)
    ensures forall q :: f.InBounds(q) ==>
      (Bleed(f, loc, true).At(q).checked <==> f.At(q).checked || Reach(f, loc, q))
  {
    var g := Bleed(f, loc, true);
    ReachStart(f, loc);
    ReachClosed(f, loc);
    var region := iset q | Reach(f, loc, q);
    BleedWithinRegion(f, f.At(loc).touchingMines, region, f, loc);
    forall q | f.InBounds(q) && !f.At(q).checked && g.At(q).checked
      ensures Reach(f, loc, q)
    {
      assert NewlyChecked(f, g, q);
    }
    RecursiveRevealClosed(f, loc);
    forall q | f.InBounds(q) && Reach(f, loc, q)
      ensures g.At(q).checked
    {
      var path :| IsPath(f, f.At(loc).touchingMines, path) && path[0] == loc && path[|path| - 1] == q;
      PathChecked(f, loc, g, path, |path| - 1);
    }
  }

  /** On a consistent field, an in-bounds block neighbour of a cell without a
      mine that has the same count holds no mine either: a mine would count
      0, so the centre would count 0 and have no adjacent mine at all. */
  lemma EqualCountNeighbourIsSafe(f: Field, loc: Loc, p: Loc)
    requires f.Valid() && f.InBounds(loc) && CountsConsistent(f) && !f.At(loc).isMine
    requires f.InBounds(p) && InBlock(loc, p) && f.At(p).touchingMines == f.At(loc).touchingMines
    ensures !f.At(p).isMine
  {
    AdjacentMinesMembers(f, loc);
  }

  /** On a consistent field, a reveal started at a cell without a mine never
      checks a mine. A mine carries count 0; a cell that equals it carries 0
      too, so it has no adjacent mine, which keeps the mine out of its block. */
  lemma {:induction false} BleedRevealsNoMine(f: Field, loc: Loc, recursive: bool)
    requires f.Valid() && f.InBounds(loc) && CountsConsistent(f) && !f.At(loc).isMine
    ensures forall p :: NewlyChecked(f, Bleed(f, loc, recursive), p) ==> !f.At(p).isMine
    decreases f.Unchecked(), 10
  {
    BleedFromRevealsNoMine(f, loc, 0, recursive);
  }

  lemma {:induction false} BleedFromRevealsNoMine(f: Field, loc: Loc, i: nat, recursive: bool)
    requires f.Valid() && f.InBounds(loc) && i <= 9 && CountsConsistent(f) && !f.At(loc).isMine
    ensures forall p :: NewlyChecked(f, BleedFrom(f, loc, i, recursive), p) ==> !f.At(p).isMine
    decreases f.Unchecked(), 9 - i
  {
    if i < 9 {
      var p := CellsAround(loc)[i];
      if f.InBounds(p) && f.At(loc).touchingMines == f.At(p).touchingMines && !f.At(p).checked {
        EqualCountNeighbourIsSafe(f, loc, p);
        var g := f.Set(p, f.At(p).(checked := true));
        CheckOne(f, p);
        ConsistentUnderReveal(f, g);
        var h := if recursive then Bleed(g, p, recursive) else g;
        if recursive {
          BleedRevealsNoMine(g, p, recursive);
        }
        AfterCheck(f, p, h);
        ConsistentUnderReveal(f, h);
        BleedFromRevealsNoMine(h, loc, i + 1, recursive);
        var res := BleedFrom(h, loc, i + 1, recursive);
        RevealOnlyTransitive(f, h, res);
        NewlyAcrossStep(f, g, h, res, p);
      } else {
        BleedFromRevealsNoMine(f, loc, i + 1, recursive);
      }
    }
  }

  function Abs(x: int): nat {
    if x < 0 then -x else x
  }

  /** The number of king moves between two positions. */
  function Distance(a: Loc, b: Loc): nat {
    if Abs(a.row - b.row) < Abs(a.col - b.col) then Abs(a.col - b.col) else Abs(a.row - b.row)
  }

  /** One unit from `x` toward `target`. */
  function Toward(x: int, target: int): int {
    if x < target then x + 1 else if x > target then x - 1 else x
  }

  /** In a field where every checked cell is closed and every cell has one
      count, a cell at any distance from a checked cell is checked. */
  lemma {:induction false} ClosedFieldReaches(g: Field, loc: Loc, p: Loc, d: nat)
    requires g.Valid() && g.InBounds(loc) && g.InBounds(p) && d == Distance(loc, p)
    requires g.At(loc).checked
    requires forall q :: g.InBounds(q) && g.At(q).checked ==> Closed(g, q)
    requires forall q :: g.InBounds(q) ==> g.At(q).touchingMines == g.At(loc).touchingMines
    ensures g.At(p).checked
    decreases d
  {
    if d > 0 {
      var q := Loc(Toward(p.row, loc.row), Toward(p.col, loc.col));
      ClosedFieldReaches(g, loc, q, d - 1);
      assert InBlock(q, p);
    }
  }

  /** On a field where nothing is checked yet and every cell carries the
      same count (a field without mines, say), one recursive reveal checks
      every cell. */
  lemma {:induction false} UniformFieldFloods(f: Field, loc: Loc)
    requires f.Valid() && f.InBounds(loc)
    requires forall p :: f.InBounds(p) ==> !f.At(p).checked && f.At(p).touchingMines == f.At(loc).touchingMines
    ensures forall p :: f.InBounds(p) ==> Bleed(f, loc, true).At(p).checked
  {
    var g := Bleed(f, loc, true);
    RecursiveRevealClosed(f, loc);
    forall p | f.InBounds(p)
      ensures g.At(p).checked
    {
      ClosedFieldReaches(g, loc, p, Distance(loc, p));
    }
  }

  /** A 3x3 field with its one mine in the middle: the eight other cells
      count 1 and the mine counts 0. */
  function CentreMineField(): (f: Field)
    ensures f.Valid() && f.rowCount == 3 && f.columnCount == 3
  {
    var one, mine := Cell(false, 1, false), Cell(true, 0, false);
    Field(3, 3, [[one, one, one], [one, mine, one], [one, one, one]])
  }

  /** Clicking the top-left corner of that field without recursion checks
      the corner and its two count-1 neighbours, and leaves the mine alone. */
  lemma CentreMineExample()
    ensures forall p :: CentreMineField().InBounds(p) ==>
      (Bleed(CentreMineField(), Loc(0, 0), false).At(p).checked <==>
         p in {Loc(0, 0), Loc(0, 1), Loc(1, 0)})
  {
    var f := CentreMineField();
    NonRecursiveReveal(f, Loc(0, 0));
    forall p | f.InBounds(p)
      ensures InBlock(Loc(0, 0), p) && f.At(p).touchingMines == 1 <==> p in {Loc(0, 0), Loc(0, 1), Loc(1, 0)}
    {
      assert p == Loc(p.row, p.col);
    }
  }

  /** A 1x3 row with its one mine in the middle: both ends count 1. */
  function MineInRowField(): (f: Field)
    ensures f.Valid() && f.rowCount == 1 && f.columnCount == 3
  {
    Field(1, 3, [[Cell(false, 1, false), Cell(true, 0, false), Cell(false, 1, false)]])
  }

  /** Every path of count-1 steps from the left end of that row stays there:
      its only in-bounds neighbour is the mine, which counts 0. */
  lemma {:induction false} PathStaysAtLeftEnd(path: seq<Loc>, j: nat)
    requires IsPath(MineInRowField(), 1, path) && path[0] == Loc(0, 0) && j < |path|
    ensures path[j] == Loc(0, 0)
    decreases j
  {
    if j > 0 {
      PathStaysAtLeftEnd(path, j - 1);
      assert Step(MineInRowField(), 1, path[j - 1], path[j]);
    }
  }

  /** A recursive click on the left end of that row checks the left end only:
      the right end has the same count but is not connected to it. */
  lemma MineInRowExample()
    ensures forall p :: MineInRowField().InBounds(p) ==>
      (Bleed(MineInRowField(), Loc(0, 0), true).At(p).checked <==> p == Loc(0, 0))
  {
    var f := MineInRowField();
    RecursiveReveal(f, Loc(0, 0));
    ReachStart(f, Loc(0, 0));
    forall p | f.InBounds(p) && Reach(f, Loc(0, 0), p)
      ensures p == Loc(0, 0)
    {
      var path :| IsPath(f, 1, path) && path[0] == Loc(0, 0) && path[|path| - 1] == p;
      PathStaysAtLeftEnd(path, |path| - 1);
    }
  }
}
