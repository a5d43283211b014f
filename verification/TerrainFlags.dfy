/** What flags do to the rules of a build: which rules they keep out, and that rules which all set and forbid
    one flag draw on a cell only once. */
module TerrainFlags {
  import opened HexGeometry
  import opened TerrainRules
  import opened TerrainIndex

  // ---------------------------------------------------------------- what a match needs

  /** A rule fully matches exactly when its place and its dice allow it and every constraint lies on the map
      with its border, on a fitting terrain, without forbidden flags and with all the flags it asks for. */
  lemma MatchedMeans(world: World, sel: Selector, tiles: seq<Tile>, rule: Rule, l: Loc)
    requires Sized(world, tiles)
    ensures FullyMatches(world, sel, tiles, rule, l) <==>
            && (rule.place.x < 0 || rule.place.y < 0 || rule.place == l)
            && (rule.probability == 100 || world.noise(l, rule.hash) % 100 <= rule.probability % 0x1_0000_0000)
            && forall k :: 0 <= k < |rule.constraints| ==>
                 var c := rule.constraints[k];
                 var t := Sum(l, c.loc);
                 && -2 <= t.x <= world.w + 1 && -2 <= t.y <= world.h + 1
                 && (if sel.MapLayer? then world.fits(world.terrain(t), c.types) else world.unitFits(t, c.types))
                 && (forall f :: f in c.noFlag ==> f !in TileAt(world, tiles, t).flags)
                 && (forall f :: f in c.hasFlag ==> f in TileAt(world, tiles, t).flags)
  {
    hide Sum, TileAt, Sized;
  }

  /** A constraint that asks for a flag its cell lacks keeps its rule from matching, whatever the pivot, */
  lemma MissingFlagBlocks(world: World, sel: Selector, tiles: seq<Tile>, rule: Rule, l: Loc, pivot: nat, j: nat, f: string)
    requires Sized(world, tiles) && j < |rule.constraints|
    requires OnMap(world.w, world.h, Sum(l, rule.constraints[j].loc))
    requires f in rule.constraints[j].hasFlag && f !in TileAt(world, tiles, Sum(l, rule.constraints[j].loc)).flags
    ensures !Matches(world, sel, tiles, rule, l, pivot)
  {
    hide Sum, TileAt, Sized, OnMap, TerrainFits;
    assert !ConstraintFits(world, sel, tiles, rule.constraints[j], l, j == pivot);
  }

  /** and so does a constraint that forbids a flag its cell has. */
  lemma SetFlagBlocks(world: World, sel: Selector, tiles: seq<Tile>, rule: Rule, l: Loc, pivot: nat, j: nat, f: string)
    requires Sized(world, tiles) && j < |rule.constraints|
    requires OnMap(world.w, world.h, Sum(l, rule.constraints[j].loc))
    requires f in rule.constraints[j].noFlag && f in TileAt(world, tiles, Sum(l, rule.constraints[j].loc)).flags
    ensures !Matches(world, sel, tiles, rule, l, pivot)
  {
    hide Sum, TileAt, Sized, OnMap, TerrainFits;
    assert !ConstraintFits(world, sel, tiles, rule.constraints[j], l, j == pivot);
  }

  // ---------------------------------------------------------------- what applying sets

  /** The constraints from `k` on that lie on a cell set a flag there. */
  ghost predicate Sets(rule: Rule, l: Loc, cell: Loc, k: nat, f: string) {
    exists j :: k <= j < |rule.constraints| && Sum(l, rule.constraints[j].loc) == cell && f in rule.constraints[j].setFlag
  }

  /** Applying a rule that fits sets on each cell exactly the flags of the constraints lying on it. */
  lemma {:induction false} AppliedFlags(world: World, sel: Selector, tiles: seq<Tile>, rule: Rule, l: Loc, k: nat,
                                        cell: Loc, f: string)
    requires Sized(world, tiles) && k <= |rule.constraints| && Fits(world, rule, l) && OnMap(world.w, world.h, cell)
    ensures f in TileAt(world, Applied(world, sel, tiles, rule, l, k), cell).flags <==>
            f in TileAt(world, tiles, cell).flags || Sets(rule, l, cell, k, f)
    decreases |rule.constraints| - k
  {
    hide Sum, OnMap, Slot, TileCount;
    if k < |rule.constraints| {
      var c := rule.constraints[k];
      var t, seed := Sum(l, c.loc), world.noise(l, rule.hash);
      SlotInRange(world.w, world.h, t);
      SlotInRange(world.w, world.h, cell);
      SlotInjective(world.w, world.h, t, cell);
      var s := Slot(world.w, t);
      AppliedFlags(world, sel, tiles[s := Touched(sel, tiles[s], c, seed)], rule, l, k + 1, cell, f);
      SetsStep(rule, l, cell, k, f);
    }
  }

  lemma SetsStep(rule: Rule, l: Loc, cell: Loc, k: nat, f: string)
    requires k < |rule.constraints|
    ensures Sets(rule, l, cell, k, f) <==>
            (Sum(l, rule.constraints[k].loc) == cell && f in rule.constraints[k].setFlag) || Sets(rule, l, cell, k + 1, f)
  {
    hide Sum;
  }

  /** A rule that sets a flag keeps out every rule that forbids it there, wherever that rule is tried and
      whatever its pivot. */
  lemma AppliedBlocks(world: World, sel: Selector, tiles: seq<Tile>, rule: Rule, l: Loc, k: nat, f: string,
                      sel': Selector, other: Rule, l': Loc, j: nat, pivot: nat)
    requires Sized(world, tiles) && Fits(world, rule, l) && k < |rule.constraints| && j < |other.constraints|
    requires Sum(l', other.constraints[j].loc) == Sum(l, rule.constraints[k].loc)
    requires f in rule.constraints[k].setFlag && f in other.constraints[j].noFlag
    ensures !Matches(world, sel', Applied(world, sel, tiles, rule, l, 0), other, l', pivot)
  {
    hide Sum, OnMap, Matches, Applied;
    AppliedFlags(world, sel, tiles, rule, l, 0, Sum(l, rule.constraints[k].loc), f);
    SetFlagBlocks(world, sel', Applied(world, sel, tiles, rule, l, 0), other, l', pivot, j, f);
  }

  // ---------------------------------------------------------------- over a whole build

  lemma {:induction false} ScannedGrows(world: World, sel: Selector, tiles: seq<Tile>, rule: Rule, pivot: nat, cells: seq<Loc>)
    requires Sized(world, tiles) && pivot < |rule.constraints|
    ensures AllGrown(tiles, Scanned(world, sel, tiles, rule, pivot, cells))
    decreases |cells|
  {
    hide Difference, FullyMatches, Applied;
    if cells != [] {
      var l := Difference(cells[0], rule.constraints[pivot].loc);
      var next := if FullyMatches(world, sel, tiles, rule, l) then Applied(world, sel, tiles, rule, l, 0) else tiles;
      AppliedGrows(world, sel, tiles, rule, l, 0);
      ScannedGrows(world, sel, next, rule, pivot, cells[1..]);
    }
  }

  /** Building takes nothing away: no flag and no image. */
  lemma {:induction false} BuildGrows(world: World, sel: Selector, index: seq<Bucket>, tiles: seq<Tile>, rules: seq<Rule>)
    requires Sized(world, tiles)
    ensures AllGrown(tiles, RulesBuilt(world, sel, index, tiles, rules))
    decreases |rules|
  {
    hide Scanned, MatchingCells;
    if rules != [] {
      var n := |rules| - 1;
      BuildGrows(world, sel, index, tiles, rules[..n]);
      var mid := RulesBuilt(world, sel, index, tiles, rules[..n]);
      var p := Pivot(world, sel, index, rules[n]);
      if p != |rules[n].constraints| {
        ScannedGrows(world, sel, mid, rules[n], p, MatchingCells(world, index, rules[n].constraints[p].types));
      }
    }
  }

  /** A flag once set keeps out those that forbid it to the end of the build. */
  lemma BlockedForGood(world: World, sel: Selector, index: seq<Bucket>, tiles: seq<Tile>, rules: seq<Rule>,
                       rule: Rule, l: Loc, pivot: nat, j: nat, f: string)
    requires Sized(world, tiles) && j < |rule.constraints|
    requires OnMap(world.w, world.h, Sum(l, rule.constraints[j].loc))
    requires f in rule.constraints[j].noFlag && f in TileAt(world, tiles, Sum(l, rule.constraints[j].loc)).flags
    ensures !Matches(world, sel, RulesBuilt(world, sel, index, tiles, rules), rule, l, pivot)
  {
    hide Sum, OnMap, Matches, RulesBuilt;
    var t := Sum(l, rule.constraints[j].loc);
    SlotInRange(world.w, world.h, t);
    BuildGrows(world, sel, index, tiles, rules);
    SetFlagBlocks(world, sel, RulesBuilt(world, sel, index, tiles, rules), rule, l, pivot, j, f);
  }

  /** Every constraint of these rules forbids the flag and sets it: what `set_no_flag` asks for. */
  ghost predicate Exclusive(rules: seq<Rule>, f: string) {
    forall i, j :: 0 <= i < |rules| && 0 <= j < |rules[i].constraints| ==>
      f in rules[i].constraints[j].noFlag && f in rules[i].constraints[j].setFlag
  }

  /** The cell got nothing, or the images that one rule, applied once, puts there. */
  ghost predicate DrawnBy(world: World, rules: seq<Rule>, cell: Loc, was: Tile, now: Tile) {
    exists rule, l :: rule in rules && now.images == was.images + ImagesFor(world, rule, l, cell, 0)
  }

  ghost predicate DrawnOnce(world: World, rules: seq<Rule>, cell: Loc, f: string, was: Tile, now: Tile) {
    if f in now.flags then
      if f in was.flags then now.images == was.images else DrawnBy(world, rules, cell, was, now)
    else f !in was.flags && now.images == was.images
  }

  lemma DrawnOnceThen(world: World, rules: seq<Rule>, cell: Loc, f: string, a: Tile, b: Tile, c: Tile)
    requires DrawnOnce(world, rules, cell, f, a, b) && DrawnOnce(world, rules, cell, f, b, c)
    ensures DrawnOnce(world, rules, cell, f, a, c)
  {
    hide ImagesFor;
  }

  lemma {:induction false} NothingDrawn(world: World, rule: Rule, l: Loc, cell: Loc, k: nat)
    requires k <= |rule.constraints|
    requires forall j :: k <= j < |rule.constraints| ==> Sum(l, rule.constraints[j].loc) != cell
    ensures ImagesFor(world, rule, l, cell, k) == []
    decreases |rule.constraints| - k
  {
    hide Sum;
    if k < |rule.constraints| {
      NothingDrawn(world, rule, l, cell, k + 1);
    }
  }

  lemma AppliedOnce(world: World, sel: Selector, tiles: seq<Tile>, rules: seq<Rule>, i: nat, l: Loc, cell: Loc, f: string)
    requires Sized(world, tiles) && i < |rules| && Exclusive(rules, f) && OnMap(world.w, world.h, cell)
    requires FullyMatches(world, sel, tiles, rules[i], l)
    ensures DrawnOnce(world, rules, cell, f, TileAt(world, tiles, cell),
                      TileAt(world, Applied(world, sel, tiles, rules[i], l, 0), cell))
  {
    hide Sum, OnMap, TileAt, Sized, ImagesFor, Applied, Matches;
    var rule := rules[i];
    MatchedFits(world, sel, tiles, rule, l, |rule.constraints|);
    AppliedImages(world, sel, tiles, rule, l, 0, cell);
    AppliedFlags(world, sel, tiles, rule, l, 0, cell, f);
    if j :| 0 <= j < |rule.constraints| && Sum(l, rule.constraints[j].loc) == cell {
      MatchedMeans(world, sel, tiles, rule, l);
      assert rule in rules;
    } else {
      NothingDrawn(world, rule, l, cell, 0);
    }
  }

  lemma {:induction false} ScannedOnce(world: World, sel: Selector, tiles: seq<Tile>, rules: seq<Rule>, i: nat, pivot: nat,
                                       cells: seq<Loc>, cell: Loc, f: string)
    requires Sized(world, tiles) && i < |rules| && Exclusive(rules, f) && OnMap(world.w, world.h, cell)
    requires pivot < |rules[i].constraints|
    ensures DrawnOnce(world, rules, cell, f, TileAt(world, tiles, cell),
                      TileAt(world, Scanned(world, sel, tiles, rules[i], pivot, cells), cell))
    decreases |cells|
  {
    hide Difference, Applied, OnMap, TileAt, Sized, ImagesFor, FullyMatches, DrawnOnce, Exclusive;
    SameDrawn(world, rules, cell, f, TileAt(world, tiles, cell));
    if cells != [] {
      var l := Difference(cells[0], rules[i].constraints[pivot].loc);
      var next := if FullyMatches(world, sel, tiles, rules[i], l) then Applied(world, sel, tiles, rules[i], l, 0) else tiles;
      if FullyMatches(world, sel, tiles, rules[i], l) {
        AppliedOnce(world, sel, tiles, rules, i, l, cell, f);
      }
      ScannedOnce(world, sel, next, rules, i, pivot, cells[1..], cell, f);
      DrawnOnceThen(world, rules, cell, f, TileAt(world, tiles, cell), TileAt(world, next, cell),
                    TileAt(world, Scanned(world, sel, next, rules[i], pivot, cells[1..]), cell));
    }
  }

  lemma SameDrawn(world: World, rules: seq<Rule>, cell: Loc, f: string, t: Tile)
    ensures DrawnOnce(world, rules, cell, f, t, t)
  {
  }

  lemma {:induction false} BuiltOnceTo(world: World, sel: Selector, index: seq<Bucket>, tiles: seq<Tile>, rules: seq<Rule>,
                                       n: nat, cell: Loc, f: string)
    requires Sized(world, tiles) && n <= |rules| && Exclusive(rules, f) && OnMap(world.w, world.h, cell)
    ensures DrawnOnce(world, rules, cell, f, TileAt(world, tiles, cell),
                      TileAt(world, RulesBuilt(world, sel, index, tiles, rules[..n]), cell))
    decreases n
  {
    hide Scanned, MatchingCells, OnMap, TileAt, Sized, DrawnOnce, Exclusive;
    SameDrawn(world, rules, cell, f, TileAt(world, tiles, cell));
    if n > 0 {
      assert rules[..n][..n - 1] == rules[..n - 1];
      var mid := RulesBuilt(world, sel, index, tiles, rules[..n - 1]);
      var p := Pivot(world, sel, index, rules[n - 1]);
      BuiltOnceTo(world, sel, index, tiles, rules, n - 1, cell, f);
      if p != |rules[n - 1].constraints| {
        var cells := MatchingCells(world, index, rules[n - 1].constraints[p].types);
        ScannedOnce(world, sel, mid, rules, n - 1, p, cells, cell, f);
        DrawnOnceThen(world, rules, cell, f, TileAt(world, tiles, cell), TileAt(world, mid, cell),
                      TileAt(world, Scanned(world, sel, mid, rules[n - 1], p, cells), cell));
      }
    }
  }

  /** However many rules there are and wherever they match: when all of them set and forbid one flag, a cell that
      had it is left as it was, and any other cell that gets it gets the images of one rule applied once. */
  lemma BuiltOnce(world: World, sel: Selector, index: seq<Bucket>, tiles: seq<Tile>, rules: seq<Rule>, cell: Loc, f: string)
    requires Sized(world, tiles) && OnMap(world.w, world.h, cell)
    requires forall i, j :: 0 <= i < |rules| && 0 <= j < |rules[i].constraints| ==>
               f in rules[i].constraints[j].noFlag && f in rules[i].constraints[j].setFlag
    ensures var was, now := TileAt(world, tiles, cell), TileAt(world, RulesBuilt(world, sel, index, tiles, rules), cell);
            && (f in was.flags || f !in now.flags ==> now.images == was.images)
            && (now.images != was.images ==>
                  exists rule, l :: rule in rules && now.images == was.images + ImagesFor(world, rule, l, cell, 0))
  {
    hide TileAt, OnMap, Sized, RulesBuilt, ImagesFor;
    assert rules[..|rules|] == rules;
    BuiltOnceTo(world, sel, index, tiles, rules, |rules|, cell, f);
    BuildGrows(world, sel, index, tiles, rules);
    GrownAt(world, tiles, RulesBuilt(world, sel, index, tiles, rules), cell);
  }

  lemma GrownAt(world: World, was: seq<Tile>, now: seq<Tile>, cell: Loc)
    requires Sized(world, was) && Sized(world, now) && AllGrown(was, now) && OnMap(world.w, world.h, cell)
    ensures Grown(TileAt(world, was, cell), TileAt(world, now, cell))
  {
    SlotInRange(world.w, world.h, cell);
  }

  // ---------------------------------------------------------------- where the images of units begin

  /** The map layer never marks a tile as holding images of units; the unit layer marks it where the first one
      was put. */
  ghost predicate Marked(sel: Selector, was: Tile, now: Tile) {
    && was.images <= now.images
    && now.minimumUnitIndex ==
       if sel.UnitLayer? && was.minimumUnitIndex == -1 && now.images != was.images then |was.images| else was.minimumUnitIndex
  }

  ghost predicate AllMarked(sel: Selector, was: seq<Tile>, now: seq<Tile>) {
    |was| == |now| && forall s :: 0 <= s < |was| ==> Marked(sel, was[s], now[s])
  }

  lemma MarkedThen(sel: Selector, a: seq<Tile>, b: seq<Tile>, c: seq<Tile>)
    requires AllMarked(sel, a, b) && AllMarked(sel, b, c)
    ensures AllMarked(sel, a, c)
  {
    forall s | 0 <= s < |a|
      ensures Marked(sel, a[s], c[s])
    {
      assert Marked(sel, a[s], b[s]) && Marked(sel, b[s], c[s]);
    }
  }

  lemma TouchedMarks(sel: Selector, t: Tile, c: Constraint, seed: nat)
    ensures Marked(sel, t, Touched(sel, t, c, seed))
  {
    hide FlagSet;
    if c.images == [] {
      assert t.images + [] == t.images;
    } else {
      assert |t.images + Stamped(c.images, seed)| > |t.images|;
    }
  }

  lemma {:induction false} AppliedMarks(world: World, sel: Selector, tiles: seq<Tile>, rule: Rule, l: Loc, k: nat)
    requires Sized(world, tiles) && k <= |rule.constraints|
    ensures AllMarked(sel, tiles, Applied(world, sel, tiles, rule, l, k))
    decreases |rule.constraints| - k
  {
    hide Sum, OnMap, Slot, TileCount, Touched;
    if k < |rule.constraints| && OnMap(world.w, world.h, Sum(l, rule.constraints[k].loc)) {
      var c := rule.constraints[k];
      var t, seed := Sum(l, c.loc), world.noise(l, rule.hash);
      SlotInRange(world.w, world.h, t);
      var s := Slot(world.w, t);
      var next := tiles[s := Touched(sel, tiles[s], c, seed)];
      TouchedMarks(sel, tiles[s], c, seed);
      AppliedMarks(world, sel, next, rule, l, k + 1);
      MarkedThen(sel, tiles, next, Applied(world, sel, next, rule, l, k + 1));
    }
  }

  lemma {:induction false} ScannedMarks(world: World, sel: Selector, tiles: seq<Tile>, rule: Rule, pivot: nat, cells: seq<Loc>)
    requires Sized(world, tiles) && pivot < |rule.constraints|
    ensures AllMarked(sel, tiles, Scanned(world, sel, tiles, rule, pivot, cells))
    decreases |cells|
  {
    hide Difference, FullyMatches, Applied, AllMarked;
    SameMarks(sel, tiles);
    if cells != [] {
      var l := Difference(cells[0], rule.constraints[pivot].loc);
      var next := if FullyMatches(world, sel, tiles, rule, l) then Applied(world, sel, tiles, rule, l, 0) else tiles;
      AppliedMarks(world, sel, tiles, rule, l, 0);
      ScannedMarks(world, sel, next, rule, pivot, cells[1..]);
      MarkedThen(sel, tiles, next, Scanned(world, sel, next, rule, pivot, cells[1..]));
    }
  }

  lemma SameMarks(sel: Selector, tiles: seq<Tile>)
    ensures AllMarked(sel, tiles, tiles)
  {
  }

  /** On every tile, whatever the rules: the first image of units of a build is where its mark points to. */
  lemma {:induction false} BuildMarks(world: World, sel: Selector, index: seq<Bucket>, tiles: seq<Tile>, rules: seq<Rule>)
    requires Sized(world, tiles)
    ensures AllMarked(sel, tiles, RulesBuilt(world, sel, index, tiles, rules))
    decreases |rules|
  {
    hide Scanned, MatchingCells, AllMarked;
    SameMarks(sel, tiles);
    if rules != [] {
      var n := |rules| - 1;
      BuildMarks(world, sel, index, tiles, rules[..n]);
      var mid := RulesBuilt(world, sel, index, tiles, rules[..n]);
      var p := Pivot(world, sel, index, rules[n]);
      if p != |rules[n].constraints| {
        var cells := MatchingCells(world, index, rules[n].constraints[p].types);
        ScannedMarks(world, sel, mid, rules[n], p, cells);
        MarkedThen(sel, tiles, mid, Scanned(world, sel, mid, rules[n], p, cells));
      }
    }
  }

  /** Behind a rebuild every tile starts with the images it had in front of its mark, and its new mark is where
      the images of the units of this rebuild begin. */
  lemma RebuiltMeans(world: World, units: Units, tiles: seq<Tile>, rules: seq<Rule>, s: nat)
    requires Sized(world, tiles) && Layered(tiles) && s < |tiles|
    ensures var now := Rebuilt(world, units, tiles, rules)[s];
            var mine := if tiles[s].minimumUnitIndex == -1 then tiles[s].images else tiles[s].images[..tiles[s].minimumUnitIndex];
            && mine <= now.images
            && now.minimumUnitIndex == if now.images == mine then -1 else |mine|
  {
    hide RulesBuilt;
    BuildMarks(world.(unitFits := units.fits), UnitLayer, units.index, ClearedAll(tiles, false), rules);
    assert Marked(UnitLayer, ClearedAll(tiles, false)[s], Rebuilt(world, units, tiles, rules)[s]);
  }

  // ---------------------------------------------------------------- the pivot

  lemma {:induction false} CountIsLength(world: World, index: seq<Bucket>, m: int)
    ensures Count(world, index, m) == |MatchingCells(world, index, m)|
  {
    if index != [] {
      CountIsLength(world, index[..|index| - 1], m);
    }
  }

  /** The constraint a rule is scanned by has the fewest fitting cells, the first one among equals; on the unit
      layer constraints without any fitting cell are passed over. */
  lemma PivotFewest(world: World, sel: Selector, index: seq<Bucket>, rule: Rule, k: nat)
    requires k < |rule.constraints|
    ensures var p, cells := Pivot(world, sel, index, rule), MatchingCells(world, index, rule.constraints[k].types);
            if p == |rule.constraints| then |cells| >= 0x7fff_ffff || (sel == UnitLayer && cells == [])
            else
              var best := MatchingCells(world, index, rule.constraints[p].types);
              && p < |rule.constraints| && |best| < 0x7fff_ffff && (best == [] ==> sel == MapLayer)
              && (|cells| < |best| || (|cells| == |best| && k < p) ==> sel == UnitLayer && cells == [])
  {
    hide MatchingCells, Count;
    var p := Pivot(world, sel, index, rule);
    CountIsLength(world, index, rule.constraints[k].types);
    if p < |rule.constraints| {
      CountIsLength(world, index, rule.constraints[p].types);
    }
    assert SizeOf(world, index, rule, k) == Count(world, index, rule.constraints[k].types);
  }
}
