/** Terrain graphics rules on a map of tiles: when a rule matches, what applying it adds, and what a scan
    over candidate cells leaves behind. */
module TerrainRules {
  import opened HexGeometry

  /** An image of a rule as placed on a tile, with its seed. */
  datatype Placed = Placed(image: int, seed: nat)

  datatype Tile = Tile(flags: set<string>, images: seq<Placed>, minimumUnitIndex: int)

  const EMPTY_TILE := Tile({}, [], -1)

  datatype Constraint = Constraint(
    loc: Loc, types: int, setFlag: seq<string>, noFlag: seq<string>, hasFlag: seq<string>, images: seq<int>)

  datatype Rule = Rule(place: Loc, probability: int, hash: nat, constraints: seq<Constraint>)

  datatype Selector = MapLayer | UnitLayer

  /** The map, the terrain matching of both layers and the noise function. */
  datatype World = World(
    w: nat, h: nat, terrain: Loc -> int, fits: (int, int) -> bool, unitFits: (Loc, int) -> bool,
    noise: (Loc, nat) -> nat)

  // ---------------------------------------------------------------- tiles

  predicate OnMap(w: nat, h: nat, l: Loc) {
    -2 <= l.x <= w + 1 && -2 <= l.y <= h + 1
  }

  function TileCount(w: nat, h: nat): nat { (w + 4) * (h + 4) }

  /** The index of a cell in the vector of tiles. */
  function Slot(w: nat, l: Loc): int { (l.x + 2) + (l.y + 2) * (w + 4) }

  lemma SlotInRange(w: nat, h: nat, l: Loc)
    requires OnMap(w, h, l)
    ensures 0 <= Slot(w, l) < TileCount(w, h)
  {
    assert (l.y + 2) * (w + 4) <= (h + 3) * (w + 4);
    assert (h + 4) * (w + 4) == (h + 3) * (w + 4) + (w + 4);
  }

  lemma LowerRow(w: nat, a: Loc, b: Loc)
    requires -2 <= a.x <= w + 1 && -2 <= b.x <= w + 1 && a.y < b.y
    ensures Slot(w, a) < Slot(w, b)
  {
    var n, d := w + 4, b.y - a.y - 1;
    assert (b.y + 2) * n == (a.y + 2 + 1 + d) * n == (a.y + 2) * n + n + d * n;
    assert d * n >= 0;
  }

  /** Different cells of the map have different tiles. */
  lemma SlotInjective(w: nat, h: nat, a: Loc, b: Loc)
    requires OnMap(w, h, a) && OnMap(w, h, b)
    ensures Slot(w, a) == Slot(w, b) <==> a == b
  {
    if a.y < b.y {
      LowerRow(w, a, b);
    } else if b.y < a.y {
      LowerRow(w, b, a);
    }
  }

  predicate Sized(world: World, tiles: seq<Tile>) {
    |tiles| == TileCount(world.w, world.h)
  }

  function TileAt(world: World, tiles: seq<Tile>, l: Loc): Tile
    requires Sized(world, tiles) && OnMap(world.w, world.h, l)
  {
    SlotInRange(world.w, world.h, l);
    tiles[Slot(world.w, l)]
  }

  // ---------------------------------------------------------------- matching

  predicate TerrainFits(world: World, sel: Selector, l: Loc, types: int) {
    if sel.MapLayer? then world.fits(world.terrain(l), types) else world.unitFits(l, types)
  }

  predicate FlagsFit(flags: set<string>, c: Constraint) {
    && (forall i :: 0 <= i < |c.noFlag| ==> c.noFlag[i] !in flags)
    && (forall i :: 0 <= i < |c.hasFlag| ==> c.hasFlag[i] in flags)
  }

  /** A constraint holds for the cell it translates to; `checked` says that the terrain is known to fit. */
  predicate ConstraintFits(world: World, sel: Selector, tiles: seq<Tile>, c: Constraint, l: Loc, checked: bool)
    requires Sized(world, tiles)
  {
    var t := Sum(l, c.loc);
    && OnMap(world.w, world.h, t)
    && (checked || TerrainFits(world, sel, t, c.types))
    && FlagsFit(TileAt(world, tiles, t).flags, c)
  }

  const UINT := 0x1_0000_0000

  /** The tests that do not look at tiles: the fixed place and the dice. */
  predicate PlaceAndLuck(world: World, rule: Rule, l: Loc) {
    && (rule.place.x >= 0 && rule.place.y >= 0 ==> rule.place == l)
    && (rule.probability != 100 ==> world.noise(l, rule.hash) % 100 <= rule.probability % UINT)
  }

  /** `rule_matches`; `pivot` is the constraint whose terrain test is skipped, or a number beyond all. */
  predicate Matches(world: World, sel: Selector, tiles: seq<Tile>, rule: Rule, l: Loc, pivot: nat)
    requires Sized(world, tiles)
  {
    && PlaceAndLuck(world, rule, l)
    && forall k :: 0 <= k < |rule.constraints| ==>
         ConstraintFits(world, sel, tiles, rule.constraints[k], l, k == pivot)
  }

  /** The full test skips nothing. */
  predicate FullyMatches(world: World, sel: Selector, tiles: seq<Tile>, rule: Rule, l: Loc)
    requires Sized(world, tiles)
  {
    Matches(world, sel, tiles, rule, l, |rule.constraints|)
  }

  /** Where the terrain of the pivot cell is known to fit, skipping its test changes no verdict. */
  lemma PivotChangesNoVerdict(world: World, sel: Selector, tiles: seq<Tile>, rule: Rule, l: Loc, pivot: nat)
    requires Sized(world, tiles) && pivot < |rule.constraints|
    requires TerrainFits(world, sel, Sum(l, rule.constraints[pivot].loc), rule.constraints[pivot].types)
    ensures Matches(world, sel, tiles, rule, l, pivot) <==> FullyMatches(world, sel, tiles, rule, l)
  {
    hide Sum, FlagsFit, PlaceAndLuck, TerrainFits, OnMap;
    var n := |rule.constraints|;
    forall k | 0 <= k < n
      ensures ConstraintFits(world, sel, tiles, rule.constraints[k], l, k == pivot)
          <==> ConstraintFits(world, sel, tiles, rule.constraints[k], l, k == n)
    {
    }
  }

  // ---------------------------------------------------------------- applying

  function Stamped(images: seq<int>, seed: nat): (r: seq<Placed>)
    ensures |r| == |images| && forall i :: 0 <= i < |r| ==> r[i] == Placed(images[i], seed)
  {
    seq(|images|, i requires 0 <= i < |images| => Placed(images[i], seed))
  }

  function FlagSet(flags: seq<string>): set<string> { set i | 0 <= i < |flags| :: flags[i] }

  /** What a constraint adds to its tile: images, flags, and on the unit layer the place where the images of
      units begin. */
  function Touched(sel: Selector, t: Tile, c: Constraint, seed: nat): Tile {
    Tile(t.flags + FlagSet(c.setFlag), t.images + Stamped(c.images, seed),
         if sel.UnitLayer? && t.minimumUnitIndex == -1 && c.images != [] then |t.images| else t.minimumUnitIndex)
  }

  /** `apply_rule` from constraint `k` on; it stops at a cell outside the map. */
  function Applied(world: World, sel: Selector, tiles: seq<Tile>, rule: Rule, l: Loc, k: nat): (r: seq<Tile>)
    requires Sized(world, tiles) && k <= |rule.constraints|
    ensures Sized(world, r)
    decreases |rule.constraints| - k
  {
    if k == |rule.constraints| then tiles
    else
      var c := rule.constraints[k];
      var t := Sum(l, c.loc);
      if !OnMap(world.w, world.h, t) then tiles
      else
        SlotInRange(world.w, world.h, t);
        var s := Slot(world.w, t);
        Applied(world, sel, tiles[s := Touched(sel, tiles[s], c, world.noise(l, rule.hash))], rule, l, k + 1)
  }

  /** The images that constraints from `k` on put on a cell, in order. */
  function ImagesFor(world: World, rule: Rule, l: Loc, cell: Loc, k: nat): seq<Placed>
    requires k <= |rule.constraints|
    decreases |rule.constraints| - k
  {
    if k == |rule.constraints| then []
    else
      var c := rule.constraints[k];
      (if Sum(l, c.loc) == cell then Stamped(c.images, world.noise(l, rule.hash)) else [])
      + ImagesFor(world, rule, l, cell, k + 1)
  }

  /** Every constraint translates to a cell of the map. */
  ghost predicate Fits(world: World, rule: Rule, l: Loc) {
    forall k :: 0 <= k < |rule.constraints| ==> OnMap(world.w, world.h, Sum(l, rule.constraints[k].loc))
  }

  lemma MatchedFits(world: World, sel: Selector, tiles: seq<Tile>, rule: Rule, l: Loc, pivot: nat)
    requires Sized(world, tiles) && Matches(world, sel, tiles, rule, l, pivot)
    ensures Fits(world, rule, l)
  {
    hide Sum, FlagsFit, PlaceAndLuck, TerrainFits, OnMap;
    forall k | 0 <= k < |rule.constraints|
      ensures OnMap(world.w, world.h, Sum(l, rule.constraints[k].loc))
    {
      assert ConstraintFits(world, sel, tiles, rule.constraints[k], l, k == pivot);
    }
  }

  /** Applying a rule that fits adds to each cell exactly the images of the constraints lying on it, and no
      constraint is left out. */
  lemma {:induction false} AppliedImages(world: World, sel: Selector, tiles: seq<Tile>, rule: Rule, l: Loc,
                                         k: nat, cell: Loc)
    requires Sized(world, tiles) && k <= |rule.constraints| && Fits(world, rule, l)
    requires OnMap(world.w, world.h, cell)
    ensures TileAt(world, Applied(world, sel, tiles, rule, l, k), cell).images
         == TileAt(world, tiles, cell).images + ImagesFor(world, rule, l, cell, k)
    decreases |rule.constraints| - k
  {
    hide Sum, OnMap, Slot, TileCount;
    if k < |rule.constraints| {
      var c := rule.constraints[k];
      var t, seed := Sum(l, c.loc), world.noise(l, rule.hash);
      SlotInRange(world.w, world.h, t);
      SlotInRange(world.w, world.h, cell);
      SlotInjective(world.w, world.h, t, cell);
      var s := Slot(world.w, t);
      AppliedImages(world, sel, tiles[s := Touched(sel, tiles[s], c, seed)], rule, l, k + 1, cell);
    }
  }

  /** Nothing a tile has is ever lost: flags stay and images stay in front. */
  ghost predicate Grown(was: Tile, now: Tile) {
    was.flags <= now.flags && was.images <= now.images
  }

  ghost predicate AllGrown(was: seq<Tile>, now: seq<Tile>) {
    |was| == |now| && forall s :: 0 <= s < |was| ==> Grown(was[s], now[s])
  }

  lemma {:induction false} AppliedGrows(world: World, sel: Selector, tiles: seq<Tile>, rule: Rule, l: Loc, k: nat)
    requires Sized(world, tiles) && k <= |rule.constraints|
    ensures AllGrown(tiles, Applied(world, sel, tiles, rule, l, k))
    decreases |rule.constraints| - k
  {
    hide Sum, OnMap, Slot, TileCount;
    if k < |rule.constraints| && OnMap(world.w, world.h, Sum(l, rule.constraints[k].loc)) {
      var c := rule.constraints[k];
      var t, seed := Sum(l, c.loc), world.noise(l, rule.hash);
      SlotInRange(world.w, world.h, t);
      var s := Slot(world.w, t);
      AppliedGrows(world, sel, tiles[s := Touched(sel, tiles[s], c, seed)], rule, l, k + 1);
    }
  }

  /** After a rule was applied its flags are set, so a constraint on such a cell that forbids one of them
      no longer holds. */
  lemma {:induction false} AppliedSetsFlags(world: World, sel: Selector, tiles: seq<Tile>, rule: Rule, l: Loc,
                                            k: nat, j: nat)
    requires Sized(world, tiles) && k <= j < |rule.constraints| && Fits(world, rule, l)
    ensures FlagSet(rule.constraints[j].setFlag)
         <= TileAt(world, Applied(world, sel, tiles, rule, l, k), Sum(l, rule.constraints[j].loc)).flags
    decreases |rule.constraints| - k
  {
    hide Sum, OnMap, Slot, TileCount, FlagSet;
    var c := rule.constraints[k];
    var t, seed := Sum(l, c.loc), world.noise(l, rule.hash);
    SlotInRange(world.w, world.h, t);
    var s := Slot(world.w, t);
    var next := tiles[s := Touched(sel, tiles[s], c, seed)];
    if k < j {
      AppliedSetsFlags(world, sel, next, rule, l, k + 1, j);
    } else {
      AppliedGrows(world, sel, next, rule, l, k + 1);
    }
  }

  // ---------------------------------------------------------------- scanning

  /** The simple engine: try the rule fully with its pivot constraint on each of the cells in turn. */
  function Scanned(world: World, sel: Selector, tiles: seq<Tile>, rule: Rule, pivot: nat,
                   cells: seq<Loc>): (r: seq<Tile>)
    requires Sized(world, tiles) && pivot < |rule.constraints|
    ensures Sized(world, r)
    decreases |cells|
  {
    if cells == [] then tiles
    else
      var l := Difference(cells[0], rule.constraints[pivot].loc);
      var next := if FullyMatches(world, sel, tiles, rule, l) then Applied(world, sel, tiles, rule, l, 0) else tiles;
      Scanned(world, sel, next, rule, pivot, cells[1..])
  }

  lemma {:induction false} ScannedConcat(world: World, sel: Selector, tiles: seq<Tile>, rule: Rule, pivot: nat,
                                         a: seq<Loc>, b: seq<Loc>)
    requires Sized(world, tiles) && pivot < |rule.constraints|
    ensures Scanned(world, sel, tiles, rule, pivot, a + b)
         == Scanned(world, sel, Scanned(world, sel, tiles, rule, pivot, a), rule, pivot, b)
    decreases |a|
  {
    hide FullyMatches, Applied;
    if a == [] {
      assert a + b == b;
    } else {
      assert (a + b)[0] == a[0] && (a + b)[1..] == a[1..] + b;
      var l := Difference(a[0], rule.constraints[pivot].loc);
      var next := if FullyMatches(world, sel, tiles, rule, l) then Applied(world, sel, tiles, rule, l, 0) else tiles;
      ScannedConcat(world, sel, next, rule, pivot, a[1..], b);
    }
  }

  /** Cells whose terrain does not fit the pivot contribute nothing. */
  lemma {:induction false} ScannedNothing(world: World, sel: Selector, tiles: seq<Tile>, rule: Rule, pivot: nat,
                                          cells: seq<Loc>)
    requires Sized(world, tiles) && pivot < |rule.constraints|
    requires forall i :: 0 <= i < |cells| ==> !TerrainFits(world, sel, cells[i], rule.constraints[pivot].types)
    ensures Scanned(world, sel, tiles, rule, pivot, cells) == tiles
    decreases |cells|
  {
    if cells != [] {
      var c := rule.constraints[pivot];
      var l := Difference(cells[0], c.loc);
      SumAndDifference(cells[0], c.loc);
      assert !FullyMatches(world, sel, tiles, rule, l) by {
        hide Sum, Difference, FlagsFit, PlaceAndLuck, OnMap;
        assert !ConstraintFits(world, sel, tiles, c, l, false);
      }
      hide Difference, FullyMatches, Applied, TerrainFits;
      ScannedNothing(world, sel, tiles, rule, pivot, cells[1..]);
    }
  }

  /** No location is missed: where the full test succeeds with its pivot cell among the cells, the location
      is tried; and different cells try different locations. */
  lemma ScanComplete(world: World, sel: Selector, tiles: seq<Tile>, rule: Rule, pivot: nat, cells: seq<Loc>, l: Loc)
    requires Sized(world, tiles) && pivot < |rule.constraints|
    requires Sum(l, rule.constraints[pivot].loc) in cells
    ensures exists i :: 0 <= i < |cells| && Difference(cells[i], rule.constraints[pivot].loc) == l
    ensures forall i, j :: 0 <= i < |cells| && 0 <= j < |cells| && cells[i] != cells[j] ==>
              Difference(cells[i], rule.constraints[pivot].loc) != Difference(cells[j], rule.constraints[pivot].loc)
  {
    var a := rule.constraints[pivot].loc;
    SumAndDifference(l, a);
    var i :| 0 <= i < |cells| && cells[i] == Sum(l, a);
    forall i, j | 0 <= i < |cells| && 0 <= j < |cells| && cells[i] != cells[j]
      ensures Difference(cells[i], a) != Difference(cells[j], a)
    {
      SumAndDifference(cells[i], a);
      SumAndDifference(cells[j], a);
    }
  }

  // ---------------------------------------------------------------- the two layers of a tile

  /** `tile::clear` */
  function Cleared(t: Tile, full: bool): Tile {
    if full then EMPTY_TILE
    else if t.minimumUnitIndex != -1 && 0 <= t.minimumUnitIndex <= |t.images| then
      Tile({}, t.images[..t.minimumUnitIndex], -1)
    else Tile({}, t.images, t.minimumUnitIndex)
  }

  ghost predicate LayeredTile(t: Tile) { -1 <= t.minimumUnitIndex <= |t.images| }
  ghost predicate Layered(tiles: seq<Tile>) { forall s :: 0 <= s < |tiles| ==> LayeredTile(tiles[s]) }

  /** The images of the map layer lie in front of those of units. */
  function MapImages(t: Tile): seq<Placed>
    requires LayeredTile(t)
  {
    if t.minimumUnitIndex == -1 then t.images else t.images[..t.minimumUnitIndex]
  }

  function ClearedAll(tiles: seq<Tile>, full: bool): (r: seq<Tile>)
    ensures |r| == |tiles| && forall s :: 0 <= s < |r| ==> r[s] == Cleared(tiles[s], full)
  {
    seq(|tiles|, s requires 0 <= s < |tiles| => Cleared(tiles[s], full))
  }

  /** The unit layer leaves the images of the map layer alone. */
  ghost predicate SameMapLayer(was: seq<Tile>, now: seq<Tile>) {
    && |was| == |now| && Layered(was) && Layered(now)
    && forall s :: 0 <= s < |was| ==> MapImages(now[s]) == MapImages(was[s])
  }

  lemma TouchedMapLayer(t: Tile, c: Constraint, seed: nat)
    requires LayeredTile(t)
    ensures var r := Touched(UnitLayer, t, c, seed);
            LayeredTile(r) && MapImages(r) == MapImages(t)
  {
    hide FlagSet;
  }

  lemma {:induction false} AppliedMapLayer(world: World, tiles: seq<Tile>, rule: Rule, l: Loc, k: nat)
    requires Sized(world, tiles) && k <= |rule.constraints| && Layered(tiles)
    ensures SameMapLayer(tiles, Applied(world, UnitLayer, tiles, rule, l, k))
    decreases |rule.constraints| - k
  {
    hide Sum, OnMap, Slot, TileCount, Touched;
    if k < |rule.constraints| && OnMap(world.w, world.h, Sum(l, rule.constraints[k].loc)) {
      var c := rule.constraints[k];
      var t, seed := Sum(l, c.loc), world.noise(l, rule.hash);
      SlotInRange(world.w, world.h, t);
      var s := Slot(world.w, t);
      TouchedMapLayer(tiles[s], c, seed);
      AppliedMapLayer(world, tiles[s := Touched(UnitLayer, tiles[s], c, seed)], rule, l, k + 1);
    }
  }

  lemma {:induction false} ScannedMapLayer(world: World, tiles: seq<Tile>, rule: Rule, pivot: nat, cells: seq<Loc>)
    requires Sized(world, tiles) && pivot < |rule.constraints| && Layered(tiles)
    ensures SameMapLayer(tiles, Scanned(world, UnitLayer, tiles, rule, pivot, cells))
    decreases |cells|
  {
    hide Difference, FullyMatches, Applied, MapImages;
    if cells != [] {
      var l := Difference(cells[0], rule.constraints[pivot].loc);
      var next := if FullyMatches(world, UnitLayer, tiles, rule, l) then Applied(world, UnitLayer, tiles, rule, l, 0) else tiles;
      AppliedMapLayer(world, tiles, rule, l, 0);
      ScannedMapLayer(world, next, rule, pivot, cells[1..]);
    }
  }

  /** Building either layer keeps the start of the unit images within the images. */
  lemma {:induction false} AppliedLayered(world: World, sel: Selector, tiles: seq<Tile>, rule: Rule, l: Loc, k: nat)
    requires Sized(world, tiles) && k <= |rule.constraints| && Layered(tiles)
    ensures Layered(Applied(world, sel, tiles, rule, l, k))
    decreases |rule.constraints| - k
  {
    hide Sum, OnMap, Slot, TileCount, FlagSet;
    if k < |rule.constraints| && OnMap(world.w, world.h, Sum(l, rule.constraints[k].loc)) {
      var c := rule.constraints[k];
      var t, seed := Sum(l, c.loc), world.noise(l, rule.hash);
      SlotInRange(world.w, world.h, t);
      var s := Slot(world.w, t);
      AppliedLayered(world, sel, tiles[s := Touched(sel, tiles[s], c, seed)], rule, l, k + 1);
    }
  }

  lemma {:induction false} ScannedLayered(world: World, sel: Selector, tiles: seq<Tile>, rule: Rule,
                                          pivot: nat, cells: seq<Loc>)
    requires Sized(world, tiles) && pivot < |rule.constraints| && Layered(tiles)
    ensures Layered(Scanned(world, sel, tiles, rule, pivot, cells))
    decreases |cells|
  {
    hide Difference, FullyMatches, Applied, LayeredTile;
    if cells != [] {
      var l := Difference(cells[0], rule.constraints[pivot].loc);
      var next := if FullyMatches(world, sel, tiles, rule, l) then Applied(world, sel, tiles, rule, l, 0) else tiles;
      AppliedLayered(world, sel, tiles, rule, l, 0);
      ScannedLayered(world, sel, next, rule, pivot, cells[1..]);
    }
  }

  /** Clearing the unit layer brings back a tile that depends only on the map layer. */
  lemma ClearedIsMapLayer(t: Tile)
    requires LayeredTile(t)
    ensures Cleared(t, false) == Tile({}, MapImages(t), -1)
    ensures LayeredTile(Cleared(t, false)) && MapImages(Cleared(t, false)) == MapImages(t)
  {
  }
}
