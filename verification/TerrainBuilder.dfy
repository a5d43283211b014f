/** The terrain builder: tiles kept in one vector, built by scanning each rule on the cells of its pivot
    constraint only. */
module TerrainBuilder {
  import opened HexGeometry
  import opened TerrainRules
  import opened TerrainIndex
  import opened TerrainFlags

  function EmptyTiles(n: nat): seq<Tile> { seq(n, _ => EMPTY_TILE) }

  class Builder {
    const tiles: array<Tile>
    /** The map and what the units report; `unitIndex` is what they add to the cells by terrain. */
    var world: World
    var unitIndex: seq<Bucket>
    var byType: seq<Bucket>
    var selector: Selector
    const rules: seq<Rule>
    /** The last rules of the list are those of the unit layer. */
    const unitRules: nat

    ghost predicate Valid()
      reads this
    {
      && tiles.Length == TileCount(world.w, world.h)
      && unitRules <= |rules|
      && Sound(world, UnitLayer, unitIndex)
    }

    /** A builder starts with empty tiles and builds the map layer, unless the map is one texture, the tile
        set has no name or the map is empty. */
    constructor (world: World, textured: bool, id: string, unitIndex: seq<Bucket>, rules: seq<Rule>, unitRules: nat)
      requires unitRules <= |rules| && Sound(world, UnitLayer, unitIndex)
      ensures Valid() && fresh(tiles) && selector == MapLayer && Layered(tiles[..])
      ensures this.world == world && this.unitIndex == unitIndex && this.rules == rules && this.unitRules == unitRules
      ensures tiles[..] == if !textured && id != "" && world.w != 0 && world.h != 0
                           then RulesBuilt(world, MapLayer, MapIndex(world), EmptyTiles(tiles.Length), MapRules())
                           else EmptyTiles(tiles.Length)
      ensures forall s :: 0 <= s < tiles.Length ==> tiles[s].minimumUnitIndex == -1
      ensures byType == if !textured && id != "" && world.w != 0 && world.h != 0 && world.w * world.h <= 400
                        then MapIndex(world) else []
    {
      hide Sound, RulesBuilt, IndexOf, Columns;
      tiles := new Tile[TileCount(world.w, world.h)](_ => EMPTY_TILE);
      this.world, this.unitIndex, this.rules, this.unitRules := world, unitIndex, rules, unitRules;
      byType, selector := [], MapLayer;
      new;
      assert tiles[..] == EmptyTiles(tiles.Length);
      if textured || id == "" {
        return;
      }
      if world.w != 0 && world.h != 0 {
        RulesLayered(world, MapLayer, MapIndex(world), tiles[..], MapRules());
        BuildMarks(world, MapLayer, MapIndex(world), tiles[..], MapRules());
        BuildTerrains();
      }
    }

    function MapRules(): (r: seq<Rule>)
      requires unitRules <= |rules|
      ensures r <= rules && |r| == |rules| - unitRules
    {
      rules[..|rules| - unitRules]
    }

    function UnitRules(): (r: seq<Rule>)
      requires unitRules <= |rules|
      ensures MapRules() + r == rules && |r| == unitRules
    {
      rules[|rules| - unitRules..]
    }

    /** `rule_matches` */
    method RuleMatches(rule: Rule, l: Loc, pivot: nat) returns (r: bool)
      requires Valid()
      ensures r == Matches(world, selector, tiles[..], rule, l, pivot)
    {
      hide Sum, TileCount, Slot, OnMap;
      if rule.place.x >= 0 && rule.place.y >= 0 && rule.place != l {
        return false;
      }
      if rule.probability != 100 {
        var random := world.noise(l, rule.hash) % 100;
        if random > rule.probability % UINT {
          return false;
        }
      }
      var k := 0;
      while k < |rule.constraints|
        invariant 0 <= k <= |rule.constraints|
        invariant forall j :: 0 <= j < k ==>
                    ConstraintFits(world, selector, tiles[..], rule.constraints[j], l, j == pivot)
      {
        var fits := ConstraintHolds(rule.constraints[k], l, k == pivot);
        if !fits {
          return false;
        }
        k := k + 1;
      }
      return true;
    }

    method ConstraintHolds(c: Constraint, l: Loc, checked: bool) returns (r: bool)
      requires Valid()
      ensures r == ConstraintFits(world, selector, tiles[..], c, l, checked)
    {
      hide Sum, TileCount, Slot;
      var t := Sum(l, c.loc);
      if !OnMap(world.w, world.h, t) {
        return false;
      }
      if !checked && !TerrainFits(world, selector, t, c.types) {
        return false;
      }
      SlotInRange(world.w, world.h, t);
      var flags := tiles[Slot(world.w, t)].flags;
      for i := 0 to |c.noFlag|
        invariant forall j :: 0 <= j < i ==> c.noFlag[j] !in flags
      {
        if c.noFlag[i] in flags {
          return false;
        }
      }
      for i := 0 to |c.hasFlag|
        invariant forall j :: 0 <= j < i ==> c.hasFlag[j] in flags
      {
        if c.hasFlag[i] !in flags {
          return false;
        }
      }
      return true;
    }

    /** The part of `apply_rule` that changes one tile. */
    method TouchTile(s: nat, c: Constraint, seed: nat)
      requires s < tiles.Length
      modifies tiles
      ensures tiles[..] == old(tiles[..])[s := Touched(selector, old(tiles[s]), c, seed)]
    {
      ghost var was := tiles[s];
      for j := 0 to |c.images|
        invariant tiles[s].flags == was.flags
        invariant tiles[s].images == was.images + Stamped(c.images[..j], seed)
        invariant tiles[s].minimumUnitIndex
               == if selector.UnitLayer? && was.minimumUnitIndex == -1 && j > 0 then |was.images| else was.minimumUnitIndex
        invariant forall i :: 0 <= i < tiles.Length && i != s ==> tiles[i] == old(tiles[i])
      {
        if selector == UnitLayer && tiles[s].minimumUnitIndex == -1 {
          tiles[s] := tiles[s].(minimumUnitIndex := |tiles[s].images|);
        }
        tiles[s] := tiles[s].(images := tiles[s].images + [Placed(c.images[j], seed)]);
        assert Stamped(c.images[..j + 1], seed) == Stamped(c.images[..j], seed) + [Placed(c.images[j], seed)];
      }
      assert c.images[..|c.images|] == c.images;
      ghost var drawn := tiles[s];
      for j := 0 to |c.setFlag|
        invariant tiles[s] == drawn.(flags := was.flags + FlagSet(c.setFlag[..j]))
        invariant forall i :: 0 <= i < tiles.Length && i != s ==> tiles[i] == old(tiles[i])
      {
        tiles[s] := tiles[s].(flags := tiles[s].flags + {c.setFlag[j]});
        FlagSetStep(c.setFlag, j);
      }
      assert c.setFlag[..|c.setFlag|] == c.setFlag;
    }

    /** `apply_rule` */
    method ApplyRule(rule: Rule, l: Loc)
      requires Valid()
      modifies tiles
      ensures tiles[..] == Applied(world, selector, old(tiles[..]), rule, l, 0)
    {
      hide Sum, TileCount, Slot, OnMap, Touched, Sound;
      var seed := world.noise(l, rule.hash);
      var k := 0;
      while k < |rule.constraints|
        invariant 0 <= k <= |rule.constraints|
        invariant Sized(world, tiles[..])
        invariant Applied(world, selector, tiles[..], rule, l, k) == Applied(world, selector, old(tiles[..]), rule, l, 0)
      {
        var c := rule.constraints[k];
        var t := Sum(l, c.loc);
        if !OnMap(world.w, world.h, t) {
          return;
        }
        SlotInRange(world.w, world.h, t);
        TouchTile(Slot(world.w, t), c, seed);
        k := k + 1;
      }
    }

    /** The choice of the constraint with the fewest cells, with its terrains. */
    method FindPivot(rule: Rule) returns (pivot: nat, codes: seq<int>)
      requires Valid() && Sorted(byType)
      ensures pivot == Pivot(world, selector, byType, rule)
      ensures pivot < |rule.constraints| ==> codes == MatchingCodes(world, byType, rule.constraints[pivot].types)
      ensures pivot == |rule.constraints| ==> codes == []
    {
      hide Count, MatchingCodes, Sound, TileCount;
      var minSize := INT_MAX;
      pivot, codes := |rule.constraints|, [];
      var k := 0;
      while k < |rule.constraints|
        invariant 0 <= k <= |rule.constraints|
        invariant IsPivot(world, selector, byType, rule, k, pivot) && minSize > 0
        invariant pivot < |rule.constraints| ==>
                    && minSize == SizeOf(world, byType, rule, pivot)
                    && codes == MatchingCodes(world, byType, rule.constraints[pivot].types)
        invariant pivot == |rule.constraints| ==> minSize == INT_MAX && codes == []
      {
        var size, matching := CountCells(rule.constraints[k].types, minSize);
        if (selector == MapLayer || size != 0) && size < minSize {
          minSize, codes, pivot := size, matching, k;
          if minSize == 0 {
            PivotUnique(world, selector, byType, rule, |rule.constraints|, pivot, Pivot(world, selector, byType, rule));
            return;
          }
        }
        k := k + 1;
      }
      PivotUnique(world, selector, byType, rule, |rule.constraints|, pivot, Pivot(world, selector, byType, rule));
    }

    /** Counts the cells of the matching terrains, giving up once there are not fewer than `limit`. */
    method CountCells(m: int, limit: nat) returns (size: nat, codes: seq<int>)
      requires Valid() && limit > 0
      ensures size >= limit <==> Count(world, byType, m) >= limit
      ensures size < limit ==> size == Count(world, byType, m) && codes == MatchingCodes(world, byType, m)
      ensures size == 0 <==> Count(world, byType, m) == 0
    {
      hide Sound, TileCount;
      size, codes := 0, [];
      var i := 0;
      while i < |byType|
        invariant 0 <= i <= |byType|
        invariant size == Count(world, byType[..i], m) && codes == MatchingCodes(world, byType[..i], m)
        invariant size < limit || size == 0
      {
        var b := byType[i];
        assert byType[..i + 1][..i] == byType[..i];
        if world.fits(b.code, m) {
          size := size + |b.cells|;
          if size >= limit {
            CountGrows(world, byType, i + 1, m);
            return;
          }
          codes := codes + [b.code];
        }
        i := i + 1;
      }
      assert byType[..i] == byType;
    }

    /** Tries the rule on the cells of one terrain. */
    method ScanTerrain(rule: Rule, pivot: nat, cells: seq<Loc>)
      requires Valid() && pivot < |rule.constraints|
      requires forall i :: 0 <= i < |cells| ==> TerrainFits(world, selector, cells[i], rule.constraints[pivot].types)
      modifies tiles
      ensures tiles[..] == Scanned(world, selector, old(tiles[..]), rule, pivot, cells)
    {
      hide TileCount, Matches, Applied, TerrainFits, Sound, Sum, Difference;
      var i := 0;
      assert cells[0..] == cells;
      while i < |cells|
        invariant 0 <= i <= |cells|
        invariant Scanned(world, selector, tiles[..], rule, pivot, cells[i..])
               == Scanned(world, selector, old(tiles[..]), rule, pivot, cells)
      {
        var c := rule.constraints[pivot];
        var l := Difference(cells[i], c.loc);
        assert cells[i..][0] == cells[i] && cells[i..][1..] == cells[i + 1..];
        SumAndDifference(cells[i], c.loc);
        PivotChangesNoVerdict(world, selector, tiles[..], rule, l, pivot);
        var matches := RuleMatches(rule, l, pivot);
        if matches {
          ApplyRule(rule, l);
        }
        i := i + 1;
      }
      assert cells[i..] == [];
    }

    /** One rule of `build_terrains`: only the cells of the pivot's terrains are looked at, yet the tiles
        are those of the simple engine. */
    method BuildRule(rule: Rule)
      requires Valid() && Sound(world, selector, byType)
      modifies tiles
      ensures tiles[..] == RuleBuilt(world, selector, byType, old(tiles[..]), rule)
    {
      hide TileCount, TerrainFits, Scanned, Sound, Pivot, CellsOf, MatchingCodes;
      SoundIsSorted(world, selector, byType);
      var pivot, codes := FindPivot(rule);
      if pivot == |rule.constraints| {
        return;
      }
      var m := rule.constraints[pivot].types;
      assert byType[..|byType|] == byType;
      CellsOfMatching(world, byType, |byType|, m);
      MatchingCellsFit(world, selector, byType, m);
      var i := 0;
      assert codes[..0] == [];
      NoCells(byType);
      ScannedNone(world, selector, tiles[..], rule, pivot);
      while i < |codes|
        invariant 0 <= i <= |codes|
        invariant Sized(world, tiles[..])
        invariant tiles[..] == Scanned(world, selector, old(tiles[..]), rule, pivot, CellsOf(byType, codes[..i]))
      {
        var cells := Lookup(byType, codes[i]);
        ghost var before := CellsOf(byType, codes[..i]);
        NextCells(byType, codes, i);
        assert forall j :: 0 <= j < |cells| ==> cells[j] == CellsOf(byType, codes)[|before| + j];
        ScannedConcat(world, selector, old(tiles[..]), rule, pivot, before, cells);
        ScanTerrain(rule, pivot, cells);
        i := i + 1;
      }
      assert codes[..i] == codes;
    }

    /** `build_terrains` */
    method BuildTerrains()
      requires Valid() && byType == []
      modifies tiles, `byType
      ensures selector == MapLayer ==> tiles[..] == RulesBuilt(world, MapLayer, MapIndex(world), old(tiles[..]), MapRules())
      ensures selector == UnitLayer ==> tiles[..] == RulesBuilt(world, UnitLayer, unitIndex, old(tiles[..]), UnitRules())
      ensures byType == if world.w * world.h > 400 then [] else if selector == MapLayer then MapIndex(world) else unitIndex
      ensures Valid()
    {
      hide TileCount, Sound, RuleBuilt, IndexOf, Columns, Exact;
      if selector == MapLayer {
        IndexCells();
        MapIndexExact(world);
        ExactIsSound(world, MapLayer, MapIndex(world));
      } else {
        byType := unitIndex;
      }
      var first, end := 0, |rules| - unitRules;
      if selector == UnitLayer {
        first, end := |rules| - unitRules, |rules|;
      }
      var r := first;
      assert rules[first..first] == [];
      ghost var index := byType;
      while r < end
        modifies tiles
        invariant first <= r <= end
        invariant Sized(world, tiles[..])
        invariant tiles[..] == RulesBuilt(world, selector, index, old(tiles[..]), rules[first..r])
      {
        assert rules[first..r + 1][..r - first] == rules[first..r];
        BuildRule(rules[r]);
        r := r + 1;
      }
      assert rules[first..end] == if selector == UnitLayer then UnitRules() else MapRules();
      if world.w * world.h > 400 {
        byType := [];
      }
    }

    method IndexCells()
      requires byType == []
      modifies `byType
      ensures byType == MapIndex(world)
    {
      hide PushBack, IndexOf;
      IndexNone(world);
      var x := -2;
      while x <= world.w
        invariant -2 <= x <= world.w + 1
        invariant byType == IndexOf(world.terrain, Columns(world.h, x))
      {
        var y := -2;
        assert Columns(world.h, x) + [] == Columns(world.h, x);
        while y <= world.h
          invariant -2 <= y <= world.h + 1
          invariant byType == IndexOf(world.terrain, Columns(world.h, x) + Column(x, y))
        {
          var l := Loc(x, y);
          IndexStep(world.terrain, Columns(world.h, x), x, y);
          byType := PushBack(byType, world.terrain(l), l);
          y := y + 1;
        }
        x := x + 1;
      }
    }

    /** `tilemap::reset` */
    method Reset(full: bool)
      modifies tiles
      ensures tiles[..] == ClearedAll(old(tiles[..]), full)
      ensures full ==> forall s :: 0 <= s < tiles.Length ==> tiles[s] == Tile({}, [], -1)
    {
      hide Cleared;
      FullyCleared();
      for i := 0 to tiles.Length
        invariant forall j :: 0 <= j < i ==> tiles[j] == Cleared(old(tiles[j]), full)
        invariant forall j :: i <= j < tiles.Length ==> tiles[j] == old(tiles[j])
      {
        tiles[i] := Cleared(tiles[i], full);
      }
    }

    /** `rebuild_terrain`: the layer of units is built anew. */
    method RebuildTerrain()
      requires Valid() && Layered(tiles[..])
      modifies this, tiles
      ensures Valid() && world == old(world) && unitIndex == old(unitIndex) && selector == MapLayer
      ensures tiles[..] == Rebuilt(world, Units(unitIndex, world.unitFits), old(tiles[..]), UnitRules())
      ensures SameMapLayer(old(tiles[..]), tiles[..])
      ensures byType == if world.w * world.h > 400 then [] else unitIndex
    {
      hide TileCount, Sound, RulesBuilt, Cleared, MapImages;
      RebuildKeepsMapLayer(world, Units(unitIndex, world.unitFits), tiles[..], UnitRules());
      Reset(false);
      byType := [];
      selector := UnitLayer;
      BuildTerrains();
      selector := MapLayer;
    }

    /** `rebuild_all`: both layers are dropped and the map layer is built anew. */
    method RebuildAll()
      requires Valid() && selector == MapLayer
      modifies this, tiles
      ensures Valid() && world == old(world) && unitIndex == old(unitIndex) && selector == MapLayer
      ensures tiles[..] == RulesBuilt(world, MapLayer, MapIndex(world), EmptyTiles(tiles.Length), MapRules())
      ensures byType == if world.w * world.h > 400 then [] else MapIndex(world)
      ensures Layered(tiles[..]) && forall s :: 0 <= s < tiles.Length ==> tiles[s].minimumUnitIndex == -1
    {
      hide TileCount, Sound, RulesBuilt, IndexOf, Columns;
      Reset(true);
      assert tiles[..] == EmptyTiles(tiles.Length);
      RulesLayered(world, MapLayer, MapIndex(world), tiles[..], MapRules());
      BuildMarks(world, MapLayer, MapIndex(world), tiles[..], MapRules());
      byType := [];
      BuildTerrains();
    }
  }

  lemma FullyCleared()
    ensures forall t :: Cleared(t, true) == Tile({}, [], -1)
  {
  }

  lemma ScannedNone(world: World, sel: Selector, tiles: seq<Tile>, rule: Rule, pivot: nat)
    requires Sized(world, tiles) && pivot < |rule.constraints|
    ensures Scanned(world, sel, tiles, rule, pivot, []) == tiles
  {
  }

  lemma IndexNone(world: World)
    ensures IndexOf(world.terrain, Columns(world.h, -2)) == []
  {
  }

  lemma IndexStep(terrain: Loc -> int, done: seq<Loc>, x: int, y: int)
    requires y >= -2
    ensures IndexOf(terrain, done + Column(x, y + 1))
         == PushBack(IndexOf(terrain, done + Column(x, y)), terrain(Loc(x, y)), Loc(x, y))
  {
    var before := done + Column(x, y);
    assert done + Column(x, y + 1) == before + [Loc(x, y)];
    assert (before + [Loc(x, y)])[..|before|] == before;
  }

  lemma SoundIsSorted(world: World, sel: Selector, index: seq<Bucket>)
    requires Sound(world, sel, index)
    ensures Sorted(index)
  {
  }

  lemma ExactIsSound(world: World, sel: Selector, index: seq<Bucket>)
    requires Exact(world, sel, index)
    ensures Sound(world, sel, index)
  {
  }

  lemma {:induction false} CellsOfPrefix(index: seq<Bucket>, codes: seq<int>, n: nat)
    requires n <= |codes|
    ensures CellsOf(index, codes[..n]) <= CellsOf(index, codes)
    decreases |codes| - n
  {
    if n < |codes| {
      CellsOfPrefix(index, codes, n + 1);
      assert codes[..n + 1][..n] == codes[..n];
    } else {
      assert codes[..n] == codes;
    }
  }

  lemma NoCells(index: seq<Bucket>)
    ensures CellsOf(index, []) == []
  {
  }

  /** The cells of one more terrain come behind those before it. */
  lemma NextCells(index: seq<Bucket>, codes: seq<int>, i: nat)
    requires i < |codes|
    ensures var before, cells, all := CellsOf(index, codes[..i]), Lookup(index, codes[i]), CellsOf(index, codes);
            && CellsOf(index, codes[..i + 1]) == before + cells
            && |before| + |cells| <= |all| && all[|before|..|before| + |cells|] == cells
  {
    assert codes[..i + 1][..i] == codes[..i];
    CellsOfPrefix(index, codes, i + 1);
  }

  lemma FlagSetStep(flags: seq<string>, j: nat)
    requires j < |flags|
    ensures FlagSet(flags[..j + 1]) == FlagSet(flags[..j]) + {flags[j]}
  {
    assert forall i :: 0 <= i < j ==> flags[..j][i] == flags[i] && flags[..j + 1][i] == flags[i];
    assert flags[..j + 1][j] == flags[j];
    forall f
      ensures f in FlagSet(flags[..j + 1]) <==> f in FlagSet(flags[..j]) + {flags[j]}
    {
      if f in FlagSet(flags[..j]) {
        var i :| 0 <= i < j && flags[..j][i] == f;
        assert flags[..j + 1][i] == f;
      }
    }
  }
}
