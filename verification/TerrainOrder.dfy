/** In which order a build tries its rules and cells: rules as listed, the cells of a rule by terrain and,
    within one terrain, column by column from the top. */
module TerrainOrder {
  import opened HexGeometry
  import opened TerrainRules
  import opened TerrainIndex

  ghost predicate InOrder(cells: seq<Loc>) {
    forall i: nat, j: nat :: i < j < |cells| ==>
      cells[i].x < cells[j].x || (cells[i].x == cells[j].x && cells[i].y < cells[j].y)
  }

  /** A cell behind all of these. */
  ghost predicate Behind(cells: seq<Loc>, l: Loc) {
    forall i :: 0 <= i < |cells| ==> cells[i].x < l.x || (cells[i].x == l.x && cells[i].y < l.y)
  }

  lemma {:induction false} ColumnInOrder(x: int, top: int)
    requires top >= -2
    ensures InOrder(Column(x, top))
    ensures forall i :: 0 <= i < |Column(x, top)| ==> Column(x, top)[i].x == x && Column(x, top)[i].y < top
    decreases top + 2
  {
    if top > -2 {
      ColumnInOrder(x, top - 1);
    }
  }

  lemma {:induction false} ColumnsInOrder(h: nat, right: int)
    requires right >= -2
    ensures InOrder(Columns(h, right))
    ensures forall i :: 0 <= i < |Columns(h, right)| ==> Columns(h, right)[i].x < right
    decreases right + 2
  {
    hide Column;
    if right > -2 {
      ColumnsInOrder(h, right - 1);
      ColumnInOrder(right - 1, h + 1);
    }
  }

  ghost predicate AllInOrder(index: seq<Bucket>) { forall i :: 0 <= i < |index| ==> InOrder(index[i].cells) }

  ghost predicate AllBehind(index: seq<Bucket>, l: Loc) { forall i :: 0 <= i < |index| ==> Behind(index[i].cells, l) }

  lemma {:induction false} PushBackInOrder(index: seq<Bucket>, t: int, l: Loc)
    requires AllInOrder(index) && AllBehind(index, l)
    ensures AllInOrder(PushBack(index, t, l))
  {
    if index != [] && index[0].code != t && index[0].code <= t {
      assert AllInOrder(index[1..]) && AllBehind(index[1..], l);
      PushBackInOrder(index[1..], t, l);
    } else if index != [] && index[0].code == t {
      assert InOrder(index[0].cells + [l]);
    }
  }

  /** Cells put into the index behind all others stay behind. */
  lemma {:induction false} PushBackBehind(index: seq<Bucket>, t: int, l: Loc, b: Loc)
    requires AllBehind(index, b) && Behind([l], b)
    ensures AllBehind(PushBack(index, t, l), b)
  {
    if index != [] && index[0].code != t && index[0].code <= t {
      assert AllBehind(index[1..], b);
      PushBackBehind(index[1..], t, l, b);
    } else {
      assert [l][0] == l;
    }
  }

  lemma {:induction false} IndexBehind(terrain: Loc -> int, cells: seq<Loc>, b: Loc)
    requires Behind(cells, b)
    ensures AllBehind(IndexOf(terrain, cells), b)
  {
    hide PushBack, AllBehind;
    if cells == [] {
      NoneBehind(b);
    } else {
      var n := |cells| - 1;
      IndexBehind(terrain, cells[..n], b);
      PushBackBehind(IndexOf(terrain, cells[..n]), terrain(cells[n]), cells[n], b);
    }
  }

  lemma NoneBehind(b: Loc)
    ensures AllBehind([], b) && AllInOrder([])
  {
  }

  lemma {:induction false} IndexInOrder(terrain: Loc -> int, cells: seq<Loc>)
    requires InOrder(cells)
    ensures AllInOrder(IndexOf(terrain, cells))
  {
    hide PushBack, AllBehind, AllInOrder;
    if cells == [] {
      NoneBehind(Loc(0, 0));
    } else {
      var n := |cells| - 1;
      IndexInOrder(terrain, cells[..n]);
      IndexBehind(terrain, cells[..n], cells[n]);
      PushBackInOrder(IndexOf(terrain, cells[..n]), terrain(cells[n]), cells[n]);
    }
  }

  /** The index of the map lists the cells of each terrain column by column. */
  lemma MapIndexInOrder(world: World, i: nat, j: nat, k: nat)
    requires i < |MapIndex(world)| && j < k < |MapIndex(world)[i].cells|
    ensures var a, b := MapIndex(world)[i].cells[j], MapIndex(world)[i].cells[k];
            a.x < b.x || (a.x == b.x && a.y < b.y)
  {
    hide IndexOf, Columns;
    ColumnsInOrder(world.h, world.w + 1);
    IndexInOrder(world.terrain, Columns(world.h, world.w + 1));
  }

  /** The cells a rule is tried on: those of the first terrain that fits, then those of the next. */
  lemma {:induction false} MatchingCellsFirst(world: World, index: seq<Bucket>, m: int)
    requires index != []
    ensures MatchingCells(world, index, m) ==
            (if world.fits(index[0].code, m) then index[0].cells else []) + MatchingCells(world, index[1..], m)
    decreases |index|
  {
    var n := |index| - 1;
    if n > 0 {
      MatchingCellsFirst(world, index[..n], m);
      assert index[..n][1..] == index[1..][..n - 1];
    } else {
      assert index[..n] == [] && index[1..] == [];
    }
  }

  /** The first rule of the list is built first, and the others on top of what it left. */
  lemma {:induction false} RulesInOrder(world: World, sel: Selector, index: seq<Bucket>, tiles: seq<Tile>, rules: seq<Rule>)
    requires Sized(world, tiles) && rules != []
    ensures RulesBuilt(world, sel, index, tiles, rules)
         == RulesBuilt(world, sel, index, RuleBuilt(world, sel, index, tiles, rules[0]), rules[1..])
    decreases |rules|
  {
    hide RuleBuilt, Sized;
    var n := |rules| - 1;
    if n > 0 {
      RulesInOrder(world, sel, index, tiles, rules[..n]);
      assert rules[..n][1..] == rules[1..][..n - 1];
    } else {
      assert rules[..n] == [] && rules[1..] == [];
    }
  }

  /** A scan of one cell applies the rule where its pivot constraint lies on the cell, if the rule matches there. */
  lemma ScannedOne(world: World, sel: Selector, tiles: seq<Tile>, rule: Rule, pivot: nat, cell: Loc, l: Loc)
    requires Sized(world, tiles) && pivot < |rule.constraints| && Sum(l, rule.constraints[pivot].loc) == cell
    ensures Scanned(world, sel, tiles, rule, pivot, [cell]) ==
            if FullyMatches(world, sel, tiles, rule, l) then Applied(world, sel, tiles, rule, l, 0) else tiles
  {
    SumAndDifference(l, rule.constraints[pivot].loc);
    hide FullyMatches, Applied, Sum, Difference;
    assert [cell][1..] == [];
  }

  /** On the map layer a rule is tried as if on every cell of the map; a rule none of whose constraints can be
      scanned by is left out. */
  lemma RuleBuiltMeans(world: World, tiles: seq<Tile>, rule: Rule)
    requires Sized(world, tiles)
    ensures var p := Pivot(world, MapLayer, MapIndex(world), rule);
            RuleBuilt(world, MapLayer, MapIndex(world), tiles, rule) ==
            if p < |rule.constraints| then Scanned(world, MapLayer, tiles, rule, p, AllCells(MapIndex(world))) else tiles
  {
    hide Scanned, MapIndex, Exact;
    MapIndexExact(world);
    var p := Pivot(world, MapLayer, MapIndex(world), rule);
    if p < |rule.constraints| {
      MatchingCellsSuffice(world, MapLayer, MapIndex(world), tiles, rule, p);
    }
  }
}
