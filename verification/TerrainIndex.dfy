/** The cells of the map grouped by terrain, and the choice of the constraint a rule is scanned by. */
module TerrainIndex {
  import opened HexGeometry
  import opened TerrainRules

  /** An entry of the ordered map from terrains to cells. */
  datatype Bucket = Bucket(code: int, cells: seq<Loc>)

  ghost predicate Sorted(index: seq<Bucket>) {
    forall i, j :: 0 <= i < j < |index| ==> index[i].code < index[j].code
  }

  /** `index[t].push_back(l)` on the ordered map. */
  function PushBack(index: seq<Bucket>, t: int, l: Loc): seq<Bucket> {
    if index == [] then [Bucket(t, [l])]
    else if index[0].code == t then [Bucket(t, index[0].cells + [l])] + index[1..]
    else if t < index[0].code then [Bucket(t, [l])] + index
    else [index[0]] + PushBack(index[1..], t, l)
  }

  function AllCells(index: seq<Bucket>): seq<Loc> {
    if index == [] then [] else AllCells(index[..|index| - 1]) + index[|index| - 1].cells
  }

  lemma {:induction false} AllCellsFirst(index: seq<Bucket>)
    requires index != []
    ensures AllCells(index) == index[0].cells + AllCells(index[1..])
  {
    var n := |index| - 1;
    if n > 0 {
      AllCellsFirst(index[..n]);
      assert index[..n][1..] == index[1..][..n - 1];
    } else {
      assert index[1..] == [] && index[..0] == [];
    }
  }

  /** Every cell is under its own terrain. */
  ghost predicate Filed(terrain: Loc -> int, index: seq<Bucket>) {
    forall i, c :: 0 <= i < |index| && c in index[i].cells ==> terrain(c) == index[i].code
  }

  lemma {:induction false} PushBackSorted(index: seq<Bucket>, t: int, l: Loc)
    requires Sorted(index)
    ensures Sorted(PushBack(index, t, l))
    ensures PushBack(index, t, l) != []
    ensures PushBack(index, t, l)[0].code == t || (index != [] && PushBack(index, t, l)[0].code == index[0].code)
  {
    if index != [] && t > index[0].code {
      PushBackSorted(index[1..], t, l);
    }
  }

  lemma {:induction false} PushBackFiled(terrain: Loc -> int, index: seq<Bucket>, l: Loc, i: nat, c: Loc)
    requires Filed(terrain, index)
    requires i < |PushBack(index, terrain(l), l)| && c in PushBack(index, terrain(l), l)[i].cells
    ensures terrain(c) == PushBack(index, terrain(l), l)[i].code
    decreases |index|
  {
    if index != [] && terrain(l) > index[0].code && i > 0 {
      assert Filed(terrain, index[1..]) by {
        forall i, c | 0 <= i < |index[1..]| && c in index[1..][i].cells
          ensures terrain(c) == index[1..][i].code
        {
          assert c in index[i + 1].cells;
        }
      }
      PushBackFiled(terrain, index[1..], l, i - 1, c);
    }
  }

  lemma {:induction false} PushBackCells(index: seq<Bucket>, t: int, l: Loc)
    ensures multiset(AllCells(PushBack(index, t, l))) == multiset(AllCells(index)) + multiset{l}
  {
    var r := PushBack(index, t, l);
    if index == [] {
      assert r[..0] == [];
    } else {
      AllCellsFirst(index);
      AllCellsFirst(r);
      hide AllCells;
      if index[0].code == t {
        assert r[1..] == index[1..];
      } else if t < index[0].code {
        assert r[1..] == index;
      } else {
        assert r[1..] == PushBack(index[1..], t, l);
        PushBackCells(index[1..], t, l);
      }
    }
  }

  /** The index of cells visited in this order. */
  function IndexOf(terrain: Loc -> int, cells: seq<Loc>): seq<Bucket> {
    if cells == [] then []
    else
      var n := |cells| - 1;
      PushBack(IndexOf(terrain, cells[..n]), terrain(cells[n]), cells[n])
  }

  lemma FiledStep(terrain: Loc -> int, index: seq<Bucket>, l: Loc)
    requires Filed(terrain, index)
    ensures Filed(terrain, PushBack(index, terrain(l), l))
  {
    hide PushBack;
    forall i, c | 0 <= i < |PushBack(index, terrain(l), l)| && c in PushBack(index, terrain(l), l)[i].cells
      ensures terrain(c) == PushBack(index, terrain(l), l)[i].code
    {
      PushBackFiled(terrain, index, l, i, c);
    }
  }

  lemma LastCell(cells: seq<Loc>)
    requires cells != []
    ensures multiset(cells) == multiset(cells[..|cells| - 1]) + multiset{cells[|cells| - 1]}
  {
    assert cells == cells[..|cells| - 1] + [cells[|cells| - 1]];
  }

  /** Indexing loses no cell and repeats none. */
  lemma {:induction false} IndexHoldsAll(terrain: Loc -> int, cells: seq<Loc>)
    ensures var index := IndexOf(terrain, cells);
            Sorted(index) && Filed(terrain, index) && multiset(AllCells(index)) == multiset(cells)
  {
    hide PushBack, Sorted, Filed;
    if cells == [] {
      NothingIndexed(terrain);
    } else {
      hide AllCells;
      var n := |cells| - 1;
      var index := IndexOf(terrain, cells[..n]);
      IndexHoldsAll(terrain, cells[..n]);
      PushBackSorted(index, terrain(cells[n]), cells[n]);
      FiledStep(terrain, index, cells[n]);
      PushBackCells(index, terrain(cells[n]), cells[n]);
      LastCell(cells);
    }
  }

  lemma NothingIndexed(terrain: Loc -> int)
    ensures Sorted([]) && Filed(terrain, []) && AllCells([]) == []
  {
  }

  /** The rectangle that is scanned, column by column. */
  function Column(x: int, top: int): seq<Loc>
    requires top >= -2
    decreases top + 2
  {
    if top == -2 then [] else Column(x, top - 1) + [Loc(x, top - 1)]
  }

  function Columns(h: nat, right: int): seq<Loc>
    requires right >= -2
    decreases right + 2
  {
    if right == -2 then [] else Columns(h, right - 1) + Column(right - 1, h + 1)
  }

  lemma {:induction false} ColumnHolds(x: int, top: int, l: Loc)
    requires top >= -2
    ensures multiset(Column(x, top))[l] == if l.x == x && -2 <= l.y < top then 1 else 0
    decreases top + 2
  {
    if top > -2 {
      ColumnHolds(x, top - 1, l);
    }
  }

  /** Every cell of the rectangle is visited exactly once. */
  lemma {:induction false} ColumnsHold(h: nat, right: int, l: Loc)
    requires right >= -2
    ensures multiset(Columns(h, right))[l] == if -2 <= l.x < right && -2 <= l.y <= h then 1 else 0
    decreases right + 2
  {
    if right > -2 {
      ColumnsHold(h, right - 1, l);
      ColumnHolds(right - 1, h + 1, l);
    }
  }

  function MapIndex(world: World): seq<Bucket> {
    IndexOf(world.terrain, Columns(world.h, world.w + 1))
  }

  // ---------------------------------------------------------------- cells by terrain

  function MatchingCodes(world: World, index: seq<Bucket>, m: int): seq<int> {
    if index == [] then []
    else
      var b := index[|index| - 1];
      MatchingCodes(world, index[..|index| - 1], m) + (if world.fits(b.code, m) then [b.code] else [])
  }

  function MatchingCells(world: World, index: seq<Bucket>, m: int): seq<Loc> {
    if index == [] then []
    else
      var b := index[|index| - 1];
      MatchingCells(world, index[..|index| - 1], m) + (if world.fits(b.code, m) then b.cells else [])
  }

  function Lookup(index: seq<Bucket>, code: int): seq<Loc> {
    if index == [] then []
    else if index[0].code == code then index[0].cells
    else Lookup(index[1..], code)
  }

  function CellsOf(index: seq<Bucket>, codes: seq<int>): seq<Loc> {
    if codes == [] then [] else CellsOf(index, codes[..|codes| - 1]) + Lookup(index, codes[|codes| - 1])
  }

  lemma {:induction false} LookupAt(index: seq<Bucket>, i: nat)
    requires Sorted(index) && i < |index|
    ensures Lookup(index, index[i].code) == index[i].cells
  {
    if i > 0 {
      LookupAt(index[1..], i - 1);
    }
  }

  /** Going through the matching terrains visits the matching cells. */
  lemma {:induction false} CellsOfMatching(world: World, index: seq<Bucket>, n: nat, m: int)
    requires Sorted(index) && n <= |index|
    ensures CellsOf(index, MatchingCodes(world, index[..n], m)) == MatchingCells(world, index[..n], m)
  {
    if n > 0 {
      CellsOfMatching(world, index, n - 1, m);
      assert index[..n][..n - 1] == index[..n - 1];
      var codes := MatchingCodes(world, index[..n - 1], m);
      if world.fits(index[n - 1].code, m) {
        LookupAt(index, n - 1);
        assert (codes + [index[n - 1].code])[..|codes|] == codes;
      } else {
        assert codes + [] == codes;
      }
    }
  }

  /** The index tells the truth: a terrain that fits means that its cells fit. */
  ghost predicate Sound(world: World, sel: Selector, index: seq<Bucket>) {
    && Sorted(index)
    && forall i, c, m :: 0 <= i < |index| && c in index[i].cells && world.fits(index[i].code, m) ==>
         TerrainFits(world, sel, c, m)
  }

  /** And a terrain that does not fit means that its cells do not. */
  ghost predicate Exact(world: World, sel: Selector, index: seq<Bucket>) {
    && Sound(world, sel, index)
    && forall i, c, m :: 0 <= i < |index| && c in index[i].cells && TerrainFits(world, sel, c, m) ==>
         world.fits(index[i].code, m)
  }

  lemma MapIndexExact(world: World)
    ensures Exact(world, MapLayer, MapIndex(world))
  {
    hide IndexOf, Columns;
    IndexHoldsAll(world.terrain, Columns(world.h, world.w + 1));
  }

  lemma {:induction false} MatchingCellsFit(world: World, sel: Selector, index: seq<Bucket>, m: int)
    requires Sound(world, sel, index)
    ensures forall k :: 0 <= k < |MatchingCells(world, index, m)| ==>
              TerrainFits(world, sel, MatchingCells(world, index, m)[k], m)
  {
    hide TerrainFits;
    if index != [] {
      var n := |index| - 1;
      assert Sound(world, sel, index[..n]) by {
        forall i, c, m | 0 <= i < n && c in index[..n][i].cells && world.fits(index[..n][i].code, m)
          ensures TerrainFits(world, sel, c, m)
        {
          assert c in index[i].cells;
        }
      }
      MatchingCellsFit(world, sel, index[..n], m);
      forall c | c in index[n].cells && world.fits(index[n].code, m)
        ensures TerrainFits(world, sel, c, m)
      {
      }
    }
  }

  /** Scanning the matching cells leaves the same tiles as trying every indexed cell. */
  lemma {:induction false} MatchingCellsSuffice(world: World, sel: Selector, index: seq<Bucket>, tiles: seq<Tile>,
                                                rule: Rule, pivot: nat)
    requires Exact(world, sel, index) && Sized(world, tiles) && pivot < |rule.constraints|
    ensures Scanned(world, sel, tiles, rule, pivot, MatchingCells(world, index, rule.constraints[pivot].types))
         == Scanned(world, sel, tiles, rule, pivot, AllCells(index))
    decreases |index|
  {
    hide TerrainFits, Scanned;
    if index != [] {
      var n, m := |index| - 1, rule.constraints[pivot].types;
      assert Exact(world, sel, index[..n]) by {
        ExactPrefix(world, sel, index, n);
      }
      MatchingCellsSuffice(world, sel, index[..n], tiles, rule, pivot);
      var front := MatchingCells(world, index[..n], m);
      ScannedConcat(world, sel, tiles, rule, pivot, AllCells(index[..n]), index[n].cells);
      if world.fits(index[n].code, m) {
        ScannedConcat(world, sel, tiles, rule, pivot, front, index[n].cells);
      } else {
        assert front + [] == front;
        forall i | 0 <= i < |index[n].cells|
          ensures !TerrainFits(world, sel, index[n].cells[i], m)
        {
          assert index[n].cells[i] in index[n].cells;
        }
        ScannedNothing(world, sel, Scanned(world, sel, tiles, rule, pivot, AllCells(index[..n])), rule, pivot, index[n].cells);
      }
    }
  }

  lemma ExactPrefix(world: World, sel: Selector, index: seq<Bucket>, n: nat)
    requires Exact(world, sel, index) && n <= |index|
    ensures Exact(world, sel, index[..n])
  {
    hide TerrainFits;
    forall i, c, m | 0 <= i < n && c in index[..n][i].cells
      ensures world.fits(index[..n][i].code, m) <==> TerrainFits(world, sel, c, m)
    {
      assert c in index[i].cells;
    }
  }

  lemma {:induction false} MatchingCellsTimes(world: World, index: seq<Bucket>, m: int, c: Loc)
    requires Filed(world.terrain, index)
    ensures multiset(MatchingCells(world, index, m))[c]
         == if world.fits(world.terrain(c), m) then multiset(AllCells(index))[c] else 0
    decreases |index|
  {
    if index != [] {
      var n := |index| - 1;
      assert Filed(world.terrain, index[..n]) by {
        forall i, c | 0 <= i < n && c in index[..n][i].cells
          ensures world.terrain(c) == index[..n][i].code
        {
          assert c in index[i].cells;
        }
      }
      MatchingCellsTimes(world, index[..n], m, c);
      if c in index[n].cells {
        assert world.terrain(c) == index[n].code;
      }
    }
  }

  /** The scan of a rule on the map layer tries every location where the rule fully matches with its pivot
      cell in the scanned rectangle, and tries it once. */
  lemma ScanTriesOnce(world: World, tiles: seq<Tile>, rule: Rule, pivot: nat, l: Loc)
    requires Sized(world, tiles) && pivot < |rule.constraints|
    requires FullyMatches(world, MapLayer, tiles, rule, l)
    ensures var c := rule.constraints[pivot];
            var cell := Sum(l, c.loc);
            Difference(cell, c.loc) == l &&
            multiset(MatchingCells(world, MapIndex(world), c.types))[cell]
              == if -2 <= cell.x <= world.w && -2 <= cell.y <= world.h then 1 else 0
  {
    hide Sum, Difference, IndexOf, Columns, FlagsFit, OnMap;
    var c := rule.constraints[pivot];
    var cell := Sum(l, c.loc);
    SumAndDifference(l, c.loc);
    assert ConstraintFits(world, MapLayer, tiles, c, l, false);
    IndexHoldsAll(world.terrain, Columns(world.h, world.w + 1));
    MatchingCellsTimes(world, MapIndex(world), c.types, cell);
    ColumnsHold(world.h, world.w + 1, cell);
  }

  // ---------------------------------------------------------------- the pivot

  /** How many cells have a terrain of the constraint. */
  function Count(world: World, index: seq<Bucket>, m: int): nat {
    if index == [] then 0
    else
      var b := index[|index| - 1];
      Count(world, index[..|index| - 1], m) + (if world.fits(b.code, m) then |b.cells| else 0)
  }

  lemma {:induction false} CountGrows(world: World, index: seq<Bucket>, n: nat, m: int)
    requires n <= |index|
    ensures Count(world, index[..n], m) <= Count(world, index, m)
    decreases |index| - n
  {
    if n < |index| {
      CountGrows(world, index, n + 1, m);
      assert index[..n + 1][..n] == index[..n];
    } else {
      assert index[..n] == index;
    }
  }

  /** On the unit layer a constraint without any cell is passed over. */
  predicate Eligible(sel: Selector, size: nat) {
    (sel.MapLayer? || size != 0) && size < INT_MAX
  }

  function SizeOf(world: World, index: seq<Bucket>, rule: Rule, k: nat): nat
    requires k < |rule.constraints|
  {
    Count(world, index, rule.constraints[k].types)
  }

  /** The constraint with the fewest cells among the first `n`, the first one in case of a tie; the number
      of all constraints when there is none. */
  ghost predicate IsPivot(world: World, sel: Selector, index: seq<Bucket>, rule: Rule, n: nat, p: nat)
    requires n <= |rule.constraints|
  {
    if p == |rule.constraints| then
      forall k :: 0 <= k < n ==> !Eligible(sel, SizeOf(world, index, rule, k))
    else
      && p < n && Eligible(sel, SizeOf(world, index, rule, p))
      && forall k :: 0 <= k < n && Eligible(sel, SizeOf(world, index, rule, k)) ==>
           && SizeOf(world, index, rule, p) <= SizeOf(world, index, rule, k)
           && (k < p ==> SizeOf(world, index, rule, p) < SizeOf(world, index, rule, k))
  }

  lemma PivotUnique(world: World, sel: Selector, index: seq<Bucket>, rule: Rule, n: nat, p: nat, q: nat)
    requires n <= |rule.constraints|
    requires IsPivot(world, sel, index, rule, n, p) && IsPivot(world, sel, index, rule, n, q)
    ensures p == q
  {
  }

  function PivotFrom(world: World, sel: Selector, index: seq<Bucket>, rule: Rule, n: nat): (p: nat)
    requires n <= |rule.constraints|
    ensures IsPivot(world, sel, index, rule, n, p)
  {
    if n == 0 then |rule.constraints|
    else
      var p := PivotFrom(world, sel, index, rule, n - 1);
      var size := SizeOf(world, index, rule, n - 1);
      if Eligible(sel, size) && (p == |rule.constraints| || size < SizeOf(world, index, rule, p)) then n - 1 else p
  }

  function Pivot(world: World, sel: Selector, index: seq<Bucket>, rule: Rule): (p: nat)
    ensures IsPivot(world, sel, index, rule, |rule.constraints|, p)
  {
    PivotFrom(world, sel, index, rule, |rule.constraints|)
  }

  // ---------------------------------------------------------------- all rules

  function RuleBuilt(world: World, sel: Selector, index: seq<Bucket>, tiles: seq<Tile>, rule: Rule): (r: seq<Tile>)
    requires Sized(world, tiles)
    ensures Sized(world, r)
  {
    var p := Pivot(world, sel, index, rule);
    if p == |rule.constraints| then tiles
    else Scanned(world, sel, tiles, rule, p, MatchingCells(world, index, rule.constraints[p].types))
  }

  /** The rules in order, each scanned by the simple engine. */
  function RulesBuilt(world: World, sel: Selector, index: seq<Bucket>, tiles: seq<Tile>,
                      rules: seq<Rule>): (r: seq<Tile>)
    requires Sized(world, tiles)
    ensures Sized(world, r)
    decreases |rules|
  {
    if rules == [] then tiles
    else
      var n := |rules| - 1;
      RuleBuilt(world, sel, index, RulesBuilt(world, sel, index, tiles, rules[..n]), rules[n])
  }

  lemma {:induction false} RulesMapLayer(world: World, index: seq<Bucket>, tiles: seq<Tile>, rules: seq<Rule>)
    requires Sized(world, tiles) && Layered(tiles)
    ensures SameMapLayer(tiles, RulesBuilt(world, UnitLayer, index, tiles, rules))
    decreases |rules|
  {
    hide Scanned, MatchingCells, MapImages;
    if rules != [] {
      var n := |rules| - 1;
      RulesMapLayer(world, index, tiles, rules[..n]);
      var mid := RulesBuilt(world, UnitLayer, index, tiles, rules[..n]);
      var p := Pivot(world, UnitLayer, index, rules[n]);
      if p != |rules[n].constraints| {
        ScannedMapLayer(world, mid, rules[n], p, MatchingCells(world, index, rules[n].constraints[p].types));
      }
    }
  }

  lemma {:induction false} RulesLayered(world: World, sel: Selector, index: seq<Bucket>, tiles: seq<Tile>,
                                        rules: seq<Rule>)
    requires Sized(world, tiles) && Layered(tiles)
    ensures Layered(RulesBuilt(world, sel, index, tiles, rules))
    decreases |rules|
  {
    hide Scanned, MatchingCells, LayeredTile;
    if rules != [] {
      var n := |rules| - 1;
      RulesLayered(world, sel, index, tiles, rules[..n]);
      var mid := RulesBuilt(world, sel, index, tiles, rules[..n]);
      var p := Pivot(world, sel, index, rules[n]);
      if p != |rules[n].constraints| {
        ScannedLayered(world, sel, mid, rules[n], p, MatchingCells(world, index, rules[n].constraints[p].types));
      }
    }
  }

  // ---------------------------------------------------------------- rebuilding the unit layer

  /** What the units report: the cells they stand on by terrain, and which terrains fit a cell. */
  datatype Units = Units(index: seq<Bucket>, fits: (Loc, int) -> bool)

  /** One `rebuild_terrain` with these units. */
  function Rebuilt(world: World, units: Units, tiles: seq<Tile>, rules: seq<Rule>): (r: seq<Tile>)
    requires Sized(world, tiles)
    ensures Sized(world, r)
  {
    var w := world.(unitFits := units.fits);
    RulesBuilt(w, UnitLayer, units.index, ClearedAll(tiles, false), rules)
  }

  lemma ClearedKeepsMapLayer(tiles: seq<Tile>)
    requires Layered(tiles)
    ensures SameMapLayer(tiles, ClearedAll(tiles, false))
  {
    hide Cleared, MapImages;
    forall s | 0 <= s < |tiles|
      ensures LayeredTile(ClearedAll(tiles, false)[s]) && MapImages(ClearedAll(tiles, false)[s]) == MapImages(tiles[s])
    {
      ClearedIsMapLayer(tiles[s]);
    }
  }

  /** A rebuild leaves the images of the map layer alone, on every tile. */
  lemma RebuildKeepsMapLayer(world: World, units: Units, tiles: seq<Tile>, rules: seq<Rule>)
    requires Sized(world, tiles) && Layered(tiles)
    ensures SameMapLayer(tiles, Rebuilt(world, units, tiles, rules))
  {
    hide MapImages, RulesBuilt, Cleared;
    ClearedKeepsMapLayer(tiles);
    RulesMapLayer(world.(unitFits := units.fits), units.index, ClearedAll(tiles, false), rules);
  }

  /** Tiles with the same map layer clear to the same tiles. */
  lemma SameLayerSameClear(a: seq<Tile>, b: seq<Tile>)
    requires SameMapLayer(a, b)
    ensures ClearedAll(a, false) == ClearedAll(b, false)
  {
    hide Cleared, MapImages;
    forall s | 0 <= s < |a|
      ensures ClearedAll(a, false)[s] == ClearedAll(b, false)[s]
    {
      ClearedIsMapLayer(a[s]);
      ClearedIsMapLayer(b[s]);
    }
  }

  /** Any number of rebuilds, each with its own units. */
  function RebuiltRun(world: World, run: seq<Units>, tiles: seq<Tile>, rules: seq<Rule>): (r: seq<Tile>)
    requires Sized(world, tiles)
    ensures Sized(world, r)
    decreases |run|
  {
    if run == [] then tiles
    else
      var n := |run| - 1;
      Rebuilt(world, run[n], RebuiltRun(world, run[..n], tiles, rules), rules)
  }

  lemma {:induction false} RunKeepsMapLayer(world: World, run: seq<Units>, tiles: seq<Tile>, rules: seq<Rule>)
    requires Sized(world, tiles) && Layered(tiles)
    ensures SameMapLayer(tiles, RebuiltRun(world, run, tiles, rules))
    decreases |run|
  {
    hide MapImages, Rebuilt;
    if run != [] {
      var n := |run| - 1;
      RunKeepsMapLayer(world, run[..n], tiles, rules);
      RebuildKeepsMapLayer(world, run[n], RebuiltRun(world, run[..n], tiles, rules), rules);
    }
  }

  /** However many rebuilds went before, the tiles are those of one rebuild with the last units. */
  lemma RunIsLastRebuild(world: World, run: seq<Units>, tiles: seq<Tile>, rules: seq<Rule>)
    requires Sized(world, tiles) && Layered(tiles) && run != []
    ensures RebuiltRun(world, run, tiles, rules) == Rebuilt(world, run[|run| - 1], tiles, rules)
  {
    hide MapImages, RulesBuilt, Cleared, SameMapLayer;
    var n := |run| - 1;
    RunKeepsMapLayer(world, run[..n], tiles, rules);
    SameLayerSameClear(tiles, RebuiltRun(world, run[..n], tiles, rules));
  }
}
