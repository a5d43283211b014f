/** The index of the units on a map: a dense array of units that know their own position in it, and a
    grid with two layers of units. */
module UnitMap {
  import opened HexGeometry

  const NO_INDEX := -1
  const NULL_LOCATION := Loc(-1000, -1000)

  datatype Rect = Rect(x: int, y: int, w: int, h: int)

  predicate ValidLoc(l: Loc) { l.x >= 0 && l.y >= 0 }

  /** `sort_compare`: rows first, then columns. */
  predicate Before(a: Loc, b: Loc) {
    a.y < b.y || (a.y == b.y && a.x < b.x)
  }

  class Unit {
    var loc: Loc
    var mapIndex: int
    var rect: Rect
    var touch: set<Loc>
    const base: bool
    const requireSort: bool

    ghost predicate Ok()
      reads this
    {
      touch == if loc == NULL_LOCATION then {} else {loc}
    }

    constructor (base: bool, requireSort: bool)
      ensures Ok() && loc == Loc(-1000, -1000) && mapIndex == -1 && this.base == base && this.requireSort == requireSort
    {
      loc, mapIndex, touch := NULL_LOCATION, NO_INDEX, {};
      this.base, this.requireSort := base, requireSort;
    }

    /** `set_location` does nothing when the unit is there already. */
    method SetLocation(l: Loc)
      requires Ok() && ValidLoc(l)
      modifies `loc, `touch
      ensures Ok() && loc == l
    {
      if loc == l {
        return;
      }
      loc := l;
      touch := {};
      touch := touch + {loc};
    }
  }

  datatype Cookie = Cookie(base: Unit?, overlay: Unit?)

  // ---------------------------------------------------------------- the grid

  predicate OnGrid(w: nat, h: nat, l: Loc) { 0 <= l.x < w && 0 <= l.y < h }

  function Index(w: nat, l: Loc): int { w * l.y + l.x }

  lemma IndexInRange(w: nat, h: nat, l: Loc)
    requires OnGrid(w, h, l)
    ensures 0 <= Index(w, l) < w * h
  {
    assert w * l.y <= w * (h - 1) == w * h - w;
  }

  lemma LowerRow(w: nat, a: Loc, b: Loc)
    requires 0 <= a.x < w && 0 <= b.x < w && a.y < b.y
    ensures Index(w, a) < Index(w, b)
  {
    var d := b.y - a.y - 1;
    assert w * b.y == w * (a.y + 1 + d) == w * a.y + w + w * d;
    assert w * d >= 0;
  }

  lemma IndexInjective(w: nat, h: nat, a: Loc, b: Loc)
    requires OnGrid(w, h, a) && OnGrid(w, h, b)
    ensures Index(w, a) == Index(w, b) <==> a == b
  {
    if a.y < b.y {
      LowerRow(w, a, b);
    } else if b.y < a.y {
      LowerRow(w, b, a);
    }
  }

  /** The unit of one layer of a cell. */
  ghost function Cell(w: nat, h: nat, cells: seq<Cookie>, l: Loc, base: bool): Unit?
    requires |cells| == w * h && OnGrid(w, h, l)
  {
    IndexInRange(w, h, l);
    var c := cells[Index(w, l)];
    if base then c.base else c.overlay
  }

  function Put(c: Cookie, base: bool, u: Unit?): Cookie {
    if base then c.(base := u) else c.(overlay := u)
  }

  lemma PutCell(w: nat, h: nat, cells: seq<Cookie>, at: Loc, base: bool, u: Unit?)
    requires |cells| == w * h && OnGrid(w, h, at)
    ensures 0 <= Index(w, at) < |cells|
    ensures var now := cells[Index(w, at) := Put(cells[Index(w, at)], base, u)];
            forall l: Loc, b: bool :: OnGrid(w, h, l) ==>
              Cell(w, h, now, l, b) == if l == at && b == base then u else Cell(w, h, cells, l, b)
  {
    IndexInRange(w, h, at);
    var now := cells[Index(w, at) := Put(cells[Index(w, at)], base, u)];
    forall l: Loc, b: bool | OnGrid(w, h, l)
      ensures Cell(w, h, now, l, b) == if l == at && b == base then u else Cell(w, h, cells, l, b)
    {
      IndexInRange(w, h, l);
      IndexInjective(w, h, l, at);
    }
  }

  // ---------------------------------------------------------------- sorting by location

  function FirstBehind(keys: seq<Loc>, l: Loc): (p: nat)
    ensures p <= |keys|
    ensures forall i :: 0 <= i < p ==> !Before(l, keys[i])
    ensures p < |keys| ==> Before(l, keys[p])
  {
    if keys == [] || Before(l, keys[0]) then 0 else 1 + FirstBehind(keys[1..], l)
  }

  ghost predicate Sorted(keys: seq<Loc>) {
    forall i, j :: 0 <= i < j < |keys| ==> !Before(keys[j], keys[i])
  }

  /** Putting a key before the first one behind it keeps sorted keys sorted. */
  lemma InsertSorted(keys: seq<Loc>, l: Loc)
    requires Sorted(keys)
    ensures var p := FirstBehind(keys, l); Sorted(keys[..p] + [l] + keys[p..])
  {
    var p := FirstBehind(keys, l);
    var r := keys[..p] + [l] + keys[p..];
    forall i, j | 0 <= i < j < |r|
      ensures !Before(r[j], r[i])
    {
      if i == p {
        assert r[j] == keys[j - 1];
        assert !Before(keys[j - 1], keys[p]);
      } else if i < p {
        assert r[i] == keys[i];
        if j == p {
        } else if j < p {
          assert r[j] == keys[j];
        } else {
          assert r[j] == keys[j - 1];
        }
      } else {
        assert r[i] == keys[i - 1] && r[j] == keys[j - 1];
      }
    }
  }

  ghost function Locations(units: seq<Unit>): (r: seq<Loc>)
    reads (set u | u in units)`loc
    ensures |r| == |units| && forall i :: 0 <= i < |r| ==> r[i] == units[i].loc
  {
    if units == [] then [] else [units[0].loc] + Locations(units[1..])
  }

  function Without<T>(s: seq<T>, k: nat): seq<T>
    requires k < |s|
  {
    s[..k] + s[k + 1..]
  }

  /** The sequence with its element at `k` moved to `p`. */
  function Moved<T>(s: seq<T>, k: nat, p: nat): seq<T>
    requires k < |s| && p < |s|
  {
    Without(s, k)[..p] + [s[k]] + Without(s, k)[p..]
  }

  /** The place of the element at `k` among the others. */
  function PlaceOf(keys: seq<Loc>, k: nat): (p: nat)
    requires k < |keys|
    ensures p < |keys|
  {
    FirstBehind(Without(keys, k), keys[k])
  }

  /** Moving permutes. */
  lemma MovedPermutes<T>(s: seq<T>, k: nat, p: nat)
    requires k < |s| && p < |s|
    ensures multiset(Moved(s, k, p)) == multiset(s)
  {
    var others := Without(s, k);
    assert s == s[..k] + [s[k]] + s[k + 1..];
    assert multiset(s) == multiset(s[..k]) + multiset{s[k]} + multiset(s[k + 1..]);
    assert multiset(others) == multiset(s[..k]) + multiset(s[k + 1..]);
    assert others == others[..p] + others[p..];
    assert multiset(others) == multiset(others[..p]) + multiset(others[p..]);
    var r := others[..p] + [s[k]] + others[p..];
    assert multiset(r) == multiset(others) + multiset{s[k]};
    assert multiset(r) == multiset(s);
  }

  /** Moving a key to its place sorts the keys if the others were sorted: by rows, and from the left within
      a row. */
  lemma MovedSorts(keys: seq<Loc>, k: nat)
    requires k < |keys| && Sorted(Without(keys, k))
    ensures Sorted(Moved(keys, k, PlaceOf(keys, k)))
    ensures var r := Moved(keys, k, PlaceOf(keys, k));
            forall i, j :: 0 <= i < j < |r| ==> r[i].y < r[j].y || (r[i].y == r[j].y && r[i].x <= r[j].x)
  {
    hide FirstBehind;
    InsertSorted(Without(keys, k), keys[k]);
  }

  /** What becomes of the order of the units when the one at `k` goes to another place of the map: it moves to
      its place among the others if it asks for sorting, and stays where it is otherwise. */
  ghost predicate Resorted(was: seq<Unit>, keys: seq<Loc>, k: int, l: Loc, sort: bool, now: seq<Unit>) {
    && 0 <= k < |was| == |keys|
    && now == if sort then Moved(was, k, PlaceOf(keys[k := l], k)) else was
  }

  /** Where the element at `j` stood before one of them moved. */
  function From(k: nat, p: nat, j: int): int {
    if j == p then k else if k <= j < p then j + 1 else if p < j <= k then j - 1 else j
  }

  lemma MovedAt<T>(s: seq<T>, k: nat, p: nat)
    requires k < |s| && p < |s|
    ensures |Moved(s, k, p)| == |s|
    ensures forall j :: 0 <= j < |s| ==> Moved(s, k, p)[j] == s[From(k, p, j)]
  {
  }

  lemma LocationsMoved(units: seq<Unit>, k: nat, p: nat)
    requires k < |units| && p < |units|
    ensures Locations(Moved(units, k, p)) == Moved(Locations(units), k, p)
  {
    hide Locations, Moved;
    MovedAt(units, k, p);
    MovedAt(Locations(units), k, p);
    assert |Locations(Moved(units, k, p))| == |units|;
    forall j | 0 <= j < |units|
      ensures Locations(Moved(units, k, p))[j] == Moved(Locations(units), k, p)[j]
    {
      var i := From(k, p, j);
      assert Moved(units, k, p)[j] == units[i];
      assert Moved(Locations(units), k, p)[j] == Locations(units)[i];
    }
  }

  // ---------------------------------------------------------------- the map

  /** The array holds exactly these units, in this order, from the front. */
  ghost predicate Holds(slots: seq<Unit?>, units: seq<Unit>) {
    && |units| <= |slots|
    && (forall i :: 0 <= i < |units| ==> slots[i] == units[i])
    && (forall i :: |units| <= i < |slots| ==> slots[i] == null)
  }

  ghost function Members(units: seq<Unit>): set<Unit> { set u | u in units }

  /** Every unit knows its position. */
  ghost predicate Indexed(units: seq<Unit>)
    reads (set u | u in units)`mapIndex
  {
    forall i :: 0 <= i < |units| ==> units[i].mapIndex == i
  }

  /** Where the units say they are. */
  ghost function Places(units: set<Unit>): map<Unit, Loc>
    reads units`loc
  {
    map u | u in units :: u.loc
  }

  /** Every unit except `out` touches just its own cell. */
  ghost predicate Touching(units: set<Unit>, out: Unit?)
    reads units`loc, units`touch
  {
    forall u :: u in units && u != out ==> u.touch == {u.loc}
  }

  /** The units other than `out` and the non-empty layers of cells correspond one to one. */
  ghost predicate Grid(w: nat, h: nat, cells: seq<Cookie>, at: map<Unit, Loc>, out: Unit?)
  {
    && |cells| == w * h
    && (forall u :: u in at && u != out ==> OnGrid(w, h, at[u]) && Cell(w, h, cells, at[u], u.base) == u)
    && forall l: Loc, b: bool :: OnGrid(w, h, l) && Cell(w, h, cells, l, b) != null ==>
         var u := Cell(w, h, cells, l, b);
         u in at && u != out && at[u] == l && u.base == b
  }

  /** Only the layers `base` of the cells in `at` have changed, to `u`. */
  ghost predicate CellsSet(w: nat, h: nat, was: seq<Cookie>, now: seq<Cookie>, at: set<Loc>, base: bool, u: Unit?) {
    && |was| == |now| == w * h
    && forall k: Loc, b: bool :: OnGrid(w, h, k) ==>
         Cell(w, h, now, k, b) == if k in at && b == base then u else Cell(w, h, was, k, b)
  }

  lemma GridPut(w: nat, h: nat, was: seq<Cookie>, now: seq<Cookie>, at: map<Unit, Loc>, u: Unit, l: Loc)
    requires Grid(w, h, was, at, u) && OnGrid(w, h, l) && Cell(w, h, was, l, u.base) == null
    requires CellsSet(w, h, was, now, {l}, u.base, u)
    ensures Grid(w, h, now, at[u := l], null)
  {
    hide Cell;
  }

  /** A unit put on a taken cell leaves the other unit without its cell. */
  lemma GridOverwritten(w: nat, h: nat, was: seq<Cookie>, now: seq<Cookie>, at: map<Unit, Loc>, u: Unit, l: Loc)
    requires Grid(w, h, was, at, u) && OnGrid(w, h, l) && Cell(w, h, was, l, u.base) != null
    requires CellsSet(w, h, was, now, {l}, u.base, u)
    ensures !Grid(w, h, now, at[u := l], null)
  {
    hide Cell;
    var v := Cell(w, h, was, l, u.base);
    assert v in at[u := l] && at[u := l][v] == l && Cell(w, h, now, l, v.base) == u;
  }

  lemma GridPlaced(w: nat, h: nat, was: seq<Cookie>, now: seq<Cookie>, at: map<Unit, Loc>, u: Unit, l: Loc)
    requires Grid(w, h, was, at, u) && OnGrid(w, h, l)
    requires CellsSet(w, h, was, now, {l}, u.base, u)
    ensures Grid(w, h, now, at[u := l], null) <==> Cell(w, h, was, l, u.base) == null
  {
    hide Cell, CellsSet;
    if Cell(w, h, was, l, u.base) == null {
      GridPut(w, h, was, now, at, u, l);
    } else {
      GridOverwritten(w, h, was, now, at, u, l);
    }
  }

  lemma GridTake(w: nat, h: nat, was: seq<Cookie>, now: seq<Cookie>, at: map<Unit, Loc>, u: Unit)
    requires Grid(w, h, was, at, null) && u in at && OnGrid(w, h, at[u])
    requires CellsSet(w, h, was, now, {at[u]}, u.base, null)
    ensures Grid(w, h, now, at, u) && Grid(w, h, now, at - {u}, null)
  {
    hide Cell;
  }

  lemma GridUnit(w: nat, h: nat, cells: seq<Cookie>, at: map<Unit, Loc>, out: Unit?, l: Loc, b: bool)
    requires Grid(w, h, cells, at, out) && OnGrid(w, h, l)
    ensures var u := Cell(w, h, cells, l, b); u != null ==> u in at && u != out && at[u] == l && u.base == b
  {
  }

  lemma GridOwn(w: nat, h: nat, cells: seq<Cookie>, at: map<Unit, Loc>, out: Unit?, u: Unit)
    requires Grid(w, h, cells, at, out) && u in at && u != out
    ensures OnGrid(w, h, at[u]) && Cell(w, h, cells, at[u], u.base) == u
  {
  }

  lemma GridNew(w: nat, h: nat, cells: seq<Cookie>, at: map<Unit, Loc>, u: Unit)
    requires Grid(w, h, cells, at, null) && u !in at
    ensures Grid(w, h, cells, at, u)
  {
    hide Cell;
  }

  class BaseMap {
    var slots: array<Unit?>
    var size: nat
    var w: nat
    const h: nat
    var cells: array<Cookie>
    /** The board; columns beyond it take units that found their cell taken. */
    const boardW: nat
    const boardH: nat
    /** The cell under a point of the map. */
    const locOf: (int, int) -> Loc
    /** The units of the map in order. */
    ghost var units: seq<Unit>
    ghost var all: set<Unit>

    ghost predicate Shaped()
      reads this, slots, cells
    {
      && slots.Length == cells.Length == w * h && boardW <= w && boardH <= h
      && size == |units| && Holds(slots[..], units) && all == Members(units)
    }

    /** Valid but for a unit that is stored and stands nowhere. */
    ghost predicate ValidBut(out: Unit?)
      reads this, slots, cells, units, all
    {
      && Shaped() && Indexed(units) && Touching(all, out)
      && Grid(w, h, cells[..], Where(), out)
    }

    /** The units of the map with their locations. */
    ghost function Where(): map<Unit, Loc>
      reads `all, all`loc
    {
      Places(all)
    }

    ghost predicate Valid()
      reads this, slots, cells, units, all
    {
      ValidBut(null)
    }

    ghost function At(l: Loc, base: bool): Unit?
      requires cells.Length == w * h && OnGrid(w, h, l)
      reads `w, `cells, cells
    {
      Cell(w, h, cells[..], l, base)
    }

    /** `create_coor_map` */
    constructor (w: nat, h: nat, boardW: nat, boardH: nat, locOf: (int, int) -> Loc)
      requires boardW <= w && boardH <= h
      ensures Valid() && units == [] && this.w == w && this.h == h && fresh(slots) && fresh(cells)
      ensures this.boardW == boardW && this.boardH == boardH && this.locOf == locOf
    {
      slots := new Unit?[w * h](_ => null);
      cells := new Cookie[w * h](_ => Cookie(null, null));
      this.w, this.h, this.boardW, this.boardH, this.locOf := w, h, boardW, boardH, locOf;
      size, units, all := 0, [], {};
      new;
      forall l: Loc, b: bool | OnGrid(w, h, l)
        ensures Cell(w, h, cells[..], l, b) == null
      {
        IndexInRange(w, h, l);
      }
      assert Grid(w, h, cells[..], Where(), null);
    }

    method SetCell(l: Loc, base: bool, u: Unit?)
      requires cells.Length == w * h && OnGrid(w, h, l)
      modifies cells
      ensures CellsSet(w, h, old(cells[..]), cells[..], {l}, base, u)
    {
      PutCell(w, h, cells[..], l, base, u);
      var i := Index(w, l);
      cells[i] := Put(cells[i], base, u);
    }

    /** Moves the units behind a gap one slot to the front. */
    method ShiftDown(from: nat, to: nat)
      requires Shaped() && from <= to < |units|
      requires forall i, j :: 0 <= i < j < |units| ==> units[i] != units[j]
      modifies slots, all`mapIndex
      ensures forall i :: 0 <= i < slots.Length ==> slots[i] == old(slots[if from <= i < to then i + 1 else i])
      ensures forall i :: 0 <= i < |units| ==>
                units[i].mapIndex == if from < i <= to then i - 1 else old(units[i].mapIndex)
    {
      var i := from;
      while i < to
        invariant from <= i <= to
        invariant forall j :: 0 <= j < slots.Length ==> slots[j] == old(slots[if from <= j < i then j + 1 else j])
        invariant forall j :: 0 <= j < |units| ==>
                    units[j].mapIndex == if from < j <= i then j - 1 else old(units[j].mapIndex)
      {
        assert slots[i + 1] == units[i + 1];
        slots[i] := slots[i + 1];
        slots[i].mapIndex := i;
        i := i + 1;
      }
    }

    method ShiftUp(from: nat, to: nat)
      requires Shaped() && to <= from < |units|
      requires forall i, j :: 0 <= i < j < |units| ==> units[i] != units[j]
      modifies slots, all`mapIndex
      ensures forall i :: 0 <= i < slots.Length ==> slots[i] == old(slots[if to < i <= from then i - 1 else i])
      ensures forall i :: 0 <= i < |units| ==>
                units[i].mapIndex == if to <= i < from then i + 1 else old(units[i].mapIndex)
    {
      var i := from;
      while i > to
        invariant to <= i <= from
        invariant forall j :: 0 <= j < slots.Length ==> slots[j] == old(slots[if i < j <= from then j - 1 else j])
        invariant forall j :: 0 <= j < |units| ==>
                    units[j].mapIndex == if i <= j < from then j + 1 else old(units[j].mapIndex)
      {
        assert slots[i - 1] == units[i - 1];
        slots[i] := slots[i - 1];
        slots[i].mapIndex := i;
        i := i - 1;
      }
    }

    /** The slot of the first other unit that the unit has to stand before. */
    method FindPlace(u: Unit) returns (i: nat)
      requires Shaped() && Indexed(units) && u in units
      ensures i <= size && i != u.mapIndex
      ensures forall j :: 0 <= j < i && j != u.mapIndex ==> !Before(u.loc, units[j].loc)
      ensures i < size ==> Before(u.loc, units[i].loc)
    {
      i := 0;
      while i < size
        invariant 0 <= i <= size
        invariant forall j :: 0 <= j < i && j != u.mapIndex ==> !Before(u.loc, units[j].loc)
      {
        var that := slots[i];
        if that != u && Before(u.loc, that.loc) {
          break;
        }
        i := i + 1;
      }
    }

    /** Moves a unit to a slot further back, the units in between one slot to the front. */
    method MoveBack(u: Unit, i: nat)
      requires Shaped() && Indexed(units) && u in units && u.mapIndex <= i < |units|
      modifies slots, all`mapIndex, `units
      ensures Shaped() && Indexed(units)
      ensures units == Moved(old(units), old(u.mapIndex), i)
    {
      MovedAt(units, u.mapIndex, i);
      ghost var now := Moved(units, u.mapIndex, i);
      MembersMoved(units, u.mapIndex, i);
      hide Moved, Without, FirstBehind, Locations;
      ShiftDown(u.mapIndex, i);
      slots[i] := u;
      u.mapIndex := i;
      forall j | 0 <= j < |now|
        ensures slots[j] == now[j] && now[j].mapIndex == j
      {
      }
      units := now;
    }

    /** Moves a unit to a slot further to the front, the units in between one slot back. */
    method MoveFront(u: Unit, i: nat)
      requires Shaped() && Indexed(units) && u in units && i <= u.mapIndex
      modifies slots, all`mapIndex, `units
      ensures Shaped() && Indexed(units)
      ensures units == Moved(old(units), old(u.mapIndex), i)
    {
      MovedAt(units, u.mapIndex, i);
      ghost var now := Moved(units, u.mapIndex, i);
      MembersMoved(units, u.mapIndex, i);
      hide Moved, Without, FirstBehind, Locations;
      ShiftUp(u.mapIndex, i);
      slots[i] := u;
      u.mapIndex := i;
      forall j | 0 <= j < |now|
        ensures slots[j] == now[j] && now[j].mapIndex == j
      {
      }
      units := now;
    }

    /** `sort_map` */
    method SortMap(u: Unit)
      requires Shaped() && Indexed(units) && u in units
      modifies slots, all`mapIndex, `units
      ensures Shaped() && Indexed(units)
      ensures units == Moved(old(units), old(u.mapIndex), PlaceOf(old(Locations(units)), old(u.mapIndex)))
      ensures Sorted(Without(old(Locations(units)), old(u.mapIndex))) ==> Sorted(Locations(units))
    {
      hide Moved, Before, Holds, Locations, Sorted, Without;
      var i := FindPlace(u);
      FirstIs(Locations(units), u.mapIndex, i);
      SortedIn(units, u.mapIndex);
      ghost var sorted := Moved(units, u.mapIndex, PlaceOf(Locations(units), u.mapIndex));
      assert size == |units| && 0 <= u.mapIndex < size;
      hide *;
      if u.mapIndex == i - 1 {
        MovedNowhere(units, u.mapIndex);
        return;
      }
      if i > u.mapIndex {
        i := i - 1;
        MoveBack(u, i);
      } else {
        MoveFront(u, i);
      }
      SameLocations(sorted);
    }

    method AppendLast(u: Unit)
      requires Shaped() && Indexed(units) && u !in units && size < slots.Length
      modifies `units, `all, `size, slots, u`mapIndex
      ensures Shaped() && Indexed(units)
      ensures units == old(units) + [u] && all == old(all) + {u}
    {
      u.mapIndex := size;
      slots[size] := u;
      size := size + 1;
      units, all := units + [u], all + {u};
    }

    /** Puts a unit behind the others and sorts it in when it asks for it. */
    method Append(u: Unit)
      requires Shaped() && Indexed(units) && u !in units && size < slots.Length
      modifies `units, `all, `size, slots, all`mapIndex, u`mapIndex
      ensures Shaped() && Indexed(units)
      ensures !u.requireSort ==> units == old(units) + [u]
      ensures u.requireSort ==>
                var keys := old(Locations(units)) + [u.loc];
                units == Moved(old(units) + [u], |keys| - 1, PlaceOf(keys, |keys| - 1))
      ensures all == old(all) + {u}
    {
      hide Moved, PlaceOf, Locations, Holds;
      AppendLast(u);
      hide Members;
      if u.requireSort {
        LocationsAppend(old(units), u);
        assert units[|units| - 1] == u;
        SortMap(u);
      }
    }

    method Taken(l: Loc, base: bool) returns (t: bool)
      requires cells.Length == w * h && OnGrid(w, h, l)
      ensures t == (At(l, base) != null)
    {
      IndexInRange(w, h, l);
      var c := cells[Index(w, l)];
      t := if base then c.base != null else c.overlay != null;
    }

    /** `insert`; it fails at an invalid location or on a taken cell. */
    method Insert(l: Loc, u: Unit) returns (ok: bool)
      requires Valid() && u.Ok() && u !in units && size < slots.Length
      requires ValidLoc(l) ==> OnGrid(w, h, l)
      modifies `units, `all, `size, slots, cells, u`loc, u`touch, u`mapIndex, all`mapIndex
      ensures Valid() && ok == (l.x >= 0 && l.y >= 0 && old(OnGrid(w, h, l) && At(l, u.base) == null))
      ensures !ok ==> units == old(units) && cells[..] == old(cells[..]) && Where() == old(Where())
      ensures !ok ==> u.loc == old(u.loc) && u.touch == old(u.touch) && u.mapIndex == old(u.mapIndex)
      ensures ok ==> u.Ok() && Where() == old(Where())[u := l]
      ensures ok ==> CellsSet(w, h, old(cells[..]), cells[..], {l}, u.base, u)
      ensures ok && !u.requireSort ==> units == old(units) + [u]
      ensures ok && u.requireSort ==>
                var keys := old(Locations(units)) + [l];
                units == Moved(old(units) + [u], |keys| - 1, PlaceOf(keys, |keys| - 1))
    {
      hide Cell, Moved, PlaceOf, Locations, Holds, Grid, CellsSet, OnGrid;
      if !ValidLoc(l) {
        return false;
      }
      var taken := Taken(l, u.base);
      if taken {
        return false;
      }
      assert u !in all;
      hide Members;
      GridNew(w, h, cells[..], Where(), u);
      TouchingMore(all, u);
      hide Touching, Places, Indexed;
      StandAt(l, u);
      ghost var places := Places(all + {u});
      ghost var grid := cells[..];
      Append(u);
      assert cells[..] == grid && Where() == places;
      return true;
    }

    /** The part of `insert` that fills the cell and tells the unit its location. */
    method StandAt(l: Loc, u: Unit)
      requires Shaped() && Indexed(units) && u.Ok() && Touching(all, u)
      requires Grid(w, h, cells[..], Where(), u) && OnGrid(w, h, l) && At(l, u.base) == null
      modifies cells, u`loc, u`touch
      ensures Shaped() && Indexed(units) && u.Ok() && u.loc == l && Touching(all + {u}, null)
      ensures CellsSet(w, h, old(cells[..]), cells[..], {l}, u.base, u)
      ensures Places(all + {u}) == old(Where())[u := l]
      ensures Grid(w, h, cells[..], Places(all + {u}), null)
    {
      hide Cell, Holds, Grid, CellsSet, Members;
      ghost var held := slots[..];
      SetCell(l, u.base, u);
      GridPut(w, h, old(cells[..]), cells[..], Where(), u, l);
      u.SetLocation(l);
      assert slots[..] == held && Places(all + {u}) == old(Where())[u := l];
    }

    method Relocate(l: Loc, u: Unit)
      requires Shaped() && Indexed(units) && u.Ok() && ValidLoc(l) && u in units && Touching(all, u)
      modifies u`loc, u`touch
      ensures Shaped() && Indexed(units) && u.Ok() && u.loc == l && u.touch == {l} && Touching(all, null)
      ensures Where() == old(Where())[u := l]
      ensures 0 <= u.mapIndex < |units| && Locations(units) == old(Locations(units)[u.mapIndex := l])
    {
      assert u in all && 0 <= u.mapIndex < |units| && units[u.mapIndex] == u;
      hide Locations, Shaped, Indexed, Unit.Ok;
      ghost var keys, was := Locations(units), Where();
      MoveOnly(l, u);
      OneMoved(units, u, keys);
      OneRelocated(all, u, was);
    }

    /** Telling a unit its location changes no other unit. */
    method MoveOnly(l: Loc, u: Unit)
      requires Shaped() && Indexed(units) && u.Ok() && ValidLoc(l)
      modifies u`loc, u`touch
      ensures Shaped() && Indexed(units) && u.Ok() && u.loc == l && u.touch == {l}
    {
      hide Members;
      ghost var held := slots[..];
      u.SetLocation(l);
      assert slots[..] == held;
    }

    /** The part of `place` that does the same for an overlay unit, by the cells it touches, without looking
        whether they are free. */
    method PlaceAt(l: Loc, u: Unit)
      requires Shaped() && Indexed(units) && u.Ok() && Touching(all, u) && !u.base && u in all
      requires Grid(w, h, cells[..], Where(), u) && OnGrid(w, h, l)
      modifies cells, u`loc, u`touch
      ensures Shaped() && Indexed(units) && u.Ok() && u.loc == l && Touching(all, null)
      ensures CellsSet(w, h, old(cells[..]), cells[..], {l}, false, u)
      ensures Where() == old(Where())[u := l]
      ensures Grid(w, h, cells[..], Where(), null) <==> old(At(l, false)) == null
      ensures 0 <= u.mapIndex < |units| && Locations(units) == old(Locations(units)[u.mapIndex := l])
    {
      assert u in units && ValidLoc(l) && cells.Length == w * h;
      hide Cell, Grid, CellsSet, Locations, Touching, Places, Indexed, Shaped, Unit.Ok;
      ghost var was, at := cells[..], Where();
      Relocate(l, u);
      TouchOverlay(l, u);
      GridPlaced(w, h, was, cells[..], at, u, l);
    }

    /** The loop of `place` over the cells a unit touches changes the grid only. */
    method TouchOverlay(l: Loc, u: Unit)
      requires Shaped() && OnGrid(w, h, l) && u.touch == {l}
      modifies cells
      ensures Shaped() && CellsSet(w, h, old(cells[..]), cells[..], {l}, false, u)
    {
      hide Cell, Members, CellsSet;
      ghost var held := slots[..];
      SetTouched(u.touch, false, u);
      assert slots[..] == held;
    }

    /** The loops over the cells a unit touches. */
    method SetTouched(touch: set<Loc>, base: bool, u: Unit?)
      requires cells.Length == w * h && forall l :: l in touch ==> OnGrid(w, h, l)
      modifies cells
      ensures CellsSet(w, h, old(cells[..]), cells[..], touch, base, u)
    {
      hide Cell;
      var todo := touch;
      while todo != {}
        invariant todo <= touch
        invariant CellsSet(w, h, old(cells[..]), cells[..], touch - todo, base, u)
        decreases todo
      {
        var l :| l in todo;
        SetCell(l, base, u);
        todo := todo - {l};
      }
    }

    method RemoveSlot(u: Unit)
      requires Shaped() && Indexed(units) && u in units
      modifies `units, `all, `size, slots, all`mapIndex
      ensures Shaped() && Indexed(units)
      ensures units == Without(old(units), old(u.mapIndex)) && u !in units && all == old(all) - {u}
    {
      ghost var k := u.mapIndex;
      MembersWithout(units, k);
      ShiftDown(u.mapIndex, size - 1);
      size := size - 1;
      slots[size] := null;
      units, all := Without(units, k), all - {u};
    }

    /** `erase2` */
    method Erase(u: Unit, delete: bool)
      requires Valid() && u in units
      modifies `units, `all, `size, slots, cells, all`mapIndex
      ensures Valid() && u !in units && u.Ok() && (!delete ==> u.mapIndex == NO_INDEX)
      ensures units == Without(old(units), old(u.mapIndex)) && Where() == old(Where()) - {u}
      ensures CellsSet(w, h, old(cells[..]), cells[..], {u.loc}, u.base, null)
    {
      hide Cell, Without, Holds, Grid, CellsSet;
      assert u in all;
      hide Members;
      GridOwn(w, h, cells[..], Where(), null, u);
      LessOne(all, u);
      ghost var at := Where();
      hide Touching, Places, Indexed;
      RemoveSlot(u);
      assert cells[..] == old(cells[..]);
      ghost var held := slots[..];
      SetTouched(u.touch, u.base, null);
      GridTake(w, h, old(cells[..]), cells[..], at, u);
      assert slots[..] == held;
      if !delete {
        Forget(u);
      }
    }

    method Forget(u: Unit)
      requires Shaped() && Indexed(units) && u !in units
      modifies u`mapIndex
      ensures Shaped() && Indexed(units) && u.mapIndex == NO_INDEX
    {
      u.mapIndex := NO_INDEX;
    }

    method OverlayAt(l: Loc) returns (u: Unit?)
      requires cells.Length == w * h && OnGrid(w, h, l)
      ensures u == At(l, false)
    {
      IndexInRange(w, h, l);
      u := cells[Index(w, l)].overlay;
    }

    /** `extract`: takes the overlay unit at a cell off the grid. */
    method Extract(l: Loc) returns (u: Unit?)
      requires Valid() && (ValidLoc(l) ==> OnGrid(w, h, l))
      modifies cells
      ensures u == if l.x >= 0 && l.y >= 0 then old(At(l, false)) else null
      ensures u == null ==> cells[..] == old(cells[..])
      ensures u != null ==>
                && u in Where() && u.loc == l && !u.base && u.Ok()
                && CellsSet(w, h, old(cells[..]), cells[..], {l}, false, null)
      ensures ValidBut(u)
    {
      hide Cell, Holds, Members, Grid, CellsSet;
      if !ValidLoc(l) {
        return null;
      }
      u := OverlayAt(l);
      if u == null {
        return null;
      }
      GridUnit(w, h, cells[..], Where(), null, l, false);
      SetTouched(u.touch, false, null);
      GridTake(w, h, old(cells[..]), cells[..], Where(), u);
    }

    /** `place`: puts an extracted unit on a cell. It does not look whether another unit is there, so the
        agreement of cells and units comes back exactly when none is. */
    method Place(l: Loc, u: Unit)
      requires ValidBut(u) && u in Where() && !u.base && u.Ok() && OnGrid(w, h, l)
      modifies `units, slots, cells, u`loc, u`touch, all`mapIndex
      ensures Shaped() && Indexed(units) && Touching(all, null)
      ensures Valid() <==> old(At(l, false)) == null
      ensures Where() == old(Where())[u := l]
      ensures CellsSet(w, h, old(cells[..]), cells[..], {l}, false, u)
      ensures 0 <= old(u.mapIndex) < |old(units)|
      ensures !u.requireSort ==> units == old(units)
      ensures u.requireSort ==>
                var k, keys := old(u.mapIndex), old(Locations(units)[u.mapIndex := l]);
                && units == Moved(old(units), k, PlaceOf(keys, k))
                && (Sorted(Without(keys, k)) ==> Sorted(Locations(units)))
    {
      hide Cell, Holds, Moved, Locations, Grid, CellsSet, Sorted, Without, PlaceOf;
      assert u in units;
      hide Members, Touching, Places;
      PlaceAt(l, u);
      ghost var places, grid := Where(), cells[..];
      if u.requireSort {
        SortMap(u);
        assert cells[..] == grid && Where() == places;
      }
    }

    /** `move` of the overlay unit at one cell to another. */
    method Move(src: Loc, dst: Loc)
      requires Valid() && OnGrid(w, h, src) && OnGrid(w, h, dst) && At(src, false) != null
      modifies `units, slots, cells, all`loc, all`touch, all`mapIndex
      ensures Shaped() && Indexed(units) && Where() == old(Where())[old(At(src, false)) := dst]
      ensures Valid() <==> dst == src || old(At(dst, false)) == null
      ensures At(dst, false) == old(At(src, false)) && (dst != src ==> At(src, false) == null)
      ensures Resorted(old(units), old(Locations(units)), old(At(src, false).mapIndex), dst, old(At(src, false)).requireSort, units)
    {
      hide Cell, Holds, Members, Grid, Moved, PlaceOf, Locations, Sorted, Without;
      var u := Extract(src);
      Place(dst, u);
    }

    /** `expand_coor_map`: more columns, every cell keeps its place. */
    method Expand(columns: nat, ghost out: Unit?)
      requires ValidBut(out) && columns > w
      modifies `w, `slots, `cells
      ensures ValidBut(out) && w == columns && fresh(slots) && fresh(cells)
      ensures forall l: Loc, b: bool :: OnGrid(columns, h, l) ==>
                Cell(columns, h, cells[..], l, b)
                == if l.x < old(w) then Cell(old(w), h, old(cells[..]), l, b) else null
    {
      hide Cell, Index, Members, Grid, Indexed, Touching;
      MoreCells(w, columns, h);
      var tmp := CopySlots(columns * h);
      var tmp2 := CopyCells(columns);
      GridWider(w, columns, h, cells[..], tmp2[..], Where(), out);
      slots := tmp;
      cells := tmp2;
      w := columns;
    }

    method CopySlots(length: nat) returns (tmp: array<Unit?>)
      requires Shaped() && slots.Length <= length
      ensures fresh(tmp) && tmp.Length == length && Holds(tmp[..], units)
    {
      tmp := new Unit?[length](_ => null);
      for i := 0 to size
        invariant forall j :: 0 <= j < i ==> tmp[j] == slots[j]
        invariant forall j :: i <= j < length ==> tmp[j] == null
      {
        tmp[i] := slots[i];
      }
    }

    method CopyCells(columns: nat) returns (tmp: array<Cookie>)
      requires Shaped() && columns > w
      ensures fresh(tmp) && tmp.Length == columns * h
      ensures Widened(w, columns, h, cells[..], tmp[..], h)
    {
      hide Holds, Members;
      tmp := new Cookie[columns * h](_ => Cookie(null, null));
      NothingCopied(w, columns, h, cells[..], tmp[..]);
      for y := 0 to h
        invariant Widened(w, columns, h, cells[..], tmp[..], y)
      {
        CopyRow(columns, y, tmp);
      }
    }

    method CopyRow(columns: nat, y: nat, tmp: array<Cookie>)
      requires Shaped() && columns > w && y < h && tmp != cells
      requires Widened(w, columns, h, cells[..], tmp[..], y)
      modifies tmp
      ensures Widened(w, columns, h, cells[..], tmp[..], y + 1)
    {
      hide Holds, Members;
      RowFits(w, h, y);
      RowFits(columns, h, y);
      var from, to := w * y, columns * y;
      for x := 0 to w
        invariant forall k :: 0 <= k < tmp.Length ==>
                    tmp[k] == if to <= k < to + x then cells[from + k - to] else old(tmp[k])
      {
        tmp[to + x] := cells[from + x];
      }
      RowCopied(w, columns, h, cells[..], old(tmp[..]), tmp[..], y);
    }

    /** `conflict_calculate_loc` for a rectangle on the board at this cell: the cell itself if its overlay
        is free, else the first free one beyond the board in the row, with more columns if there is none. */
    method ConflictLoc(at: Loc, ghost out: Unit?) returns (l: Loc)
      requires ValidBut(out) && OnGrid(boardW, h, at)
      modifies `w, `slots, `cells
      ensures ValidBut(out) && old(w) <= w && OnGrid(w, h, l) && l.y == at.y
      ensures At(l, false) == null
      ensures old(At(at, false)) == null ==> l == at && w == old(w) && slots == old(slots) && cells == old(cells)
      ensures old(At(at, false)) != null ==>
                && l.x >= boardW && (w == if l.x < old(w) then old(w) else old(w) + 2)
                && forall x :: boardW <= x < l.x && x < old(w) ==> old(At(Loc(x, at.y), false)) != null
      ensures slots == old(slots) || fresh(slots)
      ensures cells == old(cells) || fresh(cells)
      ensures forall k: Loc, b: bool :: OnGrid(w, h, k) ==>
                Cell(w, h, cells[..], k, b) == if k.x < old(w) then Cell(old(w), h, old(cells[..]), k, b) else null
    {
      hide Cell, Holds, Members, Grid, Indexed, Touching;
      l := at;
      var u := OverlayAt(at);
      if u == null {
        return;
      }
      var x := boardW;
      while x < w
        invariant boardW <= x <= w
        invariant forall i :: boardW <= i < x ==> At(Loc(i, at.y), false) != null
        modifies {}
      {
        var v := OverlayAt(Loc(x, at.y));
        if v == null {
          return Loc(x, at.y);
        }
        x := x + 1;
      }
      Expand(w + EXPAND_FACTOR, out);
      l := Loc(w - EXPAND_FACTOR, at.y);
    }

    /** The part of `set_rect` that takes the unit off the grid and puts it where its rectangle begins; a cell
        taken by another unit sends it to a free one beyond the board. */
    method Reseat(u: Unit, at: Loc)
      requires Valid() && u in all && !u.base && u.Ok() && OnGrid(boardW, h, at)
      requires OnGrid(w, h, u.loc) && At(u.loc, false) == u
      modifies `w, `slots, `cells, `units, slots, cells, u`loc, u`touch, all`mapIndex
      ensures Valid() && Where() == old(Where())[u := u.loc] && u.loc.y == at.y
      ensures if old(At(at, false)) == null || old(At(at, false)) == u then u.loc == at
              else u.loc.x >= boardW && (u.loc.x < old(w) ==> old(At(u.loc, false)) in {null, u})
      ensures Resorted(old(units), old(Locations(units)), old(u.mapIndex), u.loc, u.requireSort, units)
    {
      hide Cell, Holds, Grid, Members, Touching, Indexed, CellsSet, Moved, PlaceOf, Locations, Sorted, Without;
      ghost var was := cells[..];
      GridUnit(w, h, was, Where(), null, at, false);
      var v := Extract(u.loc);
      assert v == u;
      ghost var free := cells[..];
      CellsSetAt(w, h, was, free, u.loc, at);
      var l := ConflictLoc(at, u);
      if l.x < old(w) {
        CellsSetAt(old(w), h, was, free, u.loc, l);
      }
      Place(l, u);
    }

    /** `set_rect` of an overlay unit of the map whose new rectangle begins on the board. */
    method SetRect(u: Unit, rect: Rect) returns (ok: bool)
      requires Valid() && u in units && !u.base
      requires OnGrid(boardW, h, locOf(rect.x, rect.y))
      modifies `w, `slots, `cells, `units, slots, cells, u`rect, u`loc, u`touch, all`mapIndex
      ensures Valid() && ok == (rect.w > 0 && rect.h > 0)
      ensures u.rect == if ok then rect else old(u.rect)
      ensures !ok || rect == old(u.rect) ==> Where() == old(Where())
      ensures ok && rect != old(u.rect) ==>
                && Where() == old(Where())[u := u.loc] && u.loc.y == locOf(rect.x, rect.y).y
                && var at := locOf(rect.x, rect.y);
                   if old(At(at, false)) == null || old(At(at, false)) == u then u.loc == at
                   else u.loc.x >= boardW && (u.loc.x < old(w) ==> old(At(u.loc, false)) in {null, u})
      ensures !ok || rect == old(u.rect) ==> units == old(units)
      ensures ok && rect != old(u.rect) ==>
                Resorted(old(units), old(Locations(units)), old(u.mapIndex), u.loc, u.requireSort, units)
    {
      hide Cell, Holds, Grid, Touching, Indexed, Moved, PlaceOf, Locations, Resorted;
      if rect.w <= 0 || rect.h <= 0 {
        return false;
      }
      ok := true;
      if rect == u.rect {
        return;
      }
      OwnCell(u);
      hide Members, Places;
      ghost var keys := Locations(units);
      u.rect := rect;
      assert Locations(units) == keys;
      Reseat(u, locOf(rect.x, rect.y));
    }

    lemma OwnCell(u: Unit)
      requires Valid() && u in units
      ensures u in all && OnGrid(w, h, u.loc) && u.Ok() && At(u.loc, u.base) == u
    {
      hide Cell, Grid;
      GridOwn(w, h, cells[..], Where(), null, u);
    }

    /** `insert2`: puts a unit with a rectangle on the board where it displaces no other. The search for a
        free cell looks at overlay units only, so a base unit is refused where it meets another one. */
    method InsertFree(u: Unit) returns (ok: bool, ghost l: Loc)
      requires Valid() && u.Ok() && u !in units && size < slots.Length
      requires OnGrid(boardW, h, locOf(u.rect.x, u.rect.y))
      modifies `w, `slots, `cells, `units, `all, `size, slots, cells, u`loc, u`touch, u`mapIndex, all`mapIndex
      ensures var at := locOf(u.rect.x, u.rect.y);
              && 0 <= l.x && l.y == at.y && 0 <= l.y < h
              && if old(At(at, false)) == null then l == at
                 else l.x >= boardW && (l.x < old(w) ==> old(At(l, false)) == null)
      ensures Valid() && ok == (!u.base || l.x >= old(w) || old(At(l, true)) == null)
      ensures ok ==> u.loc == l && Where() == old(Where())[u := l]
      ensures !ok ==> units == old(units) && Where() == old(Where())
      ensures ok && !u.requireSort ==> units == old(units) + [u]
      ensures ok && u.requireSort ==>
                var keys := old(Locations(units)) + [l];
                units == Moved(old(units) + [u], |keys| - 1, PlaceOf(keys, |keys| - 1))
    {
      hide Cell, Holds, Grid, Members, Moved, PlaceOf, Locations;
      var free := ConflictLoc(locOf(u.rect.x, u.rect.y), null);
      l := free;
      ok := Insert(free, u);
      assert ok ==> u in Where() && Where()[u] == u.loc;
    }

    predicate InArea(area: HexArea, l: Loc) {
      && 0 <= l.x < boardW && area.left <= l.x <= area.right
      && 0 <= l.y < boardH
      && (if Odd(l.x) then area.topOdd <= l.y <= area.bottomOdd else area.topEven <= l.y <= area.bottomEven)
    }

    /** The units of one cell that are not yet in the list. */
    method AddUnits(l: Loc, units: seq<Unit>) returns (res: seq<Unit>)
      requires Valid() && OnGrid(w, h, l) && Distinct(units)
      ensures Distinct(res)
      ensures Members(res) == Members(units) + (set u | u in all && u.loc == l)
      ensures units <= res && forall i :: |units| <= i < |res| ==> res[i].loc == l
      ensures BaseFirst(res, |units|)
    {
      hide Cell, Holds, Indexed, Touching;
      IndexInRange(w, h, l);
      GridUnit(w, h, cells[..], Where(), null, l, true);
      GridUnit(w, h, cells[..], Where(), null, l, false);
      forall u | u in all
        ensures u.loc == l <==> u == At(l, true) || u == At(l, false)
      {
        GridOwn(w, h, cells[..], Where(), null, u);
      }
      hide Grid;
      res := units;
      var u := BaseAt(l);
      if u != null && u !in res {
        res := res + [u];
      }
      u := OverlayAt(l);
      if u != null && u !in res {
        res := res + [u];
      }
    }

    method BaseAt(l: Loc) returns (u: Unit?)
      requires cells.Length == w * h && OnGrid(w, h, l)
      ensures u == At(l, true)
    {
      IndexInRange(w, h, l);
      u := cells[Index(w, l)].base;
    }

    /** The inner loop of `units_from_rect`: one column from the top. */
    method ListColumn(x: nat, top: nat, bottom: int, units: seq<Unit>) returns (res: seq<Unit>)
      requires Valid() && x < boardW && bottom < boardH <= h
      requires Distinct(units) && Listed(units) && forall u :: u in units ==> u.loc.x < x
      ensures Distinct(res) && Listed(res)
      ensures forall u :: u in res <==> u in units || (u in all && u.loc.x == x && top <= u.loc.y <= bottom)
    {
      hide Cell, Holds, Indexed, Touching, Grid, Distinct, Listed;
      res := units;
      var y := top;
      while y <= bottom
        invariant top <= y && Distinct(res) && Listed(res)
        invariant forall u :: u in res <==> u in units || (u in all && u.loc.x == x && top <= u.loc.y <= bottom && u.loc.y < y)
        modifies {}
      {
        ghost var before := res;
        res := AddUnits(Loc(x, y), res);
        ListedMore(before, res, Loc(x, y));
        MembersMore(before, res, all, Loc(x, y));
        y := y + 1;
      }
    }

    /** `units_from_rect` for units that stand on cells: every unit in the area, once, column by column from the
        top and base units first. */
    method UnitsFromRect(area: HexArea) returns (res: seq<Unit>)
      requires Valid()
      ensures Distinct(res) && Listed(res)
      ensures forall u :: u in res <==>
                && u in all && 0 <= u.loc.x < boardW && 0 <= u.loc.y < boardH && area.left <= u.loc.x <= area.right
                && (u.loc.x % 2 == 0 ==> area.topEven <= u.loc.y <= area.bottomEven)
                && (u.loc.x % 2 == 1 ==> area.topOdd <= u.loc.y <= area.bottomOdd)
    {
      hide Cell, Holds, Indexed, Touching, Grid, Distinct, Listed;
      res := [];
      NoUnits();
      var x, right := Max(0, area.left), Min(boardW - 1, area.right);
      while x <= right
        invariant 0 <= x && Distinct(res) && Listed(res)
        invariant forall u :: u in res <==> u in all && InArea(area, u.loc) && u.loc.x < x
        modifies {}
      {
        var top := Max(0, if x % 2 == 1 then area.topOdd else area.topEven);
        var bottom := Min(boardH - 1, if x % 2 == 1 then area.bottomOdd else area.bottomEven);
        res := ListColumn(x, top, bottom, res);
        x := x + 1;
      }
    }
  }

  datatype HexArea = HexArea(left: int, right: int, topEven: int, topOdd: int, bottomEven: int, bottomOdd: int)

  function Max(a: int, b: int): int { if a < b then b else a }
  function Min(a: int, b: int): int { if b < a then b else a }

  ghost predicate Distinct(units: seq<Unit>) {
    forall i, j :: 0 <= i < j < |units| ==> units[i] != units[j]
  }

  /** Column by column, from the top, and base units before others of the same cell. */
  ghost predicate Listed(units: seq<Unit>)
    reads (set u | u in units)`loc
  {
    forall i: nat, j: nat :: i < j < |units| ==>
      var a, b := units[i], units[j];
      || a.loc.x < b.loc.x
      || (a.loc.x == b.loc.x && (a.loc.y < b.loc.y || (a.loc.y == b.loc.y && a.base && !b.base)))
  }

  ghost predicate BaseFirst(units: seq<Unit>, n: nat) {
    forall i: nat, j: nat :: n <= i < j < |units| ==> units[i].base && !units[j].base
  }

  lemma ListedMore(units: seq<Unit>, more: seq<Unit>, l: Loc)
    requires Listed(units) && units <= more
    requires forall u :: u in units ==> u.loc.x < l.x || (u.loc.x == l.x && u.loc.y < l.y)
    requires forall i :: |units| <= i < |more| ==> more[i].loc == l
    requires BaseFirst(more, |units|)
    ensures Listed(more)
  {
    assert forall i :: 0 <= i < |units| ==> units[i] == more[i] && units[i] in units;
  }

  lemma MembersMore(units: seq<Unit>, more: seq<Unit>, all: set<Unit>, l: Loc)
    requires Members(more) == Members(units) + (set u | u in all && u.loc == l)
    ensures forall u :: u in more <==> u in units || (u in all && u.loc == l)
  {
    assert forall u :: u in more <==> u in Members(more);
    assert forall u :: u in units <==> u in Members(units);
  }

  lemma NoUnits()
    ensures Distinct([]) && Listed([])
  {
  }

  const EXPAND_FACTOR := 2

  /** The first `rows` rows are those of the narrower grid, with empty cells behind them. */
  ghost predicate Widened(w: nat, columns: nat, h: nat, was: seq<Cookie>, now: seq<Cookie>, rows: nat) {
    && |was| == w * h && |now| == columns * h && w <= columns && rows <= h
    && forall l: Loc, b: bool :: OnGrid(columns, h, l) ==>
         Cell(columns, h, now, l, b) == if l.x < w && l.y < rows then Cell(w, h, was, l, b) else null
  }

  lemma MoreCells(w: nat, columns: nat, h: nat)
    requires w <= columns
    ensures w * h <= columns * h
  {
  }

  lemma RowFits(w: nat, h: nat, y: nat)
    requires y < h
    ensures 0 <= w * y && w * y + w <= w * h
  {
    var d := h - y - 1;
    assert w * h == w * (y + 1 + d) == w * y + w + w * d;
    assert w * d >= 0;
  }

  lemma NothingCopied(w: nat, columns: nat, h: nat, was: seq<Cookie>, now: seq<Cookie>)
    requires |was| == w * h && |now| == columns * h && w <= columns
    requires forall k :: 0 <= k < |now| ==> now[k] == Cookie(null, null)
    ensures Widened(w, columns, h, was, now, 0)
  {
    forall l: Loc, b: bool | OnGrid(columns, h, l)
      ensures Cell(columns, h, now, l, b) == null
    {
      IndexInRange(columns, h, l);
    }
  }

  lemma RowCopied(w: nat, columns: nat, h: nat, was: seq<Cookie>, mid: seq<Cookie>, now: seq<Cookie>, y: nat)
    requires Widened(w, columns, h, was, mid, y) && |now| == |mid| && y < h
    requires columns * y + w <= |now| && w * y + w <= |was|
    requires forall k :: 0 <= k < |now| ==>
               now[k] == if columns * y <= k < columns * y + w then was[w * y + k - columns * y] else mid[k]
    ensures Widened(w, columns, h, was, now, y + 1)
  {
    forall l: Loc, b: bool | OnGrid(columns, h, l)
      ensures Cell(columns, h, now, l, b) == if l.x < w && l.y < y + 1 then Cell(w, h, was, l, b) else null
    {
      RowCell(w, columns, h, was, mid, now, y, l, b);
    }
  }

  lemma RowCell(w: nat, columns: nat, h: nat, was: seq<Cookie>, mid: seq<Cookie>, now: seq<Cookie>, y: nat,
                l: Loc, b: bool)
    requires Widened(w, columns, h, was, mid, y) && |now| == |mid| && y < h
    requires columns * y + w <= |now| && w * y + w <= |was|
    requires forall k :: 0 <= k < |now| ==>
               now[k] == if columns * y <= k < columns * y + w then was[w * y + k - columns * y] else mid[k]
    requires OnGrid(columns, h, l)
    ensures Cell(columns, h, now, l, b) == if l.x < w && l.y < y + 1 then Cell(w, h, was, l, b) else null
  {
    IndexInRange(columns, h, l);
    assert Cell(columns, h, mid, l, b) == if l.x < w && l.y < y then Cell(w, h, was, l, b) else null;
    if l.y == y {
    } else if l.y < y {
      LowerRow(columns, l, Loc(0, y));
    } else {
      LowerRow(columns, Loc(columns - 1, y), l);
    }
  }

  lemma GridWider(w: nat, columns: nat, h: nat, was: seq<Cookie>, now: seq<Cookie>, at: map<Unit, Loc>, out: Unit?)
    requires Grid(w, h, was, at, out) && Widened(w, columns, h, was, now, h)
    ensures Grid(columns, h, now, at, out)
  {
    hide Cell, Index;
  }

  lemma CellsSetAt(w: nat, h: nat, was: seq<Cookie>, now: seq<Cookie>, at: Loc, l: Loc)
    requires CellsSet(w, h, was, now, {at}, false, null) && OnGrid(w, h, l)
    ensures Cell(w, h, now, l, false) == if l == at then null else Cell(w, h, was, l, false)
  {
    hide Cell;
  }

  lemma LessOne(units: set<Unit>, u: Unit)
    requires Touching(units, null) && u in units
    ensures Touching(units - {u}, null) && u.touch == {u.loc} && u in Places(units) && Places(units)[u] == u.loc
    ensures Places(units - {u}) == Places(units) - {u}
  {
  }

  lemma TouchingMore(units: set<Unit>, u: Unit)
    requires Touching(units, null)
    ensures Touching(units, u)
  {
  }

  lemma MembersWithout(units: seq<Unit>, k: nat)
    requires Indexed(units) && k < |units|
    ensures Members(Without(units, k)) == Members(units) - {units[k]}
  {
    var now := Without(units, k);
    assert forall j :: 0 <= j < |now| ==> now[j] == units[if j < k then j else j + 1];
    forall v | v in Members(units) - {units[k]}
      ensures v in Members(now)
    {
      assert units[v.mapIndex] == v;
      assert now[if v.mapIndex < k then v.mapIndex else v.mapIndex - 1] == v;
    }
  }

  lemma LocationsAppend(units: seq<Unit>, u: Unit)
    ensures Locations(units + [u]) == Locations(units) + [u.loc]
  {
    hide Locations;
    assert |Locations(units + [u])| == |units| + 1;
  }

  lemma MembersMoved(units: seq<Unit>, k: nat, p: nat)
    requires k < |units| && p < |units|
    ensures Members(Moved(units, k, p)) == Members(units)
  {
    MovedPermutes(units, k, p);
    hide Moved;
    var now := Moved(units, k, p);
    forall v: Unit
      ensures v in Members(now) <==> v in Members(units)
    {
      assert v in multiset(now) <==> v in multiset(units);
    }
  }

  lemma OneMoved(units: seq<Unit>, u: Unit, keys: seq<Loc>)
    requires Indexed(units) && 0 <= u.mapIndex < |units| && units[u.mapIndex] == u && |keys| == |units|
    requires forall i :: 0 <= i < |units| && units[i] != u ==> units[i].loc == keys[i]
    ensures Locations(units) == keys[u.mapIndex := u.loc]
  {
    hide Locations;
    forall i | 0 <= i < |units|
      ensures Locations(units)[i] == keys[u.mapIndex := u.loc][i]
    {
      assert units[i].mapIndex == i;
    }
  }

  twostate lemma SameLocations(units: seq<Unit>)
    requires forall i :: 0 <= i < |units| ==> units[i].loc == old(units[i].loc)
    ensures Locations(units) == old(Locations(units))
  {
  }

  lemma OneRelocated(units: set<Unit>, u: Unit, was: map<Unit, Loc>)
    requires u in units && was.Keys == units && u.touch == {u.loc}
    requires forall v :: v in units && v != u ==> v.loc == was[v] && v.touch == {v.loc}
    ensures Touching(units, null) && Places(units) == was[u := u.loc]
  {
  }

  lemma SortedIn(units: seq<Unit>, k: nat)
    requires k < |units|
    ensures var keys := Locations(units);
            Sorted(Without(keys, k)) ==> Sorted(Locations(Moved(units, k, PlaceOf(keys, k))))
  {
    hide Sorted, Without, Moved, Locations, PlaceOf;
    var keys := Locations(units);
    LocationsMoved(units, k, PlaceOf(keys, k));
    if Sorted(Without(keys, k)) {
      MovedSorts(keys, k);
    }
  }

  lemma MovedNowhere<T>(s: seq<T>, k: nat)
    requires k < |s|
    ensures Moved(s, k, k) == s
  {
  }

  lemma {:induction false} FirstIsUnique(keys: seq<Loc>, l: Loc, p: nat)
    requires p <= |keys| && (forall i :: 0 <= i < p ==> !Before(l, keys[i])) && (p < |keys| ==> Before(l, keys[p]))
    ensures FirstBehind(keys, l) == p
  {
    hide FirstBehind;
  }

  /** The place among the others found by looking at all. */
  lemma FirstIs(keys: seq<Loc>, k: nat, i: nat)
    requires k < |keys| && i <= |keys| && i != k
    requires forall j :: 0 <= j < i && j != k ==> !Before(keys[k], keys[j])
    requires i < |keys| ==> Before(keys[k], keys[i])
    ensures PlaceOf(keys, k) == if i > k then i - 1 else i
  {
    hide FirstBehind;
    var others := Without(keys, k);
    assert forall j :: 0 <= j < |others| ==> others[j] == keys[if j < k then j else j + 1];
    var q := if i > k then i - 1 else i;
    assert forall j :: 0 <= j < q ==> !Before(keys[k], others[j]);
    FirstIsUnique(others, keys[k], q);
  }
}
