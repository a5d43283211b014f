/** Hex map locations: translation by an offset, adjacency, and the rotation of rule templates. */
module HexGeometry {

  datatype Loc = Loc(x: int, y: int)

  predicate Odd(n: int) { n % 2 == 1 }

  /** Division that truncates toward zero, as the source's `/` does. */
  function Quot(n: int, d: int): (q: int)
    requires d > 0
    ensures n >= 0 ==> q * d <= n < (q + 1) * d
    ensures n <= 0 ==> (q - 1) * d < n <= q * d
  {
    if n >= 0 then n / d else -(-n / d)
  }

  /** `legacy_sum`: columns are shifted against each other, so an odd step may change the row. */
  function Sum(l: Loc, a: Loc): Loc {
    Loc(l.x + a.x,
        l.y + a.y + (if a.x > 0 && Odd(a.x) && Odd(l.x) then 1
                     else if a.x < 0 && Odd(a.x) && !Odd(l.x) then -1
                     else 0))
  }

  function Negation(a: Loc): Loc { Loc(-a.x, -a.y) }

  /** `legacy_difference` */
  function Difference(l: Loc, a: Loc): Loc { Sum(l, Negation(a)) }

  /** Adding and subtracting the same offset undo each other. */
  lemma SumAndDifference(l: Loc, a: Loc)
    ensures Difference(Sum(l, a), a) == l
    ensures Sum(Difference(l, a), a) == l
  {
  }

  // ---------------------------------------------------------------- axial coordinates

  /** Steps along two of the three hex axes: `i` from north to south, `j` from north-east to south-west. */
  datatype Axial = Axial(i: int, j: int)

  function Plus(a: Axial, b: Axial): Axial { Axial(a.i + b.i, a.j + b.j) }
  function Minus(a: Axial, b: Axial): Axial { Axial(a.i - b.i, a.j - b.j) }

  /** Where a location lies. */
  function Position(l: Loc): Axial { Axial(l.y - (l.x - l.x % 2) / 2, l.x) }

  /** The translation an offset stands for; `rotate` reads the cells of a template this way. */
  function Offset(a: Loc): Axial { Axial(a.y - Quot(a.x, 2), a.x) }

  lemma PositionInjective(a: Loc, b: Loc)
    requires Position(a) == Position(b)
    ensures a == b
  {
  }

  /** `legacy_sum` is a translation of the hex plane, whatever the parities. */
  lemma SumTranslates(l: Loc, a: Loc)
    ensures Position(Sum(l, a)) == Plus(Position(l), Offset(a))
  {
  }

  /** The two readings agree exactly for columns that are even or not negative. */
  lemma ReadingsAgree(a: Loc)
    ensures Position(a) == Offset(a) <==> (a.x >= 0 || !Odd(a.x))
  {
  }

  predicate Step(d: Axial) {
    d in {Axial(1, 0), Axial(-1, 0), Axial(0, 1), Axial(0, -1), Axial(1, -1), Axial(-1, 1)}
  }

  function Abs(n: int): nat { if n < 0 then -n else n }

  /** `tiles_adjacent` */
  predicate Adjacent(a: Loc, b: Loc) {
    var xdiff, ydiff := Abs(a.x - b.x), Abs(a.y - b.y);
    || (ydiff == 1 && a.x == b.x)
    || (xdiff == 1 && a.y == b.y)
    || (xdiff == 1 && ydiff == 1 && if a.y > b.y then !Odd(a.x) else !Odd(b.x))
  }

  lemma AdjacentIsStep(a: Loc, b: Loc)
    ensures Adjacent(a, b) <==> Step(Minus(Position(a), Position(b)))
  {
  }

  // ---------------------------------------------------------------- rotation

  datatype Matrix = Matrix(ii: int, ij: int, ji: int, jj: int)

  const ROTATIONS: seq<Matrix> :=
    [Matrix(1, 0, 0, 1), Matrix(1, 1, -1, 0), Matrix(0, 1, -1, -1),
     Matrix(-1, 0, 0, -1), Matrix(-1, -1, 1, 0), Matrix(0, -1, 1, 1)]

  function Times(m: Matrix, a: Axial): Axial {
    Axial(m.ii * a.i + m.ij * a.j, m.ji * a.i + m.jj * a.j)
  }

  /** What `rotate` makes of a template cell. */
  function Rotated(l: Loc, angle: nat): Loc {
    var r := Times(ROTATIONS[angle % 6], Offset(l));
    Loc(r.j, r.i + (if r.j >= 0 then Quot(r.j, 2) else Quot(r.j - 1, 2)))
  }

  /** `n` turns by sixty degrees. */
  function Turn(a: Axial, n: nat): Axial {
    if n == 0 then a else var b := Turn(a, n - 1); Axial(b.i + b.j, -b.i)
  }

  lemma SixTurns(a: Axial)
    ensures Turn(a, 1) == Axial(a.i + a.j, -a.i)
    ensures Turn(a, 2) == Axial(a.j, -a.i - a.j)
    ensures Turn(a, 3) == Axial(-a.i, -a.j)
    ensures Turn(a, 4) == Axial(-a.i - a.j, a.i)
    ensures Turn(a, 5) == Axial(-a.j, a.i + a.j)
    ensures Turn(a, 6) == a
  {
    assert Turn(a, 0) == a;
    assert Turn(a, 1) == Axial(a.i + a.j, -a.i);
    assert Turn(a, 2) == Axial(a.j, -a.i - a.j);
    assert Turn(a, 3) == Axial(-a.i, -a.j);
    assert Turn(a, 4) == Axial(-a.i - a.j, a.i);
    assert Turn(a, 5) == Axial(-a.j, a.i + a.j);
  }

  lemma {:induction false} TurnsAdd(a: Axial, m: nat, n: nat)
    ensures Turn(Turn(a, m), n) == Turn(a, m + n)
  {
    if n > 0 {
      TurnsAdd(a, m, n - 1);
    }
  }

  lemma {:induction false} TurnPeriod(a: Axial, n: nat)
    ensures Turn(a, n) == Turn(a, n % 6)
  {
    hide Turn;
    if n >= 6 {
      assert (n - 6) % 6 == n % 6;
      TurnPeriod(a, n - 6);
      SixTurns(a);
      TurnsAdd(a, 6, n - 6);
    }
  }

  /** The table holds the powers of one linear map of order six. */
  lemma TableHoldsTurns(a: Axial, angle: nat)
    ensures Times(ROTATIONS[angle % 6], a) == Turn(a, angle)
  {
    assert Turn(a, 0) == a;
    hide Turn;
    SixTurns(a);
    TurnPeriod(a, angle);
    var k := angle % 6;
    assert k == 0 || k == 1 || k == 2 || k == 3 || k == 4 || k == 5;
  }

  /** Turning is linear. */
  lemma {:induction false} TurnLinear(a: Axial, b: Axial, n: nat)
    ensures Turn(Minus(a, b), n) == Minus(Turn(a, n), Turn(b, n))
    ensures Turn(Plus(a, b), n) == Plus(Turn(a, n), Turn(b, n))
  {
    if n > 0 {
      TurnLinear(a, b, n - 1);
    }
  }

  lemma {:induction false} TurnOneToOne(a: Axial, b: Axial, n: nat)
    ensures Turn(a, n) == Turn(b, n) <==> a == b
    ensures Step(Turn(a, n)) <==> Step(a)
  {
    if n > 0 {
      TurnOneToOne(a, b, n - 1);
    }
  }

  /** A rotated cell lies where turning the offset of the template cell puts it. */
  lemma RotatedPosition(l: Loc, angle: nat)
    ensures Position(Rotated(l, angle)) == Turn(Offset(l), angle)
  {
    TableHoldsTurns(Offset(l), angle);
  }

  lemma OffsetInjective(a: Loc, b: Loc)
    requires Offset(a) == Offset(b)
    ensures a == b
  {
  }

  /** Rotation never sends two template cells to one. */
  lemma RotateInjective(a: Loc, b: Loc, angle: nat)
    ensures Rotated(a, angle) == Rotated(b, angle) <==> a == b
  {
    if Rotated(a, angle) == Rotated(b, angle) {
      RotatedPosition(a, angle);
      RotatedPosition(b, angle);
      TurnOneToOne(Offset(a), Offset(b), angle);
      OffsetInjective(a, b);
    }
  }

  /** Neighbours stay neighbours and nothing else becomes one. */
  lemma RotateKeepsAdjacency(a: Loc, b: Loc, angle: nat)
    requires a.x >= 0 && b.x >= 0
    ensures Adjacent(Rotated(a, angle), Rotated(b, angle)) <==> Adjacent(a, b)
  {
    ReadingsAgree(a);
    ReadingsAgree(b);
    AdjacentIsStep(a, b);
    AdjacentIsStep(Rotated(a, angle), Rotated(b, angle));
    RotatedPosition(a, angle);
    RotatedPosition(b, angle);
    TurnLinear(Offset(a), Offset(b), angle);
    TurnOneToOne(Minus(Offset(a), Offset(b)), Axial(0, 0), angle);
  }

  /** Two rotations make one exactly when the column in between is even or not negative. */
  lemma RotateCompose(l: Loc, m: nat, n: nat)
    ensures var between := Rotated(l, m);
            Rotated(between, n) == Rotated(l, m + n) <==> (between.x >= 0 || !Odd(between.x))
  {
    var between := Rotated(l, m);
    RotatedPosition(l, m);
    RotatedPosition(between, n);
    RotatedPosition(l, m + n);
    TurnsAdd(Offset(l), m, n);
    TurnOneToOne(Offset(between), Position(between), n);
    ReadingsAgree(between);
    if Turn(Offset(between), n) == Turn(Position(between), n) {
      PositionInjective(Rotated(between, n), Rotated(l, m + n));
    }
  }

  // ---------------------------------------------------------------- a whole rule

  /** The height of a cell in half rows; even columns lie half a row higher. */
  function Height(l: Loc): int { 2 * l.y + l.x % 2 }

  /** The shift that brings a rotated rule back to columns and rows from zero on. */
  function Shift(minx: int, miny: int): Loc {
    var low := miny + (if Odd(miny) && Odd(minx) && minx < 0 then 2 else 0);
    var lower := low - (if !Odd(low) && Odd(minx) && minx > 0 then 2 else 0);
    Loc(-minx, -Quot(lower - 1, 2))
  }

  /** Shifted cells have rows and columns from zero on, the leftmost column becomes column zero and the
      topmost cell ends up at most one and a half rows down. */
  lemma ShiftIsValid(l: Loc, minx: int, miny: int)
    requires minx <= l.x && miny <= Height(l)
    ensures var r := Sum(l, Shift(minx, miny));
            && r.x >= 0 && r.y >= 0 && (l.x == minx ==> r.x == 0)
            && (Height(l) == miny ==> Height(r) <= if Odd(minx) && Odd(miny) then 0 else 3)
  {
  }

  /** The cells of a rule turned about the origin and then moved together. */
  ghost predicate TurnedTogether(was: seq<Loc>, now: seq<Loc>, angle: nat, shift: Axial) {
    |was| == |now| && forall k :: 0 <= k < |was| ==> Offset(now[k]) == Plus(Turn(Offset(was[k]), angle), shift)
  }

  method RotateCells(cells: array<Loc>, angle: nat)
    modifies cells
    ensures forall k :: 0 <= k < cells.Length ==> cells[k] == Rotated(old(cells[k]), angle)
  {
    hide *;
    for i := 0 to cells.Length
      invariant forall k :: 0 <= k < i ==> cells[k] == Rotated(old(cells[k]), angle)
      invariant forall k :: i <= k < cells.Length ==> cells[k] == old(cells[k])
    {
      cells[i] := Rotated(cells[i], angle);
    }
  }

  /** The least column and the least height of the cells. */
  method LeastColumnAndHeight(cells: array<Loc>) returns (minx: int, miny: int)
    ensures forall k :: 0 <= k < cells.Length ==> minx <= cells[k].x && miny <= Height(cells[k])
    ensures minx == INT_MAX || exists k :: 0 <= k < cells.Length && cells[k].x == minx
    ensures miny == INT_MAX || exists k :: 0 <= k < cells.Length && Height(cells[k]) == miny
  {
    minx, miny := INT_MAX, INT_MAX;
    for i := 0 to cells.Length
      invariant forall k :: 0 <= k < i ==> minx <= cells[k].x && miny <= Height(cells[k])
      invariant minx == INT_MAX || exists k :: 0 <= k < i && cells[k].x == minx
      invariant miny == INT_MAX || exists k :: 0 <= k < i && Height(cells[k]) == miny
    {
      minx := if cells[i].x < minx then cells[i].x else minx;
      miny := if Height(cells[i]) < miny then Height(cells[i]) else miny;
    }
  }

  method ShiftCells(cells: array<Loc>, shift: Loc)
    modifies cells
    ensures forall k :: 0 <= k < cells.Length ==> cells[k] == Sum(old(cells[k]), shift)
  {
    hide *;
    for i := 0 to cells.Length
      invariant forall k :: 0 <= k < i ==> cells[k] == Sum(old(cells[k]), shift)
      invariant forall k :: i <= k < cells.Length ==> cells[k] == old(cells[k])
    {
      cells[i] := Sum(cells[i], shift);
    }
  }

  /** `rotate_rule` on the cells of a rule: every cell is rotated in place, then all are shifted so that
      the rule starts in column zero; no cell has a negative column or row, and the topmost one ends up at most
      one and a half rows down, or right at the top when the least column and height were odd. */
  method RotateRule(cells: array<Loc>, angle: nat) returns (ghost minx: int, ghost miny: int)
    modifies cells
    ensures forall k :: 0 <= k < cells.Length ==> cells[k].x >= 0 && cells[k].y >= 0
    ensures forall k :: 0 <= k < cells.Length ==>
              minx <= Rotated(old(cells[k]), angle).x && miny <= Height(Rotated(old(cells[k]), angle))
    ensures minx == INT_MAX || exists k ::
              0 <= k < cells.Length && Rotated(old(cells[k]), angle).x == minx && cells[k].x == 0
    ensures miny == INT_MAX || exists k ::
              0 <= k < cells.Length && Height(Rotated(old(cells[k]), angle)) == miny
              && 2 * cells[k].y + cells[k].x % 2 <= if minx % 2 == 1 && miny % 2 == 1 then 0 else 3
    ensures cells.Length == 0 || (exists k :: 0 <= k < cells.Length && cells[k].x == 0)
            || forall k :: 0 <= k < cells.Length ==> Rotated(old(cells[k]), angle).x > INT_MAX
    ensures exists move: Axial :: TurnedTogether(old(cells[..]), cells[..], angle, move)
  {
    hide Rotated, Sum, Shift, Turn;
    RotateCells(cells, angle);
    var left, top := LeastColumnAndHeight(cells);
    minx, miny := left, top;
    var shift := Shift(left, top);
    ghost var turned := cells[..];
    ShiftCells(cells, shift);
    forall k | 0 <= k < cells.Length
      ensures cells[k].x >= 0 && cells[k].y >= 0 && (turned[k].x == minx ==> cells[k].x == 0)
      ensures Height(turned[k]) == miny ==> Height(cells[k]) <= if Odd(minx) && Odd(miny) then 0 else 3
      ensures Offset(cells[k]) == Plus(Turn(Offset(old(cells[k])), angle), Offset(shift))
    {
      ShiftIsValid(turned[k], minx, miny);
      ReadingsAgree(cells[k]);
      SumTranslates(turned[k], shift);
      RotatedPosition(old(cells[k]), angle);
    }
    assert TurnedTogether(old(cells[..]), cells[..], angle, Offset(shift));
  }

  const INT_MAX := 0x7fff_ffff

  /** A rotated rule tried anywhere covers the turned pattern: the way from one covered cell to another is
      the turned way between the cells the template would cover. */
  lemma RotatedRuleCovers(was: seq<Loc>, now: seq<Loc>, angle: nat, shift: Axial, l: Loc, at: Loc, j: nat, k: nat)
    requires TurnedTogether(was, now, angle, shift) && j < |was| && k < |was|
    ensures Minus(Position(Sum(at, now[j])), Position(Sum(at, now[k])))
         == Turn(Minus(Position(Sum(l, was[j])), Position(Sum(l, was[k]))), angle)
  {
    SumTranslates(at, now[j]);
    SumTranslates(at, now[k]);
    SumTranslates(l, was[j]);
    SumTranslates(l, was[k]);
    assert Minus(Position(Sum(l, was[j])), Position(Sum(l, was[k]))) == Minus(Offset(was[j]), Offset(was[k]));
    TurnLinear(Offset(was[j]), Offset(was[k]), angle);
  }
}
