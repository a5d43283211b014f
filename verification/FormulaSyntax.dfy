/** Written-out syntax with its parentheses, and what the scan for the loosest operator sees of it. */
module FormulaSyntax {
  import opened FormulaParser

  /** Written syntax; `Paren` marks the parentheses a writer put in. */
  datatype Syn =
    | SIdent(id: string) | SInt(n: int) | SStr(s: string)
    | SParen(inner: Syn)
    | SUnary(op: string, arg: Syn)
    | SBinary(op: string, left: Syn, right: Syn)
    | SList(items: seq<Syn>)
    | SIndex(base: Syn, key: Syn)
    | SCall(fn: string, args: seq<Syn>)
    | SWhere(body: Syn, clauses: seq<SClause>)

  datatype SClause = SClause(name: string, value: Syn)

  /** What can be written: any binary operator, with or without a precedence, the two unary ones, and
      `where` with at least one clause. */
  predicate Valid(s: Syn) {
    match s
    case SIdent(_) => true
    case SInt(_) => true
    case SStr(_) => true
    case SParen(x) => Valid(x)
    case SUnary(op, x) => (op == "not" || op == "-") && Valid(x)
    case SBinary(op, l, r) => op != "where" && Valid(l) && Valid(r)
    case SList(items) => forall i :: 0 <= i < |items| ==> Valid(items[i])
    case SIndex(b, k) => Valid(b) && Valid(k)
    case SCall(_, args) => forall i :: 0 <= i < |args| ==> Valid(args[i])
    case SWhere(b, cs) => Valid(b) && cs != [] && forall i :: 0 <= i < |cs| ==> Valid(cs[i].value)
  }

  function Tokens(s: Syn): (ts: seq<Token>)
    ensures ts != []
    decreases s
  {
    match s
    case SIdent(id) => [Name(id)]
    case SInt(n) => [Number(n)]
    case SStr(str) => [Quoted(str)]
    case SParen(x) => [LParen] + Tokens(x) + [RParen]
    case SUnary(op, x) => [Oper(op)] + Tokens(x)
    case SBinary(op, l, r) => Tokens(l) + [Oper(op)] + Tokens(r)
    case SList(items) => [LSquare] + Joined(items) + [RSquare]
    case SIndex(b, k) => Tokens(b) + [LSquare] + Tokens(k) + [RSquare]
    case SCall(fn, args) => [Name(fn), LParen] + Joined(args) + [RParen]
    case SWhere(b, cs) => Tokens(b) + [Oper("where")] + Clauses(cs)
  }

  function Joined(items: seq<Syn>): seq<Token>
    decreases items
  {
    if items == [] then []
    else if |items| == 1 then Tokens(items[0])
    else Tokens(items[0]) + [Comma] + Joined(items[1..])
  }

  function Clauses(cs: seq<SClause>): seq<Token>
    decreases cs
  {
    if cs == [] then []
    else
      var first := [Name(cs[0].name), Oper("=")] + Tokens(cs[0].value);
      if |cs| == 1 then first else first + [Comma] + Clauses(cs[1..])
  }

  /** The expression a syntax tree stands for. */
  function Strip(s: Syn): Expr {
    match s
    case SIdent(id) => Ident(id)
    case SInt(n) => Int(n)
    case SStr(str) => Str(str)
    case SParen(x) => Strip(x)
    case SUnary(op, x) => Unary(op, Strip(x))
    case SBinary(op, l, r) => Binary(op, Strip(l), Strip(r))
    case SList(items) => List(StripAll(items))
    case SIndex(b, k) => Index(Strip(b), Strip(k))
    case SCall(fn, args) => Call(fn, StripAll(args))
    case SWhere(b, cs) => Where(Strip(b), StripClauses(cs))
  }

  function StripClauses(cs: seq<SClause>): (r: seq<Clause>)
    ensures |r| == |cs|
    decreases cs
  {
    if cs == [] then [] else [Clause(cs[0].name, Strip(cs[0].value))] + StripClauses(cs[1..])
  }

  function StripAll(items: seq<Syn>): (r: seq<Expr>)
    ensures |r| == |items|
    decreases items
  {
    if items == [] then [] else [Strip(items[0])] + StripAll(items[1..])
  }

  // ---------------------------------------------------------------- what the scan sees

  /** Written with brackets only: such a piece does not end a run of operators. */
  predicate Hollow(s: Syn) {
    match s
    case SParen(x) => Hollow(x)
    case SList(items) => items == [] || (|items| == 1 && Hollow(items[0]))
    case SIndex(b, k) => Hollow(b) && Hollow(k)
    case _ => false
  }

  const NONE := 100

  function Min(a: nat, b: nat): nat { if a < b then a else b }

  /** The precedence of an operator, or 0 when the table has none. */
  function PrecOf(op: string): (p: nat)
    ensures p < NONE
  {
    if Prec(op).Some? then Prec(op).value else 0
  }

  /** Whether the scan is inside a run of operators after `s`, given whether it was before. */
  predicate RunAfter(s: Syn, run: bool) {
    match s
    case SUnary(_, x) => RunAfter(x, true)
    case SBinary(_, _, r) => RunAfter(r, true)
    case SIndex(b, k) => Hollow(k) && RunAfter(b, run)
    case SWhere(_, cs) => cs != [] && RunAfter(cs[|cs| - 1].value, true)
    case _ => Hollow(s) && run
  }

  /** How many operators of `s` the scan looks at: those outside brackets that do not follow another
      operator directly. */
  function Visible(s: Syn, run: bool): nat
    decreases s
  {
    match s
    case SUnary(op, x) => (if run then 0 else 1) + Visible(x, true)
    case SBinary(op, l, r) => Visible(l, run) + (if RunAfter(l, run) then 0 else 1) + Visible(r, true)
    case SIndex(b, _) => Visible(b, run)
    case SWhere(b, cs) => Visible(b, run) + (if RunAfter(b, run) then 0 else 1) + VisibleIn(cs)
    case _ => 0
  }

  /** In clauses the scan looks at every `=` behind a name and at what it sees of the value. */
  function VisibleIn(cs: seq<SClause>): nat
    decreases cs
  {
    if cs == [] then 0 else 1 + Visible(cs[0].value, true) + VisibleIn(cs[1..])
  }

  /** The lowest precedence among these operators; 0 when one of them has none. */
  function Loosest(s: Syn, run: bool): nat
    decreases s
  {
    match s
    case SUnary(op, x) => Min(if run then NONE else PrecOf(op), Loosest(x, true))
    case SBinary(op, l, r) =>
      Min(Loosest(l, run), Min(if RunAfter(l, run) then NONE else PrecOf(op), Loosest(r, true)))
    case SIndex(b, _) => Loosest(b, run)
    case SWhere(b, cs) =>
      Min(Loosest(b, run), Min(if RunAfter(b, run) then NONE else PrecOf("where"), LoosestIn(cs)))
    case _ => NONE
  }

  function LoosestIn(cs: seq<SClause>): nat
    decreases cs
  {
    if cs == [] then NONE else Min(Min(PrecOf("="), Loosest(cs[0].value, true)), LoosestIn(cs[1..]))
  }

  /** An operator between pieces that show the scan operators of these precedences is the one chosen:
      nothing on its left binds looser and everything on its right binds tighter; an operator without a
      precedence must be the only one, for comparing it fails. */
  predicate Fits(op: string, left: nat, right: nat) {
    if PrecOf(op) == 0 then left == NONE && right == NONE else PrecOf(op) <= left && PrecOf(op) < right
  }

  /** The value of a clause shows a comma or an `=` outside round brackets; square brackets hide nothing. */
  predicate Shows(s: Syn)
    decreases s
  {
    match s
    case SUnary(_, x) => Shows(x)
    case SBinary(op, l, r) => op == "=" || Shows(l) || Shows(r)
    case SList(items) => |items| > 1 || (|items| == 1 && Shows(items[0]))
    case SIndex(b, k) => Shows(b) || Shows(k)
    case SWhere(_, _) => true
    case _ => false
  }

  /** How many commas of `s` stand outside all brackets: those between the clauses of a `where`. */
  function OutsideCommas(s: Syn): nat
    decreases s
  {
    match s
    case SUnary(_, x) => OutsideCommas(x)
    case SBinary(_, l, r) => OutsideCommas(l) + OutsideCommas(r)
    case SIndex(b, _) => OutsideCommas(b)
    case SWhere(b, cs) => OutsideCommas(b) + OutsideCommasIn(cs)
    case _ => 0
  }

  function OutsideCommasIn(cs: seq<SClause>): nat
    decreases cs
  {
    if cs == [] then 0
    else OutsideCommas(cs[0].value) + (if |cs| > 1 then 1 else 0) + OutsideCommasIn(cs[1..])
  }

  /** Each operator is the one the scan ends up with, not hidden by an operator in front of it, no item of
      a list or call has a comma of its own outside brackets, and no clause shows the loop over the clauses
      a separator of its own. */
  predicate Unambiguous(s: Syn)
    decreases s
  {
    match s
    case SIdent(_) => true
    case SInt(_) => true
    case SStr(_) => true
    case SParen(x) => Unambiguous(x)
    case SUnary(op, x) => PrecOf(op) < Loosest(x, true) && Unambiguous(x)
    case SBinary(op, l, r) =>
      && !RunAfter(l, false) && Fits(op, Loosest(l, false), Loosest(r, true))
      && Unambiguous(l) && Unambiguous(r)
    case SList(items) => forall i :: 0 <= i < |items| ==> OutsideCommas(items[i]) == 0 && Unambiguous(items[i])
    case SIndex(b, k) => Loosest(b, false) == NONE && Unambiguous(b) && Unambiguous(k)
    case SCall(_, args) => forall i :: 0 <= i < |args| ==> OutsideCommas(args[i]) == 0 && Unambiguous(args[i])
    case SWhere(b, cs) =>
      && !RunAfter(b, false) && Fits("where", Loosest(b, false), LoosestIn(cs)) && Unambiguous(b)
      && forall i :: 0 <= i < |cs| ==> !Shows(cs[i].value) && Unambiguous(cs[i].value)
  }

  // ---------------------------------------------------------------- scanning written syntax

  lemma {:induction false} ScanConcat(st: Scan, a: seq<Token>, b: seq<Token>, i: nat)
    ensures ScanSpan(st, a + b, i) == ScanSpan(ScanSpan(st, a, i), b, i + |a|)
    decreases |a|
  {
    if a == [] {
      assert a + b == b;
    } else {
      assert (a + b)[0] == a[0] && (a + b)[1..] == a[1..] + b;
      ScanConcat(ScanStep(st, a[0], i), a[1..], b, i + 1);
    }
  }

  lemma {:induction false} ScanOne(st: Scan, t: Token, i: nat)
    ensures ScanSpan(st, [t], i) == ScanStep(st, t, i)
  {
  }

  /** Inside brackets nothing is chosen. */
  lemma {:induction false} ScanInside(s: Syn, st: Scan, i: nat)
    requires st.depth > 0 && !st.bad
    ensures ScanSpan(st, Tokens(s), i) == st.(group := Hollow(s) && st.group)
    decreases s, 1
  {
    hide ScanSpan, Prec, Shows, Unambiguous;
    match s
    case SIdent(id) => ScanOne(st, Name(id), i);
    case SInt(n) => ScanOne(st, Number(n), i);
    case SStr(str) => ScanOne(st, Quoted(str), i);
    case SParen(x) =>
      ScanThree(st, LParen, Tokens(x), RParen, i);
      ScanInside(x, st.(depth := st.depth + 1), i + 1);
    case SUnary(op, x) =>
      ScanConcat(st, [Oper(op)], Tokens(x), i);
      ScanOne(st, Oper(op), i);
      ScanInside(x, st.(group := false), i + 1);
    case SBinary(op, l, r) =>
      ScanMiddle(st, Tokens(l), Oper(op), Tokens(r), i);
      ScanInside(l, st, i);
      ScanInside(r, st.(group := false), i + |Tokens(l)| + 1);
    case SList(items) =>
      ScanThree(st, LSquare, Joined(items), RSquare, i);
      ScanJoined(items, st.(depth := st.depth + 1), i + 1);
    case SIndex(b, k) => ScanInsideIndex(b, k, st, i);
    case SCall(fn, args) =>
      ScanCall(st, fn, Joined(args), i);
      ScanJoined(args, st.(depth := st.depth + 1, group := false), i + 2);
    case SWhere(b, cs) => ScanInsideWhere(b, cs, st, i);
  }

  lemma {:induction false} ScanInsideIndex(b: Syn, k: Syn, st: Scan, i: nat)
    requires st.depth > 0 && !st.bad
    ensures ScanSpan(st, Tokens(SIndex(b, k)), i) == st.(group := Hollow(b) && Hollow(k) && st.group)
    decreases SIndex(b, k), 0
  {
    hide ScanSpan, Prec, Hollow;
    ScanIndex(st, Tokens(b), Tokens(k), i);
    ScanInside(b, st, i);
    var st1 := st.(group := Hollow(b) && st.group);
    ScanInside(k, st1.(depth := st.depth + 1), i + |Tokens(b)| + 1);
  }

  lemma {:induction false} ScanInsideWhere(b: Syn, cs: seq<SClause>, st: Scan, i: nat)
    requires st.depth > 0 && !st.bad
    ensures ScanSpan(st, Tokens(SWhere(b, cs)), i) == st.(group := false)
    decreases SWhere(b, cs), 0
  {
    hide ScanSpan, Prec, Hollow;
    ScanMiddle(st, Tokens(b), Oper("where"), Clauses(cs), i);
    ScanInside(b, st, i);
    ScanClauses(cs, st.(group := false), i + |Tokens(b)| + 1);
  }

  lemma {:induction false} ScanClauses(cs: seq<SClause>, st: Scan, i: nat)
    requires st.depth > 0 && !st.bad && !st.group
    ensures ScanSpan(st, Clauses(cs), i) == st
    decreases cs
  {
    hide ScanSpan, Prec;
    if cs == [] {
      ScanNothing(st, i);
    } else {
      var v := Tokens(cs[0].value);
      ScanClause(st, cs[0], i);
      ScanInside(cs[0].value, st, i + 2);
      if |cs| > 1 {
        ScanMiddle(st, [Name(cs[0].name), Oper("=")] + v, Comma, Clauses(cs[1..]), i);
        ScanClauses(cs[1..], st, i + 2 + |v| + 1);
      }
    }
  }

  lemma ScanNothing(st: Scan, i: nat)
    ensures ScanSpan(st, [], i) == st
  {
  }

  lemma {:induction false} ScanClause(st: Scan, c: SClause, i: nat)
    ensures ScanSpan(st, [Name(c.name), Oper("=")] + Tokens(c.value), i) ==
            ScanSpan(ScanStep(ScanStep(st, Name(c.name), i), Oper("="), i + 1), Tokens(c.value), i + 2)
  {
    hide ScanSpan;
    var head := [Name(c.name), Oper("=")];
    ScanConcat(st, head, Tokens(c.value), i);
    assert head == [Name(c.name)] + [Oper("=")];
    ScanConcat(st, [Name(c.name)], [Oper("=")], i);
    ScanOne(st, Name(c.name), i);
    ScanOne(ScanStep(st, Name(c.name), i), Oper("="), i + 1);
  }

  lemma {:induction false} ScanJoined(items: seq<Syn>, st: Scan, i: nat)
    requires st.depth > 0 && !st.bad
    ensures ScanSpan(st, Joined(items), i) ==
            st.(group := (items == [] || (|items| == 1 && Hollow(items[0]))) && st.group)
    decreases items
  {
    if |items| == 1 {
      ScanInside(items[0], st, i);
    } else if items != [] {
      ScanMiddle(st, Tokens(items[0]), Comma, Joined(items[1..]), i);
      ScanInside(items[0], st, i);
      ScanJoined(items[1..], st.(group := false), i + |Tokens(items[0])| + 1);
    }
  }

  lemma {:induction false} ScanThree(st: Scan, open: Token, ts: seq<Token>, close: Token, i: nat)
    ensures ScanSpan(st, [open] + ts + [close], i) ==
            ScanStep(ScanSpan(ScanStep(st, open, i), ts, i + 1), close, i + 1 + |ts|)
  {
    ScanConcat(st, [open] + ts, [close], i);
    ScanConcat(st, [open], ts, i);
    ScanOne(st, open, i);
    ScanOne(ScanSpan(st, [open] + ts, i), close, i + 1 + |ts|);
  }

  lemma {:induction false} ScanMiddle(st: Scan, a: seq<Token>, t: Token, b: seq<Token>, i: nat)
    ensures ScanSpan(st, a + [t] + b, i) == ScanSpan(ScanStep(ScanSpan(st, a, i), t, i + |a|), b, i + |a| + 1)
  {
    ScanConcat(st, a + [t], b, i);
    ScanConcat(st, a, [t], i);
    ScanOne(ScanSpan(st, a, i), t, i + |a|);
  }

  lemma {:induction false} ScanIndex(st: Scan, b: seq<Token>, k: seq<Token>, i: nat)
    ensures ScanSpan(st, b + [LSquare] + k + [RSquare], i) ==
            ScanStep(ScanSpan(ScanStep(ScanSpan(st, b, i), LSquare, i + |b|), k, i + |b| + 1), RSquare, i + |b| + 1 + |k|)
  {
    ScanConcat(st, b + [LSquare] + k, [RSquare], i);
    ScanMiddle(st, b, LSquare, k, i);
    ScanOne(ScanSpan(st, b + [LSquare] + k, i), RSquare, i + |b| + 1 + |k|);
  }

  lemma {:induction false} ScanCall(st: Scan, fn: string, ts: seq<Token>, i: nat)
    ensures ScanSpan(st, [Name(fn), LParen] + ts + [RParen], i) ==
            ScanStep(ScanSpan(ScanStep(ScanStep(st, Name(fn), i), LParen, i + 1), ts, i + 2), RParen, i + 2 + |ts|)
  {
    ScanConcat(st, [Name(fn), LParen] + ts, [RParen], i);
    ScanConcat(st, [Name(fn), LParen], ts, i);
    ScanConcat(st, [Name(fn)], [LParen], i);
    assert [Name(fn), LParen] == [Name(fn)] + [LParen];
    ScanOne(st, Name(fn), i);
    ScanOne(ScanStep(st, Name(fn), i), LParen, i + 1);
    ScanOne(ScanSpan(st, [Name(fn), LParen] + ts, i), RParen, i + 2 + |ts|);
  }

  // ---------------------------------------------------------------- the choice of the scan

  ghost function BestPrec(st: Scan): nat {
    if st.best.Some? then PrecOf(st.best.value.name) else NONE
  }

  /** How a piece with this many visible operators, the loosest of this precedence, changes the choice: an
      operator that binds no tighter takes over, and a comparison with an operator that has no precedence
      fails. */
  ghost predicate Chosen(st: Scan, r: Scan, loosest: nat, visible: nat, i: nat, n: nat) {
    if st.bad then r.bad
    else if visible == 0 then !r.bad && r.best == st.best
    else if st.best.Some? && (BestPrec(st) == 0 || loosest == 0) then r.bad
    else if visible > 1 && loosest == 0 then r.bad
    else
      && !r.bad
      && if st.best.Some? && BestPrec(st) < loosest then r.best == st.best
         else r.best.Some? && i <= r.best.value.at < i + n && PrecOf(r.best.value.name) == loosest
  }

  /** Where the scan is after a piece, unless a comparison has failed. */
  ghost predicate Stands(r: Scan, group: bool) {
    !r.bad ==> r.depth == 0 && r.group == group
  }

  /** The scan reads an operator outside brackets. */
  lemma ScanOperator(st: Scan, op: string, i: nat)
    requires !st.bad ==> st.depth == 0
    ensures var r := ScanStep(st, Oper(op), i);
            Stands(r, true) && Chosen(st, r, if st.group then NONE else PrecOf(op), if st.group then 0 else 1, i, 1)
  {
    hide Prec;
    PrecPositive(op);
    if st.best.Some? {
      PrecPositive(st.best.value.name);
    }
  }

  lemma PrecPositive(op: string)
    ensures PrecOf(op) > 0 <==> Prec(op).Some?
    ensures Prec(op).Some? ==> PrecOf(op) == Prec(op).value
  {
  }

  /** Two pieces after each other. */
  lemma ChosenBoth(st: Scan, mid: Scan, r: Scan, x: nat, vx: nat, y: nat, vy: nat, i: nat, m: nat, n: nat)
    requires Chosen(st, mid, x, vx, i, m) && Chosen(mid, r, y, vy, i + m, n)
    requires x <= NONE && y <= NONE && (vx == 0 <==> x == NONE) && (vy == 0 <==> y == NONE)
    ensures Chosen(st, r, Min(x, y), vx + vy, i, m + n)
  {
    hide PrecOf;
  }

  /** Two pieces around an operator that is seen or stands in a run. */
  lemma ChosenAround(st: Scan, a: Scan, b: Scan, c: Scan, x: nat, vx: nat, op: string, run: bool, y: nat, vy: nat,
                     i: nat, m: nat, n: nat)
    requires Chosen(st, a, x, vx, i, m) && Chosen(b, c, y, vy, i + m + 1, n)
    requires Chosen(a, b, if run then NONE else PrecOf(op), if run then 0 else 1, i + m, 1)
    requires x <= NONE && y <= NONE && (vx == 0 <==> x == NONE) && (vy == 0 <==> y == NONE)
    ensures Chosen(st, c, Min(x, Min(if run then NONE else PrecOf(op), y)), vx + (if run then 0 else 1) + vy, i, m + 1 + n)
  {
    hide PrecOf, Chosen;
    var p, v := if run then NONE else PrecOf(op), if run then 0 else 1;
    SeenOperator(op, run);
    ChosenBoth(a, b, c, p, v, y, vy, i + m, 1, n);
    ChosenBoth(st, a, c, x, vx, Min(p, y), v + vy, i, m, 1 + n);
  }

  /** What the scan sees of a piece: nothing if and only if no operator is visible. */
  lemma {:induction false} LoosestBound(s: Syn, run: bool)
    ensures Loosest(s, run) <= NONE && (Visible(s, run) == 0 <==> Loosest(s, run) == NONE)
    decreases s
  {
    hide PrecOf;
    match s
    case SUnary(op, x) => LoosestBound(x, true); PrecBounded(op);
    case SBinary(op, l, r) => LoosestBound(l, run); LoosestBound(r, true); PrecBounded(op);
    case SIndex(b, _) => LoosestBound(b, run);
    case SWhere(b, cs) => LoosestBound(b, run); LoosestInBound(cs); PrecBounded("where");
    case _ =>
  }

  lemma PrecBounded(op: string)
    ensures PrecOf(op) < NONE
  {
  }

  lemma {:induction false} LoosestInBound(cs: seq<SClause>)
    ensures LoosestIn(cs) <= NONE && (VisibleIn(cs) == 0 <==> LoosestIn(cs) == NONE)
    decreases cs
  {
    hide PrecOf;
    if cs != [] {
      LoosestBound(cs[0].value, true);
      LoosestInBound(cs[1..]);
      PrecBounded("=");
    }
  }

  ghost predicate Scanned(s: Syn, st: Scan, i: nat) {
    var r := ScanSpan(st, Tokens(s), i);
    Stands(r, RunAfter(s, st.group)) && Chosen(st, r, Loosest(s, st.group), Visible(s, st.group), i, |Tokens(s)|)
  }

  lemma {:induction false} ScanOutside(s: Syn, st: Scan, i: nat)
    requires Valid(s) && (!st.bad ==> st.depth == 0)
    ensures Scanned(s, st, i)
    decreases s, 1
  {
    hide ScanSpan, Prec, PrecOf, Chosen, Unambiguous, Shows;
    if st.bad {
      ScanBad(st, Tokens(s), i);
      ChosenBad(st, ScanSpan(st, Tokens(s), i), Loosest(s, st.group), Visible(s, st.group), i, |Tokens(s)|);
    } else {
      match s
      case SUnary(op, x) => ScanUnary(op, x, st, i);
      case SBinary(op, l, r) => ScanBinary(op, l, r, st, i);
      case SIndex(b, k) =>
        ScanIndex(st, Tokens(b), Tokens(k), i);
        ScanOutside(b, st, i);
        var st1 := ScanSpan(st, Tokens(b), i);
        if st1.bad {
          ScanBad(st1, [LSquare] + Tokens(k) + [RSquare], i + |Tokens(b)|);
          assert Tokens(s) == Tokens(b) + ([LSquare] + Tokens(k) + [RSquare]);
          ScanConcat(st, Tokens(b), [LSquare] + Tokens(k) + [RSquare], i);
        } else {
          ScanInside(k, st1.(depth := 1), i + |Tokens(b)| + 1);
        }
        ChosenLonger(st, st1, ScanSpan(st, Tokens(s), i), Loosest(b, st.group), Visible(b, st.group), i,
                     |Tokens(b)|, |Tokens(s)|);
      case SWhere(b, cs) => ScanWhere(b, cs, st, i);
      case _ =>
        ScanAtom(s, st, i);
        ChosenNone(st, ScanSpan(st, Tokens(s), i), i, |Tokens(s)|);
    }
  }

  lemma ChosenBad(st: Scan, r: Scan, loosest: nat, visible: nat, i: nat, n: nat)
    requires st.bad && r.bad
    ensures Chosen(st, r, loosest, visible, i, n)
  {
  }

  lemma ChosenNone(st: Scan, r: Scan, i: nat, n: nat)
    requires r.best == st.best && r.bad == st.bad
    ensures Chosen(st, r, NONE, 0, i, n)
  {
  }

  lemma ChosenLonger(st: Scan, mid: Scan, r: Scan, x: nat, v: nat, i: nat, m: nat, n: nat)
    requires Chosen(st, mid, x, v, i, m) && r.best == mid.best && r.bad == mid.bad && m <= n
    ensures Chosen(st, r, x, v, i, n)
  {
    hide PrecOf;
  }

  /** Atoms, parentheses, lists and calls show the scan no operator. */
  lemma {:induction false} ScanAtom(s: Syn, st: Scan, i: nat)
    requires st.depth == 0 && !st.bad && !s.SUnary? && !s.SBinary? && !s.SIndex? && !s.SWhere?
    ensures ScanSpan(st, Tokens(s), i) == st.(group := Hollow(s) && st.group)
  {
    hide ScanSpan, Prec;
    match s
    case SIdent(id) => ScanOne(st, Name(id), i);
    case SInt(n) => ScanOne(st, Number(n), i);
    case SStr(str) => ScanOne(st, Quoted(str), i);
    case SParen(x) =>
      ScanThree(st, LParen, Tokens(x), RParen, i);
      ScanInside(x, st.(depth := 1), i + 1);
    case SList(items) =>
      ScanThree(st, LSquare, Joined(items), RSquare, i);
      ScanJoined(items, st.(depth := 1), i + 1);
    case SCall(fn, args) =>
      ScanCall(st, fn, Joined(args), i);
      ScanJoined(args, st.(depth := 1, group := false), i + 2);
  }

  lemma {:induction false} ScanUnary(op: string, x: Syn, st: Scan, i: nat)
    requires Valid(x) && st.depth == 0 && !st.bad
    ensures Scanned(SUnary(op, x), st, i)
    decreases x, 2
  {
    hide ScanSpan, Prec, PrecOf, Chosen;
    var mid := ScanStep(st, Oper(op), i);
    ScanConcat(st, [Oper(op)], Tokens(x), i);
    ScanOne(st, Oper(op), i);
    ScanOperator(st, op, i);
    SeenOperator(op, st.group);
    ScanOutside(x, mid, i + 1);
    ScannedFrom(x, mid, i + 1, true);
    LoosestBound(x, true);
    ChosenBoth(st, mid, ScanSpan(mid, Tokens(x), i + 1), if st.group then NONE else PrecOf(op), if st.group then 0 else 1,
               Loosest(x, true), Visible(x, true), i, 1, |Tokens(x)|);
  }

  lemma SeenOperator(op: string, run: bool)
    ensures (if run then NONE else PrecOf(op)) <= NONE
    ensures (if run then 0 else 1) == 0 <==> (if run then NONE else PrecOf(op)) == NONE
  {
  }

  /** A state that is bad, or whose run is known, may be taken for the run it stands in. */
  lemma ScannedFrom(s: Syn, st: Scan, i: nat, group: bool)
    requires Scanned(s, st, i) && Stands(st, group)
    ensures var r := ScanSpan(st, Tokens(s), i);
            (st.bad ==> r.bad) ==>
              Stands(r, RunAfter(s, group)) && Chosen(st, r, Loosest(s, group), Visible(s, group), i, |Tokens(s)|)
    ensures st.bad ==> ScanSpan(st, Tokens(s), i).bad
  {
    hide ScanSpan, Prec, PrecOf, RunAfter, Loosest, Visible;
    if st.bad {
      ScanBad(st, Tokens(s), i);
    }
  }

  lemma {:induction false} ScanBinary(op: string, l: Syn, r: Syn, st: Scan, i: nat)
    requires Valid(l) && Valid(r) && st.depth == 0 && !st.bad
    ensures Scanned(SBinary(op, l, r), st, i)
    decreases SBinary(op, l, r), 0
  {
    hide ScanSpan, Prec, PrecOf, Chosen, Valid;
    var n := |Tokens(l)|;
    var a := ScanSpan(st, Tokens(l), i);
    var b := ScanStep(a, Oper(op), i + n);
    var c := ScanSpan(b, Tokens(r), i + n + 1);
    ScanMiddle(st, Tokens(l), Oper(op), Tokens(r), i);
    ScanOutside(l, st, i);
    ScanOperator(a, op, i + n);
    ScanOutside(r, b, i + n + 1);
    ScannedFrom(r, b, i + n + 1, true);
    LoosestBound(l, st.group);
    LoosestBound(r, true);
    var run := RunAfter(l, st.group);
    OperatorFrom(a, b, op, run, i + n);
    ChosenAround(st, a, b, c, Loosest(l, st.group), Visible(l, st.group), op, run, Loosest(r, true), Visible(r, true),
                 i, n, |Tokens(r)|);
  }

  lemma OperatorFrom(a: Scan, b: Scan, op: string, run: bool, i: nat)
    requires Stands(a, run)
    requires Chosen(a, b, if a.group then NONE else PrecOf(op), if a.group then 0 else 1, i, 1)
    ensures Chosen(a, b, if run then NONE else PrecOf(op), if run then 0 else 1, i, 1)
  {
    hide PrecOf;
  }

  /** One clause: the name ends a run of operators, then its `=` is seen, then what the value shows. */
  lemma {:induction false} ScanOneClause(c: SClause, st: Scan, i: nat)
    requires Valid(c.value) && (!st.bad ==> st.depth == 0)
    ensures var ts := [Name(c.name), Oper("=")] + Tokens(c.value);
            var r := ScanSpan(st, ts, i);
            && Stands(r, RunAfter(c.value, true))
            && Chosen(st, r, Min(PrecOf("="), Loosest(c.value, true)), 1 + Visible(c.value, true), i, |ts|)
    decreases c.value, 3
  {
    hide ScanSpan, Prec, PrecOf, Chosen;
    var v := Tokens(c.value);
    var st1 := ScanStep(st, Name(c.name), i);
    var st2 := ScanStep(st1, Oper("="), i + 1);
    var r := ScanSpan(st2, v, i + 2);
    ScanClause(st, c, i);
    NameSeen(st, c.name, i);
    ScanOperator(st1, "=", i + 1);
    EqualsSeen(st1, st2, i + 1);
    ScanOutside(c.value, st2, i + 2);
    ScannedFrom(c.value, st2, i + 2, true);
    LoosestBound(c.value, true);
    PrecBounded("=");
    ChosenBoth(st1, st2, r, PrecOf("="), 1, Loosest(c.value, true), Visible(c.value, true), i + 1, 1, |v|);
    var both := Min(PrecOf("="), Loosest(c.value, true));
    ChosenBoth(st, st1, r, NONE, 0, both, 1 + Visible(c.value, true), i, 1, 1 + |v|);
  }

  lemma NameSeen(st: Scan, name: string, i: nat)
    requires !st.bad ==> st.depth == 0
    ensures var r := ScanStep(st, Name(name), i);
            Stands(r, false) && (r.bad <==> st.bad) && Chosen(st, r, NONE, 0, i, 1)
  {
  }

  lemma EqualsSeen(st: Scan, r: Scan, i: nat)
    requires Stands(st, false)
    requires Chosen(st, r, if st.group then NONE else PrecOf("="), if st.group then 0 else 1, i, 1)
    ensures Chosen(st, r, PrecOf("="), 1, i, 1)
  {
    hide PrecOf;
  }

  lemma {:induction false} ScanClauseList(cs: seq<SClause>, st: Scan, i: nat)
    requires cs != [] && (forall k :: 0 <= k < |cs| ==> Valid(cs[k].value)) && (!st.bad ==> st.depth == 0)
    ensures var r := ScanSpan(st, Clauses(cs), i);
            && Stands(r, RunAfter(cs[|cs| - 1].value, true))
            && Chosen(st, r, LoosestIn(cs), VisibleIn(cs), i, |Clauses(cs)|)
    decreases cs, 4
  {
    hide ScanSpan, Prec, PrecOf, Chosen, RunAfter;
    var first, rest := [Name(cs[0].name), Oper("=")] + Tokens(cs[0].value), cs[1..];
    var x, vx := Min(PrecOf("="), Loosest(cs[0].value, true)), 1 + Visible(cs[0].value, true);
    var a := ScanSpan(st, first, i);
    ScanOneClause(cs[0], st, i);
    PrecBounded("=");
    LoosestBound(cs[0].value, true);
    if |cs| > 1 {
      ScanMiddle(st, first, Comma, Clauses(rest), i);
      var b := ScanStep(a, Comma, i + |first|);
      CommaSeen(a, i + |first|);
      ChosenLonger(st, a, b, x, vx, i, |first|, |first| + 1);
      ScanClauseList(rest, b, i + |first| + 1);
      LoosestInBound(rest);
      ChosenBoth(st, b, ScanSpan(b, Clauses(rest), i + |first| + 1), x, vx, LoosestIn(rest), VisibleIn(rest),
                 i, |first| + 1, |Clauses(rest)|);
    } else {
      assert rest == [];
      MinNone(x);
    }
  }

  lemma MinNone(x: nat)
    requires x <= NONE
    ensures Min(x, NONE) == x
  {
  }

  lemma CommaSeen(st: Scan, i: nat)
    ensures var r := ScanStep(st, Comma, i);
            r.best == st.best && r.bad == st.bad && (!r.bad ==> r.depth == st.depth)
  {
  }

  lemma {:induction false} ScanWhere(b: Syn, cs: seq<SClause>, st: Scan, i: nat)
    requires Valid(SWhere(b, cs)) && st.depth == 0 && !st.bad
    ensures Scanned(SWhere(b, cs), st, i)
    decreases SWhere(b, cs), 0
  {
    hide ScanSpan, Prec, PrecOf, Chosen;
    var n, op := |Tokens(b)|, "where";
    var x := ScanSpan(st, Tokens(b), i);
    var y := ScanStep(x, Oper(op), i + n);
    var z := ScanSpan(y, Clauses(cs), i + n + 1);
    ScanMiddle(st, Tokens(b), Oper(op), Clauses(cs), i);
    ScanOutside(b, st, i);
    ScanOperator(x, op, i + n);
    ScanClauseList(cs, y, i + n + 1);
    LoosestBound(b, st.group);
    LoosestInBound(cs);
    var run := RunAfter(b, st.group);
    OperatorFrom(x, y, op, run, i + n);
    ChosenAround(st, x, y, z, Loosest(b, st.group), Visible(b, st.group), op, run, LoosestIn(cs), VisibleIn(cs),
                 i, n, |Clauses(cs)|);
  }
}
