/** A printer that puts parentheses where the precedence table, left association, an operator without a
    precedence or a separator asks for them, and the proof that the parser inverts it. */
module FormulaPrinter {
  import opened FormulaParser
  import opened FormulaSyntax
  import opened FormulaRoundTrip

  /** Expressions of literals, identifiers, operators, non-empty lists, element access, calls and `where`
      with at least one clause. */
  predicate Printable(e: Expr) {
    match e
    case Ident(_) => true
    case Int(_) => true
    case Str(_) => true
    case Unary(op, x) => (op == "not" || op == "-") && Printable(x)
    case Binary(op, l, r) => op != "where" && Printable(l) && Printable(r)
    case List(items) => items != [] && forall i :: 0 <= i < |items| ==> Printable(items[i])
    case Index(b, k) => Printable(b) && Printable(k)
    case Call(_, args) => forall i :: 0 <= i < |args| ==> Printable(args[i])
    case Where(b, cs) => Printable(b) && cs != [] && forall i :: 0 <= i < |cs| ==> Printable(cs[i].value)
  }

  /** How tightly the outermost operator binds; brackets and atoms bind tightest. */
  function Binding(e: Expr): nat {
    match e
    case Unary(op, _) => PrecOf(op)
    case Binary(op, _, _) => PrecOf(op)
    case Where(_, _) => PrecOf("where")
    case _ => NONE
  }

  function Wrapped(parens: bool, s: Syn): Syn { if parens then SParen(s) else s }

  function Print(e: Expr): Syn
    decreases e
  {
    match e
    case Ident(id) => SIdent(id)
    case Int(n) => SInt(n)
    case Str(s) => SStr(s)
    case Unary(op, x) => SUnary(op, Wrapped(Binding(x) <= PrecOf(op), Print(x)))
    case Binary(op, l, r) =>
      if PrecOf(op) == 0 then SBinary(op, Wrapped(Binding(l) < NONE, Print(l)), Wrapped(Binding(r) < NONE, Print(r)))
      else SBinary(op, Wrapped(Binding(l) < PrecOf(op), Print(l)), Wrapped(Binding(r) <= PrecOf(op), Print(r)))
    case List(items) => SList(PrintAll(items))
    case Index(b, k) => SIndex(Wrapped(Binding(b) < NONE, Print(b)), Print(k))
    case Call(fn, args) => SCall(fn, PrintAll(args))
    case Where(b, cs) => SWhere(Wrapped(Binding(b) < PrecOf("where"), Print(b)), PrintClauses(cs))
  }

  function PrintAll(items: seq<Expr>): (r: seq<Syn>)
    ensures |r| == |items|
    decreases items
  {
    if items == [] then []
    else [Wrapped(OutsideCommas(Print(items[0])) > 0, Print(items[0]))] + PrintAll(items[1..])
  }

  function PrintClauses(cs: seq<Clause>): (r: seq<SClause>)
    ensures |r| == |cs|
    decreases cs
  {
    if cs == [] then []
    else [SClause(cs[0].name, Value(Print(cs[0].value), Binding(cs[0].value)))] + PrintClauses(cs[1..])
  }

  function Value(s: Syn, binding: nat): Syn { Wrapped(binding <= PrecOf("where") || Shows(s), s) }

  lemma {:induction false} PrintFaithful(e: Expr)
    requires Printable(e)
    ensures Valid(Print(e)) && Strip(Print(e)) == e
    decreases e
  {
    hide Prec, PrecOf, OutsideCommas, Shows, Binding, Wrapped;
    match e
    case Unary(op, x) => PrintFaithful(x); WrappedFaithful(Binding(x) <= PrecOf(op), Print(x));
    case Binary(op, l, r) => PrintFaithful(l); PrintFaithful(r); BinaryFaithful(op, l, r);
    case List(items) => PrintFaithfulAll(items);
    case Index(b, k) => PrintFaithful(b); PrintFaithful(k); WrappedFaithful(Binding(b) < NONE, Print(b));
    case Call(_, args) => PrintFaithfulAll(args);
    case Where(b, cs) => PrintFaithful(b); PrintFaithfulClauses(cs); WhereFaithful(b, cs);
    case _ =>
  }

  lemma BinaryFaithful(op: string, l: Expr, r: Expr)
    requires op != "where" && Valid(Print(l)) && Valid(Print(r)) && Strip(Print(l)) == l && Strip(Print(r)) == r
    ensures Valid(Print(Binary(op, l, r))) && Strip(Print(Binary(op, l, r))) == Binary(op, l, r)
  {
    hide PrecOf, Binding, Wrapped;
    var none := PrecOf(op) == 0;
    WrappedFaithful(if none then Binding(l) < NONE else Binding(l) < PrecOf(op), Print(l));
    WrappedFaithful(if none then Binding(r) < NONE else Binding(r) <= PrecOf(op), Print(r));
  }

  lemma WhereFaithful(b: Expr, cs: seq<Clause>)
    requires cs != [] && Valid(Print(b)) && Strip(Print(b)) == b
    requires (forall i :: 0 <= i < |cs| ==> Valid(PrintClauses(cs)[i].value)) && StripClauses(PrintClauses(cs)) == cs
    ensures Valid(Print(Where(b, cs))) && Strip(Print(Where(b, cs))) == Where(b, cs)
  {
    hide PrecOf, Binding, Wrapped, PrintClauses, StripClauses;
    WrappedFaithful(Binding(b) < PrecOf("where"), Print(b));
  }

  lemma WrappedFaithful(parens: bool, s: Syn)
    requires Valid(s)
    ensures Valid(Wrapped(parens, s)) && Strip(Wrapped(parens, s)) == Strip(s)
  {
  }

  lemma {:induction false} PrintFaithfulAll(items: seq<Expr>)
    requires forall i :: 0 <= i < |items| ==> Printable(items[i])
    ensures forall i :: 0 <= i < |items| ==> Valid(PrintAll(items)[i])
    ensures StripAll(PrintAll(items)) == items
    decreases items
  {
    hide OutsideCommas;
    if items != [] {
      PrintFaithful(items[0]);
      PrintFaithfulAll(items[1..]);
      assert forall i :: 0 < i < |items| ==> PrintAll(items)[i] == PrintAll(items[1..])[i - 1];
      assert items == [items[0]] + items[1..];
    }
  }

  lemma ValueFaithful(s: Syn, binding: nat)
    requires Valid(s)
    ensures Valid(Value(s, binding)) && Strip(Value(s, binding)) == Strip(s)
  {
    hide Shows, PrecOf;
  }

  lemma {:induction false} PrintFaithfulClauses(cs: seq<Clause>)
    requires forall i :: 0 <= i < |cs| ==> Printable(cs[i].value)
    ensures forall i :: 0 <= i < |cs| ==> Valid(PrintClauses(cs)[i].value)
    ensures StripClauses(PrintClauses(cs)) == cs
    decreases cs
  {
    hide Shows, PrecOf, Binding, Value;
    if cs != [] {
      PrintFaithful(cs[0].value);
      PrintFaithfulClauses(cs[1..]);
      ValueFaithful(Print(cs[0].value), Binding(cs[0].value));
      assert forall i :: 0 < i < |cs| ==> PrintClauses(cs)[i] == PrintClauses(cs[1..])[i - 1];
      assert cs == [cs[0]] + cs[1..];
    }
  }

  /** Printed syntax ends no run of operators and shows nothing looser than its outermost operator. */
  ghost predicate Shaped(s: Syn, binding: nat, run: bool) {
    !Hollow(s) && !RunAfter(s, run) && Loosest(s, run) >= binding
  }

  lemma {:induction false} PrintShape(e: Expr, run: bool)
    requires Printable(e)
    ensures Shaped(Print(e), Binding(e), run)
    decreases e
  {
    hide PrecOf;
    match e
    case Unary(op, x) =>
      PrintShape(x, true);
      PrecBounded(op);
      WrappedShape(Binding(x) <= PrecOf(op), Print(x), Binding(x), true);
    case Binary(op, l, r) => PrintShape(l, run); PrintShape(r, true); ShapeBinary(op, l, r, run);
    case List(items) => PrintShape(items[0], run); PrintAllFirst(items);
    case Index(b, k) =>
      PrintShape(b, run);
      PrintShape(k, run);
      WrappedShape(Binding(b) < NONE, Print(b), Binding(b), run);
    case Where(b, cs) => PrintShape(b, run); PrintShapeClauses(cs); ShapeWhere(b, cs, run);
    case _ =>
  }

  lemma WrappedShape(parens: bool, s: Syn, binding: nat, run: bool)
    requires Shaped(s, binding, run)
    ensures Shaped(Wrapped(parens, s), if parens then NONE else binding, run)
  {
  }

  lemma ShapeBinary(op: string, l: Expr, r: Expr, run: bool)
    requires Shaped(Print(l), Binding(l), run) && Shaped(Print(r), Binding(r), true)
    ensures Shaped(Print(Binary(op, l, r)), PrecOf(op), run)
  {
    hide PrecOf, Binding, Shaped;
    PrecBounded(op);
    var none := PrecOf(op) == 0;
    var left, right := if none then Binding(l) < NONE else Binding(l) < PrecOf(op),
                       if none then Binding(r) < NONE else Binding(r) <= PrecOf(op);
    WrappedShape(left, Print(l), Binding(l), run);
    WrappedShape(right, Print(r), Binding(r), true);
    BinaryShape(op, Wrapped(left, Print(l)), if left then NONE else Binding(l), Wrapped(right, Print(r)),
                if right then NONE else Binding(r), run);
  }

  lemma BinaryShape(op: string, l: Syn, x: nat, r: Syn, y: nat, run: bool)
    requires Shaped(l, x, run) && Shaped(r, y, true) && PrecOf(op) <= x && PrecOf(op) <= y
    ensures Shaped(SBinary(op, l, r), PrecOf(op), run)
  {
    hide PrecOf;
    PrecBounded(op);
  }

  lemma ShapeWhere(b: Expr, cs: seq<Clause>, run: bool)
    requires cs != [] && Shaped(Print(b), Binding(b), run)
    requires LoosestIn(PrintClauses(cs)) > PrecOf("where") && !RunAfter(PrintClauses(cs)[|cs| - 1].value, true)
    ensures Shaped(Print(Where(b, cs)), PrecOf("where"), run)
  {
    hide PrecOf, Binding, PrintClauses;
    PrecBounded("where");
    WrappedShape(Binding(b) < PrecOf("where"), Print(b), Binding(b), run);
    var s := SWhere(Wrapped(Binding(b) < PrecOf("where"), Print(b)), PrintClauses(cs));
    assert Loosest(s.body, run) >= PrecOf("where") && !RunAfter(s.body, run);
    assert Print(Where(b, cs)) == s;
  }

  lemma PrintAllFirst(items: seq<Expr>)
    requires items != []
    ensures Hollow(PrintAll(items)[0]) == Hollow(Print(items[0]))
  {
  }

  lemma {:induction false} PrintShapeClauses(cs: seq<Clause>)
    requires forall i :: 0 <= i < |cs| ==> Printable(cs[i].value)
    ensures LoosestIn(PrintClauses(cs)) > PrecOf("where")
    ensures cs != [] ==> !RunAfter(PrintClauses(cs)[|cs| - 1].value, true)
    decreases cs
  {
    hide PrecOf, Shows;
    WhereBeforeEquals();
    PrecBounded("where");
    if cs != [] {
      PrintShape(cs[0].value, true);
      PrintShapeClauses(cs[1..]);
      ValueShape(Print(cs[0].value), Binding(cs[0].value));
      assert PrintClauses(cs)[1..] == PrintClauses(cs[1..]);
    }
  }

  lemma ValueShape(s: Syn, binding: nat)
    requires Shaped(s, binding, true)
    ensures !RunAfter(Value(s, binding), true) && Loosest(Value(s, binding), true) > PrecOf("where")
    ensures !Shows(Value(s, binding))
  {
    hide PrecOf;
    PrecBounded("where");
  }

  lemma {:induction false} PrintUnambiguous(e: Expr)
    requires Printable(e)
    ensures Unambiguous(Print(e))
    decreases e
  {
    hide PrecOf, Shows, OutsideCommas, Loosest, RunAfter, Valid, Strip;
    match e
    case Unary(op, x) => PrintUnambiguous(x); UnaryFits(op, x);
    case Binary(op, l, r) => PrintUnambiguous(l); PrintUnambiguous(r); PrintFits(op, l, r);
    case List(items) => PrintUnambiguousAll(items);
    case Index(b, k) => PrintUnambiguous(b); PrintUnambiguous(k); IndexFits(b);
    case Call(_, args) => PrintUnambiguousAll(args);
    case Where(b, cs) => PrintUnambiguous(b); PrintUnambiguousClauses(cs); WhereFits(b, cs);
    case _ =>
  }

  lemma {:induction false} UnaryFits(op: string, x: Expr)
    requires Printable(Unary(op, x))
    ensures PrecOf(op) < Loosest(Wrapped(Binding(x) <= PrecOf(op), Print(x)), true)
  {
    hide PrecOf;
    PrintShape(x, true);
    PrecBounded(op);
  }

  lemma {:induction false} IndexFits(b: Expr)
    requires Printable(b)
    ensures Loosest(Wrapped(Binding(b) < NONE, Print(b)), false) == NONE
  {
    hide PrecOf;
    PrintShape(b, false);
    LoosestBound(Print(b), false);
  }

  lemma {:induction false} WhereFits(b: Expr, cs: seq<Clause>)
    requires Printable(Where(b, cs))
    ensures var body := Wrapped(Binding(b) < PrecOf("where"), Print(b));
            !RunAfter(body, false) && Fits("where", Loosest(body, false), LoosestIn(PrintClauses(cs)))
  {
    hide PrecOf;
    PrintShape(b, false);
    PrintShapeClauses(cs);
    WhereBeforeEquals();
    PrecBounded("where");
  }

  lemma {:induction false} PrintFits(op: string, l: Expr, r: Expr)
    requires Printable(Binary(op, l, r))
    ensures var s := Print(Binary(op, l, r));
            !RunAfter(s.left, false) && Fits(op, Loosest(s.left, false), Loosest(s.right, true))
  {
    hide PrecOf;
    PrecBounded(op);
    PrintShape(l, false);
    PrintShape(r, true);
    LoosestBound(Print(l), false);
    LoosestBound(Print(r), true);
  }

  lemma {:induction false} PrintUnambiguousAll(items: seq<Expr>)
    requires forall i :: 0 <= i < |items| ==> Printable(items[i])
    ensures forall i :: 0 <= i < |items| ==> OutsideCommas(PrintAll(items)[i]) == 0 && Unambiguous(PrintAll(items)[i])
    decreases items
  {
    if items != [] {
      PrintUnambiguous(items[0]);
      PrintUnambiguousAll(items[1..]);
      assert forall i :: 0 < i < |items| ==> PrintAll(items)[i] == PrintAll(items[1..])[i - 1];
    }
  }

  lemma ValuePlain(s: Syn, binding: nat)
    requires Unambiguous(s)
    ensures !Shows(Value(s, binding)) && Unambiguous(Value(s, binding))
  {
  }

  lemma {:induction false} PrintUnambiguousClauses(cs: seq<Clause>)
    requires forall i :: 0 <= i < |cs| ==> Printable(cs[i].value)
    ensures forall i :: 0 <= i < |cs| ==> !Shows(PrintClauses(cs)[i].value) && Unambiguous(PrintClauses(cs)[i].value)
    decreases cs
  {
    hide PrecOf, Binding, Shows, Value;
    if cs != [] {
      PrintUnambiguous(cs[0].value);
      PrintUnambiguousClauses(cs[1..]);
      ValuePlain(Print(cs[0].value), Binding(cs[0].value));
      assert forall i :: 0 < i < |cs| ==> PrintClauses(cs)[i] == PrintClauses(cs[1..])[i - 1];
    }
  }

  /** The parser inverts the printer. */
  lemma {:induction false} ParsePrinted(e: Expr)
    requires Printable(e)
    ensures Parse(Tokens(Print(e))) == Some(e)
  {
    hide Parse;
    PrintFaithful(e);
    PrintUnambiguous(e);
    ParserExact(Print(e));
  }

  /** An operator right after an empty list that follows another operator is overlooked: whatever the
      operands, such a sum is never read with its left association. */
  lemma {:induction false} EmptyListHidesOperator(op: string, l: Syn, op': string, r: Syn)
    requires Valid(SBinary(op', SBinary(op, l, SList([])), r))
    ensures var s := SBinary(op', SBinary(op, l, SList([])), r);
            Parse(Tokens(s)) != Some(Strip(s))
  {
    hide Parse, Prec;
    var s := SBinary(op', SBinary(op, l, SList([])), r);
    ParserExact(s);
    assert RunAfter(SList([]), true);
    assert RunAfter(SBinary(op, l, SList([])), false);
  }
}
