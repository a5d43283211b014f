/** The parser against written-out syntax: for every syntax tree with its parentheses, the parser
    gives back the expression the tree stands for exactly when each operator is where the scan for
    the loosest operator ends up, no item has a comma of its own, and no clause shows a separator. */
module FormulaRoundTrip {
  import opened FormulaParser
  import opened FormulaSyntax
  import opened FormulaWords
  import opened FormulaBrackets

  // ---------------------------------------------------------------- the operator chosen

  /** A piece that shows the scan no operator is none itself and does not end a run. */
  lemma {:induction false} ClosedNoRun(s: Syn)
    requires Valid(s) && Loosest(s, false) == NONE
    ensures !RunAfter(s, false) && !s.SUnary? && !s.SBinary? && !s.SWhere?
    decreases s
  {
    hide PrecOf;
    match s
    case SUnary(op, x) => PrecBounded(op);
    case SBinary(op, l, r) =>
      LoosestBound(l, false);
      LoosestBound(r, true);
      PrecBounded(op);
      if Loosest(l, false) == NONE { ClosedNoRun(l); }
    case SIndex(b, _) => ClosedNoRun(b);
    case SWhere(b, cs) => PrecBounded("=");
    case _ =>
  }

  /** The operator in the middle is the choice of the scan. */
  ghost predicate Chooses(l: Syn, op: string, right: nat) {
    !RunAfter(l, false) && Fits(op, Loosest(l, false), right)
  }

  /** Which operator a scan over two pieces around an operator ends up with: `b` is where it stands behind
      the operator and `e` at the end. */
  lemma ChoiceAround(l: Syn, op: string, b: Scan, e: Scan, right: nat, visible: nat, n: nat)
    requires Valid(l)
    requires b == ScanStep(ScanSpan(SCAN0, Tokens(l), 0), Oper(op), |Tokens(l)|)
    requires Chosen(b, e, right, visible, |Tokens(l)| + 1, n)
    requires right <= NONE && (visible == 0 <==> right == NONE)
    ensures !e.bad ==> e.best.Some?
    ensures !e.bad && e.best.value.at == |Tokens(l)| <==> Chooses(l, op, right)
  {
    hide ScanSpan, PrecOf;
    var m := |Tokens(l)|;
    var a := ScanSpan(SCAN0, Tokens(l), 0);
    ScanOutside(l, SCAN0, 0);
    ScanOperator(a, op, m);
    LoosestBound(l, false);
    PrecBounded(op);
    if Loosest(l, false) == NONE { ClosedNoRun(l); }
  }

  /** Which operator the scan of a binary expression ends up with. */
  lemma {:induction false} BinaryChoice(op: string, l: Syn, r: Syn)
    requires Valid(SBinary(op, l, r))
    ensures var e := ScanSpan(SCAN0, Tokens(SBinary(op, l, r)), 0);
            && (!e.bad ==> e.best.Some?)
            && (!e.bad && e.best.value.at == |Tokens(l)| <==> Chooses(l, op, Loosest(r, true)))
  {
    hide ScanSpan, Prec, PrecOf, Chosen, Chooses;
    var n := |Tokens(l)|;
    var a := ScanSpan(SCAN0, Tokens(l), 0);
    var b := ScanStep(a, Oper(op), n);
    var e := ScanSpan(b, Tokens(r), n + 1);
    ScanMiddle(SCAN0, Tokens(l), Oper(op), Tokens(r), 0);
    BehindOperator(l, op, b);
    ScanOutside(r, b, n + 1);
    ScannedFrom(r, b, n + 1, true);
    LoosestBound(r, true);
    ChoiceAround(l, op, b, e, Loosest(r, true), Visible(r, true), |Tokens(r)|);
  }

  lemma BehindOperator(l: Syn, op: string, b: Scan)
    requires Valid(l) && b == ScanStep(ScanSpan(SCAN0, Tokens(l), 0), Oper(op), |Tokens(l)|)
    ensures Stands(b, true)
  {
    hide ScanSpan, PrecOf;
    ScanOutside(l, SCAN0, 0);
    ScanOperator(ScanSpan(SCAN0, Tokens(l), 0), op, |Tokens(l)|);
  }

  /** Which operator the scan of a `where` ends up with. */
  lemma {:induction false} WhereChoice(b: Syn, cs: seq<SClause>)
    requires Valid(SWhere(b, cs))
    ensures var e := ScanSpan(SCAN0, Tokens(SWhere(b, cs)), 0);
            && (!e.bad ==> e.best.Some?)
            && (!e.bad && e.best.value.at == |Tokens(b)| <==> Chooses(b, "where", LoosestIn(cs)))
  {
    hide ScanSpan, Prec, PrecOf, Chosen, Chooses;
    var n := |Tokens(b)|;
    var mid := ScanStep(ScanSpan(SCAN0, Tokens(b), 0), Oper("where"), n);
    ScanMiddle(SCAN0, Tokens(b), Oper("where"), Clauses(cs), 0);
    BehindOperator(b, "where", mid);
    ScanClauseList(cs, mid, n + 1);
    LoosestInBound(cs);
    ChoiceAround(b, "where", mid, ScanSpan(mid, Clauses(cs), n + 1), LoosestIn(cs), VisibleIn(cs), |Clauses(cs)|);
  }

  lemma {:induction false} UnaryChoice(op: string, x: Syn)
    requires Valid(SUnary(op, x))
    ensures var e := ScanSpan(SCAN0, Tokens(SUnary(op, x)), 0);
            && (!e.bad ==> e.best.Some?)
            && (!e.bad && e.best.value.at == 0 <==> PrecOf(op) < Loosest(x, true))
  {
    hide ScanSpan, Prec;
    UnaryPrec(op);
    ScanConcat(SCAN0, [Oper(op)], Tokens(x), 0);
    ScanOne(SCAN0, Oper(op), 0);
    ScanOutside(x, ScanStep(SCAN0, Oper(op), 0), 1);
    LoosestBound(x, true);
  }

  lemma UnaryPrec(op: string)
    requires op == "not" || op == "-"
    ensures PrecOf(op) > 0
  {
  }

  /** The parser with the choice of the scan made. */
  lemma {:induction false} ParseAt(ts: seq<Token>)
    requires ts != []
    ensures var e := ScanSpan(SCAN0, ts, 0);
            && (e.bad ==> Parse(ts) == None)
            && (!e.bad && e.best.None? ==> Parse(ts) == ParseClosed(ts))
            && (!e.bad && e.best.Some? ==>
                  var p, name := e.best.value.at, e.best.value.name;
                  && p < |ts| && ts[p] == Oper(name)
                  && Parse(ts) ==
                     if p + 1 == |ts| then None
                     else if p == 0 then
                       if Parse(ts[1..]).None? || (name != "not" && name != "-") then None
                       else Some(Unary(name, Parse(ts[1..]).value))
                     else if name == "where" then
                       if ParseClauses(ts[p + 1..]).None? || Parse(ts[..p]).None? then None
                       else Some(Where(Parse(ts[..p]).value, ParseClauses(ts[p + 1..]).value))
                     else if Parse(ts[..p]).None? || Parse(ts[p + 1..]).None? then None
                     else Some(Binary(name, Parse(ts[..p]).value, Parse(ts[p + 1..]).value)))
  {
    hide ScanSpan, ParseClosed, ParseClauses;
    ChosenBehind(SCAN0, ts, 0);
  }

  /** Splitting in front of the right operator loses words of the left part, */
  lemma LeftShorter(left: seq<Token>, rest: seq<Token>, p: nat)
    requires p < |left| && left[p].Oper? && Parse((left + rest)[..p]).Some?
    ensures |WordsOf(Parse((left + rest)[..p]).value)| < |Words(left)|
  {
    hide Parse, Words, CountOf;
    assert (left + rest)[..p] == left[..p];
    ParseKeeps(left[..p]);
    SplitAt(left, p);
  }

  /** and splitting behind it words of the right part. */
  lemma RightShorter(left: seq<Token>, op: string, right: seq<Token>, p: nat)
    requires var ts := left + [Oper(op)] + right; |left| < p < |ts| && ts[p].Oper?
    ensures |Words((left + [Oper(op)] + right)[p + 1..])| < |Words(right)|
  {
    hide Words, CountOf;
    var ts, k := left + [Oper(op)] + right, p - |left| - 1;
    assert ts[p] == right[k] && ts[p + 1..] == right[k + 1..];
    SplitAt(right, k);
  }

  /** The parser reads a syntax tree as what it stands for. */
  ghost predicate Reads(s: Syn) { Parse(Tokens(s)) == Some(Strip(s)) }

  lemma {:induction false} ReadsBinary(op: string, l: Syn, r: Syn)
    requires Valid(SBinary(op, l, r))
    requires (Reads(l) <==> Unambiguous(l)) && (Reads(r) <==> Unambiguous(r))
    ensures Reads(SBinary(op, l, r)) <==> Unambiguous(SBinary(op, l, r))
  {
    hide ScanSpan, PrecOf, Parse, ParseClauses, ParseClosed, Words, WordsOf, CountOf;
    var s := SBinary(op, l, r);
    var ts, n := Tokens(s), |Tokens(l)|;
    BinaryChoice(op, l, r);
    ParseAt(ts);
    assert ts[..n] == Tokens(l) && ts[n + 1..] == Tokens(r);
    var e := ScanSpan(SCAN0, ts, 0);
    if !e.bad && e.best.value.at != n && 0 < e.best.value.at {
      WrongBinary(op, l, r, e.best.value.at);
    }
  }

  /** Splitting at another operator than the right one gives different operands. */
  lemma WrongBinary(op: string, l: Syn, r: Syn, p: nat)
    requires var ts := Tokens(SBinary(op, l, r)); p < |ts| && p != |Tokens(l)| && ts[p].Oper?
    ensures var ts := Tokens(SBinary(op, l, r));
            !(Parse(ts[..p]) == Some(Strip(l)) && Parse(ts[p + 1..]) == Some(Strip(r)))
  {
    hide Parse, Words, WordsOf, CountOf, Strip;
    var ts := Tokens(SBinary(op, l, r));
    StripWords(l);
    StripWords(r);
    if p < |Tokens(l)| {
      assert ts == Tokens(l) + ([Oper(op)] + Tokens(r));
      if Parse(ts[..p]).Some? {
        LeftShorter(Tokens(l), [Oper(op)] + Tokens(r), p);
      }
    } else {
      RightShorter(Tokens(l), op, Tokens(r), p);
      if Parse(ts[p + 1..]).Some? {
        ParseKeeps(ts[p + 1..]);
      }
    }
  }

  lemma {:induction false} ReadsUnary(op: string, x: Syn)
    requires Valid(SUnary(op, x)) && (Reads(x) <==> Unambiguous(x))
    ensures Reads(SUnary(op, x)) <==> Unambiguous(SUnary(op, x))
  {
    hide ScanSpan, PrecOf, Parse, ParseClauses, ParseClosed;
    UnaryChoice(op, x);
    ParseAt(Tokens(SUnary(op, x)));
    assert Tokens(SUnary(op, x))[1..] == Tokens(x);
  }

  lemma {:induction false} ReadsWhere(b: Syn, cs: seq<SClause>)
    requires Valid(SWhere(b, cs)) && (Reads(b) <==> Unambiguous(b))
    requires forall i :: 0 <= i < |cs| ==> (Reads(cs[i].value) <==> Unambiguous(cs[i].value))
    ensures Reads(SWhere(b, cs)) <==> Unambiguous(SWhere(b, cs))
  {
    hide ScanSpan, PrecOf, Parse, ParseClauses, ParseClosed, Words, WordsOf, WordsOfClauses, CountOf, Shows, Loosest,
      LoosestIn, RunAfter, Hollow, StripClauses;
    var s := SWhere(b, cs);
    var ts, n := Tokens(s), |Tokens(b)|;
    WhereChoice(b, cs);
    ParseAt(ts);
    ClausesExact(cs);
    ClausesSome(cs);
    assert ts[..n] == Tokens(b) && ts[n + 1..] == Clauses(cs) && ts[n] == Oper("where");
    var e := ScanSpan(SCAN0, ts, 0);
    if !e.bad && e.best.value.at != n && 0 < e.best.value.at {
      WrongWhere(b, cs, e.best.value.at);
    }
  }

  lemma WrongWhere(b: Syn, cs: seq<SClause>, p: nat)
    requires var ts := Tokens(SWhere(b, cs)); p < |ts| && p != |Tokens(b)| && ts[p].Oper?
    ensures var ts := Tokens(SWhere(b, cs));
            !(Parse(ts[..p]) == Some(Strip(b)) && ParseClauses(ts[p + 1..]) == Some(StripClauses(cs)))
  {
    hide Parse, ParseClauses, Words, WordsOf, WordsOfClauses, CountOf, Strip, StripClauses;
    var ts := Tokens(SWhere(b, cs));
    StripWords(b);
    StripWordsClauses(cs);
    if p < |Tokens(b)| {
      assert ts == Tokens(b) + ([Oper("where")] + Clauses(cs));
      if Parse(ts[..p]).Some? {
        LeftShorter(Tokens(b), [Oper("where")] + Clauses(cs), p);
      }
    } else {
      RightShorter(Tokens(b), "where", Clauses(cs), p);
      if ParseClauses(ts[p + 1..]).Some? {
        ParseClausesKeep(ts[p + 1..]);
      }
    }
  }

  // ---------------------------------------------------------------- clauses, items and brackets

  /** The clauses of a `where` are read back if and only if each value is and shows the loop over the
      clauses no comma and no `=`; one that shows either makes the clauses fail. */
  lemma {:induction false} ClausesExact(cs: seq<SClause>)
    requires forall i :: 0 <= i < |cs| ==> Valid(cs[i].value)
    requires forall i :: 0 <= i < |cs| ==> (Reads(cs[i].value) <==> Unambiguous(cs[i].value))
    ensures ParseClauses(Clauses(cs)) == Some(StripClauses(cs)) <==>
            forall i :: 0 <= i < |cs| ==> !Shows(cs[i].value) && Unambiguous(cs[i].value)
    ensures (exists i :: 0 <= i < |cs| && Shows(cs[i].value)) ==> ParseClauses(Clauses(cs)) == None
    decreases |cs|
  {
    hide Parse, ParseClauses, ParseValue, Unambiguous, Tokens, Shows, Spoils, Bare;
    if cs == [] {
      NoClauses();
    } else {
      var c, rest := cs[0], cs[1..];
      var tail := if rest == [] then [] else [Comma] + Clauses(rest);
      ClausesExact(rest);
      FirstClause(cs, tail);
      assert forall i :: 0 < i < |cs| ==> cs[i] == rest[i - 1];
      assert forall i :: 0 <= i < |rest| ==> rest[i] == cs[i + 1];
      if Shows(c.value) {
        ShownSpoils(c.value, 0);
        TokensShow(c.value, 0);
        SpoilsConcat(Tokens(c.value), tail, 0, 0);
        SpoiltValue(c.name, Tokens(c.value) + tail);
      } else {
        ValueCut(c, rest, tail);
        SameTail(Clause(c.name, Strip(c.value)), StripClauses(rest));
      }
    }
  }

  lemma NoClauses()
    ensures ParseClauses(Clauses([])) == Some([])
  {
  }

  lemma ClausesSome(cs: seq<SClause>)
    requires cs != []
    ensures Clauses(cs) != []
  {
  }

  lemma FirstClause(cs: seq<SClause>, tail: seq<Token>)
    requires cs != [] && tail == if cs[1..] == [] then [] else [Comma] + Clauses(cs[1..])
    ensures ParseClauses(Clauses(cs)) == ParseValue(cs[0].name, Tokens(cs[0].value) + tail)
  {
    hide Parse, ParseValue, Tokens;
    var head, v := [Name(cs[0].name), Oper("=")], Tokens(cs[0].value);
    assert |cs| == 1 <==> cs[1..] == [];
    Joins(head, v, Clauses(cs[1..]));
    hide Clauses;
    BehindHead(cs[0].name, v + tail);
  }

  lemma Joins(head: seq<Token>, v: seq<Token>, rest: seq<Token>)
    ensures v + [] == v && head + v + [Comma] + rest == head + (v + ([Comma] + rest))
  {
  }

  lemma BehindHead(name: string, ts: seq<Token>)
    ensures var all := [Name(name), Oper("=")] + ts; all[0] == Name(name) && all[1] == Oper("=") && all[2..] == ts
  {
  }

  /** A value that shows no separator is cut off at the comma behind it. */
  lemma ValueCut(c: SClause, rest: seq<SClause>, tail: seq<Token>)
    requires Valid(c.value) && !Shows(c.value) && tail == if rest == [] then [] else [Comma] + Clauses(rest)
    ensures ParseValue(c.name, Tokens(c.value) + tail) ==
            if Parse(Tokens(c.value)).None? || ParseClauses(Clauses(rest)).None? then None
            else Some([Clause(c.name, Parse(Tokens(c.value)).value)] + ParseClauses(Clauses(rest)).value)
  {
    hide Parse, ParseClauses, NextRound, Bare, Tokens, Shows;
    var v := Tokens(c.value);
    var ts := v + tail;
    TokensShow(c.value, 0);
    TokensBalanced(c.value);
    RoundAfter(v, tail, 0, Comma);
    RoundAfter(v, [], 0, Oper("="));
    RoundNone(Comma);
    RoundNone(Oper("="));
    RoundHere(Clauses(rest));
    assert v + [] == v && ts[..|v|] == v;
    if rest == [] {
      NoClauses();
      assert Parse(v).Some? ==> [Clause(c.name, Parse(v).value)] + [] == [Clause(c.name, Parse(v).value)];
    } else {
      assert ts[|v| + 1..] == Clauses(rest);
    }
  }

  lemma RoundNone(sep: Token)
    ensures NextRound([], 0, sep) == 0
  {
  }

  lemma RoundHere(rest: seq<Token>)
    ensures NextRound([Comma] + rest, 0, Comma) == 0
  {
  }

  lemma SameTail<T(!new)>(x: T, xs: seq<T>)
    ensures forall y, ys :: [y] + ys == [x] + xs <==> y == x && ys == xs
  {
    forall y, ys | [y] + ys == [x] + xs
      ensures y == x && ys == xs
    {
      assert ([y] + ys)[0] == y && ([y] + ys)[1..] == ys && ([x] + xs)[0] == x && ([x] + xs)[1..] == xs;
    }
  }

  /** Everything without an operator outside brackets. */
  lemma {:induction false} ScanClosed(s: Syn)
    requires Valid(s) && Loosest(s, false) == NONE
    ensures Parse(Tokens(s)) == ParseClosed(Tokens(s))
  {
    hide ScanSpan, Prec, Parse;
    ScanOutside(s, SCAN0, 0);
    LoosestBound(s, false);
    ParseAt(Tokens(s));
  }

  ghost predicate ItemsPlain(items: seq<Syn>) {
    forall i :: 0 <= i < |items| ==> OutsideCommas(items[i]) == 0
  }

  /** The items of a list or call are read back if and only if each one is and has no comma outside its
      brackets. */
  lemma {:induction false} ReadsArgs(items: seq<Syn>)
    requires forall i :: 0 <= i < |items| ==> Valid(items[i])
    requires forall i :: 0 <= i < |items| ==> (Reads(items[i]) <==> Unambiguous(items[i]))
    ensures ParseArgs(Joined(items)) == Some(StripAll(items)) <==>
            forall i :: 0 <= i < |items| ==> OutsideCommas(items[i]) == 0 && Unambiguous(items[i])
  {
    hide Parse, ParseArgs, Unambiguous, Tokens, Strip, Commas, Reads;
    if ItemsPlain(items) {
      PlainArgs(items);
    } else {
      JoinedOutside(items);
      LastOfJoined(items);
      if ParseArgs(Joined(items)).Some? {
        ArgsCount(Joined(items));
      }
    }
  }

  lemma {:induction false} PlainArgs(items: seq<Syn>)
    requires ItemsPlain(items) && forall i :: 0 <= i < |items| ==> Valid(items[i])
    requires forall i :: 0 <= i < |items| ==> (Reads(items[i]) <==> Unambiguous(items[i]))
    ensures ParseArgs(Joined(items)) == Some(StripAll(items)) <==>
            forall i :: 0 <= i < |items| ==> Unambiguous(items[i])
    decreases |items|
  {
    hide Parse, Unambiguous, Tokens, Strip;
    if items != [] {
      ArgsCut(items);
      var rest := items[1..];
      assert forall i :: 0 <= i < |rest| ==> rest[i] == items[i + 1];
      PlainArgs(rest);
      SameTail(Strip(items[0]), StripAll(rest));
      assert (forall i :: 0 <= i < |items| ==> Unambiguous(items[i])) <==>
             Unambiguous(items[0]) && forall i :: 0 <= i < |rest| ==> Unambiguous(rest[i]) by {
        assert forall i :: 0 < i < |items| ==> items[i] == rest[i - 1];
      }
    }
  }

  /** The first argument is cut off at its comma. */
  lemma {:induction false} ArgsCut(items: seq<Syn>)
    requires items != [] && OutsideCommas(items[0]) == 0
    ensures ParseArgs(Joined(items)) ==
            if Parse(Tokens(items[0])).None? || ParseArgs(Joined(items[1..])).None? then None
            else Some([Parse(Tokens(items[0])).value] + ParseArgs(Joined(items[1..])).value)
  {
    hide Parse, NextComma, Tokens, Commas, CountOf;
    var ts, first, rest := Joined(items), Tokens(items[0]), Joined(items[1..]);
    TokensCommas(items[0], 0);
    TokensBalanced(items[0]);
    if |items| == 1 {
      CommaAfter(first, [], 0);
      CommaEnd();
      assert first + [] == first && ts[..|ts|] == ts && items[1..] == [] && rest == [];
      assert ParseArgs(rest) == Some([]);
      if Parse(first).Some? { assert [Parse(first).value] + [] == [Parse(first).value]; }
    } else {
      assert ts == first + ([Comma] + rest);
      CommaAfter(first, [Comma] + rest, 0);
      CommaHere(rest);
      assert ts[..|first|] == first && ts[|first| + 1..] == rest;
      JoinedSome(items[1..]);
    }
  }

  lemma CommaEnd()
    ensures NextComma([], 0) == 0
  {
  }

  lemma JoinedSome(items: seq<Syn>)
    requires items != []
    ensures Joined(items) != []
  {
  }

  lemma CommaHere(rest: seq<Token>)
    ensures NextComma([Comma] + rest, 0) == 0
  {
  }

  lemma {:induction false} ReadsList(items: seq<Syn>)
    requires forall i :: 0 <= i < |items| ==> Valid(items[i])
    requires forall i :: 0 <= i < |items| ==> (Reads(items[i]) <==> Unambiguous(items[i]))
    ensures ParseClosed(Tokens(SList(items))) == Some(Strip(SList(items))) <==> Unambiguous(SList(items))
  {
    hide Parse, ParseArgs, OpenSquare, CountOf, Unambiguous;
    var ts, inner := Tokens(SList(items)), Joined(items);
    var n := |ts|;
    assert ts[..n - 1] == [LSquare] + inner && ts[1..n - 1] == inner;
    SquarePastJoined([LSquare], items, 0);
    SquareFirst();
    ReadsArgs(items);
    UnambiguousList(items);
  }

  lemma SquareFirst()
    ensures OpenSquare([LSquare], 0) == 0
  {
  }

  lemma UnambiguousList(items: seq<Syn>)
    ensures Unambiguous(SList(items)) <==>
            forall i :: 0 <= i < |items| ==> OutsideCommas(items[i]) == 0 && Unambiguous(items[i])
  {
  }

  lemma {:induction false} ReadsCall(fn: string, args: seq<Syn>)
    requires forall i :: 0 <= i < |args| ==> Valid(args[i])
    requires forall i :: 0 <= i < |args| ==> (Reads(args[i]) <==> Unambiguous(args[i]))
    ensures ParseClosed(Tokens(SCall(fn, args))) == Some(Strip(SCall(fn, args))) <==> Unambiguous(SCall(fn, args))
  {
    hide Parse, ParseArgs, OpenSquare, CountOf, Unambiguous;
    var ts, inner := Tokens(SCall(fn, args)), Joined(args);
    var n := |ts|;
    assert ts[2..n - 1] == inner;
    TokensBalanced(SCall(fn, args));
    ReadsArgs(args);
    UnambiguousCall(fn, args);
  }

  lemma UnambiguousCall(fn: string, args: seq<Syn>)
    ensures Unambiguous(SCall(fn, args)) <==>
            forall i :: 0 <= i < |args| ==> OutsideCommas(args[i]) == 0 && Unambiguous(args[i])
  {
  }

  lemma {:induction false} ReadsIndex(b: Syn, k: Syn)
    requires Valid(SIndex(b, k))
    requires (Reads(b) <==> Unambiguous(b)) && (Reads(k) <==> Unambiguous(k))
    ensures Reads(SIndex(b, k)) <==> Unambiguous(SIndex(b, k))
  {
    hide Parse, Prec, OpenSquare, CountOf, ScanSpan;
    var s := SIndex(b, k);
    var ts, tb, tk := Tokens(s), Tokens(b), Tokens(k);
    var n := |ts|;
    LoosestBound(s, false);
    if Loosest(s, false) == NONE {
      ScanClosed(s);
      assert ts[..n - 1] == (tb + [LSquare]) + tk;
      SquarePast(tb + [LSquare], k, 0);
      SquareLast(tb);
      assert ts[..|tb|] == tb && ts[|tb| + 1..n - 1] == tk;
    } else {
      ScanOutside(s, SCAN0, 0);
      ParseAt(ts);
    }
  }

  lemma SquareLast(tb: seq<Token>)
    ensures OpenSquare(tb + [LSquare], 0) == |tb|
  {
  }

  // ---------------------------------------------------------------- the theorem

  /** For every written syntax tree, the parser returns the expression it stands for if and only if
      each operator in it is the one its scan ends up with, no item of a list or call has a comma outside
      its brackets and no clause shows a separator. */
  lemma {:induction false} ParserExact(s: Syn)
    requires Valid(s)
    ensures Parse(Tokens(s)) == Some(Strip(s)) <==> Unambiguous(s)
    decreases s
  {
    hide ScanSpan, Prec, Parse, Shows;
    match s
    case SUnary(op, x) => ParserExact(x); ReadsUnary(op, x);
    case SBinary(op, l, r) => ParserExact(l); ParserExact(r); ReadsBinary(op, l, r);
    case SParen(x) =>
      ParserExact(x);
      ScanClosed(s);
      assert Tokens(s)[1..|Tokens(s)| - 1] == Tokens(x);
    case SList(items) =>
      forall i | 0 <= i < |items|
        ensures Reads(items[i]) <==> Unambiguous(items[i])
      {
        ParserExact(items[i]);
      }
      ScanClosed(s);
      ReadsList(items);
    case SIndex(b, k) => ParserExact(b); ParserExact(k); ReadsIndex(b, k);
    case SCall(fn, args) =>
      forall i | 0 <= i < |args|
        ensures Reads(args[i]) <==> Unambiguous(args[i])
      {
        ParserExact(args[i]);
      }
      ScanClosed(s);
      ReadsCall(fn, args);
    case SWhere(b, cs) =>
      ParserExact(b);
      forall i | 0 <= i < |cs|
        ensures Reads(cs[i].value) <==> Unambiguous(cs[i].value)
      {
        ParserExact(cs[i].value);
      }
      ReadsWhere(b, cs);
    case _ => ScanClosed(s);
  }

  // ---------------------------------------------------------------- what fails

  /** A `where` the scan finds and whose clauses show a separator is not parsed at all. */
  lemma ShownClauseFails(b: Syn, cs: seq<SClause>, k: nat)
    requires Valid(SWhere(b, cs)) && Chooses(b, "where", LoosestIn(cs))
    requires k < |cs| && Shows(cs[k].value)
    ensures Parse(Tokens(SWhere(b, cs))) == None
  {
    hide Parse, ParseClauses, ScanSpan, Shows, Chooses;
    var ts, n := Tokens(SWhere(b, cs)), |Tokens(b)|;
    forall i | 0 <= i < |cs|
      ensures Reads(cs[i].value) <==> Unambiguous(cs[i].value)
    {
      ParserExact(cs[i].value);
    }
    ClausesExact(cs);
    ClausesSome(cs);
    WhereChoice(b, cs);
    ParseAt(ts);
    assert ts[n] == Oper("where") && ts[n + 1..] == Clauses(cs);
  }

  /** `x where a = [1, 2]`: the list is cut at its comma. */
  lemma WhereListFails()
    ensures Parse([Name("x"), Oper("where"), Name("a"), Oper("="), LSquare, Number(1), Comma, Number(2), RSquare]) == None
  {
    hide Parse, Prec;
    var items := [SInt(1), SInt(2)];
    var cs := [SClause("a", SList(items))];
    assert items[1..] == [SInt(2)];
    assert Joined(items) == [Number(1), Comma, Number(2)];
    assert Clauses(cs) == [Name("a"), Oper("=")] + Tokens(SList(items));
    WhereBeforeEquals();
    PrecBounded("=");
    assert cs[1..] == [];
    assert Loosest(SIdent("x"), false) == NONE && LoosestIn(cs) == PrecOf("=");
    ShownClauseFails(SIdent("x"), cs, 0);
    assert Tokens(SWhere(SIdent("x"), cs)) ==
      [Name("x"), Oper("where"), Name("a"), Oper("="), LSquare, Number(1), Comma, Number(2), RSquare];
  }

  lemma WhereBeforeEquals()
    ensures 0 < PrecOf("where") < PrecOf("=")
  {
  }

  /** When the scan has to compare an operator that has no precedence, parsing fails. */
  lemma UncomparableFails(s: Syn)
    requires Valid(s) && Visible(s, false) > 1 && Loosest(s, false) == 0
    ensures Parse(Tokens(s)) == None
  {
    hide ScanSpan, Parse, Prec;
    ScanOutside(s, SCAN0, 0);
    ParseAt(Tokens(s));
  }

  /** In `a .+ b + c` the scan compares the two operators; so for any other operator without a precedence. */
  lemma ChainFails(a: string, op: string, b: string, op': string, c: string)
    requires PrecOf(op) == 0
    ensures Parse([Name(a), Oper(op), Name(b), Oper(op'), Name(c)]) == None
  {
    hide Parse, PrecOf, ScanSpan;
    var st1 := ScanStep(SCAN0, Name(a), 0);
    var st2 := ScanStep(st1, Oper(op), 1);
    var st3 := ScanStep(st2, Name(b), 2);
    var st4 := ScanStep(st3, Oper(op'), 3);
    ScanOperator(st1, op, 1);
    ScanOperator(st3, op', 3);
    var ts := [Name(a), Oper(op), Name(b), Oper(op'), Name(c)];
    assert ts == [Name(a)] + [Oper(op)] + ([Name(b)] + [Oper(op')] + [Name(c)]);
    ScanMiddle(SCAN0, [Name(a)], Oper(op), [Name(b)] + [Oper(op')] + [Name(c)], 0);
    ScanOne(SCAN0, Name(a), 0);
    ScanMiddle(st2, [Name(b)], Oper(op'), [Name(c)], 2);
    ScanOne(st2, Name(b), 2);
    ScanBad(st4, [Name(c)], 4);
    ParseAt(ts);
  }

  lemma DotPlusFails()
    ensures Parse([Name("a"), Oper(".+"), Name("b"), Oper("+"), Name("c")]) == None
  {
    ChainFails("a", ".+", "b", "+", "c");
  }
}
