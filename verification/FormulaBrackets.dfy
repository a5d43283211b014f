/** What the searches for commas, separators and square brackets find in written syntax. */
module FormulaBrackets {
  import opened FormulaParser
  import opened FormulaSyntax
  import opened FormulaWords

  // ---------------------------------------------------------------- brackets match

  /** A piece with as many opening as closing brackets of either kind. */
  ghost predicate Balanced(ts: seq<Token>) {
    CountOf(ts, LParen) == CountOf(ts, RParen) && CountOf(ts, LSquare) == CountOf(ts, RSquare)
  }

  lemma BalancedAround(a: seq<Token>, t: Token, b: seq<Token>)
    requires Balanced(a) && Balanced(b) && !Bracket(t)
    ensures Balanced(a + [t] + b)
  {
    CountAround(a, t, b, LParen);
    CountAround(a, t, b, RParen);
    CountAround(a, t, b, LSquare);
    CountAround(a, t, b, RSquare);
  }

  lemma BalancedWrap(a: seq<Token>, open: Token, b: seq<Token>, close: Token)
    requires Balanced(a) && Balanced(b) && ((open == LParen && close == RParen) || (open == LSquare && close == RSquare))
    ensures Balanced(a + [open] + b + [close])
  {
    CountWrap(a, open, b, close, LParen);
    CountWrap(a, open, b, close, RParen);
    CountWrap(a, open, b, close, LSquare);
    CountWrap(a, open, b, close, RSquare);
  }

  lemma CountWrap(a: seq<Token>, open: Token, b: seq<Token>, close: Token, u: Token)
    ensures CountOf(a + [open] + b + [close], u) ==
            CountOf(a, u) + (if open == u then 1 else 0) + CountOf(b, u) + (if close == u then 1 else 0)
  {
    CountAround(a, open, b, u);
    CountConcat(a + [open] + b, [close], u);
    CountOne(close, u);
  }

  lemma BalancedNone()
    ensures Balanced([])
  {
  }

  lemma BalancedOne(t: Token)
    requires !Bracket(t)
    ensures Balanced([t])
  {
  }

  lemma {:induction false} TokensBalanced(s: Syn)
    ensures Balanced(Tokens(s))
    decreases s
  {
    hide Balanced;
    BalancedNone();
    match s
    case SIdent(id) => BalancedOne(Name(id));
    case SInt(n) => BalancedOne(Number(n));
    case SStr(str) => BalancedOne(Quoted(str));
    case SParen(x) =>
      TokensBalanced(x);
      BalancedWrap([], LParen, Tokens(x), RParen);
      assert [] + [LParen] == [LParen];
    case SUnary(op, x) =>
      TokensBalanced(x);
      BalancedAround([], Oper(op), Tokens(x));
      assert [] + [Oper(op)] == [Oper(op)];
    case SBinary(op, l, r) => TokensBalanced(l); TokensBalanced(r); BalancedAround(Tokens(l), Oper(op), Tokens(r));
    case SList(items) =>
      JoinedBalanced(items);
      BalancedWrap([], LSquare, Joined(items), RSquare);
      assert [] + [LSquare] == [LSquare];
    case SIndex(b, k) => TokensBalanced(b); TokensBalanced(k); BalancedWrap(Tokens(b), LSquare, Tokens(k), RSquare);
    case SCall(fn, args) =>
      JoinedBalanced(args);
      BalancedOne(Name(fn));
      BalancedWrap([Name(fn)], LParen, Joined(args), RParen);
      assert [Name(fn)] + [LParen] == [Name(fn), LParen];
    case SWhere(b, cs) =>
      TokensBalanced(b);
      ClausesBalanced(cs);
      BalancedAround(Tokens(b), Oper("where"), Clauses(cs));
  }

  lemma {:induction false} JoinedBalanced(items: seq<Syn>)
    ensures Balanced(Joined(items))
    decreases items
  {
    hide Balanced;
    if items == [] {
      BalancedNone();
    } else {
      TokensBalanced(items[0]);
      if |items| > 1 {
        JoinedBalanced(items[1..]);
        BalancedAround(Tokens(items[0]), Comma, Joined(items[1..]));
      }
    }
  }

  lemma {:induction false} ClausesBalanced(cs: seq<SClause>)
    ensures Balanced(Clauses(cs))
    decreases cs
  {
    hide Balanced;
    if cs == [] {
      BalancedNone();
    } else {
      var v := Tokens(cs[0].value);
      TokensBalanced(cs[0].value);
      BalancedOne(Name(cs[0].name));
      BalancedAround([Name(cs[0].name)], Oper("="), v);
      assert [Name(cs[0].name)] + [Oper("=")] == [Name(cs[0].name), Oper("=")];
      if |cs| > 1 {
        ClausesBalanced(cs[1..]);
        BalancedAround([Name(cs[0].name), Oper("=")] + v, Comma, Clauses(cs[1..]));
      }
    }
  }

  // ---------------------------------------------------------------- commas outside all brackets

  ghost function Depth(ts: seq<Token>): int {
    CountOf(ts, LParen) + CountOf(ts, LSquare) - CountOf(ts, RParen) - CountOf(ts, RSquare)
  }

  ghost function Deeper(t: Token, d: int): int {
    if Opens(t) then d + 1 else if Closes(t) then d - 1 else d
  }

  /** The commas at depth 0 when the span begins at the given depth. */
  ghost function Commas(ts: seq<Token>, d: int): nat {
    if ts == [] then 0 else (if ts[0].Comma? && d == 0 then 1 else 0) + Commas(ts[1..], Deeper(ts[0], d))
  }

  lemma DepthFirst(ts: seq<Token>)
    requires ts != []
    ensures Depth(ts) == Deeper(ts[0], Depth(ts[1..]))
    ensures forall d {:trigger Deeper(ts[0], d)} :: Deeper(ts[0], d) + Depth(ts[1..]) == d + Depth(ts)
  {
  }

  lemma {:induction false} CommasConcat(a: seq<Token>, b: seq<Token>, d: int)
    ensures Commas(a + b, d) == Commas(a, d) + Commas(b, d + Depth(a))
    decreases |a|
  {
    if a == [] {
      assert a + b == b;
    } else {
      assert (a + b)[0] == a[0] && (a + b)[1..] == a[1..] + b;
      CommasConcat(a[1..], b, Deeper(a[0], d));
      DepthFirst(a);
    }
  }

  lemma CommaFirst(ts: seq<Token>, d: int)
    requires ts != []
    ensures NextComma(ts, d) == if ts[0].Comma? && d == 0 then 0 else 1 + NextComma(ts[1..], Deeper(ts[0], d))
    ensures Commas(ts, d) == (if ts[0].Comma? && d == 0 then 1 else 0) + Commas(ts[1..], Deeper(ts[0], d))
  {
  }

  lemma {:induction false} CommaAfter(a: seq<Token>, b: seq<Token>, d: int)
    requires Commas(a, d) == 0
    ensures NextComma(a + b, d) == |a| + NextComma(b, d + Depth(a))
    decreases |a|
  {
    hide NextComma, Commas, Deeper, Depth;
    if a == [] {
      assert a + b == b;
      DepthNone();
    } else {
      assert (a + b)[0] == a[0] && (a + b)[1..] == a[1..] + b;
      CommaFirst(a, d);
      CommaAfter(a[1..], b, Deeper(a[0], d));
      DepthFirst(a);
      CommaFirst(a + b, d);
    }
  }

  lemma DepthNone()
    ensures Depth([]) == 0
  {
  }

  lemma CommasOne(t: Token, d: int)
    ensures Commas([t], d) == if t.Comma? && d == 0 then 1 else 0
  {
    assert [t][1..] == [];
  }

  lemma DepthOne(t: Token)
    ensures Depth([t]) == Deeper(t, 0)
  {
    DepthFirst([t]);
    assert [t][1..] == [];
  }

  /** Two balanced pieces around a token. */
  lemma CommasAround(a: seq<Token>, t: Token, b: seq<Token>, d: int)
    requires Balanced(a) && !Bracket(t)
    ensures Commas(a + [t] + b, d) == Commas(a, d) + (if t.Comma? && d == 0 then 1 else 0) + Commas(b, d)
  {
    hide Commas, CountOf;
    assert a + [t] + b == a + ([t] + b);
    CommasConcat(a, [t] + b, d);
    CommasConcat([t], b, d);
    CommasOne(t, d);
    DepthOne(t);
  }

  lemma CommasWrap(a: seq<Token>, open: Token, b: seq<Token>, close: Token, d: int)
    requires Balanced(a) && Balanced(b) && Opens(open) && Closes(close)
    ensures Commas(a + [open] + b + [close], d) == Commas(a, d) + Commas(b, d + 1)
  {
    hide Commas, CountOf;
    assert a + [open] + b + [close] == a + ([open] + (b + [close]));
    CommasConcat(a, [open] + (b + [close]), d);
    CommasConcat([open], b + [close], d);
    CommasConcat(b, [close], d + 1);
    CommasOne(open, d);
    CommasOne(close, d + 1);
    DepthOne(open);
  }

  lemma CommasNone(d: int)
    ensures Commas([], d) == 0
  {
  }

  lemma {:induction false} TokensCommas(s: Syn, d: nat)
    ensures Commas(Tokens(s), d) == if d == 0 then OutsideCommas(s) else 0
    decreases s
  {
    hide Commas, Balanced;
    CommasNone(d);
    BalancedNone();
    match s
    case SIdent(id) => CommasOne(Name(id), d);
    case SInt(n) => CommasOne(Number(n), d);
    case SStr(str) => CommasOne(Quoted(str), d);
    case SParen(x) =>
      TokensBalanced(x);
      TokensCommas(x, d + 1);
      CommasWrap([], LParen, Tokens(x), RParen, d);
      assert [] + [LParen] == [LParen];
    case SUnary(op, x) =>
      TokensCommas(x, d);
      CommasAround([], Oper(op), Tokens(x), d);
      assert [] + [Oper(op)] == [Oper(op)];
    case SBinary(op, l, r) =>
      TokensBalanced(l);
      TokensCommas(l, d);
      TokensCommas(r, d);
      CommasAround(Tokens(l), Oper(op), Tokens(r), d);
    case SList(items) =>
      JoinedBalanced(items);
      JoinedCommas(items, d + 1);
      CommasWrap([], LSquare, Joined(items), RSquare, d);
      assert [] + [LSquare] == [LSquare];
    case SIndex(b, k) =>
      TokensBalanced(b);
      TokensBalanced(k);
      TokensCommas(b, d);
      TokensCommas(k, d + 1);
      CommasWrap(Tokens(b), LSquare, Tokens(k), RSquare, d);
    case SCall(fn, args) =>
      JoinedBalanced(args);
      JoinedCommas(args, d + 1);
      CommasOne(Name(fn), d);
      BalancedOne(Name(fn));
      CommasWrap([Name(fn)], LParen, Joined(args), RParen, d);
      assert [Name(fn)] + [LParen] == [Name(fn), LParen];
    case SWhere(b, cs) =>
      TokensBalanced(b);
      TokensCommas(b, d);
      ClausesCommas(cs, d);
      CommasAround(Tokens(b), Oper("where"), Clauses(cs), d);
  }

  lemma {:induction false} JoinedCommas(items: seq<Syn>, d: nat)
    requires d > 0
    ensures Commas(Joined(items), d) == 0
    decreases items
  {
    hide Commas, Balanced;
    if items == [] {
      CommasNone(d);
    } else {
      TokensCommas(items[0], d);
      TokensBalanced(items[0]);
      if |items| > 1 {
        JoinedCommas(items[1..], d);
        CommasAround(Tokens(items[0]), Comma, Joined(items[1..]), d);
      }
    }
  }

  lemma {:induction false} ClausesCommas(cs: seq<SClause>, d: nat)
    ensures Commas(Clauses(cs), d) == if d == 0 then OutsideCommasIn(cs) else 0
    decreases cs
  {
    hide Commas, Balanced;
    CommasNone(d);
    if cs != [] {
      var head, v := [Name(cs[0].name), Oper("=")], Tokens(cs[0].value);
      TokensCommas(cs[0].value, d);
      TokensBalanced(cs[0].value);
      HeadCommas(cs[0].name, v, d);
      if |cs| > 1 {
        ClausesCommas(cs[1..], d);
        CommasAround(head + v, Comma, Clauses(cs[1..]), d);
      } else {
        assert cs[1..] == [];
      }
    }
  }

  lemma HeadCommas(name: string, v: seq<Token>, d: int)
    requires Balanced(v)
    ensures Commas([Name(name), Oper("=")] + v, d) == Commas(v, d)
    ensures Balanced([Name(name), Oper("=")] + v)
  {
    hide Commas, Balanced;
    BalancedOne(Name(name));
    CommasOne(Name(name), d);
    CommasAround([Name(name)], Oper("="), v, d);
    BalancedAround([Name(name)], Oper("="), v);
    assert [Name(name)] + [Oper("=")] == [Name(name), Oper("=")];
  }

  /** All commas outside brackets, those between items included. */
  lemma {:induction false} JoinedOutside(items: seq<Syn>)
    requires items != []
    ensures Commas(Joined(items), 0) >= |items| - 1
    ensures Commas(Joined(items), 0) == |items| - 1 <==> forall i :: 0 <= i < |items| ==> OutsideCommas(items[i]) == 0
    decreases items
  {
    hide Commas, Balanced;
    TokensCommas(items[0], 0);
    TokensBalanced(items[0]);
    if |items| > 1 {
      var rest := items[1..];
      JoinedOutside(rest);
      CommasAround(Tokens(items[0]), Comma, Joined(rest), 0);
      assert forall i :: 0 < i < |items| ==> items[i] == rest[i - 1];
      assert forall i :: 0 <= i < |rest| ==> rest[i] == items[i + 1];
    }
  }

  lemma {:induction false} LastIsNoComma(s: Syn)
    requires Valid(s)
    ensures Tokens(s)[|Tokens(s)| - 1] != Comma
    decreases s
  {
    match s
    case SUnary(_, x) => LastIsNoComma(x);
    case SBinary(_, _, r) => LastIsNoComma(r);
    case SWhere(_, cs) => LastOfClauses(cs);
    case _ =>
  }

  lemma {:induction false} LastOfClauses(cs: seq<SClause>)
    requires cs != [] && forall i :: 0 <= i < |cs| ==> Valid(cs[i].value)
    ensures Clauses(cs) != [] && Clauses(cs)[|Clauses(cs)| - 1] != Comma
    decreases cs
  {
    LastIsNoComma(cs[0].value);
    if |cs| > 1 {
      LastOfClauses(cs[1..]);
    }
  }

  lemma {:induction false} LastOfJoined(items: seq<Syn>)
    requires items != [] && forall i :: 0 <= i < |items| ==> Valid(items[i])
    ensures Joined(items) != [] && Joined(items)[|Joined(items)| - 1] != Comma
    decreases items
  {
    LastIsNoComma(items[0]);
    if |items| > 1 {
      LastOfJoined(items[1..]);
    }
  }

  lemma {:induction false} CommasFromFirst(ts: seq<Token>, d: int)
    ensures var c := NextComma(ts, d);
            Commas(ts, d) == if c == |ts| then 0 else 1 + Commas(ts[c + 1..], 0)
    decreases |ts|
  {
    if ts != [] {
      var c, d' := NextComma(ts, d), Deeper(ts[0], d);
      if !(ts[0].Comma? && d == 0) {
        CommasFromFirst(ts[1..], d');
        if c < |ts| { assert ts[1..][c..] == ts[c + 1..]; }
      }
    }
  }

  /** A list of arguments has more members than commas outside its brackets unless it ends in a comma. */
  lemma {:induction false} ArgsCount(ts: seq<Token>)
    requires ParseArgs(ts).Some?
    ensures |ParseArgs(ts).value| >= Commas(ts, 0) + if ts == [] || ts[|ts| - 1].Comma? then 0 else 1
    decreases |ts|
  {
    hide Parse, NextComma, Commas;
    CommasNone(0);
    CommasFromFirst(ts, 0);
    if ts != [] && NextComma(ts, 0) < |ts| {
      ArgsCount(ts[NextComma(ts, 0) + 1..]);
    }
  }

  // ---------------------------------------------------------------- separators outside round brackets

  predicate Separator(t: Token) { t == Comma || t == Oper("=") }

  ghost function Rounds(ts: seq<Token>): int { CountOf(ts, LParen) - CountOf(ts, RParen) }

  /** A comma or an `=` stands outside round brackets when the span begins behind this many open ones. */
  ghost predicate Bare(ts: seq<Token>, d: int) {
    ts != [] && ((d == 0 && Separator(ts[0])) || Bare(ts[1..], Rounder(ts[0], d)))
  }

  lemma RoundsFirst(ts: seq<Token>)
    requires ts != []
    ensures forall d {:trigger Rounder(ts[0], d)} :: Rounder(ts[0], d) + Rounds(ts[1..]) == d + Rounds(ts)
  {
  }

  lemma RoundsNone()
    ensures Rounds([]) == 0
  {
  }

  lemma {:induction false} BareConcat(a: seq<Token>, b: seq<Token>, d: int)
    ensures Bare(a + b, d) <==> Bare(a, d) || Bare(b, d + Rounds(a))
    decreases |a|
  {
    hide Rounds, Rounder;
    if a == [] {
      assert a + b == b;
      RoundsNone();
    } else {
      assert (a + b)[0] == a[0] && (a + b)[1..] == a[1..] + b;
      BareConcat(a[1..], b, Rounder(a[0], d));
      RoundsFirst(a);
    }
  }

  /** The search for a separator passes over a piece that shows none. */
  lemma {:induction false} RoundAfter(a: seq<Token>, b: seq<Token>, d: int, sep: Token)
    requires !Bare(a, d) && Separator(sep)
    ensures NextRound(a + b, d, sep) == |a| + NextRound(b, d + Rounds(a), sep)
    decreases |a|
  {
    hide Rounds, Rounder, NextRound;
    if a == [] {
      assert a + b == b;
      RoundsNone();
    } else {
      assert (a + b)[0] == a[0] && (a + b)[1..] == a[1..] + b;
      RoundAfter(a[1..], b, Rounder(a[0], d), sep);
      RoundsFirst(a);
      RoundFirst(a + b, d, sep);
    }
  }

  lemma BareOne(t: Token, d: int)
    ensures Bare([t], d) <==> d == 0 && Separator(t)
  {
    assert [t][1..] == [];
  }

  lemma RoundsOne(t: Token)
    ensures Rounds([t]) == Rounder(t, 0)
  {
    RoundsFirst([t]);
    RoundsNone();
    assert [t][1..] == [];
  }

  lemma BareNone(d: int)
    ensures !Bare([], d)
  {
  }

  /** Two balanced pieces around a token that is no round bracket. */
  lemma BareAround(a: seq<Token>, t: Token, b: seq<Token>, d: int)
    requires Balanced(a) && !t.LParen? && !t.RParen?
    ensures Bare(a + [t] + b, d) <==> Bare(a, d) || (d == 0 && Separator(t)) || Bare(b, d)
  {
    hide Bare, CountOf;
    assert a + [t] + b == a + ([t] + b);
    BareConcat(a, [t] + b, d);
    BareConcat([t], b, d);
    BareOne(t, d);
    RoundsOne(t);
  }

  lemma BareParens(a: seq<Token>, b: seq<Token>, d: int)
    requires Balanced(a) && Balanced(b)
    ensures Bare(a + [LParen] + b + [RParen], d) <==> Bare(a, d) || Bare(b, d + 1)
  {
    hide Bare, CountOf;
    assert a + [LParen] + b + [RParen] == a + ([LParen] + (b + [RParen]));
    BareConcat(a, [LParen] + (b + [RParen]), d);
    BareConcat([LParen], b + [RParen], d);
    BareConcat(b, [RParen], d + 1);
    BareOne(LParen, d);
    BareOne(RParen, d + 1);
    RoundsOne(LParen);
  }

  lemma BareSquare(a: seq<Token>, b: seq<Token>, d: int)
    requires Balanced(a) && Balanced(b)
    ensures Bare(a + [LSquare] + b + [RSquare], d) <==> Bare(a, d) || Bare(b, d)
  {
    hide Bare, CountOf;
    assert a + [LSquare] + b + [RSquare] == a + ([LSquare] + (b + [RSquare]));
    BareConcat(a, [LSquare] + (b + [RSquare]), d);
    BareConcat([LSquare], b + [RSquare], d);
    BareConcat(b, [RSquare], d);
    BareOne(LSquare, d);
    BareOne(RSquare, d);
    RoundsOne(LSquare);
  }

  /** A written piece shows a separator outside round brackets exactly when its syntax does. */
  lemma {:induction false} TokensShow(s: Syn, d: nat)
    requires Valid(s)
    ensures Bare(Tokens(s), d) <==> d == 0 && Shows(s)
    decreases s
  {
    hide Bare, Balanced;
    BareNone(d);
    BalancedNone();
    match s
    case SIdent(id) => BareOne(Name(id), d);
    case SInt(n) => BareOne(Number(n), d);
    case SStr(str) => BareOne(Quoted(str), d);
    case SParen(x) =>
      TokensBalanced(x);
      TokensShow(x, d + 1);
      BareParens([], Tokens(x), d);
      assert [] + [LParen] == [LParen];
    case SUnary(op, x) =>
      TokensShow(x, d);
      BareAround([], Oper(op), Tokens(x), d);
      assert [] + [Oper(op)] == [Oper(op)];
    case SBinary(op, l, r) =>
      TokensBalanced(l);
      TokensShow(l, d);
      TokensShow(r, d);
      BareAround(Tokens(l), Oper(op), Tokens(r), d);
    case SList(items) =>
      JoinedBalanced(items);
      JoinedShow(items, d);
      BareSquare([], Joined(items), d);
      assert [] + [LSquare] == [LSquare];
    case SIndex(b, k) =>
      TokensBalanced(b);
      TokensBalanced(k);
      TokensShow(b, d);
      TokensShow(k, d);
      BareSquare(Tokens(b), Tokens(k), d);
    case SCall(fn, args) =>
      JoinedBalanced(args);
      JoinedShow(args, d + 1);
      BareOne(Name(fn), d);
      BalancedOne(Name(fn));
      BareParens([Name(fn)], Joined(args), d);
      assert [Name(fn)] + [LParen] == [Name(fn), LParen];
    case SWhere(b, cs) =>
      TokensBalanced(b);
      TokensShow(b, d);
      ClausesShow(cs, d);
      BareAround(Tokens(b), Oper("where"), Clauses(cs), d);
  }

  lemma {:induction false} JoinedShow(items: seq<Syn>, d: nat)
    requires forall i :: 0 <= i < |items| ==> Valid(items[i])
    ensures Bare(Joined(items), d) <==> d == 0 && (|items| > 1 || (|items| == 1 && Shows(items[0])))
    decreases items
  {
    hide Bare, Balanced;
    if items == [] {
      BareNone(d);
    } else {
      TokensShow(items[0], d);
      TokensBalanced(items[0]);
      if |items| > 1 {
        JoinedShow(items[1..], d);
        BareAround(Tokens(items[0]), Comma, Joined(items[1..]), d);
      }
    }
  }

  lemma {:induction false} ClausesShow(cs: seq<SClause>, d: nat)
    requires cs != [] && forall i :: 0 <= i < |cs| ==> Valid(cs[i].value)
    ensures Bare(Clauses(cs), d) <==> d == 0
    decreases cs
  {
    hide Bare, Balanced;
    var head, v := [Name(cs[0].name), Oper("=")], Tokens(cs[0].value);
    TokensShow(cs[0].value, d);
    TokensBalanced(cs[0].value);
    HeadShows(cs[0].name, v, d);
    HeadCommas(cs[0].name, v, d);
    if |cs| > 1 {
      ClausesShow(cs[1..], d);
      BareAround(head + v, Comma, Clauses(cs[1..]), d);
    }
  }

  lemma HeadShows(name: string, v: seq<Token>, d: int)
    ensures Bare([Name(name), Oper("=")] + v, d) <==> d == 0 || Bare(v, d)
  {
    hide Bare, Balanced;
    BalancedOne(Name(name));
    BareOne(Name(name), d);
    BareAround([Name(name)], Oper("="), v, d);
    assert [Name(name)] + [Oper("=")] == [Name(name), Oper("=")];
  }

  // ---------------------------------------------------------------- the separator met first

  /** The first separator outside round brackets is an `=`, or a comma behind more opening than closing
      square brackets, when `sq` is their excess so far. */
  ghost predicate Spoils(ts: seq<Token>, d: int, sq: int) {
    if ts == [] then false
    else if d == 0 && Separator(ts[0]) then ts[0] == Oper("=") || sq > 0
    else Spoils(ts[1..], Rounder(ts[0], d), Squarer(ts[0], sq))
  }

  ghost function Squarer(t: Token, sq: int): int {
    if t.LSquare? then sq + 1 else if t.RSquare? then sq - 1 else sq
  }

  ghost function Squares(ts: seq<Token>): int { CountOf(ts, LSquare) - CountOf(ts, RSquare) }

  lemma SquaresFirst(ts: seq<Token>)
    requires ts != []
    ensures forall d {:trigger Squarer(ts[0], d)} :: Squarer(ts[0], d) + Squares(ts[1..]) == d + Squares(ts)
  {
  }

  lemma SquaresNone()
    ensures Squares([]) == 0
  {
  }

  lemma {:induction false} SpoilsConcat(a: seq<Token>, b: seq<Token>, d: int, sq: int)
    ensures Spoils(a + b, d, sq) <==>
            if Bare(a, d) then Spoils(a, d, sq) else Spoils(b, d + Rounds(a), sq + Squares(a))
    decreases |a|
  {
    hide Rounds, Rounder, Squares, Squarer;
    if a == [] {
      assert a + b == b;
      RoundsNone();
      SquaresNone();
    } else {
      assert (a + b)[0] == a[0] && (a + b)[1..] == a[1..] + b;
      if !(d == 0 && Separator(a[0])) {
        SpoilsConcat(a[1..], b, Rounder(a[0], d), Squarer(a[0], sq));
        RoundsFirst(a);
        SquaresFirst(a);
      }
    }
  }

  lemma SpoilsOne(t: Token, d: int, sq: int)
    ensures Spoils([t], d, sq) <==> d == 0 && Separator(t) && (t == Oper("=") || sq > 0)
  {
    assert [t][1..] == [];
  }

  /** Two pieces around a token, the first one balanced. */
  lemma SpoilsAround(a: seq<Token>, t: Token, b: seq<Token>, d: int, sq: int)
    requires Balanced(a) && !t.LParen? && !t.RParen?
    ensures Spoils(a + [t] + b, d, sq) <==>
            if Bare(a, d) then Spoils(a, d, sq)
            else if d == 0 && Separator(t) then t == Oper("=") || sq > 0
            else Spoils(b, d, Squarer(t, sq))
  {
    hide Bare, CountOf, Spoils;
    assert a + [t] + b == a + ([t] + b);
    SpoilsConcat(a, [t] + b, d, sq);
    SpoilsConcat([t], b, d, sq);
    SpoilsOne(t, d, sq);
    BareOne(t, d);
    RoundsOne(t);
    SquaresOne(t, sq);
    assert Squares(a) == 0 && Rounds(a) == 0;
  }

  lemma SquaresOne(t: Token, sq: int)
    ensures sq + Squares([t]) == Squarer(t, sq)
  {
    SquaresFirst([t]);
    SquaresNone();
    assert [t][1..] == [];
  }

  /** When a written piece shows separators, the first one spoils a clause it stands in. */
  lemma {:induction false} ShownSpoils(s: Syn, sq: nat)
    requires Valid(s) && Shows(s)
    ensures Spoils(Tokens(s), 0, sq)
    decreases s
  {
    hide Bare, Spoils, Balanced;
    BareNone(0);
    BalancedNone();
    match s
    case SUnary(op, x) =>
      ShownSpoils(x, sq);
      SpoilsAround([], Oper(op), Tokens(x), 0, sq);
      assert [] + [Oper(op)] == [Oper(op)];
    case SBinary(op, l, r) => BinarySpoils(op, l, r, sq);
    case SList(items) =>
      JoinedSpoils(items, sq + 1);
      JoinedShow(items, 0);
      SpoilsAround([], LSquare, Joined(items), 0, sq);
      assert [] + [LSquare] == [LSquare];
      SpoilsConcat([LSquare] + Joined(items), [RSquare], 0, sq);
      BareAround([], LSquare, Joined(items), 0);
    case SIndex(b, k) => IndexSpoils(b, k, sq);
    case SWhere(b, cs) => WhereSpoils(b, cs, sq);
  }

  lemma {:induction false} BinarySpoils(op: string, l: Syn, r: Syn, sq: nat)
    requires Valid(SBinary(op, l, r)) && Shows(SBinary(op, l, r))
    ensures Spoils(Tokens(SBinary(op, l, r)), 0, sq)
    decreases SBinary(op, l, r), 0
  {
    hide Bare, Spoils, Balanced;
    TokensBalanced(l);
    TokensShow(l, 0);
    SpoilsAround(Tokens(l), Oper(op), Tokens(r), 0, sq);
    if Shows(l) {
      ShownSpoils(l, sq);
    } else if op != "=" {
      ShownSpoils(r, sq);
    }
  }

  lemma {:induction false} IndexSpoils(b: Syn, k: Syn, sq: nat)
    requires Valid(SIndex(b, k)) && Shows(SIndex(b, k))
    ensures Spoils(Tokens(SIndex(b, k)), 0, sq)
    decreases SIndex(b, k), 0
  {
    hide Bare, Spoils, Balanced;
    var ts := Tokens(b) + [LSquare] + Tokens(k);
    TokensBalanced(b);
    TokensShow(b, 0);
    TokensShow(k, 0);
    SpoilsAround(Tokens(b), LSquare, Tokens(k), 0, sq);
    BareAround(Tokens(b), LSquare, Tokens(k), 0);
    SpoilsConcat(ts, [RSquare], 0, sq);
    if Shows(b) {
      ShownSpoils(b, sq);
    } else {
      ShownSpoils(k, sq + 1);
    }
  }

  lemma {:induction false} WhereSpoils(b: Syn, cs: seq<SClause>, sq: nat)
    requires Valid(SWhere(b, cs))
    ensures Spoils(Tokens(SWhere(b, cs)), 0, sq)
    decreases SWhere(b, cs), 0
  {
    hide Bare, Spoils, Balanced;
    TokensBalanced(b);
    TokensShow(b, 0);
    SpoilsAround(Tokens(b), Oper("where"), Clauses(cs), 0, sq);
    if Shows(b) {
      ShownSpoils(b, sq);
    } else {
      ClausesSpoil(cs, sq);
    }
  }

  lemma ClausesSpoil(cs: seq<SClause>, sq: nat)
    requires cs != []
    ensures Spoils(Clauses(cs), 0, sq)
  {
    var ts := Clauses(cs);
    assert ts[0] == Name(cs[0].name) && ts[1..][0] == Oper("=");
  }

  lemma {:induction false} JoinedSpoils(items: seq<Syn>, sq: nat)
    requires sq > 0 && (|items| > 1 || (|items| == 1 && Shows(items[0])))
    requires forall i :: 0 <= i < |items| ==> Valid(items[i])
    ensures Spoils(Joined(items), 0, sq)
    decreases items
  {
    hide Bare, Spoils, Balanced;
    if Shows(items[0]) {
      ShownSpoils(items[0], sq);
    }
    if |items| > 1 {
      TokensBalanced(items[0]);
      TokensShow(items[0], 0);
      SpoilsAround(Tokens(items[0]), Comma, Joined(items[1..]), 0, sq);
    }
  }

  /** Where the first separator is and what it is. */
  lemma {:induction false} SpoilsAt(ts: seq<Token>, d: int, sq: int) returns (q: nat)
    requires Spoils(ts, d, sq)
    ensures q < |ts| && NextRound(ts, d, Comma) >= q && NextRound(ts, d, Oper("=")) >= q
    ensures (NextRound(ts, d, Oper("=")) == q && NextRound(ts, d, Comma) > q) ||
            (NextRound(ts, d, Comma) == q && sq + Squares(ts[..q]) > 0)
    decreases |ts|
  {
    hide Rounder, Squarer, Squares, NextRound;
    RoundFirst(ts, d, Comma);
    RoundFirst(ts, d, Oper("="));
    if d == 0 && Separator(ts[0]) {
      q := 0;
      SquaresNone();
      assert ts[..0] == [];
    } else {
      q := SpoilsAt(ts[1..], Rounder(ts[0], d), Squarer(ts[0], sq));
      q := q + 1;
      assert ts[..q][0] == ts[0] && ts[..q][1..] == ts[1..][..q - 1];
      SquaresFirst(ts[..q]);
    }
  }

  /** A value with a spoiling separator is not parsed. */
  lemma SpoiltValue(name: string, ts: seq<Token>)
    requires Spoils(ts, 0, 0)
    ensures ParseValue(name, ts) == None
  {
    hide Parse, NextRound, Spoils, ParseClauses;
    var q := SpoilsAt(ts, 0, 0);
    if NextRound(ts, 0, Comma) == q {
      if Parse(ts[..q]).Some? {
        ParseKeeps(ts[..q]);
      }
    } else {
      RoundPrefix(ts, 0, Oper("="), NextRound(ts, 0, Comma));
    }
  }

  // ---------------------------------------------------------------- the search back for a square bracket

  /** It passes over a written piece. */
  lemma {:induction false} SquarePast(pre: seq<Token>, s: Syn, k: nat)
    requires pre != []
    ensures OpenSquare(pre + Tokens(s), k) == OpenSquare(pre, k)
    decreases s, 1
  {
    hide OpenSquare;
    match s
    case SIdent(id) => SquareStep(pre, Name(id), k);
    case SInt(n) => SquareStep(pre, Number(n), k);
    case SStr(str) => SquareStep(pre, Quoted(str), k);
    case SParen(x) => SquarePastParen(pre, x, k);
    case SUnary(op, x) =>
      assert pre + Tokens(s) == (pre + [Oper(op)]) + Tokens(x);
      SquarePast(pre + [Oper(op)], x, k);
      SquareStep(pre, Oper(op), k);
    case SBinary(op, l, r) => SquarePastBinary(pre, op, l, r, k);
    case SList(items) =>
      assert pre + Tokens(s) == ((pre + [LSquare]) + Joined(items)) + [RSquare];
      SquareStep(pre + [LSquare] + Joined(items), RSquare, k);
      SquarePastJoined(pre + [LSquare], items, k + 1);
      SquareStep(pre, LSquare, k + 1);
    case SIndex(b, key) => SquarePastIndex(pre, b, key, k);
    case SCall(fn, args) => SquarePastCall(pre, fn, args, k);
    case SWhere(b, cs) => SquarePastWhere(pre, b, cs, k);
  }

  lemma {:induction false} SquarePastParen(pre: seq<Token>, x: Syn, k: nat)
    requires pre != []
    ensures OpenSquare(pre + Tokens(SParen(x)), k) == OpenSquare(pre, k)
    decreases SParen(x), 0
  {
    hide OpenSquare;
    assert pre + Tokens(SParen(x)) == ((pre + [LParen]) + Tokens(x)) + [RParen];
    SquareStep(pre + [LParen] + Tokens(x), RParen, k);
    SquarePast(pre + [LParen], x, k);
    SquareStep(pre, LParen, k);
  }

  lemma {:induction false} SquarePastBinary(pre: seq<Token>, op: string, l: Syn, r: Syn, k: nat)
    requires pre != []
    ensures OpenSquare(pre + Tokens(SBinary(op, l, r)), k) == OpenSquare(pre, k)
    decreases SBinary(op, l, r), 0
  {
    hide OpenSquare;
    assert pre + Tokens(SBinary(op, l, r)) == ((pre + Tokens(l)) + [Oper(op)]) + Tokens(r);
    SquarePast(pre + Tokens(l) + [Oper(op)], r, k);
    SquareStep(pre + Tokens(l), Oper(op), k);
    SquarePast(pre, l, k);
  }

  lemma {:induction false} SquarePastIndex(pre: seq<Token>, b: Syn, key: Syn, k: nat)
    requires pre != []
    ensures OpenSquare(pre + Tokens(SIndex(b, key)), k) == OpenSquare(pre, k)
    decreases SIndex(b, key), 0
  {
    hide OpenSquare;
    assert pre + Tokens(SIndex(b, key)) == (((pre + Tokens(b)) + [LSquare]) + Tokens(key)) + [RSquare];
    SquareStep(pre + Tokens(b) + [LSquare] + Tokens(key), RSquare, k);
    SquarePast(pre + Tokens(b) + [LSquare], key, k + 1);
    SquareStep(pre + Tokens(b), LSquare, k + 1);
    SquarePast(pre, b, k);
  }

  lemma {:induction false} SquarePastCall(pre: seq<Token>, fn: string, args: seq<Syn>, k: nat)
    requires pre != []
    ensures OpenSquare(pre + Tokens(SCall(fn, args)), k) == OpenSquare(pre, k)
    decreases SCall(fn, args), 0
  {
    hide OpenSquare;
    assert pre + Tokens(SCall(fn, args)) == (((pre + [Name(fn)]) + [LParen]) + Joined(args)) + [RParen];
    SquareStep(pre + [Name(fn)] + [LParen] + Joined(args), RParen, k);
    SquarePastJoined(pre + [Name(fn)] + [LParen], args, k);
    SquareStep(pre + [Name(fn)], LParen, k);
    SquareStep(pre, Name(fn), k);
  }

  lemma {:induction false} SquarePastWhere(pre: seq<Token>, b: Syn, cs: seq<SClause>, k: nat)
    requires pre != []
    ensures OpenSquare(pre + Tokens(SWhere(b, cs)), k) == OpenSquare(pre, k)
    decreases SWhere(b, cs), 0
  {
    hide OpenSquare;
    assert pre + Tokens(SWhere(b, cs)) == ((pre + Tokens(b)) + [Oper("where")]) + Clauses(cs);
    SquarePastClauses(pre + Tokens(b) + [Oper("where")], cs, k);
    SquareStep(pre + Tokens(b), Oper("where"), k);
    SquarePast(pre, b, k);
  }

  lemma {:induction false} SquareStep(pre: seq<Token>, t: Token, k: nat)
    requires pre != [] && (t.LSquare? ==> k > 0)
    ensures OpenSquare(pre + [t], k) ==
            OpenSquare(pre, if t.RSquare? then k + 1 else if t.LSquare? then k - 1 else k)
  {
    assert (pre + [t])[..|pre|] == pre;
  }

  lemma {:induction false} SquarePastJoined(pre: seq<Token>, items: seq<Syn>, k: nat)
    requires pre != []
    ensures OpenSquare(pre + Joined(items), k) == OpenSquare(pre, k)
    decreases items
  {
    hide OpenSquare;
    if items == [] {
      assert pre + Joined(items) == pre;
    } else if |items| == 1 {
      SquarePast(pre, items[0], k);
    } else {
      var first := pre + Tokens(items[0]);
      assert pre + Joined(items) == (first + [Comma]) + Joined(items[1..]);
      SquarePastJoined(first + [Comma], items[1..], k);
      SquareStep(first, Comma, k);
      SquarePast(pre, items[0], k);
    }
  }

  lemma {:induction false} SquarePastClauses(pre: seq<Token>, cs: seq<SClause>, k: nat)
    requires pre != []
    ensures OpenSquare(pre + Clauses(cs), k) == OpenSquare(pre, k)
    decreases cs
  {
    hide OpenSquare;
    if cs == [] {
      assert pre + Clauses(cs) == pre;
    } else {
      hide Tokens, Clauses;
      var first := pre + [Name(cs[0].name)] + [Oper("=")] + Tokens(cs[0].value);
      SquarePastClause(pre, cs[0], k);
      BehindClause(pre, cs);
      if |cs| > 1 {
        SquarePastClauses(first + [Comma], cs[1..], k);
        SquareStep(first, Comma, k);
      }
    }
  }

  lemma BehindClause(pre: seq<Token>, cs: seq<SClause>)
    requires cs != []
    ensures var first := pre + [Name(cs[0].name)] + [Oper("=")] + Tokens(cs[0].value);
            pre + Clauses(cs) == if |cs| > 1 then (first + [Comma]) + Clauses(cs[1..]) else first
  {
    hide Tokens;
    var name, v := Name(cs[0].name), Tokens(cs[0].value);
    SpreadClause(pre, name, Oper("="), v);
    if |cs| > 1 {
      SpreadClauses(pre, [name, Oper("=")] + v, Comma, Clauses(cs[1..]));
    }
  }

  lemma SpreadClause(pre: seq<Token>, a: Token, b: Token, v: seq<Token>)
    ensures pre + ([a, b] + v) == pre + [a] + [b] + v
  {
  }

  lemma SpreadClauses(pre: seq<Token>, x: seq<Token>, t: Token, y: seq<Token>)
    ensures pre + (x + [t] + y) == pre + x + [t] + y
  {
  }

  lemma {:induction false} SquarePastClause(pre: seq<Token>, c: SClause, k: nat)
    requires pre != []
    ensures OpenSquare(pre + [Name(c.name)] + [Oper("=")] + Tokens(c.value), k) == OpenSquare(pre, k)
    decreases c, 0
  {
    hide OpenSquare;
    var named := pre + [Name(c.name)];
    SquarePast(named + [Oper("=")], c.value, k);
    SquareStep(named, Oper("="), k);
    SquareStep(pre, Name(c.name), k);
  }
}
