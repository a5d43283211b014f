/** The expression parser of the formula language: it splits a span of tokens at its loosest operator.

    The tokens are those left once white space and comments are gone. */
module FormulaParser {

  datatype Option<+T> = None | Some(value: T) {
    predicate IsFailure() { None? }
    function PropagateFailure<U>(): Option<U> requires None? { None }
    function Extract(): T requires Some? { value }
  }

  datatype Token =
    | Oper(name: string) | Name(name: string) | Number(n: int) | Quoted(s: string)
    | LParen | RParen | LSquare | RSquare | Comma

  predicate Opens(t: Token) { t.LParen? || t.LSquare? }
  predicate Closes(t: Token) { t.RParen? || t.RSquare? }
  predicate Bracket(t: Token) { Opens(t) || Closes(t) }

  datatype Expr =
    | Ident(id: string) | Int(n: int) | Str(s: string)
    | Unary(op: string, arg: Expr)
    | Binary(op: string, left: Expr, right: Expr)
    | List(items: seq<Expr>)
    | Index(base: Expr, key: Expr)
    | Call(fn: string, args: seq<Expr>)
    | Where(body: Expr, clauses: seq<Clause>)

  datatype Clause = Clause(name: string, value: Expr)

  /** `operator_precedence`; a name outside the table fails the assertion there. */
  function Prec(name: string): (p: Option<nat>)
    ensures p.Some? ==> 1 <= p.value <= 11
  {
    match name
    case "not" => Some(1)
    case "where" => Some(2)
    case "or" => Some(3)
    case "and" => Some(4)
    case "=" => Some(5)
    case "!=" => Some(5)
    case "<" => Some(5)
    case ">" => Some(5)
    case "<=" => Some(5)
    case ">=" => Some(5)
    case "+" => Some(6)
    case "-" => Some(6)
    case "*" => Some(7)
    case "/" => Some(7)
    case "%" => Some(8)
    case "^" => Some(9)
    case "d" => Some(10)
    case "." => Some(11)
    case _ => None
  }

  // ---------------------------------------------------------------- the loosest operator

  datatype Best = Best(at: nat, name: string)

  /** The variables of the scan: bracket depth, the operator chosen so far, whether the last token
      outside brackets was an operator, and whether the precedence lookup failed. */
  datatype Scan = Scan(depth: int, best: Option<Best>, group: bool, bad: bool)

  const SCAN0 := Scan(0, None, false, false)

  function ScanStep(st: Scan, t: Token, i: nat): Scan {
    if st.bad then st
    else if Opens(t) then st.(depth := st.depth + 1)
    else if Closes(t) then st.(depth := st.depth - 1)
    else if st.depth == 0 && t.Oper? then
      var st' := st.(group := true);
      if st.group then st'
      else if st.best.None? then st'.(best := Some(Best(i, t.name)))
      else if Prec(st.best.value.name).None? || Prec(t.name).None? then st'.(bad := true)
      else if Prec(st.best.value.name).value >= Prec(t.name).value then st'.(best := Some(Best(i, t.name)))
      else st'
    else st.(group := false)
  }

  function ScanSpan(st: Scan, ts: seq<Token>, i: nat): Scan
    decreases |ts|
  {
    if ts == [] then st else ScanSpan(ScanStep(st, ts[0], i), ts[1..], i + 1)
  }

  // ---------------------------------------------------------------- brackets and arguments

  /** The walk back over a span to the `[` that opens its end, or to the first token. */
  function OpenSquare(ts: seq<Token>, squares: int): (at: nat)
    requires ts != []
    ensures at < |ts|
  {
    var at := |ts| - 1;
    if (ts[at].LSquare? && squares == 0) || at == 0 then at
    else OpenSquare(ts[..at],
      if ts[at].RSquare? then squares + 1 else if ts[at].LSquare? then squares - 1 else squares)
  }

  function CountOf(ts: seq<Token>, t: Token): nat {
    if ts == [] then 0 else (if ts[0] == t then 1 else 0) + CountOf(ts[1..], t)
  }

  /** The first comma outside all brackets, or the end. */
  function NextComma(ts: seq<Token>, parens: int): (c: nat)
    ensures c <= |ts| && (c < |ts| ==> ts[c].Comma?)
  {
    if ts == [] then 0
    else if Opens(ts[0]) then 1 + NextComma(ts[1..], parens + 1)
    else if Closes(ts[0]) then 1 + NextComma(ts[1..], parens - 1)
    else if ts[0].Comma? && parens == 0 then 0
    else 1 + NextComma(ts[1..], parens)
  }

  /** The first given separator outside round brackets, or the end: square brackets do not count in
      `where` clauses. */
  function NextRound(ts: seq<Token>, parens: int, sep: Token): (c: nat)
    ensures c <= |ts|
  {
    if ts == [] then 0
    else if ts[0].LParen? then 1 + NextRound(ts[1..], parens + 1, sep)
    else if ts[0].RParen? then 1 + NextRound(ts[1..], parens - 1, sep)
    else if ts[0] == sep && parens == 0 then 0
    else 1 + NextRound(ts[1..], parens, sep)
  }

  // ---------------------------------------------------------------- the parser

  /** `parse_expression`; none stands for a thrown error. */
  function Parse(ts: seq<Token>): Option<Expr>
    decreases |ts|, 1
  {
    if ts == [] then None
    else
      var st, n := ScanSpan(SCAN0, ts, 0), |ts|;
      if st.bad then None
      else if st.best.None? then ParseClosed(ts)
      else
        BestInSpan(SCAN0, ts, 0);
        var p, name := st.best.value.at, st.best.value.name;
        if p + 1 == n then None
        else if p == 0 then
          var arg :- Parse(ts[1..]);
          if name == "not" || name == "-" then Some(Unary(name, arg)) else None
        else if name == "where" then
          var clauses :- ParseClauses(ts[p + 1..]);
          var body :- Parse(ts[..p]);
          Some(Where(body, clauses))
        else
          var left :- Parse(ts[..p]);
          var right :- Parse(ts[p + 1..]);
          Some(Binary(name, left, right))
  }

  /** The branch without an operator outside brackets. */
  function ParseClosed(ts: seq<Token>): Option<Expr>
    requires ts != []
    decreases |ts|, 0
  {
    var n := |ts|;
    if ts[0].LParen? && ts[n - 1].RParen? then Parse(ts[1..n - 1])
    else if ts[n - 1].RSquare? then
      if n == 1 then None
      else
        var tok := OpenSquare(ts[..n - 1], 0);
        if !ts[tok].LSquare? then None
        else if tok == 0 then
          var items :- ParseArgs(ts[1..n - 1]);
          Some(List(items))
        else
          var base :- Parse(ts[..tok]);
          var key :- Parse(ts[tok + 1..n - 1]);
          Some(Index(base, key))
    else if n == 1 then
      match ts[0]
      case Name(id) => Some(Ident(id))
      case Number(k) => Some(Int(k))
      case Quoted(s) => Some(Str(s))
      case _ => None
    else if ts[0].Name? && ts[1].LParen? && ts[n - 1].RParen? && CountOf(ts, LParen) == CountOf(ts, RParen) then
      var args :- ParseArgs(ts[2..n - 1]);
      Some(Call(ts[0].name, args))
    else None
  }

  /** `parse_args`: a trailing comma is allowed. */
  function ParseArgs(ts: seq<Token>): Option<seq<Expr>>
    decreases |ts|, 2
  {
    if ts == [] then Some([])
    else
      var c := NextComma(ts, 0);
      var first :- Parse(ts[..c]);
      if c == |ts| then Some([first])
      else
        var rest :- ParseArgs(ts[c + 1..]);
        Some([first] + rest)
  }

  /** `parse_where_clauses`: every clause is `name = value`. */
  function ParseClauses(ts: seq<Token>): Option<seq<Clause>>
    decreases |ts|, 3
  {
    if ts == [] then Some([])
    else if |ts| >= 2 && ts[0].Name? && ts[1] == Oper("=") then ParseValue(ts[0].name, ts[2..])
    else None
  }

  /** The value of a clause goes to the next comma outside round brackets and holds no `=` outside them; a
      last clause with nothing behind its `=` is dropped. */
  function ParseValue(name: string, ts: seq<Token>): Option<seq<Clause>>
    decreases |ts|, 2
  {
    var c := NextRound(ts, 0, Comma);
    if NextRound(ts[..c], 0, Oper("=")) < c then None
    else if ts == [] then Some([])
    else
      var value :- Parse(ts[..c]);
      if c == |ts| then Some([Clause(name, value)])
      else
        var rest :- ParseClauses(ts[c + 1..]);
        Some([Clause(name, value)] + rest)
  }

  lemma {:induction false} BestInSpan(st: Scan, ts: seq<Token>, i: nat)
    ensures var r := ScanSpan(st, ts, i);
            r.best == st.best || (r.best.Some? && i <= r.best.value.at < i + |ts|)
    decreases |ts|
  {
    if ts != [] {
      BestInSpan(ScanStep(st, ts[0], i), ts[1..], i + 1);
    }
  }

  // ---------------------------------------------------------------- the parser with its loops

  method FindOperator(ts: seq<Token>) returns (bad: bool, op: Option<Best>)
    ensures var st := ScanSpan(SCAN0, ts, 0);
            bad == st.bad && (!bad ==> op == st.best)
  {
    hide Prec;
    var parens, group := 0, false;
    op := None;
    var i := 0;
    assert ts[0..] == ts;
    while i < |ts|
      invariant 0 <= i <= |ts|
      invariant ScanSpan(SCAN0, ts, 0) == ScanSpan(Scan(parens, op, group, false), ts[i..], i)
    {
      var t := ts[i];
      assert ts[i..][0] == t && ts[i..][1..] == ts[i + 1..];
      if Opens(t) {
        parens := parens + 1;
      } else if Closes(t) {
        parens := parens - 1;
      } else if parens == 0 && t.Oper? {
        if !group {
          if op.None? {
            op := Some(Best(i, t.name));
          } else {
            var before, here := Prec(op.value.name), Prec(t.name);
            if before.None? || here.None? {
              ScanBad(Scan(parens, op, true, true), ts[i + 1..], i + 1);
              return true, None;
            }
            if before.value >= here.value { op := Some(Best(i, t.name)); }
          }
        }
        group := true;
      } else {
        group := false;
      }
      i := i + 1;
    }
    bad := false;
  }

  lemma {:induction false} ScanBad(st: Scan, ts: seq<Token>, i: nat)
    requires st.bad
    ensures ScanSpan(st, ts, i) == st
    decreases |ts|
  {
    if ts != [] {
      ScanBad(ScanStep(st, ts[0], i), ts[1..], i + 1);
    }
  }

  method FindOpenSquare(ts: seq<Token>) returns (tok: nat)
    requires ts != []
    ensures tok == OpenSquare(ts, 0)
  {
    tok := |ts| - 1;
    var squares := 0;
    assert ts[..|ts|] == ts;
    while (!ts[tok].LSquare? || squares != 0) && tok != 0
      invariant tok < |ts|
      invariant OpenSquare(ts, 0) == OpenSquare(ts[..tok + 1], squares)
    {
      assert ts[..tok + 1][..tok] == ts[..tok];
      if ts[tok].RSquare? {
        squares := squares + 1;
      } else if ts[tok].LSquare? {
        squares := squares - 1;
      }
      tok := tok - 1;
    }
  }

  method CountParens(ts: seq<Token>) returns (nleft: nat, nright: nat)
    ensures nleft == CountOf(ts, LParen) && nright == CountOf(ts, RParen)
  {
    nleft, nright := 0, 0;
    var i := 0;
    assert ts[0..] == ts;
    while i < |ts|
      invariant 0 <= i <= |ts|
      invariant nleft + CountOf(ts[i..], LParen) == CountOf(ts, LParen)
      invariant nright + CountOf(ts[i..], RParen) == CountOf(ts, RParen)
    {
      assert ts[i..][0] == ts[i] && ts[i..][1..] == ts[i + 1..];
      if ts[i] == LParen { nleft := nleft + 1; } else if ts[i] == RParen { nright := nright + 1; }
      i := i + 1;
    }
  }

  /** The loop of `parse_args`. */
  method ParseArguments(ts: seq<Token>) returns (r: Option<seq<Expr>>)
    ensures r == ParseArgs(ts)
    decreases |ts|, 2
  {
    hide Parse, ArgsFrom, ParseArgs, NextComma;
    var res: seq<Expr> := [];
    var parens, beg, i := 0, 0, 0;
    assert ts[0..] == ts;
    ArgsStart(ts);
    while i < |ts|
      invariant 0 <= beg <= i <= |ts|
      invariant ArgsFrom(res, ts[beg..]) == ParseArgs(ts)
      invariant NextComma(ts[beg..], 0) == i - beg + NextComma(ts[i..], parens)
    {
      NextCommaStep(ts, i, parens);
      if Opens(ts[i]) {
        parens := parens + 1;
      } else if Closes(ts[i]) {
        parens := parens - 1;
      } else if ts[i].Comma? && parens == 0 {
        SpanOfSpan(ts, beg, i);
        ArgsStep(res, ts[beg..]);
        var arg := ParseExpression(ts[beg..i]);
        if arg.None? { return None; }
        res := res + [arg.value];
        beg := i + 1;
      }
      i := i + 1;
    }
    NextCommaEnd(ts, parens);
    ArgsLast(res, ts[beg..]);
    if beg != i {
      assert ts[beg..i] == ts[beg..];
      var arg := ParseExpression(ts[beg..i]);
      if arg.None? { return None; }
      return Some(res + [arg.value]);
    }
    return Some(res);
  }

  lemma {:induction false} NextCommaStep(ts: seq<Token>, i: nat, parens: int)
    requires i < |ts|
    ensures NextComma(ts[i..], parens) ==
            if ts[i].Comma? && parens == 0 then 0
            else 1 + NextComma(ts[i + 1..], if Opens(ts[i]) then parens + 1 else if Closes(ts[i]) then parens - 1 else parens)
  {
    assert ts[i..][1..] == ts[i + 1..];
  }

  lemma NextCommaEnd(ts: seq<Token>, parens: int)
    ensures NextComma(ts[|ts|..], parens) == 0
  {
  }

  lemma SpanOfSpan(ts: seq<Token>, beg: nat, i: nat)
    requires beg <= i < |ts|
    ensures ts[beg..][..i - beg] == ts[beg..i] && ts[beg..][i - beg + 1..] == ts[i + 1..]
  {
  }

  ghost function ArgsFrom(res: seq<Expr>, ts: seq<Token>): Option<seq<Expr>> {
    var rest :- ParseArgs(ts);
    Some(res + rest)
  }

  lemma ArgsStart(ts: seq<Token>)
    ensures ArgsFrom([], ts) == ParseArgs(ts)
  {
    hide Parse;
    assert ParseArgs(ts).Some? ==> [] + ParseArgs(ts).value == ParseArgs(ts).value;
  }

  /** One argument before a comma. */
  lemma {:induction false} ArgsStep(res: seq<Expr>, ts: seq<Token>)
    requires NextComma(ts, 0) < |ts|
    ensures var c := NextComma(ts, 0);
            ArgsFrom(res, ts) == if Parse(ts[..c]).None? then None else ArgsFrom(res + [Parse(ts[..c]).value], ts[c + 1..])
  {
    hide Parse, NextComma;
    var c := NextComma(ts, 0);
    if Parse(ts[..c]).Some? && ParseArgs(ts[c + 1..]).Some? {
      var arg, rest := Parse(ts[..c]).value, ParseArgs(ts[c + 1..]).value;
      assert (res + [arg]) + rest == res + ([arg] + rest);
    }
  }

  /** The last argument, or nothing. */
  lemma {:induction false} ArgsLast(res: seq<Expr>, ts: seq<Token>)
    requires NextComma(ts, 0) == |ts|
    ensures ArgsFrom(res, ts) ==
            if ts == [] then Some(res) else if Parse(ts).None? then None else Some(res + [Parse(ts).value])
  {
    hide Parse, NextComma;
    assert ts[..|ts|] == ts;
    assert res + [] == res;
  }

  /** What is still to be read when the loop is at a clause that begins at a span (no name yet) or at the
      value of a clause whose name has been read. */
  ghost function Remaining(name: Option<string>, ts: seq<Token>): Option<seq<Clause>> {
    if name.None? then ParseClauses(ts) else ParseValue(name.value, ts)
  }

  ghost function ClausesFrom(res: seq<Clause>, name: Option<string>, ts: seq<Token>): Option<seq<Clause>> {
    var rest :- Remaining(name, ts);
    Some(res + rest)
  }

  /** The span from `beg` to `i` shows no comma and no `=` outside round brackets. */
  ghost predicate Unseparated(ts: seq<Token>, beg: nat, i: nat, parens: int)
    requires beg <= i <= |ts|
  {
    && NextRound(ts[beg..], 0, Comma) == i - beg + NextRound(ts[i..], parens, Comma)
    && NextRound(ts[beg..], 0, Oper("=")) == i - beg + NextRound(ts[i..], parens, Oper("="))
  }

  lemma UnseparatedStep(ts: seq<Token>, beg: nat, i: nat, parens: int)
    requires beg <= i < |ts| && Unseparated(ts, beg, i, parens)
    requires parens == 0 ==> ts[i] != Comma && ts[i] != Oper("=")
    ensures Unseparated(ts, beg, i + 1, Rounder(ts[i], parens))
  {
    assert ts[i..][1..] == ts[i + 1..];
  }

  /** A clause that has no name by the comma or the end that closes it cannot be read. */
  lemma NamelessClause(ts: seq<Token>, i: nat)
    requires 0 < |ts| && i <= |ts| && NextRound(ts, 0, Oper("=")) >= i
    requires i == |ts| || ts[i] == Comma
    ensures ParseClauses(ts) == None
  {
    hide Parse, ParseValue;
    if |ts| >= 2 && ts[0].Name? && ts[1] == Oper("=") {
      NextRoundSecond(ts);
    }
  }

  lemma NextRoundSecond(ts: seq<Token>)
    requires |ts| >= 2 && ts[0].Name? && ts[1] == Oper("=")
    ensures NextRound(ts, 0, Oper("=")) == 1
  {
    assert ts[1..][0] == ts[1];
  }

  /** An `=` that does not follow just a name spoils its clause. */
  lemma BadEquals(name: Option<string>, ts: seq<Token>, i: nat)
    requires i < |ts| && ts[i] == Oper("=") && NextRound(ts, 0, Oper("=")) == i && NextRound(ts, 0, Comma) > i
    requires name.Some? || i != 1 || !ts[0].Name?
    ensures Remaining(name, ts) == None
  {
    hide Parse;
    if name.Some? {
      RoundPrefix(ts, 0, Oper("="), NextRound(ts, 0, Comma));
    } else if |ts| >= 2 && ts[0].Name? && ts[1] == Oper("=") {
      NextRoundSecond(ts);
    }
  }

  /** The number of open round brackets behind a token. */
  ghost function Rounder(t: Token, d: int): int {
    if t.LParen? then d + 1 else if t.RParen? then d - 1 else d
  }

  lemma RoundFirst(ts: seq<Token>, d: int, sep: Token)
    requires ts != []
    ensures NextRound(ts, d, sep) ==
            if ts[0] == sep && d == 0 && !ts[0].LParen? && !ts[0].RParen? then 0
            else 1 + NextRound(ts[1..], Rounder(ts[0], d), sep)
  {
  }

  lemma {:induction false} RoundPrefix(ts: seq<Token>, d: int, sep: Token, n: nat)
    requires NextRound(ts, d, sep) < n <= |ts|
    ensures NextRound(ts[..n], d, sep) == NextRound(ts, d, sep)
  {
    hide NextRound, Rounder;
    assert ts[..n][0] == ts[0] && ts[..n][1..] == ts[1..][..n - 1];
    RoundFirst(ts, d, sep);
    RoundFirst(ts[..n], d, sep);
    if NextRound(ts, d, sep) > 0 {
      RoundPrefix(ts[1..], Rounder(ts[0], d), sep, n - 1);
    }
  }

  lemma {:induction false} RoundPrefixNone(ts: seq<Token>, d: int, sep: Token, n: nat)
    requires n <= |ts| && n <= NextRound(ts, d, sep)
    ensures NextRound(ts[..n], d, sep) == n
  {
    hide Rounder;
    if n > 0 {
      assert ts[..n][0] == ts[0] && ts[..n][1..] == ts[1..][..n - 1];
      RoundFirst(ts, d, sep);
      RoundFirst(ts[..n], d, sep);
      RoundPrefixNone(ts[1..], Rounder(ts[0], d), sep, n - 1);
    }
  }

  /** A value before a comma. */
  lemma ValueStep(res: seq<Clause>, name: string, ts: seq<Token>, c: nat)
    requires c < |ts| && NextRound(ts, 0, Comma) == c && NextRound(ts, 0, Oper("=")) >= c
    ensures ClausesFrom(res, Some(name), ts) ==
            if Parse(ts[..c]).None? then None
            else ClausesFrom(res + [Clause(name, Parse(ts[..c]).value)], None, ts[c + 1..])
  {
    RoundPrefixNone(ts, 0, Oper("="), c);
    hide Parse, ParseClauses, NextRound;
    if Parse(ts[..c]).Some? && ParseClauses(ts[c + 1..]).Some? {
      var clause, rest := Clause(name, Parse(ts[..c]).value), ParseClauses(ts[c + 1..]).value;
      assert (res + [clause]) + rest == res + ([clause] + rest);
    }
  }

  /** The last value, or nothing. */
  lemma ValueLast(res: seq<Clause>, name: string, ts: seq<Token>)
    requires NextRound(ts, 0, Comma) == |ts| && NextRound(ts, 0, Oper("=")) == |ts|
    ensures ClausesFrom(res, Some(name), ts) ==
            if ts == [] then Some(res)
            else if Parse(ts).None? then None else Some(res + [Clause(name, Parse(ts).value)])
  {
    hide Parse, ParseClauses;
    assert ts[..|ts|] == ts;
    assert res + [] == res;
  }

  lemma ClausesStart(ts: seq<Token>)
    ensures ClausesFrom([], None, ts) == ParseClauses(ts)
  {
    hide Parse, ParseClauses;
    assert ParseClauses(ts).Some? ==> [] + ParseClauses(ts).value == ParseClauses(ts).value;
  }

  lemma ClausesEnd(res: seq<Clause>)
    ensures ClausesFrom(res, None, []) == Some(res)
  {
    assert res + [] == res;
  }

  /** The loop of `parse_where_clauses`; the name of the clause at hand is none until its `=` is met. */
  method ParseWhereClauses(ts: seq<Token>) returns (r: Option<seq<Clause>>)
    ensures r == ParseClauses(ts)
    decreases |ts|, 2
  {
    hide Parse, ParseClauses, ParseValue, NextRound, ClausesFrom, Unseparated;
    var res: seq<Clause> := [];
    var parens, beg, i := 0, 0, 0;
    var varName: Option<string> := None;
    assert ts[0..] == ts;
    ClausesStart(ts);
    UnseparatedStart(ts, 0);
    while i < |ts|
      invariant 0 <= beg <= i <= |ts|
      invariant varName.Some? ==> beg > 0
      invariant ClausesFrom(res, varName, ts[beg..]) == ParseClauses(ts)
      invariant Unseparated(ts, beg, i, parens)
    {
      var t := ts[i];
      if parens == 0 && t == Comma {
        CommaMet(ts, beg, i);
        if varName.None? {
          NothingFrom(res, varName, ts, beg, i);
          return None;
        }
        SpanOfSpan(ts, beg, i);
        ValueStep(res, varName.value, ts[beg..], i - beg);
        var value := ParseExpression(ts[beg..i]);
        if value.None? { return None; }
        res := res + [Clause(varName.value, value.value)];
        beg, varName := i + 1, None;
        UnseparatedStart(ts, beg);
      } else if parens == 0 && t == Oper("=") {
        EqualsMet(ts, beg, i);
        if !ts[beg].Name? || beg + 1 != i || varName.Some? {
          SpoiltFrom(res, varName, ts, beg, i);
          return None;
        }
        NamedFrom(res, ts, beg);
        varName, beg := Some(ts[beg].name), i + 1;
        UnseparatedStart(ts, beg);
      } else {
        UnseparatedStep(ts, beg, i, parens);
        if t.LParen? {
          parens := parens + 1;
        } else if t.RParen? {
          parens := parens - 1;
        }
      }
      i := i + 1;
    }
    EndMet(ts, beg, parens);
    if beg != i {
      if varName.None? {
        NothingFrom(res, varName, ts, beg, i);
        return None;
      }
      ValueLast(res, varName.value, ts[beg..]);
      assert ts[beg..i] == ts[beg..];
      var value := ParseExpression(ts[beg..i]);
      if value.None? { return None; }
      return Some(res + [Clause(varName.value, value.value)]);
    }
    assert ts[beg..] == [];
    if varName.Some? {
      ValueLast(res, varName.value, ts[beg..]);
    } else {
      ClausesEnd(res);
    }
    return Some(res);
  }

  lemma UnseparatedStart(ts: seq<Token>, beg: nat)
    requires beg <= |ts|
    ensures Unseparated(ts, beg, beg, 0)
  {
  }

  lemma CommaMet(ts: seq<Token>, beg: nat, i: nat)
    requires beg <= i < |ts| && ts[i] == Comma && Unseparated(ts, beg, i, 0)
    ensures NextRound(ts[beg..], 0, Comma) == i - beg && NextRound(ts[beg..], 0, Oper("=")) >= i - beg
  {
  }

  lemma EqualsMet(ts: seq<Token>, beg: nat, i: nat)
    requires beg <= i < |ts| && ts[i] == Oper("=") && Unseparated(ts, beg, i, 0)
    ensures NextRound(ts[beg..], 0, Oper("=")) == i - beg && NextRound(ts[beg..], 0, Comma) > i - beg
  {
  }

  lemma EndMet(ts: seq<Token>, beg: nat, parens: int)
    requires beg <= |ts| && Unseparated(ts, beg, |ts|, parens)
    ensures NextRound(ts[beg..], 0, Comma) == |ts| - beg && NextRound(ts[beg..], 0, Oper("=")) == |ts| - beg
  {
  }

  lemma NothingFrom(res: seq<Clause>, name: Option<string>, ts: seq<Token>, beg: nat, i: nat)
    requires beg <= i <= |ts| && beg < |ts| && name.None? && (i == |ts| || ts[i] == Comma)
    requires NextRound(ts[beg..], 0, Oper("=")) >= i - beg
    ensures ClausesFrom(res, name, ts[beg..]) == None
  {
    hide NextRound, ParseClauses;
    NamelessClause(ts[beg..], i - beg);
  }

  lemma SpoiltFrom(res: seq<Clause>, name: Option<string>, ts: seq<Token>, beg: nat, i: nat)
    requires beg <= i < |ts| && ts[i] == Oper("=")
    requires NextRound(ts[beg..], 0, Oper("=")) == i - beg && NextRound(ts[beg..], 0, Comma) > i - beg
    requires !ts[beg].Name? || beg + 1 != i || name.Some?
    ensures ClausesFrom(res, name, ts[beg..]) == None
  {
    hide NextRound, ParseClauses, ParseValue;
    BadEquals(name, ts[beg..], i - beg);
  }

  lemma NamedFrom(res: seq<Clause>, ts: seq<Token>, beg: nat)
    requires beg + 1 < |ts| && ts[beg].Name? && ts[beg + 1] == Oper("=")
    ensures ClausesFrom(res, None, ts[beg..]) == ClausesFrom(res, Some(ts[beg].name), ts[beg + 2..])
  {
    hide ParseValue;
    assert ts[beg..][2..] == ts[beg + 2..];
  }

  /** `parse_expression`. */
  method ParseExpression(ts: seq<Token>) returns (r: Option<Expr>)
    ensures r == Parse(ts)
    decreases |ts|, 1
  {
    hide ScanSpan, Prec, ParseClauses, ParseClosed;
    if ts == [] { return None; }
    var bad, op := FindOperator(ts);
    if bad { return None; }
    BestInSpan(SCAN0, ts, 0);
    if op.None? {
      r := ParseWithoutOperator(ts);
      return;
    }
    var p, name := op.value.at, op.value.name;
    if p + 1 == |ts| { return None; }
    if p == 0 {
      var arg := ParseExpression(ts[1..]);
      if arg.None? || (name != "not" && name != "-") { return None; }
      return Some(Unary(name, arg.value));
    }
    if name == "where" {
      var clauses := ParseWhereClauses(ts[p + 1..]);
      if clauses.None? { return None; }
      var body := ParseExpression(ts[..p]);
      if body.None? { return None; }
      return Some(Where(body.value, clauses.value));
    }
    var left := ParseExpression(ts[..p]);
    if left.None? { return None; }
    var right := ParseExpression(ts[p + 1..]);
    if right.None? { return None; }
    return Some(Binary(name, left.value, right.value));
  }

  method ParseWithoutOperator(ts: seq<Token>) returns (r: Option<Expr>)
    requires ts != []
    ensures r == ParseClosed(ts)
    decreases |ts|, 0
  {
    hide Parse, ParseArgs, OpenSquare, CountOf;
    var n := |ts|;
    if ts[0].LParen? && ts[n - 1].RParen? {
      r := ParseExpression(ts[1..n - 1]);
    } else if ts[n - 1].RSquare? {
      if n == 1 { return None; }
      var tok := FindOpenSquare(ts[..n - 1]);
      if !ts[tok].LSquare? { return None; }
      if tok == 0 {
        var items := ParseArguments(ts[1..n - 1]);
        r := if items.None? then None else Some(List(items.value));
      } else {
        var base := ParseExpression(ts[..tok]);
        if base.None? { return None; }
        var key := ParseExpression(ts[tok + 1..n - 1]);
        r := if key.None? then None else Some(Index(base.value, key.value));
      }
    } else if n == 1 {
      r := match ts[0]
        case Name(id) => Some(Ident(id))
        case Number(k) => Some(Int(k))
        case Quoted(s) => Some(Str(s))
        case _ => None;
    } else if ts[0].Name? && ts[1].LParen? && ts[n - 1].RParen? {
      var nleft, nright := CountParens(ts);
      if nleft != nright { return None; }
      var args := ParseArguments(ts[2..n - 1]);
      r := if args.None? then None else Some(Call(ts[0].name, args.value));
    } else {
      r := None;
    }
  }
}
