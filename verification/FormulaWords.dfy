/** What parsing does to the words of a span: it keeps them in order, and it accepts only spans whose square
    brackets match. */
module FormulaWords {
  import opened FormulaParser
  import opened FormulaSyntax

  predicate Word(t: Token) { t.Oper? || t.Name? || t.Number? || t.Quoted? }

  /** The tokens that are no punctuation, in order. */
  function Words(ts: seq<Token>): seq<Token> {
    if ts == [] then [] else (if Word(ts[0]) then [ts[0]] else []) + Words(ts[1..])
  }

  /** The words of an expression, in the order they are written. */
  function WordsOf(e: Expr): seq<Token>
    decreases e
  {
    match e
    case Ident(id) => [Name(id)]
    case Int(n) => [Number(n)]
    case Str(s) => [Quoted(s)]
    case Unary(op, x) => [Oper(op)] + WordsOf(x)
    case Binary(op, l, r) => WordsOf(l) + [Oper(op)] + WordsOf(r)
    case List(items) => WordsOfAll(items)
    case Index(b, k) => WordsOf(b) + WordsOf(k)
    case Call(fn, args) => [Name(fn)] + WordsOfAll(args)
    case Where(b, cs) => WordsOf(b) + [Oper("where")] + WordsOfClauses(cs)
  }

  function WordsOfAll(items: seq<Expr>): seq<Token>
    decreases items
  {
    if items == [] then [] else WordsOf(items[0]) + WordsOfAll(items[1..])
  }

  function WordsOfClauses(cs: seq<Clause>): seq<Token>
    decreases cs
  {
    if cs == [] then []
    else [Name(cs[0].name), Oper("=")] + WordsOf(cs[0].value) + WordsOfClauses(cs[1..])
  }

  lemma {:induction false} WordsConcat(a: seq<Token>, b: seq<Token>)
    ensures Words(a + b) == Words(a) + Words(b)
  {
    if a == [] {
      assert a + b == b;
    } else {
      assert (a + b)[0] == a[0] && (a + b)[1..] == a[1..] + b;
      WordsConcat(a[1..], b);
      var first := if Word(a[0]) then [a[0]] else [];
      assert first + (Words(a[1..]) + Words(b)) == (first + Words(a[1..])) + Words(b);
    }
  }

  lemma WordsOne(t: Token)
    ensures Words([t]) == if Word(t) then [t] else []
  {
    assert [t][1..] == [];
  }

  lemma WordsNone()
    ensures Words([]) == []
  {
  }

  /** Two pieces around a token. */
  lemma WordsAround(a: seq<Token>, t: Token, b: seq<Token>)
    ensures Words(a + [t] + b) == Words(a) + (if Word(t) then [t] else []) + Words(b)
  {
    WordsConcat(a + [t], b);
    WordsConcat(a, [t]);
    WordsOne(t);
  }

  lemma {:induction false} CountConcat(a: seq<Token>, b: seq<Token>, t: Token)
    ensures CountOf(a + b, t) == CountOf(a, t) + CountOf(b, t)
  {
    if a == [] {
      assert a + b == b;
    } else {
      assert (a + b)[0] == a[0] && (a + b)[1..] == a[1..] + b;
      CountConcat(a[1..], b, t);
    }
  }

  lemma CountOne(t: Token, u: Token)
    ensures CountOf([t], u) == if t == u then 1 else 0
  {
  }

  lemma CountAround(a: seq<Token>, t: Token, b: seq<Token>, u: Token)
    ensures CountOf(a + [t] + b, u) == CountOf(a, u) + (if t == u then 1 else 0) + CountOf(b, u)
  {
    CountConcat(a + [t], b, u);
    CountConcat(a, [t], u);
    CountOne(t, u);
  }

  // ---------------------------------------------------------------- what a successful parse tells

  /** Every `=` is followed by something that can begin its right side. */
  ghost predicate NoBareEquals(ts: seq<Token>) {
    forall i :: 0 <= i < |ts| && ts[i] == Oper("=") ==> i + 1 < |ts| && !Closes(ts[i + 1]) && !ts[i + 1].Comma?
  }

  /** The words are those of the span, or fewer when an `=` is bare; and the square brackets match. */
  ghost predicate Kept(ts: seq<Token>, words: seq<Token>) {
    && (if NoBareEquals(ts) then words == Words(ts) else |words| < |Words(ts)|)
    && CountOf(ts, LSquare) == CountOf(ts, RSquare)
  }

  /** What a span that can be parsed begins with. */
  predicate Begins(ts: seq<Token>) { ts != [] && !Closes(ts[0]) && !ts[0].Comma? }

  lemma {:induction false} ParseBegins(ts: seq<Token>)
    requires Parse(ts).Some?
    ensures Begins(ts)
    decreases |ts|
  {
    hide ScanSpan, ParseArgs, OpenSquare, CountOf, ParseClauses, Prec;
    var st := ScanSpan(SCAN0, ts, 0);
    ChosenBehind(SCAN0, ts, 0);
    if st.best.Some? {
      var p := st.best.value.at;
      if p > 0 {
        ParseBegins(ts[..p]);
      }
    } else if ts[|ts| - 1].RSquare? && !(ts[0].LParen? && ts[|ts| - 1].RParen?) {
      var tok := OpenSquare(ts[..|ts| - 1], 0);
      if tok > 0 {
        ParseBegins(ts[..tok]);
      }
    }
  }

  lemma {:induction false} SplitAt(ts: seq<Token>, p: nat)
    requires p < |ts|
    ensures ts == ts[..p] + [ts[p]] + ts[p + 1..]
    ensures Words(ts) == Words(ts[..p]) + (if Word(ts[p]) then [ts[p]] else []) + Words(ts[p + 1..])
    ensures CountOf(ts, LSquare) == CountOf(ts[..p], LSquare) + (if ts[p].LSquare? then 1 else 0) + CountOf(ts[p + 1..], LSquare)
    ensures CountOf(ts, RSquare) == CountOf(ts[..p], RSquare) + (if ts[p].RSquare? then 1 else 0) + CountOf(ts[p + 1..], RSquare)
  {
    assert ts == ts[..p] + [ts[p]] + ts[p + 1..];
    WordsAround(ts[..p], ts[p], ts[p + 1..]);
    CountAround(ts[..p], ts[p], ts[p + 1..], LSquare);
    CountAround(ts[..p], ts[p], ts[p + 1..], RSquare);
  }

  /** A part of a span keeps the property unless it is cut right behind an `=`. */
  lemma PartNoBare(ts: seq<Token>, a: nat, b: nat)
    requires a <= b <= |ts| && NoBareEquals(ts)
    requires b == |ts| || a == b || Closes(ts[b]) || ts[b].Comma? || ts[b - 1] != Oper("=")
    ensures NoBareEquals(ts[a..b])
  {
    var part := ts[a..b];
    forall i | 0 <= i < |part| && part[i] == Oper("=")
      ensures i + 1 < |part| && !Closes(part[i + 1]) && !part[i + 1].Comma?
    {
      assert ts[a + i] == Oper("=");
      assert a + i + 1 < |ts| && !Closes(ts[a + i + 1]) && !ts[a + i + 1].Comma?;
      if i + 1 < |part| {
        assert part[i + 1] == ts[a + i + 1];
      }
    }
  }

  /** A bare `=` is bare in the part it stands in. */
  lemma PartsNoBare(ts: seq<Token>, p: nat, q: nat)
    requires p < q <= |ts| && NoBareEquals(ts[..p]) && NoBareEquals(ts[p + 1..q])
    requires ts[p] == Oper("=") ==> Begins(ts[p + 1..])
    requires forall i :: q <= i < |ts| ==> ts[i] != Oper("=")
    ensures NoBareEquals(ts)
  {
    forall i | 0 <= i < |ts| && ts[i] == Oper("=")
      ensures i + 1 < |ts| && !Closes(ts[i + 1]) && !ts[i + 1].Comma?
    {
      if i < p {
        assert ts[..p][i] == ts[i];
        assert i + 1 < p && ts[..p][i + 1] == ts[i + 1];
      } else if p < i {
        var part := ts[p + 1..q];
        assert part[i - p - 1] == ts[i];
        assert i - p < |part| && part[i - p] == ts[i + 1];
      }
    }
  }

  /** The operator chosen does not stand right behind another one. */
  lemma {:induction false} ChosenBehind(st: Scan, ts: seq<Token>, i: nat)
    ensures var r := ScanSpan(st, ts, i);
            r.best == st.best ||
            (&& r.best.Some? && i <= r.best.value.at < i + |ts|
             && ts[r.best.value.at - i] == Oper(r.best.value.name)
             && (r.best.value.at == i ==> !st.group && st.depth == 0)
             && (r.best.value.at > i ==> !ts[r.best.value.at - i - 1].Oper?))
    decreases |ts|
  {
    hide Prec;
    if st.bad {
      ScanBad(st, ts, i);
    } else if ts != [] {
      var mid := ScanStep(st, ts[0], i);
      var r := ScanSpan(mid, ts[1..], i + 1);
      ChosenBehind(mid, ts[1..], i + 1);
      if r.best != st.best && r.best != mid.best && r.best.value.at > i + 1 {
        assert ts[1..][r.best.value.at - i - 2] == ts[r.best.value.at - i - 1];
      }
    }
  }

  lemma {:induction false} ChoiceStays(st: Scan, ts: seq<Token>, i: nat)
    requires st.best.Some?
    ensures ScanSpan(st, ts, i).best.Some?
    decreases |ts|
  {
    hide Prec;
    if ts != [] {
      ChoiceStays(ScanStep(st, ts[0], i), ts[1..], i + 1);
    }
  }

  /** A span that ends in an operator and shows the scan none is not parsed. */
  lemma EndsInOperator(ts: seq<Token>)
    requires ts != [] && ts[|ts| - 1].Oper? && ScanSpan(SCAN0, ts, 0).best.None?
    ensures Parse(ts) == None
  {
    hide ScanSpan, ParseArgs, OpenSquare, CountOf;
  }

  lemma PrefixShowsNone(ts: seq<Token>, p: nat)
    requires p <= |ts| && ScanSpan(SCAN0, ts, 0).best.None?
    ensures ScanSpan(SCAN0, ts[..p], 0).best.None?
  {
    ScanConcat(SCAN0, ts[..p], ts[p..], 0);
    assert ts == ts[..p] + ts[p..];
    if ScanSpan(SCAN0, ts[..p], 0).best.Some? {
      ChoiceStays(ScanSpan(SCAN0, ts[..p], 0), ts[p..], p);
    }
  }

  lemma {:induction false} ParseKeeps(ts: seq<Token>)
    requires Parse(ts).Some?
    ensures Kept(ts, WordsOf(Parse(ts).value))
    decreases |ts|, 1
  {
    hide ScanSpan, ParseClosed, ParseClauses, Kept, Prec;
    var st := ScanSpan(SCAN0, ts, 0);
    ChosenBehind(SCAN0, ts, 0);
    if st.best.None? {
      ParseClosedKeeps(ts);
    } else {
      var p, name := st.best.value.at, st.best.value.name;
      if p == 0 {
        ParseKeeps(ts[1..]);
        UnaryKeeps(ts, WordsOf(Parse(ts[1..]).value));
      } else if name == "where" {
        ParseKeeps(ts[..p]);
        ParseClausesKeep(ts[p + 1..]);
        OperatorKeeps(ts, p, WordsOf(Parse(ts[..p]).value), WordsOfClauses(ParseClauses(ts[p + 1..]).value));
      } else {
        ParseKeeps(ts[..p]);
        ParseKeeps(ts[p + 1..]);
        ParseBegins(ts[p + 1..]);
        OperatorKeeps(ts, p, WordsOf(Parse(ts[..p]).value), WordsOf(Parse(ts[p + 1..]).value));
      }
    }
  }

  /** Two spans around an operator that does not follow another one. */
  lemma OperatorKeeps(ts: seq<Token>, p: nat, a: seq<Token>, b: seq<Token>)
    requires 0 < p < |ts| && ts[p].Oper? && !ts[p - 1].Oper? && Kept(ts[..p], a) && Kept(ts[p + 1..], b)
    requires ts[p] == Oper("=") ==> Begins(ts[p + 1..])
    ensures Kept(ts, a + [ts[p]] + b)
  {
    hide Words, CountOf, NoBareEquals;
    SplitAt(ts, p);
    CutNoBare(ts, p);
  }

  lemma CutNoBare(ts: seq<Token>, p: nat)
    requires p < |ts| && (p > 0 ==> !ts[p - 1].Oper? || ts[p].Comma?) && (ts[p] == Oper("=") ==> Begins(ts[p + 1..]))
    ensures NoBareEquals(ts) <==> NoBareEquals(ts[..p]) && NoBareEquals(ts[p + 1..])
  {
    if NoBareEquals(ts) {
      PartNoBare(ts, 0, p);
      PartNoBare(ts, p + 1, |ts|);
      assert ts[0..p] == ts[..p] && ts[p + 1..|ts|] == ts[p + 1..];
    } else if NoBareEquals(ts[..p]) && NoBareEquals(ts[p + 1..]) {
      assert ts[p + 1..|ts|] == ts[p + 1..];
      PartsNoBare(ts, p, |ts|);
    }
  }

  lemma UnaryKeeps(ts: seq<Token>, b: seq<Token>)
    requires ts != [] && ts[0].Oper? && ts[0] != Oper("=") && Kept(ts[1..], b)
    ensures Kept(ts, [ts[0]] + b)
  {
    hide Words, CountOf;
    SplitAt(ts, 0);
    assert ts[..0] == [];
    WordsNone();
    CountNone();
    CutNoBare(ts, 0);
  }

  lemma CountNone()
    ensures CountOf([], LSquare) == 0 && CountOf([], RSquare) == 0
  {
  }

  /** A span ending in a bracket that opens at `p`. */
  lemma {:induction false} SplitEnds(ts: seq<Token>, p: nat)
    requires p < |ts| - 1 && Bracket(ts[p]) && Bracket(ts[|ts| - 1])
    requires ts[p].LSquare? <==> ts[|ts| - 1].RSquare?
    requires Opens(ts[p]) && Closes(ts[|ts| - 1])
    ensures Words(ts) == Words(ts[..p]) + Words(ts[p + 1..|ts| - 1])
    ensures var d := if ts[p].LSquare? then 1 else 0;
            && CountOf(ts, LSquare) == CountOf(ts[..p], LSquare) + d + CountOf(ts[p + 1..|ts| - 1], LSquare)
            && CountOf(ts, RSquare) == CountOf(ts[..p], RSquare) + d + CountOf(ts[p + 1..|ts| - 1], RSquare)
  {
    hide Words, CountOf;
    var n := |ts|;
    SplitAt(ts, n - 1);
    assert ts[n..] == [];
    WordsNone();
    CountNone();
    SplitAt(ts[..n - 1], p);
    assert ts[..n - 1][..p] == ts[..p] && ts[..n - 1][p + 1..] == ts[p + 1..n - 1];
  }

  /** Two spans around a bracket, the second one up to the bracket that ends the whole. */
  lemma BracketKeeps(ts: seq<Token>, p: nat, a: seq<Token>, b: seq<Token>)
    requires p < |ts| - 1 && Opens(ts[p]) && Closes(ts[|ts| - 1]) && (ts[p].LSquare? <==> ts[|ts| - 1].RSquare?)
    requires p > 0 ==> !ts[p - 1].Oper?
    requires Kept(ts[..p], a) && Kept(ts[p + 1..|ts| - 1], b)
    ensures Kept(ts, a + b)
  {
    hide Words, CountOf, NoBareEquals;
    SplitEnds(ts, p);
    if NoBareEquals(ts) {
      PartNoBare(ts, 0, p);
      PartNoBare(ts, p + 1, |ts| - 1);
      assert ts[0..p] == ts[..p];
    } else if NoBareEquals(ts[..p]) && NoBareEquals(ts[p + 1..|ts| - 1]) {
      PartsNoBare(ts, p, |ts| - 1);
    }
  }

  lemma NoneKept()
    ensures Kept([], [])
  {
  }

  lemma OneKept(t: Token)
    requires !t.LSquare? && !t.RSquare? && !t.Oper?
    ensures Kept([t], if Word(t) then [t] else [])
  {
    hide Words, CountOf;
    WordsOne(t);
    CountOne(t, LSquare);
    CountOne(t, RSquare);
  }

  lemma {:induction false} ParseClosedKeeps(ts: seq<Token>)
    requires ts != [] && ParseClosed(ts).Some? && ScanSpan(SCAN0, ts, 0).best.None?
    ensures Kept(ts, WordsOf(ParseClosed(ts).value))
    decreases |ts|, 0
  {
    hide Parse, ParseArgs, OpenSquare, CountOf, ScanSpan, Kept;
    var n := |ts|;
    NoneKept();
    assert ts[..0] == [];
    if ts[0].LParen? && ts[n - 1].RParen? {
      ParseKeeps(ts[1..n - 1]);
      BracketKeeps(ts, 0, [], WordsOf(Parse(ts[1..n - 1]).value));
      NoneBefore(WordsOf(Parse(ts[1..n - 1]).value));
    } else if ts[n - 1].RSquare? {
      var tok := OpenSquare(ts[..n - 1], 0);
      if tok == 0 {
        ParseArgsKeep(ts[1..n - 1]);
        BracketKeeps(ts, 0, [], WordsOfAll(ParseArgs(ts[1..n - 1]).value));
        NoneBefore(WordsOfAll(ParseArgs(ts[1..n - 1]).value));
      } else {
        IndexKeeps(ts, tok);
      }
    } else if n == 1 {
      OneKept(ts[0]);
      assert ts == [ts[0]];
    } else {
      assert ts[..1] == [ts[0]];
      OneKept(ts[0]);
      ParseArgsKeep(ts[2..n - 1]);
      BracketKeeps(ts, 1, [ts[0]], WordsOfAll(ParseArgs(ts[2..n - 1]).value));
    }
  }

  lemma NoneBefore(a: seq<Token>)
    ensures [] + a == a
  {
  }

  lemma {:induction false} IndexKeeps(ts: seq<Token>, tok: nat)
    requires 0 < tok < |ts| - 1 && ts[tok].LSquare? && ts[|ts| - 1].RSquare? && ScanSpan(SCAN0, ts, 0).best.None?
    requires Parse(ts[..tok]).Some? && Parse(ts[tok + 1..|ts| - 1]).Some?
    ensures Kept(ts, WordsOf(Parse(ts[..tok]).value) + WordsOf(Parse(ts[tok + 1..|ts| - 1]).value))
    decreases |ts|, 0, 0
  {
    hide Parse, CountOf, Words, ScanSpan, Kept;
    ParseKeeps(ts[..tok]);
    ParseKeeps(ts[tok + 1..|ts| - 1]);
    if ts[tok - 1].Oper? {
      PrefixShowsNone(ts, tok);
      assert ts[..tok][tok - 1] == ts[tok - 1];
      EndsInOperator(ts[..tok]);
    }
    BracketKeeps(ts, tok, WordsOf(Parse(ts[..tok]).value), WordsOf(Parse(ts[tok + 1..|ts| - 1]).value));
  }

  lemma {:induction false} ParseArgsKeep(ts: seq<Token>)
    requires ParseArgs(ts).Some?
    ensures Kept(ts, WordsOfAll(ParseArgs(ts).value))
    decreases |ts|, 2
  {
    hide Parse, NextComma, Words, CountOf;
    if ts == [] {
      WordsNone();
      CountNone();
    } else {
      var c := NextComma(ts, 0);
      ParseKeeps(ts[..c]);
      if c == |ts| {
        assert ts[..c] == ts;
        assert WordsOfAll([]) == [];
      } else {
        ParseArgsKeep(ts[c + 1..]);
        CommaKeeps(ts, c, WordsOf(Parse(ts[..c]).value), WordsOfAll(ParseArgs(ts[c + 1..]).value));
      }
    }
  }

  lemma {:induction false} ParseClausesKeep(ts: seq<Token>)
    requires ParseClauses(ts).Some?
    ensures Kept(ts, WordsOfClauses(ParseClauses(ts).value))
    decreases |ts|, 2
  {
    hide Parse, ParseValue, Words, CountOf;
    WordsNone();
    CountNone();
    if ts != [] {
      ValueKeeps(ts[0].name, ts);
    }
  }

  lemma {:induction false} ValueKeeps(name: string, ts: seq<Token>)
    requires |ts| >= 2 && ts[0] == Name(name) && ts[1] == Oper("=") && ParseValue(name, ts[2..]).Some?
    ensures Kept(ts, WordsOfClauses(ParseValue(name, ts[2..]).value))
    decreases |ts|, 1
  {
    hide Parse, ParseClauses, NextRound, Words, WordsOf, WordsOfClauses, CountOf, Kept;
    var v := ts[2..];
    var c := NextRound(v, 0, Comma);
    if v == [] {
      NoValueKeeps(name, ts);
    } else {
      ParseKeeps(v[..c]);
      if c == |v| {
        assert v[..c] == v;
        ParseBegins(v);
        LastClauseWords(name, Parse(v).value);
        HeadKeeps(name, ts, WordsOf(Parse(v).value));
      } else {
        RoundIsSep(v, 0, Comma);
        ParseBegins(v[..c]);
        ParseClausesKeep(v[c + 1..]);
        CommaKeeps(v, c, WordsOf(Parse(v[..c]).value), WordsOfClauses(ParseClauses(v[c + 1..]).value));
        FirstClauseWords(name, Parse(v[..c]).value, ParseClauses(v[c + 1..]).value);
        HeadKeeps(name, ts, WordsOf(Parse(v[..c]).value) + WordsOfClauses(ParseClauses(v[c + 1..]).value));
        assert [Name(name), Oper("=")] + WordsOf(Parse(v[..c]).value) + WordsOfClauses(ParseClauses(v[c + 1..]).value) ==
          [Name(name), Oper("=")] + (WordsOf(Parse(v[..c]).value) + WordsOfClauses(ParseClauses(v[c + 1..]).value));
      }
    }
  }

  /** A name and an `=` in front of a span. */
  lemma HeadKeeps(name: string, ts: seq<Token>, words: seq<Token>)
    requires |ts| >= 2 && ts[0] == Name(name) && ts[1] == Oper("=") && Begins(ts[2..]) && Kept(ts[2..], words)
    ensures Kept(ts, [Name(name), Oper("=")] + words)
  {
    hide Words, CountOf;
    HeadWords(name, ts[2..]);
    assert ts == [Name(name), Oper("=")] + ts[2..];
    CutNoBare(ts, 1);
    assert ts[..1] == [Name(name)] && ts[1 + 1..] == ts[2..];
  }

  lemma NoValueKeeps(name: string, ts: seq<Token>)
    requires |ts| == 2 && ts[0] == Name(name) && ts[1] == Oper("=")
    ensures Kept(ts, WordsOfClauses([]))
  {
    hide Words, CountOf;
    HeadWords(name, []);
    assert ts == [Name(name), Oper("=")] + [];
    assert !NoBareEquals(ts);
    CountNone();
  }

  /** Two spans around a comma. */
  lemma CommaKeeps(ts: seq<Token>, c: nat, a: seq<Token>, b: seq<Token>)
    requires c < |ts| && ts[c] == Comma && Kept(ts[..c], a) && Kept(ts[c + 1..], b)
    ensures Kept(ts, a + b)
  {
    hide Words, CountOf, NoBareEquals;
    SplitAt(ts, c);
    CutNoBare(ts, c);
  }

  lemma {:induction false} RoundIsSep(ts: seq<Token>, d: int, sep: Token)
    requires NextRound(ts, d, sep) < |ts|
    ensures ts[NextRound(ts, d, sep)] == sep
  {
    if !(ts[0] == sep && d == 0 && !ts[0].LParen? && !ts[0].RParen?) {
      RoundIsSep(ts[1..], if ts[0].LParen? then d + 1 else if ts[0].RParen? then d - 1 else d, sep);
    }
  }

  lemma HeadWords(name: string, v: seq<Token>)
    ensures Words([Name(name), Oper("=")] + v) == [Name(name), Oper("=")] + Words(v)
    ensures CountOf([Name(name), Oper("=")] + v, LSquare) == CountOf(v, LSquare)
    ensures CountOf([Name(name), Oper("=")] + v, RSquare) == CountOf(v, RSquare)
  {
    var ts := [Name(name), Oper("=")] + v;
    assert ts[1..] == [Oper("=")] + v && ts[1..][1..] == v;
  }

  lemma LastClauseWords(name: string, value: Expr)
    ensures WordsOfClauses([Clause(name, value)]) == [Name(name), Oper("=")] + WordsOf(value)
  {
    assert [Clause(name, value)][1..] == [];
    assert WordsOfClauses([]) == [];
  }

  lemma FirstClauseWords(name: string, value: Expr, rest: seq<Clause>)
    ensures WordsOfClauses([Clause(name, value)] + rest) == [Name(name), Oper("=")] + WordsOf(value) + WordsOfClauses(rest)
  {
    assert ([Clause(name, value)] + rest)[1..] == rest;
  }

  /** The words of the expression, in order, are the words of the span if and only if every `=` has
      something behind it; otherwise words are lost. */
  lemma ParseWords(ts: seq<Token>)
    requires Parse(ts).Some?
    ensures WordsOf(Parse(ts).value) == Words(ts) <==> NoBareEquals(ts)
    ensures |WordsOf(Parse(ts).value)| <= |Words(ts)|
  {
    ParseKeeps(ts);
  }

  /** Such an `=` in the last clause of a `where` is dropped together with the name in front of it. */
  lemma BareEqualsDropped()
    ensures Parse([Name("x"), Oper("where"), Name("a"), Oper("=")]) == Some(Where(Ident("x"), []))
  {
    var ts := [Name("x"), Oper("where"), Name("a"), Oper("=")];
    var t1, t2, t3 := ts[1..], ts[1..][1..], ts[1..][1..][1..];
    assert ts[2..] == [Name("a"), Oper("=")] && ts[2..][2..] == [] && ts[..1] == [Name("x")];
    assert t3[1..] == [];
    assert ScanSpan(SCAN0, ts, 0).best == Some(Best(1, "where"));
    assert [Name("x")][1..] == [];
    assert ScanSpan(SCAN0, [Name("x")], 0).best == None;
    assert ParseClauses(ts[2..]) == Some([]);
  }

  // ---------------------------------------------------------------- the words of written syntax

  lemma {:induction false} StripWords(s: Syn)
    ensures WordsOf(Strip(s)) == Words(Tokens(s))
    decreases s
  {
    hide Words, Shows, Unambiguous;
    WordsNone();
    match s
    case SIdent(id) => WordsOne(Name(id));
    case SInt(n) => WordsOne(Number(n));
    case SStr(str) => WordsOne(Quoted(str));
    case SParen(x) => StripWords(x); WordsInside(LParen, Tokens(x), RParen);
    case SUnary(op, x) => StripWords(x); WordsAround([], Oper(op), Tokens(x)); assert [] + [Oper(op)] == [Oper(op)];
    case SBinary(op, l, r) => StripWords(l); StripWords(r); WordsAround(Tokens(l), Oper(op), Tokens(r));
    case SList(items) => StripWordsAll(items); WordsInside(LSquare, Joined(items), RSquare);
    case SIndex(b, k) => StripWords(b); StripWords(k); WordsBrackets(Tokens(b), LSquare, Tokens(k), RSquare);
    case SCall(fn, args) => StripWordsAll(args); CallWords(fn, Joined(args));
    case SWhere(b, cs) => StripWords(b); StripWordsClauses(cs); WordsAround(Tokens(b), Oper("where"), Clauses(cs));
  }

  lemma CallWords(fn: string, ts: seq<Token>)
    ensures Words([Name(fn), LParen] + ts + [RParen]) == [Name(fn)] + Words(ts)
  {
    hide Words;
    WordsOne(Name(fn));
    WordsBrackets([Name(fn)], LParen, ts, RParen);
    assert [Name(fn)] + [LParen] == [Name(fn), LParen];
  }

  lemma WordsInside(open: Token, k: seq<Token>, close: Token)
    requires Bracket(open) && Bracket(close)
    ensures Words([open] + k + [close]) == Words(k)
  {
    WordsBrackets([], open, k, close);
    WordsNone();
    assert [] + [open] == [open];
  }

  lemma WordsBrackets(b: seq<Token>, open: Token, k: seq<Token>, close: Token)
    requires Bracket(open) && Bracket(close)
    ensures Words(b + [open] + k + [close]) == Words(b) + Words(k)
  {
    WordsAround(b, open, k);
    WordsConcat(b + [open] + k, [close]);
    WordsOne(close);
  }

  lemma {:induction false} StripWordsAll(items: seq<Syn>)
    ensures WordsOfAll(StripAll(items)) == Words(Joined(items))
    decreases items
  {
    if items != [] {
      StripWords(items[0]);
      StripWordsAll(items[1..]);
      if |items| > 1 {
        WordsAround(Tokens(items[0]), Comma, Joined(items[1..]));
      } else {
        assert items[1..] == [];
      }
    }
  }

  lemma {:induction false} StripWordsClauses(cs: seq<SClause>)
    ensures WordsOfClauses(StripClauses(cs)) == Words(Clauses(cs))
    decreases cs
  {
    hide Words, WordsOf, Strip;
    WordsNone();
    if cs != [] {
      hide Tokens;
      var first, rest := [Name(cs[0].name), Oper("=")] + Tokens(cs[0].value), cs[1..];
      StripWords(cs[0].value);
      StripWordsClauses(rest);
      HeadWords(cs[0].name, Tokens(cs[0].value));
      FirstClauseWords(cs[0].name, Strip(cs[0].value), StripClauses(rest));
      if |cs| > 1 {
        WordsAround(first, Comma, Clauses(rest));
      } else {
        assert rest == [] && StripClauses(rest) == [];
      }
    }
  }
}
