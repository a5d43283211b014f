/** Which operator binds tighter: the levels of the operator table written out, and how the parser splits
    any chain of operands and operators on them. */
module FormulaLevels {
  import opened FormulaParser
  import opened FormulaSyntax
  import opened FormulaRoundTrip
  import opened FormulaBrackets

  /** The operators from the loosest level to the tightest. */
  const LEVELS: seq<set<string>> := [
    {"not"}, {"where"}, {"or"}, {"and"}, {"=", "!=", "<", ">", "<=", ">="}, {"+", "-"}, {"*", "/"}, {"%"}, {"^"},
    {"d"}, {"."}]

  ghost predicate OnLevel(op: string, i: nat) { i < |LEVELS| && op in LEVELS[i] }

  /** The table of the parser knows these operators in this order, and no other. */
  lemma TableIsLevels(op: string, i: nat)
    requires i < |LEVELS|
    ensures op in LEVELS[i] <==> PrecOf(op) == i + 1
  {
  }

  lemma OnLevelPrec(op: string, i: nat)
    requires OnLevel(op, i)
    ensures Prec(op) == Some(i + 1)
  {
    TableIsLevels(op, i);
  }

  lemma NoLevel(op: string)
    requires forall i :: 0 <= i < |LEVELS| ==> op !in LEVELS[i]
    ensures Prec(op) == None
  {
    if Prec(op).Some? {
      TableIsLevels(op, Prec(op).value - 1);
    }
  }

  // ---------------------------------------------------------------- chains

  predicate Operand(t: Token) { t.Name? || t.Number? || t.Quoted? }

  /** Operands with operators of the table between them; `level` names the level of each operator. */
  ghost predicate Chain(ts: seq<Token>, level: seq<nat>) {
    && |ts| == 2 * |level| + 1
    && (forall k :: 0 <= k <= |level| ==> Operand(ts[2 * k]))
    && (forall k :: 0 <= k < |level| ==> ts[2 * k + 1].Oper? && OnLevel(ts[2 * k + 1].name, level[k]))
  }

  /** The last operator on the loosest level present. */
  ghost predicate LastLoosest(level: seq<nat>, p: nat) {
    && p < |level|
    && (forall k :: 0 <= k < p ==> level[p] <= level[k])
    && (forall k :: p < k < |level| ==> level[p] < level[k])
  }

  lemma {:induction false} HasLastLoosest(level: seq<nat>) returns (p: nat)
    requires level != []
    ensures LastLoosest(level, p)
  {
    var n := |level| - 1;
    p := n;
    if n > 0 {
      var q := HasLastLoosest(level[..n]);
      assert forall k :: 0 <= k < n ==> level[..n][k] == level[k];
      p := if level[n] <= level[q] then n else q;
    }
  }

  /** Where the scan stands behind the first operands and operators of a chain. */
  lemma {:induction false} ScanChain(ts: seq<Token>, level: seq<nat>, n: nat)
    requires Chain(ts, level) && n <= |level|
    ensures var r := ScanSpan(SCAN0, ts[..2 * n + 1], 0);
            && r.depth == 0 && !r.group && !r.bad
            && if n == 0 then r.best == None
               else exists p: nat :: LastLoosest(level[..n], p) && r.best == Some(Best(2 * p + 1, ts[2 * p + 1].name))
  {
    hide ScanSpan, Prec, OnLevel;
    assert Operand(ts[2 * n]);
    if n == 0 {
      assert ts[..1] == [ts[0]];
      ScanOne(SCAN0, ts[0], 0);
    } else {
      ScanChain(ts, level, n - 1);
      var a := ScanSpan(SCAN0, ts[..2 * n - 1], 0);
      var op := ts[2 * n - 1];
      assert op == ts[2 * (n - 1) + 1] && op.Oper? && OnLevel(op.name, level[n - 1]);
      assert ts[..2 * n + 1] == ts[..2 * n - 1] + [op] + [ts[2 * n]];
      ScanMiddle(SCAN0, ts[..2 * n - 1], op, [ts[2 * n]], 0);
      var b := ScanStep(a, op, 2 * n - 1);
      ScanOne(b, ts[2 * n], 2 * n);
      ChainStep(ts, level, n, a);
    }
  }

  lemma ChainStep(ts: seq<Token>, level: seq<nat>, n: nat, a: Scan)
    requires Chain(ts, level) && 0 < n <= |level| && a.depth == 0 && !a.group && !a.bad
    requires if n == 1 then a.best == None
             else exists p: nat :: LastLoosest(level[..n - 1], p) && a.best == Some(Best(2 * p + 1, ts[2 * p + 1].name))
    ensures var b := ScanStep(a, ts[2 * n - 1], 2 * n - 1);
            && b.depth == 0 && !b.bad
            && exists p: nat :: LastLoosest(level[..n], p) && b.best == Some(Best(2 * p + 1, ts[2 * p + 1].name))
  {
    hide Prec, OnLevel;
    var here := level[n - 1];
    var op := ts[2 * n - 1];
    assert op == ts[2 * (n - 1) + 1] && op.Oper? && OnLevel(op.name, here);
    OnLevelPrec(op.name, here);
    if n == 1 {
      assert LastLoosest(level[..1], 0);
    } else {
      var q: nat :| LastLoosest(level[..n - 1], q) && a.best == Some(Best(2 * q + 1, ts[2 * q + 1].name));
      assert OnLevel(ts[2 * q + 1].name, level[q]);
      OnLevelPrec(ts[2 * q + 1].name, level[q]);
      LastLoosestStep(level[..n - 1], q, here);
      assert level[..n - 1] + [here] == level[..n] && level[..n - 1][q] == level[q];
    }
  }

  lemma LastLoosestStep(level: seq<nat>, q: nat, here: nat)
    requires LastLoosest(level, q)
    ensures LastLoosest(level + [here], if level[q] >= here then |level| else q)
  {
  }

  /** The parser reads every chain without `where`: it splits at the last operator on the loosest level, so
      what stands on one level is grouped from the left. */
  lemma {:induction false} ChainReads(ts: seq<Token>, level: seq<nat>) returns (p: nat, l: Expr, r: Expr)
    requires Chain(ts, level) && level != [] && forall k :: 0 <= k < |level| ==> level[k] != 1
    ensures LastLoosest(level, p)
    ensures Parse(ts[..2 * p + 1]) == Some(l) && Parse(ts[2 * p + 2..]) == Some(r)
    ensures Parse(ts) == Some(Binary(ts[2 * p + 1].name, l, r))
    decreases |ts|, 0
  {
    hide Parse, ScanSpan, Chain;
    p := ChainSplit(ts, level);
    var left, right := ts[..2 * p + 1], ts[2 * p + 2..];
    SubChains(ts, level, p);
    l := ReadsChain(left, level[..p]);
    r := ReadsChain(right, level[p + 1..]);
  }

  lemma ChainSplit(ts: seq<Token>, level: seq<nat>) returns (p: nat)
    requires Chain(ts, level) && level != [] && forall k :: 0 <= k < |level| ==> level[k] != 1
    ensures LastLoosest(level, p) && 2 * p + 2 < |ts|
    ensures Parse(ts) == if Parse(ts[..2 * p + 1]).None? || Parse(ts[2 * p + 2..]).None? then None
                         else Some(Binary(ts[2 * p + 1].name, Parse(ts[..2 * p + 1]).value, Parse(ts[2 * p + 2..]).value))
  {
    hide Parse, ParseClosed, ScanSpan, OnLevel;
    p := HasLastLoosest(level);
    ChainChoice(ts, level, p);
    assert ts[2 * p + 1].Oper? && OnLevel(ts[2 * p + 1].name, level[p]);
    NotWhere(ts[2 * p + 1].name, level[p]);
    hide Chain, LastLoosest;
    ParseAt(ts);
  }

  /** Both sides of an operator of a chain are chains. */
  lemma SubChains(ts: seq<Token>, level: seq<nat>, p: nat)
    requires Chain(ts, level) && p < |level|
    ensures Chain(ts[..2 * p + 1], level[..p]) && Chain(ts[2 * p + 2..], level[p + 1..])
  {
    hide OnLevel;
    var right := ts[2 * p + 2..];
    forall k | 0 <= k <= |level| - 1 - p
      ensures Operand(right[2 * k])
    {
      assert right[2 * k] == ts[2 * (p + 1 + k)];
    }
    forall k | 0 <= k < |level| - 1 - p
      ensures right[2 * k + 1].Oper? && OnLevel(right[2 * k + 1].name, level[p + 1..][k])
    {
      assert right[2 * k + 1] == ts[2 * (p + 1 + k) + 1];
    }
  }

  lemma {:induction false} ReadsChain(ts: seq<Token>, level: seq<nat>) returns (e: Expr)
    requires Chain(ts, level) && forall k :: 0 <= k < |level| ==> level[k] != 1
    ensures Parse(ts) == Some(e)
    decreases |ts|, 1
  {
    hide Parse;
    if level == [] {
      assert Operand(ts[0]) && ts == [ts[0]];
      e := ReadsOperand(ts[0]);
    } else {
      var p, l, r := ChainReads(ts, level);
      e := Binary(ts[2 * p + 1].name, l, r);
    }
  }

  lemma ReadsOperand(t: Token) returns (e: Expr)
    requires Operand(t)
    ensures Parse([t]) == Some(e)
    ensures e == match t case Name(a) => Ident(a) case Number(n) => Int(n) case Quoted(s) => Str(s) case _ => e
  {
    ScanOne(SCAN0, t, 0);
    ParseAt([t]);
    e := Parse([t]).value;
  }

  // ---------------------------------------------------------------- two operators

  /** `a x b y c`: what stands on the same or a tighter level in front is taken first. */
  lemma PairReads(a: string, x: string, b: string, y: string, c: string, i: nat, j: nat)
    requires i < |LEVELS| && x in LEVELS[i] && j < |LEVELS| && y in LEVELS[j] && x != "where" && y != "where"
    ensures Parse([Name(a), Oper(x), Name(b), Oper(y), Name(c)]) ==
            Some(if i >= j then Binary(y, Binary(x, Ident(a), Ident(b)), Ident(c))
                 else Binary(x, Ident(a), Binary(y, Ident(b), Ident(c))))
  {
    hide Parse;
    var ts := [Name(a), Oper(x), Name(b), Oper(y), Name(c)];
    assert ts[2 * 0 + 1] == Oper(x) && ts[2 * 1 + 1] == Oper(y);
    assert Chain(ts, [i, j]);
    var p, l, r := ChainReads(ts, [i, j]);
    assert p == if i >= j then 1 else 0;
    if i >= j {
      assert ts[..3] == [Name(a), Oper(x), Name(b)] && ts[4..] == [Name(c)];
      OneReads(a, x, b, i);
      var e := ReadsOperand(Name(c));
    } else {
      assert ts[2..] == [Name(b), Oper(y), Name(c)] && ts[..1] == [Name(a)];
      OneReads(b, y, c, j);
      var e := ReadsOperand(Name(a));
    }
  }

  lemma OneReads(a: string, x: string, b: string, i: nat)
    requires i < |LEVELS| && x in LEVELS[i] && x != "where"
    ensures Parse([Name(a), Oper(x), Name(b)]) == Some(Binary(x, Ident(a), Ident(b)))
  {
    hide Parse;
    var ts := [Name(a), Oper(x), Name(b)];
    assert ts[2 * 0 + 1] == Oper(x);
    assert Chain(ts, [i]);
    var p, l, r := ChainReads(ts, [i]);
    assert ts[..1] == [Name(a)] && ts[2..] == [Name(b)];
    var e := ReadsOperand(Name(a));
    var f := ReadsOperand(Name(b));
  }

  /** The pairs a reader of the language meets: one for each step of the table and one for each pair of
      operators that share a level. */
  lemma NeighboursRead(x: string, y: string, a: string, b: string, c: string)
    requires (x, y) in {
      ("or", "and"), ("and", "="), ("and", "!="), ("and", "<"), ("and", ">"), ("and", "<="), ("and", ">="),
      ("=", "+"), ("<", "-"), ("+", "*"), ("+", "/"), ("-", "*"), ("-", "/"), ("*", "%"), ("/", "%"), ("%", "^"),
      ("^", "d"), ("d", ".")}
    ensures Parse([Name(a), Oper(x), Name(b), Oper(y), Name(c)]) ==
            Some(Binary(x, Ident(a), Binary(y, Ident(b), Ident(c))))
    ensures Parse([Name(a), Oper(y), Name(b), Oper(x), Name(c)]) ==
            Some(Binary(x, Binary(y, Ident(a), Ident(b)), Ident(c)))
  {
    hide Parse;
    var i := if x == "or" then 2 else if x == "and" then 3 else if x in LEVELS[4] then 4 else if x in LEVELS[5] then 5
             else if x in LEVELS[6] then 6 else if x == "%" then 7 else if x == "^" then 8 else 9;
    PairReads(a, x, b, y, c, i, i + 1);
    PairReads(a, y, b, x, c, i + 1, i);
  }

  lemma SharedLevelReads(x: string, y: string, a: string, b: string, c: string)
    requires {x, y} <= {"+", "-"} || {x, y} <= {"*", "/"} || {x, y} <= {"=", "!=", "<", ">", "<=", ">="}
    ensures Parse([Name(a), Oper(x), Name(b), Oper(y), Name(c)]) ==
            Some(Binary(y, Binary(x, Ident(a), Ident(b)), Ident(c)))
  {
    hide Parse;
    assert x in {x, y} && y in {x, y};
    var i := if x in LEVELS[4] then 4 else if x in LEVELS[5] then 5 else 6;
    PairReads(a, x, b, y, c, i, i);
  }

  // ---------------------------------------------------------------- in front of a chain

  function Shifted(st: Scan): Scan {
    if st.best.None? then st else st.(best := Some(Best(st.best.value.at + 1, st.best.value.name)))
  }

  lemma {:induction false} ScanShifted(st: Scan, ts: seq<Token>, i: nat)
    ensures ScanSpan(Shifted(st), ts, i + 1) == Shifted(ScanSpan(st, ts, i))
    decreases |ts|
  {
    hide Prec;
    if ts != [] {
      ScanShifted(ScanStep(st, ts[0], i), ts[1..], i + 1);
    }
  }

  /** An operator in front of a chain of operators is met by the scan as the first of them. */
  lemma PrefixScan(op: string, ts: seq<Token>, level: seq<nat>, i: nat, p: nat)
    requires OnLevel(op, i) && Chain(ts, level) && LastLoosest([i] + level, p)
    ensures var r := ScanSpan(SCAN0, [Oper(op)] + ts, 0);
            !r.bad && r.best.Some? && r.best.value.at == 2 * p
  {
    hide ScanSpan, OnLevel;
    PrefixChain(op, ts, level, i);
    ChainChoice([Name("")] + ([Oper(op)] + ts), [i] + level, p);
    BehindName([Oper(op)] + ts);
  }

  lemma ChainChoice(ts: seq<Token>, level: seq<nat>, p: nat)
    requires Chain(ts, level) && LastLoosest(level, p)
    ensures var r := ScanSpan(SCAN0, ts, 0);
            !r.bad && r.best.Some? && r.best.value.at == 2 * p + 1
  {
    hide ScanSpan, OnLevel;
    ScanChain(ts, level, |level|);
    assert ts[..2 * |level| + 1] == ts && level[..|level|] == level;
    assert forall q: nat :: LastLoosest(level, q) ==> q == p;
  }

  lemma BehindName(ts: seq<Token>)
    ensures ScanSpan(SCAN0, [Name("")] + ts, 0) == Shifted(ScanSpan(SCAN0, ts, 0))
  {
    hide ScanSpan;
    ScanConcat(SCAN0, [Name("")], ts, 0);
    ScanOne(SCAN0, Name(""), 0);
    ScanShifted(SCAN0, ts, 0);
  }

  lemma PrefixChain(op: string, ts: seq<Token>, level: seq<nat>, i: nat)
    requires OnLevel(op, i) && Chain(ts, level)
    ensures Chain([Name("")] + ([Oper(op)] + ts), [i] + level)
  {
    hide OnLevel;
    var whole := [Name("")] + ([Oper(op)] + ts);
    forall k | 0 <= k <= |level| + 1
      ensures Operand(whole[2 * k])
    {
      assert k > 0 ==> whole[2 * k] == ts[2 * (k - 1)];
    }
    forall k | 0 <= k < |level| + 1
      ensures whole[2 * k + 1].Oper? && OnLevel(whole[2 * k + 1].name, ([i] + level)[k])
    {
      assert k > 0 ==> whole[2 * k + 1] == ts[2 * (k - 1) + 1];
    }
  }

  /** `not` and `-` in front of a chain take all of it when everything in it stands on a tighter level; */
  lemma PrefixTakesAll(op: string, ts: seq<Token>, level: seq<nat>)
    requires Chain(ts, level) && (op == "not" || op == "-")
    requires forall k :: 0 <= k < |level| ==> level[k] > (if op == "not" then 0 else 5)
    ensures Parse([Oper(op)] + ts) == if Parse(ts).None? then None else Some(Unary(op, Parse(ts).value))
  {
    hide Parse, ParseClosed, ScanSpan;
    var i := if op == "not" then 0 else 5;
    assert OnLevel(op, i);
    assert |ts| > 0;
    PrefixScan(op, ts, level, i, 0);
    ParseAt([Oper(op)] + ts);
    assert ([Oper(op)] + ts)[1..] == ts;
  }

  /** otherwise the chain is split at its last operator on its loosest level, and the sign goes with the left
      part. */
  lemma PrefixOnLeft(op: string, ts: seq<Token>, level: seq<nat>, p: nat)
    requires Chain(ts, level) && (op == "not" || op == "-") && LastLoosest(level, p)
    requires level[p] <= (if op == "not" then 0 else 5) && level[p] != 1
    ensures 2 * p + 2 < |ts|
    ensures var left, right := Parse([Oper(op)] + ts[..2 * p + 1]), Parse(ts[2 * p + 2..]);
            Parse([Oper(op)] + ts) ==
            if left.None? || right.None? then None else Some(Binary(ts[2 * p + 1].name, left.value, right.value))
  {
    hide Parse, ScanSpan, OnLevel;
    var i := if op == "not" then 0 else 5;
    PrefixLevel(op);
    LastLoosestBehind(level, p, i);
    PrefixScan(op, ts, level, i, p + 1);
    assert ts[2 * p + 1].Oper? && OnLevel(ts[2 * p + 1].name, level[p]);
    NotWhere(ts[2 * p + 1].name, level[p]);
    hide Chain, LastLoosest;
    PrefixParse(op, ts, 2 * p + 1);
  }

  lemma PrefixLevel(op: string)
    requires op == "not" || op == "-"
    ensures OnLevel(op, if op == "not" then 0 else 5)
  {
  }

  lemma LastLoosestBehind(level: seq<nat>, p: nat, i: nat)
    requires LastLoosest(level, p) && level[p] <= i
    ensures LastLoosest([i] + level, p + 1)
  {
  }

  lemma PrefixParse(op: string, ts: seq<Token>, q: nat)
    requires 0 < q < |ts| - 1 && ts[q].Oper? && ts[q].name != "where"
    requires var r := ScanSpan(SCAN0, [Oper(op)] + ts, 0); !r.bad && r.best.Some? && r.best.value.at == q + 1
    ensures var left, right := Parse([Oper(op)] + ts[..q]), Parse(ts[q + 1..]);
            Parse([Oper(op)] + ts) ==
            if left.None? || right.None? then None else Some(Binary(ts[q].name, left.value, right.value))
  {
    hide Parse, ParseClosed, ScanSpan;
    var whole := [Oper(op)] + ts;
    ParseAt(whole);
    assert whole[..q + 1] == [Oper(op)] + ts[..q] && whole[q + 2..] == ts[q + 1..];
  }

  lemma NotWhere(op: string, i: nat)
    requires OnLevel(op, i)
    ensures op == "where" <==> i == 1
  {
  }

  /** No other operator can stand in front of an operand. */
  lemma OtherPrefixFails(op: string, ts: seq<Token>, level: seq<nat>, i: nat)
    requires OnLevel(op, i) && op != "not" && op != "-" && Chain(ts, level) && forall k :: 0 <= k < |level| ==> level[k] > i
    ensures Parse([Oper(op)] + ts) == None
  {
    hide Parse, ParseClosed, ScanSpan, OnLevel;
    PrefixScan(op, ts, level, i, 0);
    ParseAt([Oper(op)] + ts);
  }

  /** `- a x b` and `not a x b`. */
  lemma SignedPair(a: string, x: string, b: string, i: nat)
    requires i < |LEVELS| && x in LEVELS[i] && x != "where"
    ensures Parse([Oper("-"), Name(a), Oper(x), Name(b)]) ==
            Some(if i > 5 then Unary("-", Binary(x, Ident(a), Ident(b))) else Binary(x, Unary("-", Ident(a)), Ident(b)))
    ensures Parse([Oper("not"), Name(a), Oper(x), Name(b)]) ==
            Some(if i > 0 then Unary("not", Binary(x, Ident(a), Ident(b))) else Binary(x, Unary("not", Ident(a)), Ident(b)))
  {
    OneSigned("-", a, x, b, i);
    OneSigned("not", a, x, b, i);
  }

  lemma OneSigned(op: string, a: string, x: string, b: string, i: nat)
    requires i < |LEVELS| && x in LEVELS[i] && x != "where" && (op == "not" || op == "-")
    ensures Parse([Oper(op), Name(a), Oper(x), Name(b)]) ==
            Some(if i > (if op == "not" then 0 else 5) then Unary(op, Binary(x, Ident(a), Ident(b)))
                 else Binary(x, Unary(op, Ident(a)), Ident(b)))
  {
    hide Parse;
    var ts := [Name(a), Oper(x), Name(b)];
    assert [Oper(op)] + ts == [Oper(op), Name(a), Oper(x), Name(b)];
    assert ts[2 * 0 + 1] == Oper(x) && Chain(ts, [i]);
    if i > (if op == "not" then 0 else 5) {
      PrefixTakesAll(op, ts, [i]);
      OneReads(a, x, b, i);
    } else {
      PrefixOnLeft(op, ts, [i], 0);
      assert ts[..1] == [Name(a)] && ts[2..] == [Name(b)] && Chain([Name(a)], []);
      PrefixTakesAll(op, [Name(a)], []);
      var e := ReadsOperand(Name(a));
      var f := ReadsOperand(Name(b));
    }
  }

  // ---------------------------------------------------------------- where

  /** No token of a chain is a bracket or a comma. */
  lemma {:induction false} RoundOfPlain(ts: seq<Token>, sep: Token)
    requires forall k :: 0 <= k < |ts| ==> !ts[k].LParen? && !ts[k].RParen?
    ensures NextRound(ts, 0, sep) < |ts| <==> sep in ts
    decreases |ts|
  {
    if ts != [] && ts[0] != sep {
      assert sep in ts <==> sep in ts[1..];
      RoundOfPlain(ts[1..], sep);
    }
  }

  lemma ChainPlain(ts: seq<Token>, level: seq<nat>)
    requires Chain(ts, level)
    ensures Comma !in ts && forall k :: 0 <= k < |ts| ==> !ts[k].LParen? && !ts[k].RParen?
  {
    hide OnLevel;
    forall k | 0 <= k < |ts|
      ensures ts[k] != Comma && !ts[k].LParen? && !ts[k].RParen?
    {
      if k % 2 == 0 {
        assert Operand(ts[2 * (k / 2)]);
      } else {
        assert ts[2 * (k / 2) + 1].Oper?;
      }
    }
  }

  lemma WhereChain(ts: seq<Token>, level: seq<nat>, name: string, vs: seq<Token>, vlevel: seq<nat>)
    requires Chain(ts, level) && Chain(vs, vlevel)
    ensures Chain(ts + [Oper("where")] + ([Name(name), Oper("=")] + vs), level + [1] + ([4] + vlevel))
  {
    assert OnLevel("where", 1) && OnLevel("=", 4);
    hide OnLevel;
    assert [Name(name), Oper("=")] + vs == [Name(name)] + [Oper("=")] + vs && [4] + vlevel == [] + [4] + vlevel;
    NameAlone(name);
    hide Chain;
    JoinChains([Name(name)], [], "=", 4, vs, vlevel);
    JoinChains(ts, level, "where", 1, [Name(name), Oper("=")] + vs, [4] + vlevel);
  }

  lemma NameAlone(name: string)
    ensures Chain([Name(name)], [])
  {
  }

  /** Two chains with an operator between them are a chain. */
  lemma JoinChains(ts: seq<Token>, level: seq<nat>, op: string, i: nat, us: seq<Token>, ulevel: seq<nat>)
    requires Chain(ts, level) && OnLevel(op, i) && Chain(us, ulevel)
    ensures Chain(ts + [Oper(op)] + us, level + [i] + ulevel)
  {
    hide OnLevel;
    var whole, levels, n := ts + [Oper(op)] + us, level + [i] + ulevel, |level|;
    forall k | 0 <= k <= |levels|
      ensures Operand(whole[2 * k])
    {
      assert if k <= n then whole[2 * k] == ts[2 * k] else whole[2 * k] == us[2 * (k - n - 1)];
    }
    forall k | 0 <= k < |levels|
      ensures whole[2 * k + 1].Oper? && OnLevel(whole[2 * k + 1].name, levels[k])
    {
      if k < n {
        assert whole[2 * k + 1] == ts[2 * k + 1];
      } else if k > n {
        assert whole[2 * k + 1] == us[2 * (k - n - 1) + 1];
      }
    }
  }

  lemma WhereSplit(ts: seq<Token>, level: seq<nat>, name: string, vs: seq<Token>, vlevel: seq<nat>)
    requires Chain(ts, level) && Chain(vs, vlevel)
    requires (forall k :: 0 <= k < |level| ==> level[k] > 1) && (forall k :: 0 <= k < |vlevel| ==> vlevel[k] > 1)
    ensures var r := ScanSpan(SCAN0, ts + [Oper("where")] + ([Name(name), Oper("=")] + vs), 0);
            !r.bad && r.best.Some? && r.best.value.at == |ts|
  {
    hide ScanSpan, OnLevel;
    WhereChain(ts, level, name, vs, vlevel);
    WhereLoosest(level, vlevel);
    ChainChoice(ts + [Oper("where")] + ([Name(name), Oper("=")] + vs), level + [1] + ([4] + vlevel), |level|);
  }

  lemma WhereLoosest(level: seq<nat>, vlevel: seq<nat>)
    requires (forall k :: 0 <= k < |level| ==> level[k] > 1) && (forall k :: 0 <= k < |vlevel| ==> vlevel[k] > 1)
    ensures LastLoosest(level + [1] + ([4] + vlevel), |level|)
  {
  }

  lemma OneClause(name: string, vs: seq<Token>, vlevel: seq<nat>)
    requires Chain(vs, vlevel)
    ensures ParseClauses([Name(name), Oper("=")] + vs) ==
            if Oper("=") in vs || Parse(vs).None? then None else Some([Clause(name, Parse(vs).value)])
  {
    hide Parse, NextRound, OnLevel;
    ChainPlain(vs, vlevel);
    RoundOfPlain(vs, Comma);
    RoundOfPlain(vs, Oper("="));
    assert vs[..|vs|] == vs && ([Name(name), Oper("=")] + vs)[2..] == vs;
  }

  /** `chain where name = chain`: when nothing in either chain is as loose as `where`, it takes both whole, and
      the value must not hold an `=`. */
  lemma WhereReads(ts: seq<Token>, level: seq<nat>, name: string, vs: seq<Token>, vlevel: seq<nat>)
    requires Chain(ts, level) && Chain(vs, vlevel)
    requires (forall k :: 0 <= k < |level| ==> level[k] > 1) && (forall k :: 0 <= k < |vlevel| ==> vlevel[k] > 1)
    ensures Parse(ts + [Oper("where")] + ([Name(name), Oper("=")] + vs)) ==
            if Oper("=") in vs || Parse(ts).None? || Parse(vs).None? then None
            else Some(Where(Parse(ts).value, [Clause(name, Parse(vs).value)]))
  {
    hide Parse, ParseClosed, ParseClauses, ScanSpan, NextRound, OnLevel;
    WhereSplit(ts, level, name, vs, vlevel);
    var whole := ts + [Oper("where")] + ([Name(name), Oper("=")] + vs);
    ParseAt(whole);
    assert whole[..|ts|] == ts && whole[|ts| + 1..] == [Name(name), Oper("=")] + vs;
    OneClause(name, vs, vlevel);
  }

  // ---------------------------------------------------------------- a trailing comma

  /** A comma behind the last item of a list or call changes nothing. */
  lemma {:induction false} TrailingComma(items: seq<Syn>)
    requires items != [] && ItemsPlain(items)
    ensures ParseArgs(Joined(items) + [Comma]) == ParseArgs(Joined(items))
    decreases |items|
  {
    hide Parse, ParseArgs, NextComma, Tokens;
    var ts, first, rest := Joined(items), Tokens(items[0]), items[1..];
    ArgsCut(items);
    if |items| == 1 {
      assert rest == [] && ts + [Comma] == first + ([Comma] + []);
      CutAtComma(items[0], []);
    } else {
      TrailingComma(rest);
      assert ts + [Comma] == first + ([Comma] + (Joined(rest) + [Comma]));
      CutAtComma(items[0], Joined(rest) + [Comma]);
    }
  }

  lemma {:induction false} CutAtComma(s: Syn, rest: seq<Token>)
    requires OutsideCommas(s) == 0
    ensures ParseArgs(Tokens(s) + ([Comma] + rest)) ==
            if Parse(Tokens(s)).None? || ParseArgs(rest).None? then None
            else Some([Parse(Tokens(s)).value] + ParseArgs(rest).value)
  {
    hide Parse, NextComma, Tokens, Commas, Balanced;
    var first := Tokens(s);
    var ts := first + ([Comma] + rest);
    CommaBehind(s, rest);
    assert ts[..|first|] == first && ts[|first| + 1..] == rest;
  }

  lemma CommaBehind(s: Syn, rest: seq<Token>)
    requires OutsideCommas(s) == 0
    ensures NextComma(Tokens(s) + ([Comma] + rest), 0) == |Tokens(s)|
  {
    hide NextComma, Tokens, Commas;
    TokensCommas(s, 0);
    TokensBalanced(s);
    CommaAfter(Tokens(s), [Comma] + rest, 0);
    CommaHere(rest);
  }
}
