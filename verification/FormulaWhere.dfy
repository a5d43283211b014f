/** Evaluation of formulas, with the `where` expression: the scope that keeps the values of clauses it
    has computed agrees with binding all clauses in parallel.

    Evaluation may fail (`evaluate` throws a type error); a failing clause matters only when its name is asked
    for. The arithmetic of values is a parameter. */
module FormulaWhere {
  import opened FormulaParser

  /** What the values are and what operators, functions and members compute. */
  datatype Semantics<!V> = Semantics(
    number: int -> V, text: string -> V, missing: V,
    unary: (string, V) -> Option<V>, binary: (string, V, V) -> Option<V>,
    list: seq<V> -> V, index: (V, V) -> Option<V>, call: (string, seq<V>) -> Option<V>,
    members: V -> Option<string -> Option<V>>, self: V -> V)

  type Env<V> = string -> Option<V>

  /** Expressions without dice and without formulas inside string literals. */
  predicate Pure(e: Expr)
    decreases e
  {
    match e
    case Ident(_) => true
    case Int(_) => true
    case Str(s) => '{' !in s
    case Unary(_, x) => Pure(x)
    case Binary(op, l, r) => op != "d" && Pure(l) && Pure(r)
    case List(items) => PureAll(items)
    case Index(b, k) => Pure(b) && Pure(k)
    case Call(_, args) => PureAll(args)
    case Where(body, clauses) => Pure(body) && PureClauses(clauses)
  }

  predicate PureAll(items: seq<Expr>)
    decreases items
  {
    items == [] || (Pure(items[0]) && PureAll(items[1..]))
  }

  predicate PureClauses(clauses: seq<Clause>)
    decreases clauses
  {
    clauses == [] || (Pure(clauses[|clauses| - 1].value) && PureClauses(clauses[..|clauses| - 1]))
  }

  /** The scope behind a dot: members first, and what is missing there from outside. */
  function MemberEnv<V(==)>(sem: Semantics<V>, left: V, m: Env<V>, outer: Env<V>): Env<V> {
    (key: string) =>
      if key == "self" then Some(sem.self(left))
      else if m(key) == Some(sem.missing) then outer(key)
      else m(key)
  }

  /** The base environment extended with the given values. */
  function LetEnv<V>(values: map<string, Option<V>>, base: Env<V>): Env<V> {
    (key: string) => if key in values then values[key] else base(key)
  }

  /** The meaning of an expression: `where` evaluates every clause in the base environment and then the
      body in the extended one. */
  function Eval<V(==)>(sem: Semantics<V>, e: Expr, env: Env<V>): Option<V>
    requires Pure(e)
    decreases e
  {
    match e
    case Ident(id) => env(id)
    case Int(n) => Some(sem.number(n))
    case Str(s) => Some(sem.text(s))
    case Unary(op, x) =>
      var v :- Eval(sem, x, env);
      sem.unary(op, v)
    case Binary(op, l, r) =>
      var a :- Eval(sem, l, env);
      if op == "." then
        (match sem.members(a)
         case None => Some(a)
         case Some(m) => Eval(sem, r, MemberEnv(sem, a, m, env)))
      else
        var b :- Eval(sem, r, env);
        sem.binary(op, a, b)
    case List(items) =>
      var vs :- EvalAll(sem, items, env);
      Some(sem.list(vs))
    case Index(b, k) =>
      var v :- Eval(sem, b, env);
      var i :- Eval(sem, k, env);
      sem.index(v, i)
    case Call(fn, args) =>
      var vs :- EvalAll(sem, args, env);
      sem.call(fn, vs)
    case Where(body, clauses) => Eval(sem, body, LetEnv(Values(sem, clauses, env), env))
  }

  function EvalAll<V(==)>(sem: Semantics<V>, items: seq<Expr>, env: Env<V>): Option<seq<V>>
    requires PureAll(items)
    decreases items
  {
    if items == [] then Some([])
    else
      var v :- Eval(sem, items[0], env);
      var vs :- EvalAll(sem, items[1..], env);
      Some([v] + vs)
  }

  /** The value of every clause in the base; the last clause of a name counts. */
  function Values<V(==)>(sem: Semantics<V>, clauses: seq<Clause>, base: Env<V>): map<string, Option<V>>
    requires PureClauses(clauses)
    decreases clauses
  {
    if clauses == [] then map[]
    else
      var c := clauses[|clauses| - 1];
      Values(sem, clauses[..|clauses| - 1], base)[c.name := Eval(sem, c.value, base)]
  }

  /** The table built while the clauses are parsed. */
  function TableOf(clauses: seq<Clause>): map<string, Expr> {
    if clauses == [] then map[]
    else
      var c := clauses[|clauses| - 1];
      TableOf(clauses[..|clauses| - 1])[c.name := c.value]
  }

  // ---------------------------------------------------------------- what evaluation costs at most

  function Cost(e: Expr): (n: nat)
    ensures n >= 1
    decreases e
  {
    match e
    case Ident(_) => 1
    case Int(_) => 1
    case Str(_) => 1
    case Unary(_, x) => 1 + Cost(x)
    case Binary(_, l, r) => 1 + Cost(l) + Cost(r)
    case List(items) => 1 + CostAll(items)
    case Index(b, k) => 1 + Cost(b) + Cost(k)
    case Call(_, args) => 1 + CostAll(args)
    case Where(body, clauses) => 1 + Cost(body) + CostClauses(clauses)
  }

  function CostAll(items: seq<Expr>): nat
    decreases items
  {
    if items == [] then 0 else Cost(items[0]) + CostAll(items[1..])
  }

  function CostClauses(clauses: seq<Clause>): nat
    decreases clauses
  {
    if clauses == [] then 0 else Cost(clauses[|clauses| - 1].value) + CostClauses(clauses[..|clauses| - 1])
  }

  /** A clause of the table is pure, no dearer than the table, and has the value bound by `where`. */
  lemma {:induction false} TableEntry<V>(sem: Semantics<V>, clauses: seq<Clause>, base: Env<V>, key: string)
    requires PureClauses(clauses)
    ensures key in TableOf(clauses) <==> key in Values(sem, clauses, base)
    ensures key in TableOf(clauses) ==>
              && Pure(TableOf(clauses)[key])
              && Cost(TableOf(clauses)[key]) <= CostClauses(clauses)
              && Values(sem, clauses, base)[key] == Eval(sem, TableOf(clauses)[key], base)
  {
    if clauses != [] {
      TableEntry(sem, clauses[..|clauses| - 1], base, key);
    }
  }

  /** Evaluating the items one after the other. */
  lemma {:induction false} EvalAllStep<V>(sem: Semantics<V>, items: seq<Expr>, i: nat, done: seq<V>, env: Env<V>)
    requires PureAll(items) && i < |items|
    requires Split(sem, items, i, done, env)
    ensures Pure(items[i]) && Cost(items[i]) <= CostAll(items)
    ensures match Eval(sem, items[i], env)
            case None => EvalAll(sem, items, env) == None
            case Some(v) => Split(sem, items, i + 1, done + [v], env)
  {
    ItemAt(items, i);
    assert items[i..][0] == items[i] && items[i..][1..] == items[i + 1..];
    match Eval(sem, items[i], env)
    case None =>
    case Some(v) =>
      var rest := EvalAll(sem, items[i + 1..], env);
      if rest.Some? {
        assert done + ([v] + rest.value) == (done + [v]) + rest.value;
      }
  }

  /** The first `i` items have the values `done`. */
  ghost predicate Split<V>(sem: Semantics<V>, items: seq<Expr>, i: nat, done: seq<V>, env: Env<V>)
    requires PureAll(items)
  {
    && i <= |items| && PureAll(items[i..])
    && EvalAll(sem, items, env) == (match EvalAll(sem, items[i..], env)
                                    case None => None
                                    case Some(vs) => Some(done + vs))
  }

  lemma {:induction false} ItemAt(items: seq<Expr>, i: nat)
    requires PureAll(items) && i < |items|
    ensures Pure(items[i]) && Cost(items[i]) <= CostAll(items)
  {
    if i > 0 {
      ItemAt(items[1..], i - 1);
    }
  }

  // ---------------------------------------------------------------- which names matter

  /** The names an expression may ask its environment for. */
  ghost function Free(e: Expr): set<string>
    decreases e
  {
    match e
    case Ident(id) => {id}
    case Int(_) => {}
    case Str(_) => {}
    case Unary(_, x) => Free(x)
    case Binary(_, l, r) => Free(l) + Free(r)
    case List(items) => FreeAll(items)
    case Index(b, k) => Free(b) + Free(k)
    case Call(_, args) => FreeAll(args)
    case Where(body, clauses) => (Free(body) - TableOf(clauses).Keys) + FreeClauses(clauses)
  }

  ghost function FreeAll(items: seq<Expr>): set<string>
    decreases items
  {
    if items == [] then {} else Free(items[0]) + FreeAll(items[1..])
  }

  ghost function FreeClauses(clauses: seq<Clause>): set<string>
    decreases clauses
  {
    if clauses == [] then {} else Free(clauses[|clauses| - 1].value) + FreeClauses(clauses[..|clauses| - 1])
  }

  ghost predicate Agree<V>(names: set<string>, f: Env<V>, g: Env<V>) {
    forall n :: n in names ==> f(n) == g(n)
  }

  /** Evaluation depends on the environment only at the free names. */
  lemma {:induction false} EvalAgrees<V>(sem: Semantics<V>, e: Expr, f: Env<V>, g: Env<V>)
    requires Pure(e) && Agree(Free(e), f, g)
    ensures Eval(sem, e, f) == Eval(sem, e, g)
    decreases e
  {
    match e
    case Ident(_) =>
    case Int(_) =>
    case Str(_) =>
    case Unary(_, x) =>
      EvalAgrees(sem, x, f, g);
    case Binary(op, l, r) =>
      EvalAgrees(sem, l, f, g);
      if op == "." {
        var a := Eval(sem, l, f);
        if a.Some? && sem.members(a.value).Some? {
          var m := sem.members(a.value).value;
          EvalAgrees(sem, r, MemberEnv(sem, a.value, m, f), MemberEnv(sem, a.value, m, g));
        }
      } else {
        EvalAgrees(sem, r, f, g);
      }
    case List(items) =>
      EvalAllAgrees(sem, items, f, g);
    case Index(b, k) =>
      EvalAgrees(sem, b, f, g);
      EvalAgrees(sem, k, f, g);
    case Call(_, args) =>
      EvalAllAgrees(sem, args, f, g);
    case Where(body, clauses) =>
      ValuesAgree(sem, clauses, f, g);
      KeysOfTable(sem, clauses, f);
      var vs := Values(sem, clauses, f);
      EvalAgrees(sem, body, LetEnv(vs, f), LetEnv(vs, g));
  }

  lemma {:induction false} EvalAllAgrees<V>(sem: Semantics<V>, items: seq<Expr>, f: Env<V>, g: Env<V>)
    requires PureAll(items) && Agree(FreeAll(items), f, g)
    ensures EvalAll(sem, items, f) == EvalAll(sem, items, g)
    decreases items
  {
    if items != [] {
      EvalAgrees(sem, items[0], f, g);
      EvalAllAgrees(sem, items[1..], f, g);
    }
  }

  lemma {:induction false} ValuesAgree<V>(sem: Semantics<V>, clauses: seq<Clause>, f: Env<V>, g: Env<V>)
    requires PureClauses(clauses) && Agree(FreeClauses(clauses), f, g)
    ensures Values(sem, clauses, f) == Values(sem, clauses, g)
    decreases clauses
  {
    if clauses != [] {
      EvalAgrees(sem, clauses[|clauses| - 1].value, f, g);
      ValuesAgree(sem, clauses[..|clauses| - 1], f, g);
    }
  }

  lemma KeysOfTable<V>(sem: Semantics<V>, clauses: seq<Clause>, base: Env<V>)
    requires PureClauses(clauses)
    ensures Values(sem, clauses, base).Keys == TableOf(clauses).Keys
  {
    forall key
      ensures key in TableOf(clauses) <==> key in Values(sem, clauses, base)
    {
      TableEntry(sem, clauses, base, key);
    }
  }

  /** A clause that the body does not ask for changes nothing, even one whose value fails. */
  lemma {:induction false} UnusedClause<V>(sem: Semantics<V>, body: Expr, clauses: seq<Clause>, c: Clause, env: Env<V>)
    requires Pure(body) && PureClauses(clauses) && Pure(c.value)
    requires c.name !in Free(body)
    ensures PureClauses(clauses + [c])
    ensures Eval(sem, Where(body, clauses + [c]), env) == Eval(sem, Where(body, clauses), env)
  {
    assert (clauses + [c])[..|clauses|] == clauses;
    var more, less := Values(sem, clauses + [c], env), Values(sem, clauses, env);
    EvalAgrees(sem, body, LetEnv(more, env), LetEnv(less, env));
  }

  // ---------------------------------------------------------------- which value goes where

  /** Operators, brackets and signs get the values of their operands from left to right; one that fails makes
      the whole fail. */
  lemma OperandsInOrder<V>(sem: Semantics<V>, op: string, l: Expr, r: Expr, env: Env<V>)
    requires Pure(l) && Pure(r) && op != "." && op != "d"
    ensures var a, b := Eval(sem, l, env), Eval(sem, r, env);
            if a.None? || b.None? then
              Eval(sem, Binary(op, l, r), env) == None && Eval(sem, Index(l, r), env) == None
            else
              && Eval(sem, Binary(op, l, r), env) == sem.binary(op, a.value, b.value)
              && Eval(sem, Index(l, r), env) == sem.index(a.value, b.value)
    ensures var a := Eval(sem, l, env);
            Eval(sem, Unary(op, l), env) == if a.None? then None else sem.unary(op, a.value)
  {
  }

  /** The values of a list are those of its items, each in its place, and they exist when all of them do. */
  lemma {:induction false} ItemsInOrder<V>(sem: Semantics<V>, items: seq<Expr>, env: Env<V>)
    requires PureAll(items)
    ensures forall i :: 0 <= i < |items| ==> Pure(items[i])
    ensures EvalAll(sem, items, env).Some? <==> forall i :: 0 <= i < |items| ==> Eval(sem, items[i], env).Some?
    ensures EvalAll(sem, items, env).Some? ==>
              && |EvalAll(sem, items, env).value| == |items|
              && forall i :: 0 <= i < |items| ==> Some(EvalAll(sem, items, env).value[i]) == Eval(sem, items[i], env)
    decreases items
  {
    hide Eval;
    if items != [] {
      ItemsInOrder(sem, items[1..], env);
      assert forall i :: 0 < i < |items| ==> items[i] == items[1..][i - 1];
    }
  }

  /** A call gets the values of its arguments, a list those of its items. */
  lemma ItemsEvaluate<V>(sem: Semantics<V>, fn: string, items: seq<Expr>, env: Env<V>, values: seq<V>)
    requires PureAll(items) && |values| == |items|
    requires forall i :: 0 <= i < |items| ==> Pure(items[i]) && Eval(sem, items[i], env) == Some(values[i])
    ensures Eval(sem, Call(fn, items), env) == sem.call(fn, values)
    ensures Eval(sem, List(items), env) == Some(sem.list(values))
  {
    ItemsInOrder(sem, items, env);
    hide EvalAll;
    assert EvalAll(sem, items, env).value == values;
  }

  /** Behind a dot `self` is the value in front of it, any other name is asked of its members first and, when it
      is missing there, of the scope outside; a value without members stands for itself. */
  lemma DotFinds<V>(sem: Semantics<V>, l: Expr, key: string, env: Env<V>)
    requires Pure(l)
    ensures var a, r := Eval(sem, l, env), Eval(sem, Binary(".", l, Ident(key)), env);
            if a.None? then r == None
            else
              match sem.members(a.value)
              case None => r == a
              case Some(m) =>
                if key == "self" then r == Some(sem.self(a.value))
                else if m(key) == Some(sem.missing) then r == env(key) else r == m(key)
  {
  }

  /** `where` binds a name to the value of the last clause of that name, taken in the scope outside, whatever the
      other clauses bind; */
  lemma {:induction false} WhereBinds<V>(sem: Semantics<V>, clauses: seq<Clause>, i: nat, env: Env<V>)
    requires PureClauses(clauses) && i < |clauses|
    requires forall j :: i < j < |clauses| ==> clauses[j].name != clauses[i].name
    ensures Pure(clauses[i].value)
    ensures Eval(sem, Where(Ident(clauses[i].name), clauses), env) == Eval(sem, clauses[i].value, env)
  {
    BoundLast(sem, clauses, i, env);
  }

  lemma {:induction false} BoundLast<V>(sem: Semantics<V>, clauses: seq<Clause>, i: nat, env: Env<V>)
    requires PureClauses(clauses) && i < |clauses|
    requires forall j :: i < j < |clauses| ==> clauses[j].name != clauses[i].name
    ensures Pure(clauses[i].value)
    ensures var vs := Values(sem, clauses, env);
            clauses[i].name in vs && vs[clauses[i].name] == Eval(sem, clauses[i].value, env)
  {
    hide Eval;
    if i < |clauses| - 1 {
      BoundLast(sem, clauses[..|clauses| - 1], i, env);
    }
  }

  /** a name without a clause means what it means outside. */
  lemma {:induction false} WhereLeaves<V>(sem: Semantics<V>, clauses: seq<Clause>, key: string, env: Env<V>)
    requires PureClauses(clauses) && forall j :: 0 <= j < |clauses| ==> clauses[j].name != key
    ensures Eval(sem, Where(Ident(key), clauses), env) == env(key)
  {
    Unbound(sem, clauses, key, env);
  }

  lemma {:induction false} Unbound<V>(sem: Semantics<V>, clauses: seq<Clause>, key: string, env: Env<V>)
    requires PureClauses(clauses) && forall j :: 0 <= j < |clauses| ==> clauses[j].name != key
    ensures key !in Values(sem, clauses, env)
  {
    if clauses != [] {
      Unbound(sem, clauses[..|clauses| - 1], key, env);
    }
  }

  // ---------------------------------------------------------------- scopes

  datatype Kind<!V> =
    | Host(get: Env<V>)
    | Dot(left: V, members: Env<V>)
    | Clauses(table: map<string, Expr>, ghost clauses: seq<Clause>)

  /** A scope asked for names during evaluation: the program's own, one behind a dot, or one of `where`
      with its table of clauses and the values computed so far. */
  class Scope<V(==)> {
    const sem: Semantics<V>
    const kind: Kind<V>
    const base: Scope?<V>
    var evaluated: map<string, V>
    /** This scope and the ones it hands names on to. */
    ghost const chain: set<Scope<V>>
    ghost const depth: nat
    /** What looking up a name in this scope costs at most. */
    ghost const cost: nat

    ghost predicate Linked()
      decreases depth
    {
      && this in chain
      && (kind.Host? <==> base == null)
      && (base == null ==> chain == {this})
      && (base != null ==>
            && base.depth < depth && base.sem == sem && base.Linked()
            && this !in base.chain && chain == {this} + base.chain
            && base.cost <= cost)
      && (kind.Clauses? ==>
            && kind.table == TableOf(kind.clauses) && PureClauses(kind.clauses)
            && cost == CostClauses(kind.clauses) + base.cost)
    }

    /** The names and values the scope stands for. */
    ghost function Names(): Env<V>
      requires Linked()
      decreases depth
    {
      match kind
      case Host(get) => get
      case Dot(left, m) => MemberEnv(sem, left, m, base.Names())
      case Clauses(_, clauses) => LetEnv(Values(sem, clauses, base.Names()), base.Names())
    }

    /** The value `where` binds to a name of the table. */
    ghost function Bound(key: string): Option<V>
      requires Linked() && kind.Clauses? && key in kind.table
    {
      TableEntry(sem, kind.clauses, base.Names(), key);
      Values(sem, kind.clauses, base.Names())[key]
    }

    /** Every value kept is the value of its clause in the base scope. */
    ghost predicate Valid()
      reads chain
      decreases depth
    {
      && Linked()
      && (base != null ==> base.Valid())
      && (kind.Clauses? ==>
            forall key :: key in evaluated ==>
              key in kind.table && Bound(key) == Some(evaluated[key]))
    }

    constructor Outermost(sem: Semantics<V>, get: Env<V>)
      ensures Valid() && this.sem == sem && Names() == get && fresh(this) && chain == {this}
    {
      this.sem, kind, base, evaluated := sem, Host(get), null, map[];
      chain, depth, cost := {this}, 0, 0;
    }

    constructor Members(base: Scope<V>, left: V, m: Env<V>)
      requires base.Valid()
      ensures Valid() && sem == base.sem && cost == base.cost && fresh(this)
      ensures this.base == base && chain == {this} + base.chain
      ensures base.Valid() && Names() == MemberEnv(sem, left, m, base.Names())
    {
      this.base, sem, kind, evaluated := base, base.sem, Dot(left, m), map[];
      chain, depth, cost := {this} + base.chain, base.depth + 1, base.cost;
    }

    constructor OfWhere(base: Scope<V>, table: map<string, Expr>, ghost clauses: seq<Clause>)
      requires base.Valid() && PureClauses(clauses) && table == TableOf(clauses)
      ensures Valid() && sem == base.sem && cost == CostClauses(clauses) + base.cost
      ensures fresh(this) && this.base == base && chain == {this} + base.chain
      ensures base.Valid() && Names() == LetEnv(Values(sem, clauses, base.Names()), base.Names())
    {
      this.base, sem, kind, evaluated := base, base.sem, Clauses(table, clauses), map[];
      chain, depth, cost := {this} + base.chain, base.depth + 1, CostClauses(clauses) + base.cost;
    }

    /** `query_value`: a name of the table is computed in the base when first asked for and kept. */
    method GetValue(key: string) returns (r: Option<V>)
      requires Valid()
      modifies chain
      ensures Valid() && r == Names()(key)
      decreases cost, 1, depth
    {
      match kind {
        case Host(get) =>
          r := get(key);
        case Dot(left, m) =>
          if key == "self" {
            return Some(sem.self(left));
          }
          r := m(key);
          if r == Some(sem.missing) {
            r := base.GetValue(key);
          }
        case Clauses(table, _) =>
          TableEntry(sem, kind.clauses, base.Names(), key);
          if key in table {
            if key in evaluated {
              return Some(evaluated[key]);
            }
            r := base.Evaluate(table[key]);
            if r.Some? {
              evaluated := evaluated[key := r.value];
            }
          } else {
            r := base.GetValue(key);
          }
      }
    }

    /** `evaluate` of an expression in this scope. */
    method Evaluate(e: Expr) returns (r: Option<V>)
      requires Valid() && Pure(e)
      modifies chain
      ensures Valid() && r == Eval(sem, e, Names())
      decreases Cost(e) + cost, 0, 0
    {
      match e {
        case Ident(id) =>
          r := GetValue(id);
        case Int(n) =>
          r := Some(sem.number(n));
        case Str(s) =>
          r := Some(sem.text(s));
        case Unary(op, x) =>
          var v :- Evaluate(x);
          r := sem.unary(op, v);
        case Binary(op, l, right) =>
          var a :- Evaluate(l);
          if op == "." {
            r := EvaluateMember(a, right);
          } else {
            var b :- Evaluate(right);
            r := sem.binary(op, a, b);
          }
        case List(items) =>
          var vs :- EvaluateAll(items);
          r := Some(sem.list(vs));
        case Index(b, k) =>
          var v :- Evaluate(b);
          var i :- Evaluate(k);
          r := sem.index(v, i);
        case Call(fn, args) =>
          var vs :- EvaluateAll(args);
          r := sem.call(fn, vs);
        case Where(body, clauses) =>
          r := EvaluateWhere(body, clauses);
      }
    }

    method EvaluateMember(left: V, right: Expr) returns (r: Option<V>)
      requires Valid() && Pure(right)
      modifies chain
      ensures Valid()
      ensures r == (match sem.members(left)
                    case None => Some(left)
                    case Some(m) => Eval(sem, right, MemberEnv(sem, left, m, Names())))
      decreases Cost(right) + cost, 1, 0
    {
      var m := sem.members(left);
      if m.None? {
        return Some(left);
      }
      var inner := new Scope.Members(this, left, m.value);
      r := inner.Evaluate(right);
    }

    method EvaluateWhere(body: Expr, clauses: seq<Clause>) returns (r: Option<V>)
      requires Valid() && Pure(body) && PureClauses(clauses)
      modifies chain
      ensures Valid()
      ensures r == Eval(sem, body, LetEnv(Values(sem, clauses, Names()), Names()))
      decreases Cost(body) + CostClauses(clauses) + cost, 1, 0
    {
      var inner := new Scope.OfWhere(this, TableOf(clauses), clauses);
      r := inner.Evaluate(body);
    }

    method EvaluateAll(items: seq<Expr>) returns (r: Option<seq<V>>)
      requires Valid() && PureAll(items)
      modifies chain
      ensures Valid() && r == EvalAll(sem, items, Names())
      decreases CostAll(items) + cost, 1, 0
    {
      var vs := [];
      var i := 0;
      assert items[0..] == items;
      assert EvalAll(sem, items, Names()).Some? ==> [] + EvalAll(sem, items, Names()).value == EvalAll(sem, items, Names()).value;
      while i < |items|
        invariant 0 <= i <= |items| && Valid()
        invariant Split(sem, items, i, vs, Names())
      {
        EvalAllStep(sem, items, i, vs, Names());
        var v :- Evaluate(items[i]);
        vs := vs + [v];
        i := i + 1;
      }
      assert items[i..] == [] && vs + [] == vs;
      r := Some(vs);
    }
  }
}
