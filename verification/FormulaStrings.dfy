/** String literals of the formula language: the constructor cuts the `{...}` spans out of the text,
    and evaluation splices the values of the cut formulas back in, last span first. */
module FormulaStrings {

  /** The first position of a character from `i` on, or the length. */
  function FindChar(s: string, c: char, i: nat): (k: nat)
    requires i <= |s|
    ensures i <= k <= |s| && (k < |s| ==> s[k] == c) && (forall j :: i <= j < k ==> s[j] != c)
    decreases |s| - i
  {
    if i == |s| || s[i] == c then i else FindChar(s, c, i + 1)
  }

  /** The text with every span replaced by the value of the formula in it; an opening brace without
      a closing one stays. */
  function Interpolated(s: string, value: string -> string): string {
    var i := FindChar(s, '{', 0);
    if i == |s| then s
    else
      var j := FindChar(s, '}', i);
      if j == |s| then s
      else s[..i] + value(s[i + 1..j]) + Interpolated(s[j + 1..], value)
  }

  /** A text as an author writes it: a plain start, then formulas in braces, each with plain text behind it. */
  datatype Piece = Piece(formula: string, text: string)

  predicate Plain(pieces: seq<Piece>) {
    forall i :: 0 <= i < |pieces| ==> '}' !in pieces[i].formula && '{' !in pieces[i].text
  }

  function Written(pieces: seq<Piece>): string {
    if pieces == [] then "" else "{" + pieces[0].formula + "}" + pieces[0].text + Written(pieces[1..])
  }

  function Filled(pieces: seq<Piece>, value: string -> string): string {
    if pieces == [] then "" else value(pieces[0].formula) + pieces[0].text + Filled(pieces[1..], value)
  }

  lemma {:induction false} FirstAt(s: string, c: char, i: nat, k: nat)
    requires i <= k < |s| && s[k] == c && forall j :: i <= j < k ==> s[j] != c
    ensures FindChar(s, c, i) == k
  {
  }

  lemma FirstSpan(start: string, formula: string, rest: string)
    requires '{' !in start && '}' !in formula
    ensures var s := start + "{" + formula + "}" + rest;
            var i, j := |start|, |start| + 1 + |formula|;
            FindChar(s, '{', 0) == i && FindChar(s, '}', i) == j
            && s[..i] == start && s[i + 1..j] == formula && s[j + 1..] == rest
  {
    hide FindChar;
    var s := start + "{" + formula + "}" + rest;
    var i, j := |start|, |start| + 1 + |formula|;
    FirstAt(s, '{', 0, i);
    forall k | i <= k < j
      ensures s[k] != '}'
    {
      if k > i {
        assert s[k] == formula[k - i - 1];
      }
    }
    FirstAt(s, '}', i, j);
  }

  lemma InterpolateSpan(start: string, formula: string, rest: string, value: string -> string)
    requires '{' !in start && '}' !in formula
    ensures Interpolated(start + "{" + formula + "}" + rest, value)
         == start + value(formula) + Interpolated(rest, value)
  {
    hide FindChar;
    FirstSpan(start, formula, rest);
  }

  lemma WrittenFirst(start: string, pieces: seq<Piece>)
    requires pieces != []
    ensures start + Written(pieces)
         == start + "{" + pieces[0].formula + "}" + (pieces[0].text + Written(pieces[1..]))
  {
    Regroup(start, "{", pieces[0].formula, "}", pieces[0].text, Written(pieces[1..]));
  }

  lemma Regroup(a: string, b: string, c: string, d: string, e: string, f: string)
    ensures a + (b + c + d + e + f) == a + b + c + d + (e + f)
  {
    assert b + c + d + e + f == b + (c + (d + (e + f)));
    assert a + b + c + d + (e + f) == a + (b + (c + (d + (e + f))));
  }

  lemma FilledFirst(start: string, pieces: seq<Piece>, value: string -> string)
    requires pieces != []
    ensures start + Filled(pieces, value)
         == start + value(pieces[0].formula) + (pieces[0].text + Filled(pieces[1..], value))
  {
    RegroupThree(start, value(pieces[0].formula), pieces[0].text, Filled(pieces[1..], value));
  }

  lemma RegroupThree(a: string, b: string, c: string, d: string)
    ensures a + (b + c + d) == a + b + (c + d)
  {
    assert b + c + d == b + (c + d);
  }

  lemma InterpolateNone(s: string, value: string -> string)
    requires '{' !in s
    ensures Interpolated(s, value) == s
  {
    hide FindChar;
  }

  /** Interpolation replaces every span in place, adjacent spans included. */
  lemma {:induction false} InterpolatesInPlace(start: string, pieces: seq<Piece>, value: string -> string)
    requires '{' !in start && Plain(pieces)
    ensures Interpolated(start + Written(pieces), value) == start + Filled(pieces, value)
    decreases |pieces|
  {
    hide FindChar, Interpolated;
    if pieces == [] {
      assert start + Written(pieces) == start;
      InterpolateNone(start, value);
    } else {
      hide Written, Filled;
      var p := pieces[0];
      WrittenFirst(start, pieces);
      InterpolateSpan(start, p.formula, p.text + Written(pieces[1..]), value);
      InterpolatesInPlace(p.text, pieces[1..], value);
      FilledFirst(start, pieces, value);
    }
  }

  /** An opening brace that is not closed stays, with all that follows it. */
  lemma UnclosedStays(start: string, rest: string, value: string -> string)
    requires '{' !in start && '}' !in rest
    ensures Interpolated(start + "{" + rest, value) == start + "{" + rest
  {
    hide FindChar;
    var s := start + "{" + rest;
    FirstAt(s, '{', 0, |start|);
    forall k | |start| < k < |s|
      ensures s[k] != '}'
    {
      assert s[k] == rest[k - |start| - 1];
    }
  }

  datatype Substitution = Substitution(pos: nat, calculation: string)

  /** Substitutions in text order, at places of the text `s`. */
  ghost predicate Placed(s: string, subs: seq<Substitution>) {
    (forall i :: 0 <= i < |subs| ==> subs[i].pos <= |s|) &&
    (forall i, j :: 0 <= i < j < |subs| ==> subs[i].pos <= subs[j].pos)
  }

  function Inserted(s: string, pos: nat, v: string): string
    requires pos <= |s|
  {
    s[..pos] + v + s[pos..]
  }

  /** Splicing in from the last substitution to the first. */
  ghost function Spliced(s: string, subs: seq<Substitution>, value: string -> string): string
    requires Placed(s, subs)
    decreases |subs|
  {
    if subs == [] then s
    else
      var n := |subs| - 1;
      var last := subs[n];
      SpliceKeepsFront(s, subs, value);
      Spliced(Inserted(s, last.pos, value(last.calculation)), subs[..n], value)
  }

  lemma SpliceKeepsFront(s: string, subs: seq<Substitution>, value: string -> string)
    requires Placed(s, subs) && subs != []
    ensures var n := |subs| - 1;
            Placed(Inserted(s, subs[n].pos, value(subs[n].calculation)), subs[..n])
  {
  }

  /** Text behind every substitution is not touched by them. */
  lemma {:induction false} SpliceSuffix(s: string, t: string, subs: seq<Substitution>, value: string -> string)
    requires Placed(s, subs)
    ensures Placed(s + t, subs)
    ensures Spliced(s + t, subs, value) == Spliced(s, subs, value) + t
    decreases |subs|
  {
    if subs != [] {
      var n := |subs| - 1;
      var v := value(subs[n].calculation);
      var s' := Inserted(s, subs[n].pos, v);
      SpliceKeepsFront(s, subs, value);
      assert Inserted(s + t, subs[n].pos, v) == s' + t;
      SpliceSuffix(s', t, subs[..n], value);
    }
  }

  /** The state of the constructor: `done` is text without further spans to cut, `todo` is still to be
      searched; the substitutions found so far lie in `done`. */
  ghost predicate Cutting(s: string, done: string, todo: string, subs: seq<Substitution>) {
    && Placed(done, subs)
    && (forall i :: 0 <= i < |done| ==> done[i] != '{')
    && forall value: string -> string :: Interpolated(s, value) == Spliced(done, subs, value) + Interpolated(todo, value)
  }

  /** The places of the two braces of the first span. */
  ghost predicate Span(todo: string, i: nat, j: nat) {
    i < j < |todo| && FindChar(todo, '{', 0) == i && FindChar(todo, '}', i) == j
  }

  lemma SpanOf(todo: string)
    requires FindChar(todo, '{', 0) < |todo| && FindChar(todo, '}', FindChar(todo, '{', 0)) < |todo|
    ensures Span(todo, FindChar(todo, '{', 0), FindChar(todo, '}', FindChar(todo, '{', 0)))
  {
    hide FindChar;
    var i := FindChar(todo, '{', 0);
    var j := FindChar(todo, '}', i);
    assert todo[i] != todo[j];
  }

  lemma InterpolateOne(todo: string, i: nat, j: nat, value: string -> string)
    requires Span(todo, i, j)
    ensures Interpolated(todo, value) == todo[..i] + value(todo[i + 1..j]) + Interpolated(todo[j + 1..], value)
  {
    hide FindChar;
  }

  lemma SpliceOne(done: string, front: string, formula: string, subs: seq<Substitution>, value: string -> string)
    requires Placed(done, subs)
    ensures Placed(done + front, subs + [Substitution(|done + front|, formula)])
    ensures Spliced(done + front, subs + [Substitution(|done + front|, formula)], value)
         == Spliced(done, subs, value) + (front + value(formula))
  {
    hide FindChar, Interpolated;
    var v := value(formula);
    assert (subs + [Substitution(|done + front|, formula)])[..|subs|] == subs;
    assert Inserted(done + front, |done + front|, v) == done + (front + v);
    SpliceSuffix(done, front + v, subs, value);
  }

  lemma {:induction false} CutOne(s: string, done: string, todo: string, subs: seq<Substitution>, i: nat, j: nat)
    requires Cutting(s, done, todo, subs) && Span(todo, i, j)
    ensures Cutting(s, done + todo[..i], todo[j + 1..], subs + [Substitution(|done| + i, todo[i + 1..j])])
  {
    hide FindChar, Interpolated, Spliced;
    var formula, front := todo[i + 1..j], todo[..i];
    forall value: string -> string
      ensures Placed(done + front, subs + [Substitution(|done| + i, formula)])
      ensures Interpolated(s, value)
           == Spliced(done + front, subs + [Substitution(|done| + i, formula)], value) + Interpolated(todo[j + 1..], value)
    {
      InterpolateOne(todo, i, j, value);
      SpliceOne(done, front, formula, subs, value);
    }
    SpliceOne(done, front, formula, subs, f => f);
  }

  lemma CutText(done: string, todo: string, i: nat, j: nat)
    requires i <= j < |todo|
    ensures var text := done + todo;
            text[..|done| + i] + text[|done| + j + 1..] == (done + todo[..i]) + todo[j + 1..]
    ensures (done + todo)[|done| + i..|done| + j] == todo[i..j]
  {
  }

  lemma {:induction false} FindFurther(done: string, todo: string, c: char, i: nat)
    requires i <= |todo|
    ensures FindChar(done + todo, c, |done| + i) == |done| + FindChar(todo, c, i)
    decreases |todo| - i
  {
    if i < |todo| && todo[i] != c {
      FindFurther(done, todo, c, i + 1);
    }
  }

  lemma {:induction false} FindFromStart(done: string, todo: string, c: char, k: nat)
    requires k <= |done| && forall i :: 0 <= i < |done| ==> done[i] != c
    ensures FindChar(done + todo, c, k) == |done| + FindChar(todo, c, 0)
    decreases |done| - k
  {
    if k < |done| {
      FindFromStart(done, todo, c, k + 1);
    } else {
      FindFurther(done, todo, c, 0);
    }
  }

  class StringExpression {
    var str: string
    var subs: seq<Substitution>
    /** The text the expression was made of. */
    ghost const source: string

    ghost predicate Valid()
      reads this
    {
      && Placed(str, Reversed(subs))
      && forall value: string -> string :: Spliced(str, Reversed(subs), value) == Interpolated(source, value)
    }

    constructor (s: string)
      ensures Valid() && source == s
    {
      hide FindChar, Interpolated, Spliced, Cutting, Placed, Reversed;
      source := s;
      var text, found := s, [];
      ghost var done, todo := "", s;
      StartCut(s);
      var i := FindChar(text, '{', 0);
      while i != |text|
        invariant text == done + todo && i == |done| + FindChar(todo, '{', 0)
        invariant Cutting(s, done, todo, found)
        decreases |todo|
      {
        ghost var at := i - |done|;
        var j := FindChar(text, '}', i);
        FindFurther(done, todo, '}', at);
        if j == |text| {
          break;
        }
        ghost var to := j - |done|;
        SpanOf(todo);
        CutOne(s, done, todo, found, at, to);
        CutText(done, todo, at + 1, to);
        CutText(done, todo, at, to);
        found := found + [Substitution(i, text[i + 1..j])];
        text := text[..i] + text[j + 1..];
        done, todo := done + todo[..at], todo[to + 1..];
        NoBrace(s, done, todo, found);
        FindFromStart(done, todo, '{', 0);
        i := FindChar(text, '{', 0);
      }
      FinishCut(s, done, todo, found);
      ReversedTwice(found);
      str, subs := text, Reversed(found);
    }

    method Execute(value: string -> string) returns (res: string)
      requires Valid()
      ensures res == Interpolated(source, value)
    {
      hide Interpolated, FindChar, Reversed, Spliced, Placed;
      res := str;
      ghost var order := Reversed(subs);
      var i := 0;
      assert order[..|subs|] == order;
      while i < |subs|
        invariant 0 <= i <= |subs|
        invariant Placed(res, order[..|subs| - i])
        invariant Spliced(res, order[..|subs| - i], value) == Interpolated(source, value)
      {
        var sub := subs[i];
        ReversedAt(subs, |subs| - i - 1);
        SpliceLast(res, order[..|subs| - i], value);
        assert order[..|subs| - i][..|subs| - i - 1] == order[..|subs| - i - 1];
        res := Inserted(res, sub.pos, value(sub.calculation));
        i := i + 1;
      }
      SpliceNone(res, order[..0], value);
    }
  }

  lemma SpliceLast(s: string, subs: seq<Substitution>, value: string -> string)
    requires Placed(s, subs) && subs != []
    ensures var n := |subs| - 1;
            && subs[n].pos <= |s|
            && var s' := Inserted(s, subs[n].pos, value(subs[n].calculation));
            && Placed(s', subs[..n])
            && Spliced(s', subs[..n], value) == Spliced(s, subs, value)
  {
    SpliceKeepsFront(s, subs, value);
  }

  lemma SpliceNone(s: string, subs: seq<Substitution>, value: string -> string)
    requires subs == []
    ensures Placed(s, subs) && Spliced(s, subs, value) == s
  {
  }

  lemma StartCut(s: string)
    ensures Cutting(s, "", s, [])
    ensures "" + s == s
  {
    hide FindChar, Interpolated;
    forall value: string -> string
      ensures Spliced("", [], value) + Interpolated(s, value) == Interpolated(s, value)
    {
    }
  }

  lemma NoBrace(s: string, done: string, todo: string, subs: seq<Substitution>)
    requires Cutting(s, done, todo, subs)
    ensures forall i :: 0 <= i < |done| ==> done[i] != '{'
  {
    hide FindChar, Interpolated, Spliced;
  }

  /** When no further span can be cut, the rest is plain text. */
  lemma {:induction false} FinishCut(s: string, done: string, todo: string, subs: seq<Substitution>)
    requires Cutting(s, done, todo, subs)
    requires var i := FindChar(todo, '{', 0); i == |todo| || FindChar(todo, '}', i) == |todo|
    ensures Placed(done + todo, subs)
    ensures forall value: string -> string :: Spliced(done + todo, subs, value) == Interpolated(s, value)
  {
    forall value: string -> string
      ensures Placed(done + todo, subs) && Spliced(done + todo, subs, value) == Interpolated(s, value)
    {
      SpliceSuffix(done, todo, subs, value);
    }
    SpliceSuffix(done, todo, subs, s => s);
  }

  function Reversed(subs: seq<Substitution>): (r: seq<Substitution>)
    ensures |r| == |subs|
  {
    if subs == [] then [] else Reversed(subs[1..]) + [subs[0]]
  }

  lemma {:induction false} ReversedAt(subs: seq<Substitution>, k: nat)
    requires k < |subs|
    ensures Reversed(subs)[k] == subs[|subs| - 1 - k]
  {
    if k < |subs| - 1 {
      ReversedAt(subs[1..], k);
    }
  }

  lemma {:induction false} ReversedTwice(subs: seq<Substitution>)
    ensures Reversed(Reversed(subs)) == subs
  {
    forall k | 0 <= k < |subs|
      ensures Reversed(Reversed(subs))[k] == subs[k]
    {
      ReversedAt(Reversed(subs), k);
      ReversedAt(subs, |subs| - 1 - k);
    }
  }
}
