/** What a diff says: it names differences only, in the form that patching reads, and no edit more than the
    lengths of the lists ask for. */
module ConfigDiffMeaning {
  import opened ConfigTree
  import opened ConfigDiff
  import opened ConfigRoundTrip

  // ---------------------------------------------------------------- attribute values

  /** Values are equal when they are the same or both are booleans of the same truth; a blank is not "". */
  lemma ValueEqMeans(v: Value, w: Value)
    ensures ValueEq(v, w) <==> v == w || (exists b :: {v, w} == {YesNo(b), TrueFalse(b)})
    ensures ValueEq(YesNo(true), TrueFalse(true)) && !ValueEq(YesNo(true), YesNo(false)) && !ValueEq(Blank, Text(""))
  {
    if ValueEq(v, w) && v != w {
      assert {v, w} == {YesNo(v.on), TrueFalse(v.on)};
    }
    if b :| {v, w} == {YesNo(b), TrueFalse(b)} {
      assert v in {v, w} && w in {v, w} && YesNo(b) in {v, w} && TrueFalse(b) in {v, w};
    }
  }

  /** The value with the two spellings of a truth made one. */
  function Spelled(v: Value): Value { if v.YesNo? then TrueFalse(v.on) else v }

  function SpelledAttrs(m: Attrs): Attrs { map k | k in m :: Spelled(m[k]) }

  /** The tree with every attribute spelled this way, at every depth. */
  function SpelledTree(t: Tree): Tree
    decreases t
  {
    Node(SpelledAttrs(t.values), SpelledKids(t.kids))
  }

  function SpelledKids(kids: seq<Kid>): (r: seq<Kid>)
    ensures |r| == |kids|
    decreases kids
  {
    if kids == [] then [] else [Kid(kids[0].tag, SpelledTree(kids[0].cfg))] + SpelledKids(kids[1..])
  }

  lemma {:induction false} SpelledAt(kids: seq<Kid>, i: nat)
    requires i < |kids|
    ensures SpelledKids(kids)[i] == Kid(kids[i].tag, SpelledTree(kids[i].cfg))
  {
    if i > 0 {
      SpelledAt(kids[1..], i - 1);
    }
  }

  lemma SpelledAttrsEq(a: Attrs, b: Attrs)
    ensures AttrsEq(a, b) <==> SpelledAttrs(a) == SpelledAttrs(b)
  {
    if SpelledAttrs(a) == SpelledAttrs(b) {
      assert a.Keys == SpelledAttrs(a).Keys && b.Keys == SpelledAttrs(b).Keys;
      forall k | k in a
        ensures ValueEq(a[k], b[k])
      {
        assert SpelledAttrs(a)[k] == SpelledAttrs(b)[k];
      }
    }
  }

  /** Nodes are equal when spelling alike makes them the same tree: attributes, children and their order. */
  lemma {:induction false} TreeEqMeans(a: Tree, b: Tree)
    ensures TreeEq(a, b) <==> SpelledTree(a) == SpelledTree(b)
    decreases a
  {
    hide SpelledAttrs, SpelledKids, AttrsEq;
    SpelledAttrsEq(a.values, b.values);
    if |a.kids| == |b.kids| {
      forall i | 0 <= i < |a.kids|
        ensures SpelledKids(a.kids)[i] == SpelledKids(b.kids)[i] <==>
                a.kids[i].tag == b.kids[i].tag && TreeEq(a.kids[i].cfg, b.kids[i].cfg)
      {
        SpelledAt(a.kids, i);
        SpelledAt(b.kids, i);
        TreeEqMeans(a.kids[i].cfg, b.kids[i].cfg);
      }
    }
  }

  // ---------------------------------------------------------------- attribute edits

  /** The base lacks the attribute, or has another value and the new one is not empty. */
  ghost predicate Differs(a: Attrs, c: Attrs, k: string) {
    k in a && (k !in c || (!ValueEq(a[k], c[k]) && a[k] != Blank && a[k] != Text("")))
  }

  /** The attribute of the base is gone or empty now. */
  ghost predicate Gone(a: Attrs, c: Attrs, k: string) {
    k in c && (k !in a || a[k] == Blank || a[k] == Text(""))
  }

  lemma InsertKeys(a: Attrs, c: Attrs)
    ensures forall k :: k in AttrInserts(a, c) <==> Differs(a, c, k)
    ensures forall k :: k in AttrDeletes(a, c) <==> Gone(a, c, k)
  {
    hide ValueEq;
  }

  /** Under [insert] stand exactly the attributes that differ, with the new value; there is no [insert] when
      there are none. */
  lemma InsertsMean(a: Tree, c: Tree)
    ensures var list := ListOf(Diff(a, c).kids, "insert");
            if exists k :: Differs(a.values, c.values, k) then
              && |list| == 1 && list[0].kids == []
              && (forall k :: k in list[0].values <==> Differs(a.values, c.values, k))
              && (forall k :: k in list[0].values ==> list[0].values[k] == a.values[k])
            else list == []
  {
    hide Diff, Differs, ListOf;
    DiffAttrLists(a, c, "insert");
    AttrEditsLists(a.values, c.values, "insert");
    InsertKeys(a.values, c.values);
    var ins := AttrInserts(a.values, c.values);
    if ins != map[] {
      var k :| k in ins;
    }
  }

  /** Under [delete] stand exactly those that are gone. */
  lemma DeletesMean(a: Tree, c: Tree)
    ensures var list := ListOf(Diff(a, c).kids, "delete");
            if exists k :: Gone(a.values, c.values, k) then
              && |list| == 1 && list[0].kids == []
              && (forall k :: k in list[0].values <==> Gone(a.values, c.values, k))
              && (forall k :: k in list[0].values ==> list[0].values[k] == Text("x"))
            else list == []
  {
    hide Diff, Gone, ListOf, AttrInserts;
    DiffAttrLists(a, c, "delete");
    AttrEditsLists(a.values, c.values, "delete");
    InsertKeys(a.values, c.values);
    var del := AttrDeletes(a.values, c.values);
    if del != map[] {
      var k :| k in del;
    }
  }

  // ---------------------------------------------------------------- child edits

  /** An edit that names one child: a changed one with the diff between two that differ, an inserted one with
      all it holds, or a deleted one. */
  ghost predicate Names(e: Kid, tag: string, a: seq<Tree>, b: seq<Tree>) {
    || (exists i: nat, j: nat :: i < |a| && j < |b| && !TreeEq(a[i], b[j])
          && e == Kid("change_child", Node(map["index" := Num(j)], [Kid(tag, Diff(a[i], b[j]))])))
    || (exists i: nat :: i < |a| && e == Kid("insert_child", Node(map["index" := Num(i)], [Kid(tag, a[i])])))
    || (exists j: nat :: j < |b| && e == Kid("delete_child", Node(map["index" := Num(j)], [Kid(tag, Node(map[], []))])))
  }

  ghost predicate NamesSome(e: Kid, a: Tree, c: Tree) {
    exists tag :: Names(e, tag, ListOf(a.kids, tag), ListOf(c.kids, tag))
  }

  lemma MoveNames(tag: string, a: seq<Tree>, b: seq<Tree>, w: Cursor)
    requires Within(a, b, w) && !Done(a, b, w)
    ensures |MoveEdits(tag, a, b, w)| <= 1
    ensures forall k :: 0 <= k < |MoveEdits(tag, a, b, w)| ==> Names(MoveEdits(tag, a, b, w)[k], tag, a, b)
  {
    hide Diff, TreeEq;
  }

  lemma {:induction false} ListNames(tag: string, a: seq<Tree>, b: seq<Tree>, w: Cursor)
    requires Within(a, b, w)
    ensures forall k :: 0 <= k < |ListEdits(tag, a, b, w)| ==> Names(ListEdits(tag, a, b, w)[k], tag, a, b)
    decreases Left(a, b, w)
  {
    hide TreeEq, Names, MoveEdits, Advance;
    if !Done(a, b, w) {
      MoveNames(tag, a, b, w);
      ListNames(tag, a, b, Advance(a, b, w));
    }
  }

  lemma {:induction false} EntityNames(a: Tree, c: Tree, tags: seq<string>)
    ensures forall k :: 0 <= k < |EntityEdits(a, c, tags)| ==>
              NamesSome(EntityEdits(a, c, tags)[k], a, c)
  {
    hide TreeEq, Names, ListEdits, ListOf;
    if tags != [] {
      ListNames(tags[0], ListOf(a.kids, tags[0]), ListOf(c.kids, tags[0]), START);
      EntityNames(a, c, tags[1..]);
    }
  }

  /** Whatever two nodes: each child of their diff is [insert], [delete], or names children of one tag; no edit
      is taken between children that are equal. */
  lemma EditsName(a: Tree, c: Tree, k: nat)
    requires k < |Diff(a, c).kids|
    ensures var e := Diff(a, c).kids[k];
            e.tag == "insert" || e.tag == "delete" || NamesSome(e, a, c)
  {
    hide ListOf, NamesSome, EntityEdits, Entities, AttrInserts, AttrDeletes;
    EntityNames(a, c, Entities(a.kids, c.kids));
  }

  // ---------------------------------------------------------------- how many edits

  /** How many edits of this kind name a child of the tag. */
  function Edits(kids: seq<Kid>, kind: string, tag: string): nat {
    if kids == [] then 0
    else
      var e := kids[|kids| - 1];
      Edits(kids[..|kids| - 1], kind, tag)
      + (if e.tag == kind && |e.cfg.kids| == 1 && e.cfg.kids[0].tag == tag then 1 else 0)
  }

  lemma {:induction false} EditsConcat(x: seq<Kid>, y: seq<Kid>, kind: string, tag: string)
    ensures Edits(x + y, kind, tag) == Edits(x, kind, tag) + Edits(y, kind, tag)
  {
    if y == [] {
      assert x + y == x;
    } else {
      var init := y[..|y| - 1];
      assert (x + y)[..|x + y| - 1] == x + init;
      EditsConcat(x, init, kind, tag);
    }
  }

  lemma EditsOne(e: Kid, kind: string, tag: string)
    ensures Edits([e], kind, tag) == if e.tag == kind && |e.cfg.kids| == 1 && e.cfg.kids[0].tag == tag then 1 else 0
  {
    assert [e][..0] == [];
  }

  lemma MoveCounts(t: string, a: seq<Tree>, b: seq<Tree>, w: Cursor, tag: string)
    requires Within(a, b, w) && !Done(a, b, w)
    ensures var m, w' := MoveEdits(t, a, b, w), Advance(a, b, w);
            && Edits(m, "delete_child", tag) == (if t == tag && w'.ai == w.ai then 1 else 0)
            && Edits(m, "insert_child", tag) == (if t == tag && w'.bi == w.bi then 1 else 0)
            && (w'.ai == w.ai ==> |b| - w.bi > |a| - w.ai && w'.bi == w.bi + 1)
            && (w'.bi == w.bi ==> |b| - w.bi < |a| - w.ai && w'.ai == w.ai + 1)
            && (w'.ai != w.ai && w'.bi != w.bi ==> w'.ai == w.ai + 1 && w'.bi == w.bi + 1)
  {
    hide Diff, TreeEq;
    var m := MoveEdits(t, a, b, w);
    if m != [] {
      assert m == [m[0]];
      EditsOne(m[0], "delete_child", tag);
      EditsOne(m[0], "insert_child", tag);
    }
  }

  lemma {:induction false} ListCounts(t: string, a: seq<Tree>, b: seq<Tree>, w: Cursor, tag: string)
    requires Within(a, b, w)
    ensures var m, d := ListEdits(t, a, b, w), (|b| - w.bi) - (|a| - w.ai);
            && Edits(m, "delete_child", tag) == (if t == tag && d > 0 then d else 0)
            && Edits(m, "insert_child", tag) == (if t == tag && d < 0 then -d else 0)
    decreases Left(a, b, w)
  {
    hide MoveEdits, Advance, Edits;
    NoEdits();
    if !Done(a, b, w) {
      var x, w' := MoveEdits(t, a, b, w), Advance(a, b, w);
      MoveCounts(t, a, b, w, tag);
      ListCounts(t, a, b, w', tag);
      EditsConcat(x, ListEdits(t, a, b, w'), "delete_child", tag);
      EditsConcat(x, ListEdits(t, a, b, w'), "insert_child", tag);
    }
  }

  lemma NoEdits()
    ensures forall kind, tag :: Edits([], kind, tag) == 0
  {
  }

  lemma {:induction false} EntityCounts(a: Tree, c: Tree, tags: seq<string>, tag: string)
    requires forall i, j :: 0 <= i < j < |tags| ==> tags[i] != tags[j]
    ensures var m, d := EntityEdits(a, c, tags), |ListOf(c.kids, tag)| - |ListOf(a.kids, tag)|;
            && Edits(m, "delete_child", tag) == (if tag in tags && d > 0 then d else 0)
            && Edits(m, "insert_child", tag) == (if tag in tags && d < 0 then -d else 0)
  {
    hide ListEdits, Edits, ListOf;
    NoEdits();
    if tags != [] {
      var la, lc := ListOf(a.kids, tags[0]), ListOf(c.kids, tags[0]);
      ListCounts(tags[0], la, lc, START, tag);
      EntityCounts(a, c, tags[1..], tag);
      EditsConcat(ListEdits(tags[0], la, lc, START), EntityEdits(a, c, tags[1..]), "delete_child", tag);
      EditsConcat(ListEdits(tags[0], la, lc, START), EntityEdits(a, c, tags[1..]), "insert_child", tag);
      assert tags[0] !in tags[1..];
    }
  }

  /** For every tag there are just as many insertions or deletions as the lengths of the two lists differ, and
      never both: everything else is kept or changed in place. */
  lemma EditsCount(a: Tree, c: Tree, tag: string)
    ensures var la, lc := |ListOf(a.kids, tag)|, |ListOf(c.kids, tag)|;
            && Edits(Diff(a, c).kids, "insert_child", tag) == (if la > lc then la - lc else 0)
            && Edits(Diff(a, c).kids, "delete_child", tag) == (if lc > la then lc - la else 0)
  {
    hide ListOf, Edits, EntityEdits, Entities, AttrInserts, AttrDeletes;
    var tags := Entities(a.kids, c.kids);
    EntitiesMean(a.kids, c.kids);
    EntityCounts(a, c, tags, tag);
    AttrsCount(a.values, c.values, "insert_child", tag);
    AttrsCount(a.values, c.values, "delete_child", tag);
    EditsConcat(AttrEdits(a.values, c.values), EntityEdits(a, c, tags), "insert_child", tag);
    EditsConcat(AttrEdits(a.values, c.values), EntityEdits(a, c, tags), "delete_child", tag);
  }

  lemma AttrsCount(a: Attrs, c: Attrs, kind: string, tag: string)
    ensures Edits(AttrEdits(a, c), kind, tag) == 0
  {
    hide AttrInserts, AttrDeletes;
    var e := AttrEdits(a, c);
    if |e| == 2 {
      assert e[..1] == [e[0]];
      EditsOne(e[0], kind, tag);
    } else if |e| == 1 {
      assert e == [e[0]];
      EditsOne(e[0], kind, tag);
    }
  }

  /** The tags are taken in the order of the map, first those of the new node, then those only the base has. */
  lemma EntitiesMean(a: seq<Kid>, c: seq<Kid>)
    ensures var es := Entities(a, c);
            && (forall t :: t in es <==> ListOf(a, t) != [] || ListOf(c, t) != [])
            && (forall i, j :: 0 <= i < j < |es| ==> es[i] != es[j])
            && (forall i, j :: 0 <= i < j < |es| && ((ListOf(a, es[i]) == []) <==> (ListOf(a, es[j]) == [])) ==>
                  Before(es[i], es[j]))
            && (forall i, j ::
                  0 <= i < |es| && 0 <= j < |es| && ListOf(a, es[i]) != [] && ListOf(a, es[j]) == [] ==> i < j)
  {
    hide ListOf, Before, Sorted;
    TagsOfSorted(a);
    TagsOfSorted(c);
    MissingSorted(TagsOf(c), TagsOf(a));
    JoinedOrder(TagsOf(a), Missing(TagsOf(c), TagsOf(a)));
  }

  /** Two sorted runs of different strings. */
  lemma JoinedOrder(x: seq<string>, y: seq<string>)
    requires Sorted(x) && Sorted(y) && forall t :: t in y ==> t !in x
    ensures var es := x + y;
            && (forall i, j :: 0 <= i < j < |es| ==> es[i] != es[j])
            && (forall i, j :: 0 <= i < j < |es| && (es[i] in x <==> es[j] in x) ==> Before(es[i], es[j]))
            && (forall i, j :: 0 <= i < |es| && 0 <= j < |es| && es[i] in x && es[j] !in x ==> i < j)
  {
    hide Before;
    var es := x + y;
    forall i | 0 <= i < |es|
      ensures es[i] in x <==> i < |x|
    {
      assert if i < |x| then es[i] == x[i] else es[i] == y[i - |x|];
    }
    forall i, j | 0 <= i < j < |es|
      ensures es[i] != es[j]
      ensures (es[i] in x <==> es[j] in x) ==> Before(es[i], es[j])
    {
      if i < |x| <= j {
        assert es[i] in x && es[j] !in x;
      } else {
        BeforeTotal(es[i], es[j]);
        if j < |x| {
          assert Before(x[i], x[j]);
        } else {
          assert Before(y[i - |x|], y[j - |x|]);
        }
      }
    }
  }

  lemma {:induction false} MissingSorted(tags: seq<string>, present: seq<string>)
    requires Sorted(tags)
    ensures Sorted(Missing(tags, present))
  {
    hide Before;
    if tags != [] {
      MissingSorted(tags[1..], present);
      var m := Missing(tags[1..], present);
      forall j | 0 <= j < |m|
        ensures Before(tags[0], m[j])
      {
        assert m[j] in m;
      }
    }
  }

  // ---------------------------------------------------------------- nothing to say

  ghost predicate SameList(a: seq<Tree>, b: seq<Tree>) {
    |a| == |b| && forall i :: 0 <= i < |a| ==> TreeEq(a[i], b[i])
  }

  lemma {:induction false} SilentList(tag: string, a: seq<Tree>, b: seq<Tree>, w: Cursor)
    requires Within(a, b, w)
    ensures ListEdits(tag, a, b, w) == [] <==> SameList(a[w.ai..], b[w.bi..])
    decreases Left(a, b, w)
  {
    hide TreeEq, Diff;
    if !Done(a, b, w) {
      var w' := Advance(a, b, w);
      SilentList(tag, a, b, w');
      if w.ai < |a| && w.bi < |b| {
        assert a[w.ai..] == [a[w.ai]] + a[w.ai + 1..] && b[w.bi..] == [b[w.bi]] + b[w.bi + 1..];
        SameListFirst(a[w.ai], a[w.ai + 1..], b[w.bi], b[w.bi + 1..]);
      }
    }
  }

  lemma SameListFirst(x: Tree, a: seq<Tree>, y: Tree, b: seq<Tree>)
    ensures SameList([x] + a, [y] + b) <==> TreeEq(x, y) && SameList(a, b)
  {
    hide TreeEq;
    if SameList([x] + a, [y] + b) {
      forall i | 0 <= i < |a|
        ensures TreeEq(a[i], b[i])
      {
        assert TreeEq(([x] + a)[i + 1], ([y] + b)[i + 1]);
      }
      assert TreeEq(([x] + a)[0], ([y] + b)[0]);
    }
  }

  ghost predicate SameLists(a: Tree, c: Tree, tags: seq<string>) {
    forall t :: t in tags ==> SameList(ListOf(a.kids, t), ListOf(c.kids, t))
  }

  lemma SameListsStep(a: Tree, c: Tree, tags: seq<string>)
    requires tags != []
    ensures SameLists(a, c, tags) <==>
            SameList(ListOf(a.kids, tags[0]), ListOf(c.kids, tags[0])) && SameLists(a, c, tags[1..])
  {
    hide SameList, ListOf;
    if SameLists(a, c, tags) {
      forall t | t in tags[1..]
        ensures SameList(ListOf(a.kids, t), ListOf(c.kids, t))
      {
        assert t in tags;
      }
      assert tags[0] in tags;
    }
  }

  lemma {:induction false} SilentEntities(a: Tree, c: Tree, tags: seq<string>)
    ensures EntityEdits(a, c, tags) == [] <==> SameLists(a, c, tags)
  {
    hide ListEdits, SameList, ListOf;
    if tags != [] {
      var la, lc := ListOf(a.kids, tags[0]), ListOf(c.kids, tags[0]);
      SilentList(tags[0], la, lc, START);
      assert la[0..] == la && lc[0..] == lc;
      SilentEntities(a, c, tags[1..]);
      SameListsStep(a, c, tags);
    }
  }

  /** Equal children for every tag. */
  ghost predicate SameChildren(a: Tree, c: Tree) {
    forall t :: SameList(ListOf(a.kids, t), ListOf(c.kids, t))
  }

  lemma EveryTag(a: Tree, c: Tree)
    ensures SameLists(a, c, Entities(a.kids, c.kids)) <==> SameChildren(a, c)
  {
    hide ListOf, SameList, Entities;
    EntitiesMean(a.kids, c.kids);
    NothingSame();
    var tags := Entities(a.kids, c.kids);
    if SameLists(a, c, tags) {
      forall t
        ensures SameList(ListOf(a.kids, t), ListOf(c.kids, t))
      {
        if t !in tags {
          assert ListOf(a.kids, t) == [] && ListOf(c.kids, t) == [];
        }
      }
    }
  }

  lemma NothingSame()
    ensures SameList([], [])
  {
  }

  /** A diff is empty exactly when the two nodes have the same keys with equal, non-empty values and, for every
      tag, equal children. */
  lemma DiffSilent(a: Tree, c: Tree)
    ensures Diff(a, c) == Node(map[], []) <==>
            && a.values.Keys == c.values.Keys
            && (forall k :: k in a.values ==>
                  k in c.values && ValueEq(a.values[k], c.values[k]) && a.values[k] != Blank && a.values[k] != Text(""))
            && SameChildren(a, c)
  {
    hide ListOf, EntityEdits, Entities, TreeEq, ValueEq, AttrInserts, AttrDeletes, SameLists, SameChildren;
    var tags := Entities(a.kids, c.kids);
    SilentAttrs(a.values, c.values);
    SilentEntities(a, c, tags);
    EveryTag(a, c);
    assert AttrEdits(a.values, c.values) == [] <==>
           AttrInserts(a.values, c.values) == map[] && AttrDeletes(a.values, c.values) == map[];
    assert Diff(a, c) == Node(map[], []) <==> AttrEdits(a.values, c.values) == [] && EntityEdits(a, c, tags) == [];
  }

  lemma SilentAttrs(a: Attrs, c: Attrs)
    ensures AttrInserts(a, c) == map[] && AttrDeletes(a, c) == map[] <==>
            && a.Keys == c.Keys
            && forall k :: k in a ==> k in c && ValueEq(a[k], c[k]) && a[k] != Blank && a[k] != Text("")
  {
    hide ValueEq;
    if AttrInserts(a, c) == map[] && AttrDeletes(a, c) == map[] {
      forall k
        ensures k in a <==> k in c
        ensures k in a ==> ValueEq(a[k], c[k]) && !IsEmpty(a[k])
      {
        assert k !in AttrInserts(a, c) && k !in AttrDeletes(a, c);
      }
    }
  }

  /** Equal nodes without an empty attribute at their root have nothing to tell apart. */
  lemma EqualSilent(a: Tree, c: Tree)
    requires TreeEq(a, c) && forall k :: k in a.values ==> a.values[k] != Blank && a.values[k] != Text("")
    ensures Diff(a, c) == Node(map[], [])
  {
    hide Diff, ListOf;
    forall t
      ensures SameList(ListOf(a.kids, t), ListOf(c.kids, t))
    {
      EqualLists(a.kids, c.kids, t);
    }
    assert SameChildren(a, c);
    hide TreeEq;
    assert AttrsEq(a.values, c.values) by { EqAttrs(a, c); }
    DiffSilent(a, c);
  }

  lemma EqAttrs(a: Tree, c: Tree)
    requires TreeEq(a, c)
    ensures AttrsEq(a.values, c.values)
  {
  }

  lemma {:induction false} EqualLists(a: seq<Kid>, c: seq<Kid>, tag: string)
    requires |a| == |c| && forall i :: 0 <= i < |a| ==> a[i].tag == c[i].tag && TreeEq(a[i].cfg, c[i].cfg)
    ensures SameList(ListOf(a, tag), ListOf(c, tag))
  {
    hide TreeEq;
    if a != [] {
      EqualLists(a[..|a| - 1], c[..|c| - 1], tag);
    }
  }

  // ---------------------------------------------------------------- what patching reads and marks

  /** An index is read from a number only, and a negative one wraps around at 64 bits. */
  lemma IndexMeans(v: Value)
    ensures IndexOf(v).Some? <==> v.Num?
    ensures v.Num? && v.n >= 0 ==> IndexOf(v) == Some(v.n)
    ensures v.Num? && -0x1_0000_0000_0000_0000 <= v.n < 0 ==> IndexOf(v) == Some(v.n + 0x1_0000_0000_0000_0000)
  {
  }

  lemma RunNone(p: Phase, kids: seq<Kid>, track: bool)
    ensures Run(p, kids, [], track) == Some(kids)
  {
  }

  lemma RunOne(p: Phase, kids: seq<Kid>, op: Op, track: bool)
    ensures Run(p, kids, [op], track) == Step(p, kids, op, track)
  {
    hide Step;
    assert [op][1..] == [];
    if Step(p, kids, op, track).Some? {
      RunNone(p, Step(p, kids, op, track).value, track);
    }
  }

  /** A patch with one edit of one child takes the one step. */
  lemma ApplyOne(p: Phase, t: Tree, tag: string, index: nat, x: Tree, track: bool)
    requires p != Clean
    ensures Apply(t, Node(map[], [Edit(p, tag, index, x)]), track) ==
            var k := Step(p, t.kids, Op(tag, index, x), track);
            if k.None? then None
            else Some(Node(if track then t.values["__diff_track" := Text("modified")] else t.values, k.value))
  {
    var e := Edit(p, tag, index, x);
    EditOps(p, Change, tag, index, x);
    EditOps(p, Insert, tag, index, x);
    EditOps(p, Delete, tag, index, x);
    ListOfOne(e, "insert");
    ListOfOne(e, "delete");
    RunOne(p, t.kids, Op(tag, index, x), track);
    RunNone(Change, t.kids, track);
    RunNone(Insert, t.kids, track);
    var k := Step(p, t.kids, Op(tag, index, x), track);
    if k.Some? {
      RunNone(Insert, k.value, track);
      RunNone(Delete, k.value, track);
    }
    hide Run, Step, Ops, ListOf;
  }

  lemma OneKid(tag: string, y: Tree)
    ensures Find([Kid(tag, y)], tag, 0) == 0 && ListOf([Kid(tag, y)], tag) == [y]
  {
    assert [Kid(tag, y)][..0] == [];
  }

  /** Which edits of one child throw: a change or a tracked deletion of a child that is not there, and an
      insertion behind a place that is not there; an untracked deletion never does. */
  lemma OneEditThrows(t: Tree, tag: string, index: nat, x: Tree, track: bool)
    ensures var at := map["index" := Num(index)];
            var list := ListOf(t.kids, tag);
            && (Apply(t, Node(map[], [Kid("insert_child", Node(at, [Kid(tag, x)]))]), track).None? <==> index > |list|)
            && (Apply(t, Node(map[], [Kid("delete_child", Node(at, [Kid(tag, x)]))]), track).None? <==>
                  track && index >= |list|)
            && (Apply(t, Node(map[], [Kid("change_child", Node(at, [Kid(tag, x)]))]), track).None? <==>
                  tag != "" && (index >= |list| || Apply(list[index], x, track).None?))
  {
    hide Apply, ListOf;
    ApplyOne(Insert, t, tag, index, x, track);
    ApplyOne(Delete, t, tag, index, x, track);
    ApplyOne(Change, t, tag, index, x, track);
    assert Edit(Insert, tag, index, x) == Kid("insert_child", Node(map["index" := Num(index)], [Kid(tag, x)]));
    assert Edit(Delete, tag, index, x) == Kid("delete_child", Node(map["index" := Num(index)], [Kid(tag, x)]));
    assert Edit(Change, tag, index, x) == Kid("change_child", Node(map["index" := Num(index)], [Kid(tag, x)]));
    var op := Op(tag, index, x);
    assert Step(Insert, t.kids, op, track).None? <==> index > |ListOf(t.kids, tag)|;
    assert Step(Delete, t.kids, op, track).None? <==> track && index >= |ListOf(t.kids, tag)|;
    assert Step(Change, t.kids, op, track).None? <==>
           tag != "" && (index >= |ListOf(t.kids, tag)| || Apply(ListOf(t.kids, tag)[index], x, track).None?);
  }

  /** Of several [insert] and [delete] children only the first ones are read, and a deleted attribute is gone even
      when it was inserted, too. */
  lemma AttrsApplied(values: Attrs, d: Tree, k: string)
    ensures var ins, del, r := ListOf(d.kids, "insert"), ListOf(d.kids, "delete"), ApplyAttrs(values, d);
            if del != [] && k in del[0].values then k !in r
            else if ins != [] && k in ins[0].values then k in r && r[k] == ins[0].values[k]
            else (k in r <==> k in values) && (k in r ==> r[k] == values[k])
  {
    hide ListOf;
  }

  /** A child put in by a tracked patch carries "new", and its parent "modified". */
  lemma InsertedIsNew(v: Attrs, tag: string, x: Tree)
    ensures Apply(Node(v, []), Node(map[], [Kid("insert_child", Node(map["index" := Num(0)], [Kid(tag, x)]))]), true) ==
            Some(Node(v["__diff_track" := Text("modified")],
                      [Kid(tag, Node(x.values["__diff_track" := Text("new")], x.kids))]))
  {
    hide Apply;
    ApplyOne(Insert, Node(v, []), tag, 0, x, true);
    ListOfNone(tag);
    var k := Kid(tag, Node(x.values["__diff_track" := Text("new")], x.kids));
    assert Find([], tag, 0) == 0 && [] + [k] + [] == [k];
    assert InsertKid([], tag, 0, k.cfg) == [k];
    assert Step(Insert, [], Op(tag, 0, x), true) == Some([k]);
    assert Edit(Insert, tag, 0, x) == Kid("insert_child", Node(map["index" := Num(0)], [Kid(tag, x)]));
  }

  /** A child taken out by a tracked patch stays and carries "deleted". */
  lemma DeletedStays(v: Attrs, tag: string, y: Tree, x: Tree)
    ensures Apply(Node(v, [Kid(tag, y)]),
                  Node(map[], [Kid("delete_child", Node(map["index" := Num(0)], [Kid(tag, x)]))]), true) ==
            Some(Node(v["__diff_track" := Text("modified")],
                      [Kid(tag, Node(y.values["__diff_track" := Text("deleted")], y.kids))]))
  {
    hide Apply, Find, ListOf;
    ApplyOne(Delete, Node(v, [Kid(tag, y)]), tag, 0, x, true);
    OneKid(tag, y);
    var k := Kid(tag, Node(y.values["__diff_track" := Text("deleted")], y.kids));
    assert UpdateKid([Kid(tag, y)], tag, 0, k.cfg) == [k];
    assert Step(Delete, [Kid(tag, y)], Op(tag, 0, x), true) == Some([k]);
    assert Edit(Delete, tag, 0, x) == Kid("delete_child", Node(map["index" := Num(0)], [Kid(tag, x)]));
  }

  /** A child changed by a tracked patch carries "modified" too. */
  lemma ChangedIsModified(v: Attrs, tag: string, y: Tree)
    requires tag != ""
    ensures Apply(Node(v, [Kid(tag, y)]),
                  Node(map[], [Kid("change_child", Node(map["index" := Num(0)], [Kid(tag, Node(map[], []))]))]), true) ==
            Some(Node(v["__diff_track" := Text("modified")],
                      [Kid(tag, Node(y.values["__diff_track" := Text("modified")], y.kids))]))
  {
    ApplyNothing(y);
    hide Apply, Find, ListOf;
    ApplyOne(Change, Node(v, [Kid(tag, y)]), tag, 0, EMPTY, true);
    OneKid(tag, y);
    var k := Kid(tag, Node(y.values["__diff_track" := Text("modified")], y.kids));
    assert UpdateKid([Kid(tag, y)], tag, 0, k.cfg) == [k];
    assert Step(Change, [Kid(tag, y)], Op(tag, 0, EMPTY), true) == Some([k]);
    assert Edit(Change, tag, 0, EMPTY) == Kid("change_child", Node(map["index" := Num(0)], [Kid(tag, EMPTY)]));
  }

  lemma NothingScheduled()
    ensures forall p :: DiffOps(EMPTY, p) == Some([])
    ensures ListOf([], "insert") == [] && ListOf([], "delete") == []
  {
    forall p: Phase
      ensures DiffOps(EMPTY, p) == Some([])
    {
      ListOfNone(EditTag(p));
    }
  }

  lemma ApplyNothing(y: Tree)
    ensures Apply(y, Node(map[], []), true) == Some(Node(y.values["__diff_track" := Text("modified")], y.kids))
  {
    NothingScheduled();
    RunNone(Change, y.kids, true);
    RunNone(Insert, y.kids, true);
    RunNone(Delete, y.kids, true);
    hide Run, DiffOps;
  }

  /** Cleaning without edits takes the mark off the node and off each of its children. */
  lemma ClearNothing(y: Tree)
    ensures var r := Clear(y, Node(map[], []));
            && r.Some? && r.value.values == y.values - {"__diff_track"} && |r.value.kids| == |y.kids|
            && forall i :: 0 <= i < |y.kids| ==>
                 r.value.kids[i] == Kid(y.kids[i].tag, Node(y.kids[i].cfg.values - {"__diff_track"}, y.kids[i].cfg.kids))
  {
    NothingScheduled();
    RunNone(Delete, y.kids, false);
    RunNone(Clean, y.kids, false);
    hide Run, DiffOps;
  }
}
