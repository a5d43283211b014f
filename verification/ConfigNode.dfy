/** The WML `config` node as the program stores and updates it.

    A node owns its children and copies them deeply, so a child is held here as the value it has.
    Every method is proved against the plain operation on the tree value `View()`. */
module ConfigNode {
  import opened ConfigTree
  import opened ConfigDiff
  import opened ConfigMerge
  import opened ConfigOrder
  import opened ConfigRoundTrip

  // ---------------------------------------------------------------- the loops over a diff

  /** The loop over the edits of one kind, which reads an index only when it gets to it. */
  ghost function RunEdits(p: Phase, kids: seq<Kid>, edits: seq<Tree>, track: bool): Option<seq<Kid>>
    decreases |edits|
  {
    if edits == [] then Some(kids)
    else
      var index :- IndexOf(Get(edits[0].values, "index"));
      var k :- Run(p, kids, ItemOps(index, edits[0].kids), track);
      RunEdits(p, k, edits[1..], track)
  }

  /** Reading all indices first makes no difference to the outcome. */
  lemma {:induction false} RunEditsOps(p: Phase, kids: seq<Kid>, edits: seq<Tree>, track: bool)
    ensures RunEdits(p, kids, edits, track) == if Ops(edits).None? then None else Run(p, kids, Ops(edits).value, track)
    decreases |edits|
  {
    hide Step;
    if edits != [] {
      var index := IndexOf(Get(edits[0].values, "index"));
      if index.Some? {
        var ops := ItemOps(index.value, edits[0].kids);
        if Ops(edits[1..]).Some? {
          RunConcat(p, kids, ops, Ops(edits[1..]).value, track);
        }
        if Run(p, kids, ops, track).Some? {
          RunEditsOps(p, Run(p, kids, ops, track).value, edits[1..], track);
        }
      }
    }
  }

  lemma {:induction false} UnmarkStep(kids: seq<Kid>, i: nat)
    requires i < |kids|
    ensures (UnmarkedKids(kids[..i]) + kids[i..])[i] == kids[i]
    ensures (UnmarkedKids(kids[..i]) + kids[i..])[i := Kid(kids[i].tag, Unmarked(kids[i].cfg))]
            == UnmarkedKids(kids[..i + 1]) + kids[i + 1..]
  {
  }

  lemma {:induction false} UnmarkStart(kids: seq<Kid>)
    ensures UnmarkedKids(kids[..0]) + kids[0..] == kids
  {
  }

  class Config {
    var values: Attrs
    var children: Lists
    var order: seq<Pos>

    ghost predicate Valid()
      reads this
    {
      Dense(children, order) && InRange(children, order)
    }

    /** The children in the global order. */
    function Kids(): seq<Kid>
      reads this
      requires Valid()
    {
      KidsOf(children, order)
    }

    function View(): Tree
      reads this
      requires Valid()
    {
      Node(values, Kids())
    }

    constructor ()
      ensures Valid() && View() == EMPTY
    {
      values, children, order := map[], map[], [];
    }

    /** The deep copy. */
    constructor FromTree(t: Tree)
      ensures Valid() && View() == t
    {
      values, children, order := t.values, map[], [];
      new;
      var i := 0;
      while i < |t.kids|
        invariant 0 <= i <= |t.kids|
        invariant Valid() && values == t.values && Kids() == t.kids[..i]
      {
        AddChild(t.kids[i].tag, t.kids[i].cfg);
        i := i + 1;
      }
    }

    method AddChild(tag: string, val: Tree)
      requires Valid()
      modifies this
      ensures Valid() && values == old(values)
      ensures Kids() == old(Kids()) + [Kid(tag, val)]
    {
      hide ListOf, Count, Dense, InRange, KidsOf;
      AppendDense(children, order, tag, val);
      var v := ListIn(children, tag) + [val];
      children := children[tag := v];
      order := order + [Pos(tag, |v| - 1)];
    }

    /** Fails when the index is past the end; an empty list may then have been created for the tag. */
    method AddChildAt(tag: string, val: Tree, index: nat) returns (ok: bool)
      requires Valid()
      modifies this
      ensures Valid() && values == old(values)
      ensures ok <==> index <= |ListOf(old(Kids()), tag)|
      ensures Kids() == if ok then InsertKid(old(Kids()), tag, index, val) else old(Kids())
    {
      hide ListOf, Count, Find, Inserting, IsPlace, Dense, InRange, KidsOf, InsertKid, Inserted;
      DenseLists(children, order, tag);
      var v := ListIn(children, tag);
      if index > |v| {
        EmptyEntryDense(children, order, tag);
        children := children[tag := v];
        return false;
      }
      InsertDense(children, order, tag, index, val);
      PlaceOf(children, order, tag, index);
      ghost var o, q := order, Find(Kids(), tag, index);
      children := children[tag := InsertedList(v, index, val)];
      var inserted, i := false, 0;
      InsertingStart(o, q, tag, index);
      while i < |order|
        invariant Inserting(o, q, tag, index, order, i, inserted)
        invariant children == old(children)[tag := InsertedList(v, index, val)] && values == old(values)
        decreases |o| + 1 - i
      {
        InsertingStep(o, q, tag, index, order, i, inserted);
        if order[i].tag == tag {
          if !inserted && order[i].index == index {
            order := order[..i] + [Pos(tag, index)] + order[i..];
            inserted := true;
          } else if order[i].index >= index {
            order := order[i := Pos(tag, order[i].index + 1)];
          }
        }
        i := i + 1;
      }
      InsertingDone(o, q, tag, index, order, i, inserted);
      if !inserted {
        order := order + [Pos(tag, index)];
      }
      return true;
    }

    method ClearChildren(tag: string)
      requires Valid()
      modifies this
      ensures Valid() && values == old(values)
      ensures Kids() == Without(old(Kids()), tag)
    {
      DenseInRange(children, order);
      ClearDense(children, order, tag);
      WithoutKids(children, order, tag);
      if tag !in children {
        ClearNothing(children, order, tag);
        return;
      }
      order := WithoutPos(order, tag);
      children := children - {tag};
    }

    /** Moves all the children with the tag from another node to the end of this one. */
    method SpliceChildren(src: Config, tag: string)
      requires Valid() && src.Valid() && src != this
      modifies this, src
      ensures Valid() && src.Valid() && values == old(values) && src.values == old(src.values)
      ensures src.Kids() == Without(old(src.Kids()), tag)
      ensures Kids() == old(Kids()) + Tagged(tag, ListOf(old(src.Kids()), tag))
    {
      hide ListOf, Count, Dense, InRange, KidsOf, Spliced;
      DenseLists(src.children, src.order, tag);
      DenseInRange(src.children, src.order);
      ClearDense(src.children, src.order, tag);
      WithoutKids(src.children, src.order, tag);
      if tag !in src.children {
        ClearNothing(src.children, src.order, tag);
        assert Kids() + Tagged(tag, []) == Kids();
        return;
      }
      src.order := WithoutPos(src.order, tag);
      var moved := src.children[tag];
      var before := |ListIn(children, tag)|;
      ghost var own, kids := children, Kids();
      SplicedStart(own, tag, moved, order);
      children := children[tag := ListIn(children, tag) + moved];
      src.children := src.children - {tag};
      var j := before;
      while j < |children[tag]|
        invariant before <= j <= before + |moved|
        invariant children == own[tag := ListIn(own, tag) + moved]
        invariant Spliced(own, tag, moved, j - before, order, kids)
        invariant values == old(values) && src.values == old(src.values)
        invariant src.children == old(src.children) - {tag} && src.order == WithoutPos(old(src.order), tag)
      {
        SplicedStep(own, tag, moved, j - before, order, kids);
        order := order + [Pos(tag, j)];
        j := j + 1;
      }
      SplicedDone(own, tag, moved, order, kids);
    }

    /** Out-of-range requests are ignored. */
    method RemoveChild(tag: string, index: nat)
      requires Valid()
      modifies this
      ensures Valid() && values == old(values)
      ensures Kids() == RemoveKid(old(Kids()), tag, index)
    {
      hide ListOf, Count, Find, IsPlace, Dense, InRange, KidsOf, Removing, RemoveKid, Removed;
      DenseLists(children, order, tag);
      PlaceOf(children, order, tag, index);
      RemoveBeyond(Kids(), tag, index);
      if tag !in children || index >= |children[tag]| {
        return;
      }
      RemoveDense(children, order, tag, index);
      ghost var o, q := order, Find(Kids(), tag, index);
      var found, i := 0, 0;
      RemovingStart(o, q, tag);
      while i < |order|
        invariant |order| == |o| && i <= |o| && Removing(o, q, tag, order, i, found)
        invariant children == old(children) && values == old(values)
      {
        RemovingStep(o, q, tag, index, order, i, found);
        if order[i].tag == tag {
          if order[i].index == index {
            found := i;
          } else if order[i].index > index {
            order := order[i := Pos(tag, order[i].index - 1)];
          }
        }
        i := i + 1;
      }
      RemovingEnd(o, q, tag, order, i, found);
      RemovingDone(o, q, tag, index, order, found);
      children := children[tag := RemovedList(children[tag], index)];
      order := order[..found] + order[found + 1..];
    }

    // -------------------------------------------------------------- patching

    /** One edit; failure stands for the thrown error, after which the node is still well formed. */
    method ApplyOp(p: Phase, op: Op, track: bool) returns (ok: bool)
      requires Valid()
      modifies this
      ensures Valid() && values == old(values)
      ensures ok <==> Step(p, old(Kids()), op, track).Some?
      ensures ok ==> Kids() == Step(p, old(Kids()), op, track).value
      decreases Size(op.cfg), 3
    {
      hide ListOf, Count, Find, Dense, InRange, KidsOf, Apply, Clear;
      DenseLists(children, order, op.tag);
      ghost var kids := Kids();
      if p == Insert {
        var inserted := if track then Marked(op.cfg, "new") else op.cfg;
        ok := AddChildAt(op.tag, inserted, op.index);
        return;
      }
      if p == Delete && !track {
        RemoveChild(op.tag, op.index);
        return true;
      }
      if p != Delete && op.tag == "" { return true; }
      if op.tag !in children || op.index >= |children[op.tag]| { return false; }
      var c := children[op.tag][op.index];
      if p == Delete {
        c, ok := Marked(c, "deleted"), true;
      } else {
        var child := new Config.FromTree(c);
        if p == Change {
          ok := child.ApplyDiff(op.cfg, track);
        } else {
          ok := child.ClearDiffTrack(op.cfg);
        }
        c := child.View();
      }
      if ok {
        UpdateDense(children, order, op.tag, op.index, c);
        children := children[op.tag := children[op.tag][op.index := c]];
      }
    }

    /** The loop over the edits of one kind and over the items of each. */
    method ApplyEdits(p: Phase, d: Tree, track: bool) returns (ok: bool)
      requires Valid()
      modifies this
      ensures Valid() && values == old(values)
      ensures ok <==> RunEdits(p, old(Kids()), ListOf(d.kids, EditTag(p)), track).Some?
      ensures ok ==> Kids() == RunEdits(p, old(Kids()), ListOf(d.kids, EditTag(p)), track).value
      decreases Size(d), 1
    {
      hide ListOf, Dense, InRange, KidsOf, Step;
      var edits := ListOf(d.kids, EditTag(p));
      SizeOfListed(d.kids, EditTag(p));
      var i := 0;
      while i < |edits|
        invariant 0 <= i <= |edits|
        invariant Valid() && values == old(values)
        invariant RunEdits(p, old(Kids()), edits, track) == RunEdits(p, Kids(), edits[i..], track)
      {
        var index := IndexOf(Get(edits[i].values, "index"));
        assert edits[i..][0] == edits[i] && edits[i..][1..] == edits[i + 1..];
        if index.None? { return false; }
        var items := edits[i].kids;
        ghost var kids, ops := Kids(), ItemOps(index.value, items);
        var j := 0;
        while j < |items|
          invariant 0 <= j <= |items|
          invariant Valid() && values == old(values)
          invariant Run(p, kids, ops, track) == Run(p, Kids(), ops[j..], track)
        {
          SizeOfMember(items, j);
          assert ops[j..][0] == ops[j] && ops[j..][1..] == ops[j + 1..];
          var done := ApplyOp(p, Op(items[j].tag, index.value, items[j].cfg), track);
          if !done { return false; }
          j := j + 1;
        }
        i := i + 1;
      }
      return true;
    }

    method AssignAttributes(m: Attrs)
      modifies this`values
      ensures values == old(values) + m
    {
      hide SortedKeys;
      var keys := SortedKeys(m.Keys);
      var i := 0;
      while i < |keys|
        invariant 0 <= i <= |keys|
        invariant values == old(values) + (map k | k in keys[..i] :: m[k])
      {
        assert keys[i] in keys;
        assert keys[..i + 1] == keys[..i] + [keys[i]];
        values := values[keys[i] := m[keys[i]]];
        i := i + 1;
      }
      assert keys[..|keys|] == keys;
      assert (map k | k in keys :: m[k]) == m;
    }

    method EraseAttributes(names: set<string>)
      modifies this`values
      ensures values == old(values) - names
    {
      hide SortedKeys;
      var keys := SortedKeys(names);
      var i := 0;
      while i < |keys|
        invariant 0 <= i <= |keys|
        invariant values == old(values) - (set k | k in keys[..i])
      {
        assert keys[..i + 1] == keys[..i] + [keys[i]];
        values := values - {keys[i]};
        i := i + 1;
      }
      assert keys[..|keys|] == keys;
      assert (set k | k in keys) == names;
    }

    /** `apply_diff`: it fails exactly when `Apply` does, with an index that does not parse or is out of range. */
    method ApplyDiff(d: Tree, track: bool) returns (ok: bool)
      requires Valid()
      modifies this
      ensures Valid()
      ensures ok <==> Apply(old(View()), d, track).Some?
      ensures ok ==> View() == Apply(old(View()), d, track).value
      decreases Size(d), 2
    {
      hide Dense, InRange, KidsOf, ListOf, RunEdits, Run, Ops;
      ghost var kids := Kids();
      if track { values := values[TRACK := Text("modified")]; }
      var inserts, deletes := ListOf(d.kids, "insert"), ListOf(d.kids, "delete");
      if inserts != [] { AssignAttributes(inserts[0].values); }
      if deletes != [] { EraseAttributes(deletes[0].values.Keys); }
      assert values == ApplyAttrs(if track then old(values)[TRACK := Text("modified")] else old(values), d);
      RunEditsOps(Change, kids, ListOf(d.kids, EditTag(Change)), track);
      ok := ApplyEdits(Change, d, track);
      if !ok { return; }
      RunEditsOps(Insert, Kids(), ListOf(d.kids, EditTag(Insert)), track);
      ok := ApplyEdits(Insert, d, track);
      if !ok { return; }
      RunEditsOps(Delete, Kids(), ListOf(d.kids, EditTag(Delete)), track);
      ok := ApplyEdits(Delete, d, track);
    }

    method ClearDiffTrack(d: Tree) returns (ok: bool)
      requires Valid()
      modifies this
      ensures Valid()
      ensures ok <==> Clear(old(View()), d).Some?
      ensures ok ==> View() == Clear(old(View()), d).value
      decreases Size(d), 2
    {
      hide ListOf, RunEdits, Run, Ops;
      ghost var kids := Kids();
      values := values - {TRACK};
      RunEditsOps(Delete, kids, ListOf(d.kids, EditTag(Delete)), false);
      ok := ApplyEdits(Delete, d, false);
      if !ok { return; }
      RunEditsOps(Clean, Kids(), ListOf(d.kids, EditTag(Clean)), false);
      ok := ApplyEdits(Clean, d, false);
      if !ok { return; }
      UnmarkAll();
    }

    /** The last loop of `clear_diff_track`: the mark goes from every direct child. */
    method UnmarkAll()
      requires Valid()
      modifies this
      ensures Valid() && values == old(values)
      ensures Kids() == UnmarkedKids(old(Kids()))
    {
      hide Count, Dense, ListOf, Find, UnmarkedKids;
      ghost var kids := Kids();
      UnmarkStart(kids);
      var i := 0;
      while i < |order|
        invariant 0 <= i <= |order| && order == old(order)
        invariant Valid() && values == old(values)
        invariant Kids() == UnmarkedKids(kids[..i]) + kids[i..]
      {
        var tag, index := order[i].tag, order[i].index;
        var c := Unmarked(children[tag][index]);
        UnmarkStep(kids, i);
        assert Kids()[i] == Kid(tag, children[tag][index]);
        DenseFind(children, order, i);
        UpdateDense(children, order, tag, index, c);
        children := children[tag := children[tag][index := c]];
        i := i + 1;
      }
      assert kids[..|kids|] == kids && UnmarkedKids(kids) + kids[|kids|..] == UnmarkedKids(kids);
    }

    // -------------------------------------------------------------- merging

    method MergeAttributes(c: Attrs)
      modifies this`values
      ensures values == MergeAttrs(old(values), c)
    {
      hide SortedKeys, ToInt;
      var keys := SortedKeys(c.Keys);
      var i := 0;
      while i < |keys|
        invariant 0 <= i <= |keys|
        invariant MergeKeys(old(values), c, keys) == MergeKeys(values, c, keys[i..])
      {
        var key := keys[i];
        assert key in keys && keys[i..][0] == key && keys[i..][1..] == keys[i + 1..];
        if IsAddTo(key) {
          var target := key[7..];
          values := values[target := Num(ToInt(Get(values, target)) + ToInt(c[key]))];
        } else {
          values := values[key := c[key]];
        }
        i := i + 1;
      }
    }

    /** Merges `c` into this node, overwriting its values. */
    method MergeWith(c: Tree)
      requires Valid()
      modifies this
      ensures Valid() && View() == Merge(old(View()), c)
      decreases Size(c), 1
    {
      hide Count, Dense, InRange, KidsOf, ListOf, Find, MergeAttrs, MergeKids, MergeKid, Extras, MarksOf, Kept;
      ghost var kids := Kids();
      MergeAttributes(c.values);
      ghost var at;
      var marks, visits;
      marks, visits, at := MergeShared(c);
      AddUnvisited(c, visits, kids);
      RemoveMarked(c, marks, kids, at, Extras(kids, c, TagsOf(c.kids)));
    }

    /** One recursive merge into a child. */
    method MergeChild(tag: string, index: nat, c: Tree)
      requires Valid() && index < |ListIn(children, tag)|
      modifies this
      ensures Valid() && values == old(values) && order == old(order)
      ensures index < |ListOf(old(Kids()), tag)|
      ensures Kids() == UpdateKid(old(Kids()), tag, index, Merge(old(children)[tag][index], c))
      decreases Size(c), 2
    {
      hide Count, Dense, InRange, KidsOf, ListOf, Find, Merge;
      var child := new Config.FromTree(children[tag][index]);
      child.MergeWith(c);
      UpdateDense(children, order, tag, index, child.View());
      children := children[tag := children[tag][index := child.View()]];
    }

    /** The first loop: the children with a counterpart are merged with it or marked for removal. */
    method MergeShared(c: Tree) returns (marks: seq<(string, nat)>, visits: map<string, nat>, ghost at: seq<nat>)
      requires Valid()
      modifies this
      ensures Valid() && values == old(values) && Kids() == Kept(old(Kids()), c)
      ensures MarksOf(old(Kids()), c, |old(Kids())|, marks, at)
      ensures forall t :: Times(visits, t) == Visited(|ListOf(old(Kids()), t)|, |ListOf(c.kids, t)|)
      decreases Size(c), 0
    {
      hide Count, Dense, InRange, KidsOf, ListOf, Find, Merge, IsRemoved, Kept, MarksOf, UpdateKid;
      ghost var kids := Kids();
      marks, visits, at := [], map[], [];
      var i := 0;
      VisitStart(kids, c);
      KeptEnds(kids, c);
      while i < |order|
        invariant 0 <= i <= |order| && order == old(order)
        invariant Valid() && values == old(values)
        invariant Kids() == Kept(kids, c)[..i] + kids[i..]
        invariant MarksOf(kids, c, i, marks, at)
        invariant forall t :: Times(visits, t) == Visited(|ListOf(kids[..i], t)|, |ListOf(c.kids, t)|)
      {
        var tag, index := order[i].tag, order[i].index;
        EntryView(children, order, i);
        KeptRank(kids, c, i, Kids(), tag);
        KeptStep(kids, c, i, Kids());
        MarksStep(kids, c, i, marks, at);
        VisitStep(kids, c, i, visits);
        hide Visited;
        var list := ListOf(c.kids, tag);
        if list != [] {
          var v := Times(visits, tag);
          if v < |list| {
            SizeOfListed(c.kids, tag);
            visits := visits[tag := v + 1];
            if IsRemoved(list[v]) {
              marks, at := marks + [(tag, index)], at + [i];
            } else {
              UpdateAt(Kids(), tag, index, i, Merge(children[tag][index], list[v]));
              MergeChild(tag, index, list[v]);
            }
          }
        }
        i := i + 1;
      }
    }

    /** The second loop: what was not visited is added, tag by tag in map order. */
    method AddUnvisited(c: Tree, visits: map<string, nat>, ghost kids: seq<Kid>)
      requires Valid()
      requires forall t :: Times(visits, t) == Visited(|ListOf(kids, t)|, |ListOf(c.kids, t)|)
      modifies this
      ensures Valid() && values == old(values)
      ensures Kids() == old(Kids()) + Extras(kids, c, TagsOf(c.kids))
    {
      hide Count, Dense, InRange, KidsOf, ListOf, Extras, Rest;
      var tags := TagsOf(c.kids);
      assert tags[0..] == tags;
      var i := 0;
      while i < |tags|
        invariant 0 <= i <= |tags|
        invariant Valid() && values == old(values)
        invariant Kids() + Extras(kids, c, tags[i..]) == old(Kids()) + Extras(kids, c, tags)
      {
        var tag := tags[i];
        var list, visit := ListOf(c.kids, tag), Times(visits, tag);
        ExtrasStep(kids, c, tags, i, visit, Kids());
        ghost var goal := Kids() + Rest(kids, c, tag, visit);
        while visit < |list|
          invariant visit <= |list|
          invariant Valid() && values == old(values)
          invariant Kids() + Rest(kids, c, tag, visit) == goal
        {
          RestStep(kids, c, tag, visit, Kids());
          AddChild(tag, list[visit]);
          visit := visit + 1;
        }
        RestStep(kids, c, tag, visit, Kids());
        i := i + 1;
      }
      NoMoreExtras(kids, c);
      assert tags[|tags|..] == [] && Kids() + [] == Kids();
    }

    /** The last loop: the marked children go, each index lowered by the removals before it. */
    method RemoveMarked(c: Tree, marks: seq<(string, nat)>, ghost kids: seq<Kid>, ghost at: seq<nat>,
                        ghost extras: seq<Kid>)
      requires Valid()
      requires MarksOf(kids, c, |kids|, marks, at)
      requires Kids() == Kept(kids, c) + extras
      modifies this
      ensures Valid() && values == old(values)
      ensures Kids() == MergeKids(kids, c, |kids|) + extras
    {
      hide Count, Dense, InRange, KidsOf, ListOf, RemoveKid, MergeKids, Kept, IsMarked, Purged;
      var removals: map<string, nat> := map[];
      ghost var q := 0;
      PurgeStart(kids, c, Kids(), extras);
      var m := 0;
      while m < |marks|
        invariant 0 <= m <= |marks|
        invariant Valid() && values == old(values)
        invariant Purged(kids, c, q, Kids(), extras, removals)
        invariant q == if m == 0 then 0 else at[m - 1] + 1
      {
        var tag, index := marks[m].0, marks[m].1;
        BetweenMarks(kids, c, marks, at, m);
        PurgeStep(kids, c, q, at[m], Kids(), extras, removals);
        var removes := Times(removals, tag);
        RemoveChild(tag, index - removes);
        removals := removals[tag := removes + 1];
        q := at[m] + 1;
        m := m + 1;
      }
      BetweenMarks(kids, c, marks, at, m);
      PurgeDone(kids, c, q, Kids(), extras, removals);
    }

    /** Merges `c` into this node, preserving this node's values. */
    method InheritFrom(c: Tree)
      requires Valid()
      modifies this
      ensures Valid() && View() == Inherit(old(View()), c)
    {
      var scratch := new Config.FromTree(c);
      scratch.MergeWith(View());
      values, children, order := scratch.values, scratch.children, scratch.order;
    }
  }

  // ---------------------------------------------------------------- taking a diff

  function Part(m: Attrs, keys: seq<string>): Attrs {
    map k | k in keys && k in m :: m[k]
  }

  lemma {:induction false} PartStep(m: Attrs, keys: seq<string>, i: nat)
    requires i < |keys|
    ensures Part(m, keys[..i + 1]) == if keys[i] in m then Part(m, keys[..i])[keys[i] := m[keys[i]]] else Part(m, keys[..i])
  {
    assert keys[..i + 1] == keys[..i] + [keys[i]];
  }

  lemma {:induction false} PartAll(m: Attrs, keys: seq<string>)
    requires forall k :: k in m ==> k in keys
    ensures Part(m, keys[..0]) == map[] && Part(m, keys[..|keys|]) == m
  {
    assert keys[..|keys|] == keys;
  }

  method CollectInserts(a: Attrs, c: Attrs) returns (inserts: Attrs)
    ensures inserts == AttrInserts(a, c)
  {
    inserts := map[];
    var keys := SortedKeys(a.Keys);
    PartAll(AttrInserts(a, c), keys);
    var i := 0;
    while i < |keys|
      invariant 0 <= i <= |keys|
      invariant inserts == Part(AttrInserts(a, c), keys[..i])
    {
      var k := keys[i];
      assert k in keys;
      PartStep(AttrInserts(a, c), keys, i);
      if k !in c || (!ValueEq(a[k], c[k]) && !IsEmpty(a[k])) {
        inserts := inserts[k := a[k]];
      }
      i := i + 1;
    }
  }

  method CollectDeletes(a: Attrs, c: Attrs) returns (deletes: Attrs)
    ensures deletes == AttrDeletes(a, c)
  {
    deletes := map[];
    var keys := SortedKeys(c.Keys);
    PartAll(AttrDeletes(a, c), keys);
    var i := 0;
    while i < |keys|
      invariant 0 <= i <= |keys|
      invariant deletes == Part(AttrDeletes(a, c), keys[..i])
    {
      var k := keys[i];
      assert k in keys;
      PartStep(AttrDeletes(a, c), keys, i);
      if k !in a || IsEmpty(a[k]) {
        deletes := deletes[k := Text("x")];
      }
      i := i + 1;
    }
  }

  method CollectEntities(a: seq<Kid>, c: seq<Kid>) returns (entities: seq<string>)
    ensures entities == Entities(a, c)
  {
    hide TagsOf, ListOf, Missing;
    var tags, own, i := TagsOf(a), TagsOf(c), 0;
    entities := tags;
    MissingEnds(own, tags);
    while i < |own|
      invariant 0 <= i <= |own|
      invariant entities + Missing(own[i..], tags) == Entities(a, c)
    {
      MissingStep(own, tags, i, entities);
      if own[i] !in tags { entities := entities + [own[i]]; }
      i := i + 1;
    }
    assert entities + [] == entities;
  }

  lemma {:induction false} MissingStep(own: seq<string>, tags: seq<string>, i: nat, done: seq<string>)
    requires i < |own|
    ensures done + Missing(own[i..], tags) ==
            (if own[i] in tags then done else done + [own[i]]) + Missing(own[i + 1..], tags)
  {
    assert own[i..][0] == own[i] && own[i..][1..] == own[i + 1..];
  }

  lemma MissingEnds(own: seq<string>, tags: seq<string>)
    ensures own[0..] == own && Missing(own[|own|..], tags) == []
  {
  }

  lemma {:induction false} EntityStep(a: Tree, c: Tree, tags: seq<string>, i: nat, done: seq<Kid>)
    requires i < |tags|
    ensures done + EntityEdits(a, c, tags[i..]) ==
            (done + ListEdits(tags[i], ListOf(a.kids, tags[i]), ListOf(c.kids, tags[i]), START)) + EntityEdits(a, c, tags[i + 1..])
  {
    hide ListOf, ListEdits;
    assert tags[i..][0] == tags[i] && tags[i..][1..] == tags[i + 1..];
  }

  lemma NoEntities(a: Tree, c: Tree, tags: seq<string>)
    ensures EntityEdits(a, c, tags[|tags|..]) == []
    ensures tags[0..] == tags
  {
  }

  /** `a.get_diff(c)`. */
  method GetDiff(a: Tree, c: Tree) returns (res: Tree)
    ensures res == Diff(a, c)
    decreases SizeAll(a.kids) + SizeAll(c.kids), 1
  {
    hide ListOf, ListEdits, Size, EntityEdits, Entities, AttrInserts, AttrDeletes;
    res := EMPTY;
    var inserts := CollectInserts(a.values, c.values);
    if inserts != map[] { res := res.(kids := res.kids + [Kid("insert", Node(inserts, []))]); }
    var deletes := CollectDeletes(a.values, c.values);
    if deletes != map[] { res := res.(kids := res.kids + [Kid("delete", Node(deletes, []))]); }
    assert res == Node(map[], AttrEdits(a.values, c.values));
    var entities := CollectEntities(a.kids, c.kids);
    NoEntities(a, c, entities);
    ghost var goal := res.kids + EntityEdits(a, c, entities);
    var i := 0;
    while i < |entities|
      invariant 0 <= i <= |entities| && res.values == map[]
      invariant res.kids + EntityEdits(a, c, entities[i..]) == goal
    {
      var tag := entities[i];
      EntityStep(a, c, entities, i, res.kids);
      ListSizeOfListed(a.kids, tag);
      ListSizeOfListed(c.kids, tag);
      var edits := DiffLists(tag, ListOf(a.kids, tag), ListOf(c.kids, tag));
      res := res.(kids := res.kids + edits);
      i := i + 1;
    }
    assert res.kids + [] == res.kids;
  }

  /** The double walk over the lists of one tag. */
  method DiffLists(tag: string, a: seq<Tree>, b: seq<Tree>) returns (edits: seq<Kid>)
    ensures edits == ListEdits(tag, a, b, START)
    decreases ListSize(a) + ListSize(b), 0
  {
    hide TreeEq, Size, Diff, ListSize, MoveEdits, ListEdits;
    edits := [];
    var ai, bi, ndeletes := 0, 0, 0;
    while ai != |a| || bi != |b|
      invariant Within(a, b, Cursor(ai, bi, ndeletes))
      invariant edits + ListEdits(tag, a, b, Cursor(ai, bi, ndeletes)) == ListEdits(tag, a, b, START)
      decreases |a| - ai + |b| - bi
    {
      WalkStep(tag, a, b, Cursor(ai, bi, ndeletes), edits);
      if ai < |a| && bi < |b| && TreeEq(a[ai], b[bi]) {
        ai, bi := ai + 1, bi + 1;
      } else if |b| - bi > |a| - ai {
        edits := edits + [Edit(Delete, tag, bi - ndeletes, EMPTY)];
        ndeletes, bi := ndeletes + 1, bi + 1;
      } else if |b| - bi < |a| - ai {
        edits := edits + [Edit(Insert, tag, ai, a[ai])];
        ai := ai + 1;
      } else {
        ListSizeOfMember(a, ai);
        ListSizeOfMember(b, bi);
        SizeUnfold(a[ai]);
        SizeUnfold(b[bi]);
        var d := GetDiff(a[ai], b[bi]);
        edits := edits + [Edit(Change, tag, bi, d)];
        ai, bi := ai + 1, bi + 1;
      }
    }
    WalkEnd(tag, a, b, Cursor(ai, bi, ndeletes), edits);
  }

  lemma {:induction false} WalkStep(tag: string, a: seq<Tree>, b: seq<Tree>, w: Cursor, edits: seq<Kid>)
    requires Within(a, b, w) && !Done(a, b, w)
    ensures edits + ListEdits(tag, a, b, w) == (edits + MoveEdits(tag, a, b, w)) + ListEdits(tag, a, b, Advance(a, b, w))
    ensures edits + MoveEdits(tag, a, b, w) ==
            match NextMove(a, b, w)
            case Keep => edits
            case Drop => edits + [Edit(Delete, tag, w.bi - w.nd, EMPTY)]
            case Add => edits + [Edit(Insert, tag, w.ai, a[w.ai])]
            case Alter => edits + [Edit(Change, tag, w.bi, Diff(a[w.ai], b[w.bi]))]
  {
    hide TreeEq, Size, Diff, ListSize;
  }

  lemma WalkEnd(tag: string, a: seq<Tree>, b: seq<Tree>, w: Cursor, edits: seq<Kid>)
    requires Within(a, b, w) && Done(a, b, w)
    ensures edits + ListEdits(tag, a, b, w) == edits
  {
  }

  lemma SizeUnfold(t: Tree)
    ensures Size(t) == 1 + SizeAll(t.kids)
  {
  }
}