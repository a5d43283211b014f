/** The main results about diffs: patching never throws, and it rebuilds the target exactly when no
    change was lost under an empty tag. */
module ConfigPatch {
  import opened ConfigTree
  import opened ConfigDiff
  import opened ConfigRoundTrip

  // ---------------------------------------------------------------- all lists of one phase

  ghost predicate Distinct(tags: seq<string>) {
    forall i, j :: 0 <= i < j < |tags| ==> tags[i] != tags[j]
  }

  ghost function Flatten(tags: seq<string>, group: string -> seq<Op>): seq<Op> {
    if tags == [] then [] else group(tags[0]) + Flatten(tags[1..], group)
  }

  /** `ops` are edits of one tag, and they run on the list of that tag. */
  ghost predicate RunsOn(p: Phase, list: seq<Tree>, tag: string, ops: seq<Op>, track: bool) {
    && (forall j :: 0 <= j < |ops| ==> ops[j].tag == tag)
    && ListRun(p, list, ops, track).Some?
  }

  lemma {:induction false} RunGroup(p: Phase, kids: seq<Kid>, tag: string, ops: seq<Op>, track: bool)
    requires RunsOn(p, ListOf(kids, tag), tag, ops, track)
    ensures var r := Run(p, kids, ops, track);
            && r.Some?
            && Some(ListOf(r.value, tag)) == ListRun(p, ListOf(kids, tag), ops, track)
            && forall t :: t != tag ==> ListOf(r.value, t) == ListOf(kids, t)
  {
    hide Step, ListStep, ListOf, ListRun, Run;
    forall t {
      RunOneTag(p, kids, ops, tag, track, t);
    }
  }

  /** A phase over the edits of several tags runs each list on its own edits. */
  lemma {:induction false} RunGroups(p: Phase, kids: seq<Kid>, tags: seq<string>, group: string -> seq<Op>, track: bool)
    requires Distinct(tags)
    requires forall t :: t in tags ==> RunsOn(p, ListOf(kids, t), t, group(t), track)
    ensures var r := Run(p, kids, Flatten(tags, group), track);
            && r.Some?
            && (forall t :: t in tags ==> Some(ListOf(r.value, t)) == ListRun(p, ListOf(kids, t), group(t), track))
            && (forall t :: t !in tags ==> ListOf(r.value, t) == ListOf(kids, t))
    decreases |tags|
  {
    hide Step, ListStep, ListOf, ListRun;
    if tags != [] {
      var tag, rest := tags[0], tags[1..];
      RunGroup(p, kids, tag, group(tag), track);
      var k := Run(p, kids, group(tag), track).value;
      assert tag !in rest;
      assert forall t :: t in rest ==> t in tags;
      RunGroups(p, k, rest, group, track);
      RunConcat(p, kids, group(tag), Flatten(rest, group), track);
    }
  }

  lemma {:induction false} AllOpsFlatten(p: Phase, a: Tree, c: Tree, tags: seq<string>)
    ensures AllOps(p, a, c, tags) == Flatten(tags, t => ListOps(p, t, a, c))
  {
    if tags != [] {
      AllOpsFlatten(p, a, c, tags[1..]);
    }
  }

  lemma {:induction false} MissingDistinct(tags: seq<string>, present: seq<string>)
    requires Distinct(tags)
    ensures Distinct(Missing(tags, present))
  {
    if tags != [] {
      MissingDistinct(tags[1..], present);
      assert tags[0] !in tags[1..];
      var r := Missing(tags[1..], present);
      forall j | 0 <= j < |r|
        ensures r[j] != tags[0]
      {
        assert r[j] in r;
      }
    }
  }

  /** The walk over the tags meets each tag of either node once. */
  lemma {:induction false} EntitiesOnce(a: seq<Kid>, c: seq<Kid>)
    ensures Distinct(Entities(a, c))
    ensures forall t :: t !in Entities(a, c) ==> ListOf(a, t) == [] && ListOf(c, t) == []
  {
    TagsOfSorted(a);
    TagsOfSorted(c);
    MissingDistinct(TagsOf(c), TagsOf(a));
    var x, y := TagsOf(a), Missing(TagsOf(c), TagsOf(a));
    DistinctConcat(x, y);
    assert forall t :: t !in Entities(a, c) ==> t !in x && t !in y;
  }

  lemma DistinctConcat(x: seq<string>, y: seq<string>)
    requires Distinct(x) && Distinct(y) && forall t :: t in y ==> t !in x
    ensures Distinct(x + y)
  {
    forall i, j | 0 <= i < |x| && 0 <= j < |y|
      ensures x[i] != y[j]
    {
      assert x[i] in x && y[j] in y;
    }
  }

  /** A phase of a whole diff, list by list. */
  lemma {:induction false} DiffPhase(p: Phase, a: Tree, c: Tree, kids: seq<Kid>, track: bool)
    requires forall t :: t in Entities(a.kids, c.kids) ==> ListRun(p, ListOf(kids, t), ListOps(p, t, a, c), track).Some?
    ensures DiffOps(Diff(a, c), p).Some?
    ensures var r := Run(p, kids, DiffOps(Diff(a, c), p).value, track);
            && r.Some?
            && (forall t :: t in Entities(a.kids, c.kids) ==>
                  Some(ListOf(r.value, t)) == ListRun(p, ListOf(kids, t), ListOps(p, t, a, c), track))
            && (forall t :: t !in Entities(a.kids, c.kids) ==> ListOf(r.value, t) == ListOf(kids, t))
  {
    hide Step, ListStep, ListOf, ListRun, Run, Diff, DiffOps;
    var tags, group := Entities(a.kids, c.kids), (t: string) => ListOps(p, t, a, c);
    EntitiesOnce(a.kids, c.kids);
    DiffOpsScheduled(p, a, c);
    AllOpsFlatten(p, a, c, tags);
    forall t | t in tags
      ensures RunsOn(p, ListOf(kids, t), t, group(t), track)
    {
      OpsForTag(p, t, ListOf(a.kids, t), ListOf(c.kids, t), START);
    }
    RunGroups(p, kids, tags, group, track);
  }

  /** The lists of `c` after phase `p` of the diff that takes `c` to `a`. */
  ghost predicate Reached(p: Phase, a: Tree, c: Tree, kids: seq<Kid>, track: bool) {
    forall t :: ListOf(kids, t) == After(p, t, ListOf(a.kids, t), ListOf(c.kids, t), START, track)
  }

  /** The changes and insertions of a diff succeed whenever the changed children can be patched. */
  lemma {:induction false} ChangesAndInserts(a: Tree, c: Tree, track: bool) returns (k1: seq<Kid>, k2: seq<Kid>)
    requires forall t :: Patchable(t, ListOf(a.kids, t), ListOf(c.kids, t), track)
    ensures DiffOps(Diff(a, c), Change).Some? && DiffOps(Diff(a, c), Insert).Some?
    ensures Run(Change, c.kids, DiffOps(Diff(a, c), Change).value, track) == Some(k1)
    ensures Run(Insert, k1, DiffOps(Diff(a, c), Insert).value, track) == Some(k2)
    ensures Reached(Insert, a, c, k2, track)
  {
    hide Step, ListStep, ListOf, ListRun, Run, Diff, DiffOps, Patchable;
    forall t
      ensures ListRun(Change, ListOf(c.kids, t), ListOps(Change, t, a, c), track)
              == Some(After(Change, t, ListOf(a.kids, t), ListOf(c.kids, t), START, track))
      ensures ListRun(Insert, After(Change, t, ListOf(a.kids, t), ListOf(c.kids, t), START, track), ListOps(Insert, t, a, c), track)
              == Some(After(Insert, t, ListOf(a.kids, t), ListOf(c.kids, t), START, track))
    {
      var la, lc := ListOf(a.kids, t), ListOf(c.kids, t);
      ListChanges(t, la, lc, START, [], track);
      ListInserts(t, la, lc, START, [], track);
      assert [] + lc[0..] == lc;
      assert [] + After(Change, t, la, lc, START, track) == After(Change, t, la, lc, START, track);
      assert [] + After(Insert, t, la, lc, START, track) == After(Insert, t, la, lc, START, track);
    }
    EntitiesOnce(a.kids, c.kids);
    DiffPhase(Change, a, c, c.kids, track);
    k1 := Run(Change, c.kids, DiffOps(Diff(a, c), Change).value, track).value;
    assert Reached(Change, a, c, k1, track);
    DiffPhase(Insert, a, c, k1, track);
    k2 := Run(Insert, k1, DiffOps(Diff(a, c), Insert).value, track).value;
  }

  /** Patching with a diff taken against its own base never throws, at any depth, and the lists it
      leaves are known. */
  lemma {:induction false} PatchLists(a: Tree, c: Tree)
    ensures Apply(c, Diff(a, c), false).Some?
    ensures Apply(c, Diff(a, c), false).value.values == ApplyAttrs(c.values, Diff(a, c))
    ensures Reached(Delete, a, c, Apply(c, Diff(a, c), false).value.kids, false)
    decreases Size(a) + Size(c)
  {
    hide Step, ListStep, ListOf, ListRun, Run, Diff, DiffOps;
    forall t
      ensures Patchable(t, ListOf(a.kids, t), ListOf(c.kids, t), false)
    {
      SizeOfListed(a.kids, t);
      SizeOfListed(c.kids, t);
      forall i, j | 0 <= i < |ListOf(a.kids, t)| && 0 <= j < |ListOf(c.kids, t)| {
        PatchLists(ListOf(a.kids, t)[i], ListOf(c.kids, t)[j]);
      }
    }
    var k1, k2 := ChangesAndInserts(a, c, false);
    forall t
      ensures ListRun(Delete, ListOf(k2, t), ListOps(Delete, t, a, c), false)
              == Some(After(Delete, t, ListOf(a.kids, t), ListOf(c.kids, t), START, false))
    {
      var la, lc := ListOf(a.kids, t), ListOf(c.kids, t);
      ListDeletes(t, la, lc, START, [], false);
      assert [] + After(Insert, t, la, lc, START, false) == After(Insert, t, la, lc, START, false);
      assert [] + After(Delete, t, la, lc, START, false) == After(Delete, t, la, lc, START, false);
    }
    EntitiesOnce(a.kids, c.kids);
    DiffPhase(Delete, a, c, k2, false);
  }

  // ---------------------------------------------------------------- the round trip

  /** What a caller can check beforehand: wherever the walk would change a child in place, the tag is
      not empty, or the two children agree already; and so on inside the changed children. */
  ghost predicate NoLostChange(a: Tree, c: Tree)
    decreases SizeAll(a.kids) + SizeAll(c.kids), 1
  {
    forall tag :: TagKept(a, c, tag)
  }

  ghost predicate TagKept(a: Tree, c: Tree, tag: string)
    decreases SizeAll(a.kids) + SizeAll(c.kids), 0
  {
    SizeOfListed(a.kids, tag);
    SizeOfListed(c.kids, tag);
    var la, lc := ListOf(a.kids, tag), ListOf(c.kids, tag);
    forall i, j | 0 <= i < |la| && 0 <= j < |lc| && Changed(la, lc, START, i, j) ::
      if tag == "" then Similar(lc[j], la[i]) else NoLostChange(la[i], lc[j])
  }

  /** The walk from `w` turns `b[j]` into `a[i]` by a change. */
  ghost predicate Changed(a: seq<Tree>, b: seq<Tree>, w: Cursor, i: nat, j: nat)
    requires Within(a, b, w)
    decreases Left(a, b, w)
  {
    && !Done(a, b, w)
    && ((NextMove(a, b, w) == Alter && w.ai == i && w.bi == j) || Changed(a, b, Advance(a, b, w), i, j))
  }

  lemma {:induction false} TreeEqSymmetric(a: Tree, b: Tree)
    requires TreeEq(a, b)
    ensures TreeEq(b, a)
    decreases a
  {
    forall i | 0 <= i < |a.kids|
      ensures TreeEq(b.kids[i].cfg, a.kids[i].cfg)
    {
      TreeEqSymmetric(a.kids[i].cfg, b.kids[i].cfg);
    }
  }

  /** Every child the walk changes from `w` on agrees with its target after its own patch. */
  ghost predicate Rebuilt(tag: string, a: seq<Tree>, b: seq<Tree>, w: Cursor)
    requires Within(a, b, w)
    decreases Left(a, b, w)
  {
    Done(a, b, w) ||
    ((NextMove(a, b, w) == Alter ==> Similar(Patch(tag, a[w.ai], b[w.bi], false), a[w.ai])) &&
     Rebuilt(tag, a, b, Advance(a, b, w)))
  }

  lemma {:induction false} RebuiltPairs(tag: string, a: seq<Tree>, b: seq<Tree>, w: Cursor)
    requires Within(a, b, w)
    ensures Rebuilt(tag, a, b, w) <==>
            forall i, j | 0 <= i < |a| && 0 <= j < |b| && Changed(a, b, w, i, j) :: Similar(Patch(tag, a[i], b[j], false), a[i])
    decreases Left(a, b, w)
  {
    hide Similar, Patch, TreeEq;
    if !Done(a, b, w) {
      RebuiltPairs(tag, a, b, Advance(a, b, w));
    }
  }

  lemma {:induction false} MoveRebuilt(tag: string, a: seq<Tree>, b: seq<Tree>, w: Cursor)
    requires Within(a, b, w) && !Done(a, b, w) && NextMove(a, b, w) != Drop
    ensures var keeps := MoveKeeps(Delete, tag, a, b, w, false);
            |keeps| == 1 && (Similar(keeps[0], a[w.ai]) <==>
              (NextMove(a, b, w) == Alter ==> Similar(Patch(tag, a[w.ai], b[w.bi], false), a[w.ai])))
  {
    hide Similar, Patch, TreeEq;
    match NextMove(a, b, w)
    case Keep =>
      TreeEqSymmetric(a[w.ai], b[w.bi]);
      EqImpliesSimilar(b[w.bi], a[w.ai]);
    case Add => SimilarReflexive(a[w.ai]);
    case Alter =>
  }

  /** The final list agrees with the target exactly when every changed child does. */
  lemma {:induction false} ListRebuilt(tag: string, a: seq<Tree>, b: seq<Tree>, w: Cursor)
    requires Within(a, b, w)
    ensures ListsSimilar(After(Delete, tag, a, b, w, false), a[w.ai..]) <==> Rebuilt(tag, a, b, w)
    decreases Left(a, b, w)
  {
    hide Similar, Patch, TreeEq, Apply, Diff;
    if !Done(a, b, w) {
      var keeps, rest := MoveKeeps(Delete, tag, a, b, w, false), After(Delete, tag, a, b, Advance(a, b, w), false);
      ListRebuilt(tag, a, b, Advance(a, b, w));
      if NextMove(a, b, w) == Drop {
        assert keeps + rest == rest;
      } else {
        MoveRebuilt(tag, a, b, w);
        assert keeps == [keeps[0]];
        assert a[w.ai..] == [a[w.ai]] + a[w.ai + 1..];
        ListsSimilarCons(keeps[0], rest, a[w.ai], a[w.ai + 1..]);
      }
    }
  }

  lemma {:induction false} ListsSimilarCons(x: Tree, xs: seq<Tree>, y: Tree, ys: seq<Tree>)
    ensures ListsSimilar([x] + xs, [y] + ys) <==> Similar(x, y) && ListsSimilar(xs, ys)
  {
    hide Similar;
    if ListsSimilar([x] + xs, [y] + ys) {
      assert ([x] + xs)[0] == x && ([y] + ys)[0] == y;
      forall i | 0 <= i < |xs|
        ensures Similar(xs[i], ys[i])
      {
        assert ([x] + xs)[i + 1] == xs[i] && ([y] + ys)[i + 1] == ys[i];
      }
    }
  }

  /** The round trip for one pair of nodes. */
  ghost predicate Faithful(a: Tree, c: Tree) {
    var r := Apply(c, Diff(a, c), false);
    r.Some? && (Similar(r.value, a) <==> NoLostChange(a, c))
  }

  /** The lists of one tag agree after the patch exactly when none of their changes was lost. */
  lemma {:induction false} TagRebuilt(a: Tree, c: Tree, tag: string)
    requires forall i, j | 0 <= i < |ListOf(a.kids, tag)| && 0 <= j < |ListOf(c.kids, tag)| ::
               Faithful(ListOf(a.kids, tag)[i], ListOf(c.kids, tag)[j])
    ensures ListsSimilar(After(Delete, tag, ListOf(a.kids, tag), ListOf(c.kids, tag), START, false), ListOf(a.kids, tag))
            <==> TagKept(a, c, tag)
  {
    hide Apply, Diff, Similar, NoLostChange, Changed, ListOf, After;
    var la, lc := ListOf(a.kids, tag), ListOf(c.kids, tag);
    ListRebuilt(tag, la, lc, START);
    RebuiltPairs(tag, la, lc, START);
    assert la[0..] == la;
    forall i, j | 0 <= i < |la| && 0 <= j < |lc|
      ensures Similar(Patch(tag, la[i], lc[j], false), la[i]) <==>
              if tag == "" then Similar(lc[j], la[i]) else NoLostChange(la[i], lc[j])
    {
      assert Faithful(la[i], lc[j]);
    }
  }

  lemma {:induction false} KeptEverywhere(a: Tree, c: Tree)
    requires forall tag :: TagKept(a, c, tag)
    ensures NoLostChange(a, c)
  {
  }

  lemma {:induction false} EveryPairFaithful(a: Tree, c: Tree)
    ensures Faithful(a, c)
    decreases Size(a) + Size(c)
  {
    hide Apply, Diff, After;
    PatchLists(a, c);
    var r := Apply(c, Diff(a, c), false).value;
    AttrsPatched(a, c, c.values);
    AttrsRoundTrip(a.values, c.values);
    forall tag
      ensures ListsSimilar(ListOf(r.kids, tag), ListOf(a.kids, tag)) <==> TagKept(a, c, tag)
    {
      SizeOfListed(a.kids, tag);
      SizeOfListed(c.kids, tag);
      forall i, j | 0 <= i < |ListOf(a.kids, tag)| && 0 <= j < |ListOf(c.kids, tag)| {
        EveryPairFaithful(ListOf(a.kids, tag)[i], ListOf(c.kids, tag)[j]);
      }
      TagRebuilt(a, c, tag);
    }
    assert AttrsSimilar(r.values, a.values);
    if Similar(r, a) {
      forall tag
        ensures TagKept(a, c, tag)
      {
        assert ListsSimilar(ListOf(r.kids, tag), ListOf(a.kids, tag));
      }
      KeptEverywhere(a, c);
    } else {
      var tag :| !ListsSimilar(ListOf(r.kids, tag), ListOf(a.kids, tag));
      assert !TagKept(a, c, tag);
    }
  }

  /** `c.apply_diff(a.get_diff(c))` never throws, and it makes `c` like `a` if and only if no change
      fell under an empty tag. */
  lemma {:induction false} RoundTrip(a: Tree, c: Tree)
    ensures var r := Apply(c, Diff(a, c), false);
            r.Some? && (Similar(r.value, a) <==> NoLostChange(a, c))
  {
    EveryPairFaithful(a, c);
  }

  /** No child of the tree, at any depth, has an empty tag. */
  ghost predicate Named(t: Tree)
    decreases t
  {
    forall i :: 0 <= i < |t.kids| ==> t.kids[i].tag != "" && Named(t.kids[i].cfg)
  }

  lemma {:induction false} NamedLists(kids: seq<Kid>, tag: string)
    requires forall i :: 0 <= i < |kids| ==> kids[i].tag != "" && Named(kids[i].cfg)
    ensures tag == "" ==> ListOf(kids, tag) == []
    ensures forall i :: 0 <= i < |ListOf(kids, tag)| ==> Named(ListOf(kids, tag)[i])
  {
    if kids != [] {
      NamedLists(kids[..|kids| - 1], tag);
    }
  }

  /** Without empty tags on one side nothing is lost, so the patched tree is like the target. */
  lemma {:induction false} NamedRoundTrip(a: Tree, c: Tree)
    requires Named(a) || Named(c)
    ensures NoLostChange(a, c)
    ensures Apply(c, Diff(a, c), false).Some? && Similar(Apply(c, Diff(a, c), false).value, a)
    decreases Size(a) + Size(c)
  {
    hide Apply, Diff, Similar;
    forall tag
      ensures TagKept(a, c, tag)
    {
      var la, lc := ListOf(a.kids, tag), ListOf(c.kids, tag);
      SizeOfListed(a.kids, tag);
      SizeOfListed(c.kids, tag);
      if Named(a) { NamedLists(a.kids, tag); } else { NamedLists(c.kids, tag); }
      forall i, j | 0 <= i < |la| && 0 <= j < |lc| && tag != "" {
        NamedRoundTrip(la[i], lc[j]);
      }
    }
    RoundTrip(a, c);
  }

  /** A change under an empty tag is lost: for every pair of children that do not agree, patching
      one towards the other through an empty tag leaves them different. */
  lemma {:induction false} EmptyTagLosesChange(x: Tree, y: Tree)
    requires !Similar(y, x)
    ensures var a, c := Node(map[], [Kid("", x)]), Node(map[], [Kid("", y)]);
            Apply(c, Diff(a, c), false).Some? && !Similar(Apply(c, Diff(a, c), false).value, a)
  {
    hide Apply, Diff, Similar;
    var a, c := Node(map[], [Kid("", x)]), Node(map[], [Kid("", y)]);
    RoundTrip(a, c);
    ListOfOne(Kid("", x), "");
    ListOfOne(Kid("", y), "");
    if TreeEq(x, y) {
      TreeEqSymmetric(x, y);
      EqImpliesSimilar(y, x);
    }
    assert Changed([x], [y], START, 0, 0);
    assert ListOf(c.kids, "")[0] == y && ListOf(a.kids, "")[0] == x;
    assert !TagKept(a, c, "");
  }

  /** Such children exist. */
  lemma {:induction false} DifferentChildren()
    ensures !Similar(Node(map["k" := Num(1)], []), Node(map["k" := Num(2)], []))
  {
    assert Get(map["k" := Num(1)], "k") != Get(map["k" := Num(2)], "k");
  }
}
