/** Tracked patching: `apply_diff(d, true)` followed by `clear_diff_track(d)` against `apply_diff(d)`.

    The two agree unless a named tag has a changed child next to an inserted or deleted one and the change
    edits children of that child or stands past the end of the new list: `clear_diff_track` deletes first
    and then uses indices from before the edits. Module ConfigTrackExact proves that the condition is
    needed. */
module ConfigTrack {
  import opened ConfigTree
  import opened ConfigDiff
  import opened ConfigRoundTrip
  import opened ConfigPatch

  // ---------------------------------------------------------------- the global order under a diff

  /** Changes, marks and cleaning leave the tag sequence alone. */
  lemma {:induction false} RunKeepsShape(p: Phase, kids: seq<Kid>, ops: seq<Op>, track: bool)
    requires p == Change || p == Clean || (p == Delete && track)
    requires Run(p, kids, ops, track).Some?
    ensures Shape(Run(p, kids, ops, track).value) == Shape(kids)
    decreases |ops|
  {
    hide Apply, Clear, ListOf, Find;
    if ops != [] {
      RunKeepsShape(p, Step(p, kids, ops[0], track).value, ops[1..], track);
    }
  }

  /** Insertions and deletions change the tag sequence the same way whatever the children hold. */
  lemma {:induction false} RunByShape(p: Phase, x: seq<Kid>, y: seq<Kid>, ops: seq<Op>, trackx: bool, tracky: bool)
    requires p == Insert || (p == Delete && !trackx && !tracky)
    requires Shape(x) == Shape(y)
    requires Run(p, x, ops, trackx).Some? && Run(p, y, ops, tracky).Some?
    ensures Shape(Run(p, x, ops, trackx).value) == Shape(Run(p, y, ops, tracky).value)
    decreases |ops|
  {
    hide ListOf, Find;
    if ops != [] {
      var x', y' := Step(p, x, ops[0], trackx).value, Step(p, y, ops[0], tracky).value;
      FindByShape(x, y, ops[0].tag, ops[0].index);
      ShapeOfSlices(x, y, Find(x, ops[0].tag, ops[0].index));
      RunByShape(p, x', y', ops[1..], trackx, tracky);
    }
  }

  lemma {:induction false} ShapeOfSlices(x: seq<Kid>, y: seq<Kid>, q: nat)
    requires Shape(x) == Shape(y) && q <= |x|
    ensures |x| == |y|
    ensures forall k1: Kid, k2: Kid | k1.tag == k2.tag :: Shape(x[..q] + [k1] + x[q..]) == Shape(y[..q] + [k2] + y[q..])
    ensures q < |x| ==> Shape(x[..q] + x[q + 1..]) == Shape(y[..q] + y[q + 1..])
  {
    assert |x| == |Shape(x)| == |y|;
    assert forall i :: 0 <= i < |x| ==> x[i].tag == Shape(x)[i] == y[i].tag;
  }

  // ---------------------------------------------------------------- marks on one list

  function UnmarkedList(list: seq<Tree>): seq<Tree> {
    seq(|list|, i requires 0 <= i < |list| => Unmarked(list[i]))
  }

  lemma {:induction false} UnmarkMarked(c: Tree, mark: string)
    ensures Unmarked(Marked(c, mark)) == Unmarked(c)
  {
    assert c.values[TRACK := Text(mark)] - {TRACK} == c.values - {TRACK};
  }

  lemma {:induction false} UnmarkedKidsLists(kids: seq<Kid>, t: string)
    ensures ListOf(UnmarkedKids(kids), t) == UnmarkedList(ListOf(kids, t))
  {
    if kids != [] {
      var n := |kids| - 1;
      assert UnmarkedKids(kids)[..n] == UnmarkedKids(kids[..n]);
      UnmarkedKidsLists(kids[..n], t);
    }
  }

  /** The tracked deletions only mark: they never throw, and without marks nothing has changed. */
  lemma {:induction false} ListMarks(tag: string, a: seq<Tree>, b: seq<Tree>, w: Cursor, list: seq<Tree>)
    requires Within(a, b, w) && |list| >= |b|
    ensures var r := ListRun(Delete, list, OpsFor(Delete, tag, a, b, w), true);
            r.Some? && UnmarkedList(r.value) == UnmarkedList(list)
    decreases Left(a, b, w)
  {
    hide TreeEq, Apply, Diff;
    if !Done(a, b, w) {
      var w' := Advance(a, b, w);
      if NextMove(a, b, w) == Drop {
        var k := w.bi - w.nd;
        var l := list[k := Marked(list[k], "deleted")];
        UnmarkMarked(list[k], "deleted");
        assert UnmarkedList(l) == UnmarkedList(list);
        ListMarks(tag, a, b, w', l);
        ListRunCons(Delete, list, Op(tag, k, EMPTY), OpsFor(Delete, tag, a, b, w'), true);
      } else {
        ListMarks(tag, a, b, w', list);
        assert OpsFor(Delete, tag, a, b, w) == OpsFor(Delete, tag, a, b, w');
      }
    }
  }

  /** Deleting and removing marks commute. */
  lemma {:induction false} UnmarkDeletes(list: seq<Tree>, ops: seq<Op>)
    ensures ListRun(Delete, list, ops, false).Some?
    ensures ListRun(Delete, UnmarkedList(list), ops, false) == Some(UnmarkedList(ListRun(Delete, list, ops, false).value))
    decreases |ops|
  {
    if ops != [] {
      var l := ListStep(Delete, list, ops[0], false).value;
      assert UnmarkedList(l) == ListStep(Delete, UnmarkedList(list), ops[0], false).value;
      UnmarkDeletes(l, ops[1..]);
    }
  }

  ghost predicate Plain(list: seq<Tree>) {
    forall i :: 0 <= i < |list| ==> TRACK !in list[i].values
  }

  lemma {:induction false} UnmarkPlain(list: seq<Tree>)
    requires Plain(list)
    ensures UnmarkedList(list) == list
  {
    forall i | 0 <= i < |list|
      ensures Unmarked(list[i]) == list[i]
    {
      assert list[i].values - {TRACK} == list[i].values;
    }
  }

  ghost predicate NoChange(a: seq<Tree>, b: seq<Tree>, w: Cursor)
    requires Within(a, b, w)
  {
    forall i, j :: !Changed(a, b, w, i, j)
  }

  lemma {:induction false} NoChangeNoOps(p: Phase, tag: string, a: seq<Tree>, b: seq<Tree>, w: Cursor)
    requires Within(a, b, w) && NoChange(a, b, w) && (p == Change || p == Clean)
    ensures OpsFor(p, tag, a, b, w) == []
    decreases Left(a, b, w)
  {
    hide Diff, TreeEq;
    if !Done(a, b, w) {
      var w' := Advance(a, b, w);
      assert !Changed(a, b, w, w.ai, w.bi);
      assert forall i, j :: Changed(a, b, w', i, j) ==> Changed(a, b, w, i, j);
      NoChangeNoOps(p, tag, a, b, w');
    }
  }

  /** The patch of `y` towards `x` edits children of `y` under this tag: it inserts or deletes some, or
      changes one in place (a change under an empty tag is skipped by both passes). */
  ghost predicate TagEdited(x: Tree, y: Tree, u: string) {
    var lx, ly := ListOf(x.kids, u), ListOf(y.kids, u);
    |lx| != |ly| || (u != "" && !NoChange(lx, ly, START))
  }

  ghost predicate EditsChildren(x: Tree, y: Tree) {
    exists u :: TagEdited(x, y, u)
  }

  lemma {:induction false} IdleOps(p: Phase, x: Tree, y: Tree, tags: seq<string>)
    requires !EditsChildren(x, y)
    ensures forall k :: 0 <= k < |AllOps(p, x, y, tags)| ==> AllOps(p, x, y, tags)[k].tag == ""
    ensures p == Insert || p == Delete ==> AllOps(p, x, y, tags) == []
  {
    hide Diff, ListOf, NoChange;
    if tags != [] {
      var u := tags[0];
      IdleOps(p, x, y, tags[1..]);
      assert !TagEdited(x, y, u);
      var lx, ly := ListOf(x.kids, u), ListOf(y.kids, u);
      OpsForTag(p, u, lx, ly, START);
      NoInserts(u, lx, ly, START, false);
      NoDeletes(u, lx, ly, START, false);
      if (p == Change || p == Clean) && u != "" {
        NoChangeNoOps(p, u, lx, ly, START);
      }
    }
  }

  lemma {:induction false} IdleRun(p: Phase, kids: seq<Kid>, ops: seq<Op>, track: bool)
    requires (p == Change || p == Clean) && forall k :: 0 <= k < |ops| ==> ops[k].tag == ""
    ensures Run(p, kids, ops, track) == Some(kids)
    decreases |ops|
  {
    if ops != [] {
      IdleRun(p, kids, ops[1..], track);
    }
  }

  /** A diff that edits no children patches attributes only, and cleaning with it takes off direct marks,
      whatever node it meets. */
  lemma {:induction false} AttributesOnly(x: Tree, y: Tree, t: Tree)
    requires !EditsChildren(x, y)
    ensures forall track: bool :: Apply(y, Diff(x, y), track) ==
              Some(Node(ApplyAttrs(if track then y.values[TRACK := Text("modified")] else y.values, Diff(x, y)), y.kids))
    ensures Clear(t, Diff(x, y)) == Some(Node(t.values - {TRACK}, UnmarkedKids(t.kids)))
  {
    hide Diff, DiffOps, ListOf, EditsChildren, ApplyAttrs, UnmarkedKids, AllOps;
    var tags := Entities(x.kids, y.kids);
    forall p: Phase
      ensures DiffOps(Diff(x, y), p) == Some(AllOps(p, x, y, tags))
      ensures forall k :: 0 <= k < |AllOps(p, x, y, tags)| ==> AllOps(p, x, y, tags)[k].tag == ""
      ensures p == Insert || p == Delete ==> AllOps(p, x, y, tags) == []
    {
      DiffOpsScheduled(p, x, y);
      IdleOps(p, x, y, tags);
    }
    forall track {
      IdleRun(Change, y.kids, AllOps(Change, x, y, tags), track);
    }
    IdleRun(Clean, t.kids, AllOps(Clean, x, y, tags), false);
  }

  /** Every change of the walk patches attributes only (or, under an empty tag, nothing). */
  ghost predicate Light(tag: string, a: seq<Tree>, b: seq<Tree>, w: Cursor)
    requires Within(a, b, w)
  {
    tag != "" ==> forall i, j :: 0 <= i < |a| && 0 <= j < |b| && Changed(a, b, w, i, j) ==> !EditsChildren(a[i], b[j])
  }

  lemma {:induction false} LightPatch(tag: string, x: Tree, y: Tree)
    requires tag != "" ==> !EditsChildren(x, y)
    requires TRACK !in x.values && TRACK !in y.values
    ensures Unmarked(Patch(tag, x, y, true)) == Patch(tag, x, y, false)
    ensures Patch(tag, x, y, false).kids == y.kids
  {
    hide Apply, Diff, EditsChildren, ApplyAttrs;
    if tag == "" {
      UnmarkPlain([y]);
      assert UnmarkedList([y])[0] == Unmarked(y);
    } else {
      AttributesOnly(x, y, y);
      PatchPlain(x, y);
    }
  }

  /** Then the marks put on the insertions and changes are all there is to remove. */
  lemma {:induction false} UnmarkInserted(tag: string, a: seq<Tree>, b: seq<Tree>, w: Cursor)
    requires Within(a, b, w) && Light(tag, a, b, w)
    requires Plain(a) && Plain(b)
    ensures UnmarkedList(After(Insert, tag, a, b, w, true)) == After(Insert, tag, a, b, w, false)
    decreases Left(a, b, w)
  {
    hide Apply, Diff, TreeEq, EditsChildren;
    if !Done(a, b, w) {
      var w' := Advance(a, b, w);
      assert NextMove(a, b, w) == Alter ==> Changed(a, b, w, w.ai, w.bi);
      assert forall i, j :: Changed(a, b, w', i, j) ==> Changed(a, b, w, i, j);
      UnmarkInserted(tag, a, b, w');
      UnmarkMove(tag, a, b, w);
      UnmarkConcat(MoveKeeps(Insert, tag, a, b, w, true), After(Insert, tag, a, b, w', true));
    }
  }

  lemma {:induction false} UnmarkMove(tag: string, a: seq<Tree>, b: seq<Tree>, w: Cursor)
    requires Within(a, b, w) && !Done(a, b, w)
    requires NextMove(a, b, w) == Alter && tag != "" ==> !EditsChildren(a[w.ai], b[w.bi])
    requires Plain(a) && Plain(b)
    ensures UnmarkedList(MoveKeeps(Insert, tag, a, b, w, true)) == MoveKeeps(Insert, tag, a, b, w, false)
  {
    hide Apply, Diff, TreeEq, EditsChildren, Patch;
    match NextMove(a, b, w)
    case Add =>
      UnmarkMarked(a[w.ai], "new");
      UnmarkPlain([a[w.ai]]);
      assert UnmarkedList([a[w.ai]])[0] == Unmarked(a[w.ai]);
    case Alter => LightPatch(tag, a[w.ai], b[w.bi]);
    case _ => UnmarkPlain([b[w.bi]]);
  }

  lemma {:induction false} UnmarkConcat(x: seq<Tree>, y: seq<Tree>)
    ensures UnmarkedList(x + y) == UnmarkedList(x) + UnmarkedList(y)
  {
  }

  /** Cleaning the tracked patches of a list undoes the tracking of each. */
  lemma {:induction false} ListCleans(tag: string, a: seq<Tree>, b: seq<Tree>, w: Cursor, pre: seq<Tree>)
    requires Within(a, b, w) && |pre| == w.bi && |a| - w.ai == |b| - w.bi
    requires tag != "" ==> forall i, j :: 0 <= i < |a| && 0 <= j < |b| && Changed(a, b, w, i, j) ==>
               Clear(Patch(tag, a[i], b[j], true), Diff(a[i], b[j])) == Some(Patch(tag, a[i], b[j], false))
    ensures ListRun(Clean, pre + After(Change, tag, a, b, w, true), OpsFor(Clean, tag, a, b, w), false)
            == Some(pre + After(Change, tag, a, b, w, false))
    decreases Left(a, b, w)
  {
    hide Apply, Clear, Diff, TreeEq;
    if !Done(a, b, w) {
      var w' := Advance(a, b, w);
      assert NextMove(a, b, w) == Keep || NextMove(a, b, w) == Alter;
      var y, z := MoveKeeps(Change, tag, a, b, w, true)[0], MoveKeeps(Change, tag, a, b, w, false)[0];
      var rest, ops := After(Change, tag, a, b, w', true), OpsFor(Clean, tag, a, b, w');
      Shift(pre, y, rest);
      ListCleans(tag, a, b, w', pre + [z]);
      Shift(pre, z, After(Change, tag, a, b, w', false));
      if NextMove(a, b, w) == Alter {
        assert Changed(a, b, w, w.ai, w.bi);
        var op := Op(tag, w.bi, Diff(a[w.ai], b[w.bi]));
        ListRunCons(Clean, pre + ([y] + rest), op, ops, false);
        assert ListStep(Clean, pre + ([y] + rest), op, false) == Some((pre + [z]) + rest) by {
          assert (pre + ([y] + rest))[|pre|] == y;
          assert tag == "" ==> y == z && pre + ([y] + rest) == (pre + [y]) + rest;
        }
      } else {
        assert OpsFor(Clean, tag, a, b, w) == ops;
      }
    }
  }

  lemma {:induction false} FinalLength(tag: string, a: seq<Tree>, b: seq<Tree>, w: Cursor)
    requires Within(a, b, w)
    ensures |After(Delete, tag, a, b, w, false)| == |a| - w.ai
    ensures |After(Insert, tag, a, b, w, true)| == |After(Insert, tag, a, b, w, false)|
    decreases Left(a, b, w)
  {
    hide Apply, Diff, TreeEq;
    if !Done(a, b, w) {
      FinalLength(tag, a, b, Advance(a, b, w));
    }
  }

  lemma {:induction false} InsertsKeepBase(tag: string, a: seq<Tree>, b: seq<Tree>, w: Cursor, track: bool)
    requires Within(a, b, w)
    ensures |After(Insert, tag, a, b, w, track)| >= |b| - w.bi
    decreases Left(a, b, w)
  {
    hide Apply, Diff, TreeEq;
    if !Done(a, b, w) {
      InsertsKeepBase(tag, a, b, Advance(a, b, w), track);
    }
  }

  // ---------------------------------------------------------------- the tracked patch

  /** What the stages of `apply_diff` leave: after the changes, the insertions and the deletions. */
  ghost predicate Stages(a: Tree, c: Tree, track: bool, k1: seq<Kid>, k2: seq<Kid>, k3: seq<Kid>) {
    var d := Diff(a, c);
    && DiffOps(d, Change).Some? && DiffOps(d, Insert).Some? && DiffOps(d, Delete).Some?
    && Run(Change, c.kids, DiffOps(d, Change).value, track) == Some(k1)
    && Run(Insert, k1, DiffOps(d, Insert).value, track) == Some(k2)
    && Run(Delete, k2, DiffOps(d, Delete).value, track) == Some(k3)
  }

  lemma {:induction false} StagesApply(a: Tree, c: Tree, track: bool, k1: seq<Kid>, k2: seq<Kid>, k3: seq<Kid>)
    requires Stages(a, c, track, k1, k2, k3)
    ensures Apply(c, Diff(a, c), track) ==
            Some(Node(ApplyAttrs(if track then c.values[TRACK := Text("modified")] else c.values, Diff(a, c)), k3))
  {
    hide Run, DiffOps, Diff, ApplyAttrs;
  }

  lemma {:induction false} UntrackedStages(a: Tree, c: Tree) returns (k1: seq<Kid>, k2: seq<Kid>, k3: seq<Kid>)
    ensures Stages(a, c, false, k1, k2, k3)
    ensures Reached(Insert, a, c, k2, false) && Reached(Delete, a, c, k3, false)
  {
    hide Run, DiffOps, Diff, ApplyAttrs, Reached, After;
    forall t
      ensures Patchable(t, ListOf(a.kids, t), ListOf(c.kids, t), false)
    {
      forall i, j | 0 <= i < |ListOf(a.kids, t)| && 0 <= j < |ListOf(c.kids, t)| {
        PatchLists(ListOf(a.kids, t)[i], ListOf(c.kids, t)[j]);
      }
    }
    k1, k2 := ChangesAndInserts(a, c, false);
    PatchLists(a, c);
    k3 := Apply(c, Diff(a, c), false).value.kids;
  }

  /** Tracked patching with a diff taken against its own base never throws, at any depth. */
  lemma {:induction false} TrackedStages(a: Tree, c: Tree) returns (k1: seq<Kid>, k2: seq<Kid>, k3: seq<Kid>)
    ensures Stages(a, c, true, k1, k2, k3)
    ensures Reached(Insert, a, c, k2, true)
    ensures forall t :: ListRun(Delete, ListOf(k2, t), ListOps(Delete, t, a, c), true) == Some(ListOf(k3, t))
    decreases Size(a) + Size(c)
  {
    hide Step, ListStep, ListOf, ListRun, Run, Diff, DiffOps, UnmarkedList;
    forall t
      ensures Patchable(t, ListOf(a.kids, t), ListOf(c.kids, t), true)
    {
      SizeOfListed(a.kids, t);
      SizeOfListed(c.kids, t);
      forall i, j | 0 <= i < |ListOf(a.kids, t)| && 0 <= j < |ListOf(c.kids, t)|
        ensures Apply(ListOf(c.kids, t)[j], Diff(ListOf(a.kids, t)[i], ListOf(c.kids, t)[j]), true).Some?
      {
        var x, y, z := TrackedStages(ListOf(a.kids, t)[i], ListOf(c.kids, t)[j]);
        StagesApply(ListOf(a.kids, t)[i], ListOf(c.kids, t)[j], true, x, y, z);
      }
    }
    k1, k2 := ChangesAndInserts(a, c, true);
    forall t
      ensures ListRun(Delete, ListOf(k2, t), ListOps(Delete, t, a, c), true).Some?
    {
      var la, lc := ListOf(a.kids, t), ListOf(c.kids, t);
      InsertsKeepBase(t, la, lc, START, true);
      ListMarks(t, la, lc, START, ListOf(k2, t));
    }
    DiffPhase(Delete, a, c, k2, true);
    k3 := Run(Delete, k2, DiffOps(Diff(a, c), Delete).value, true).value;
    EntitiesOnce(a.kids, c.kids);
    forall t
      ensures ListRun(Delete, ListOf(k2, t), ListOps(Delete, t, a, c), true) == Some(ListOf(k3, t))
    {
      if t !in Entities(a.kids, c.kids) {
        NothingToRun(Delete, t, a, c, ListOf(k2, t), true);
      }
    }
  }

  lemma {:induction false} NothingToRun(p: Phase, tag: string, a: Tree, c: Tree, list: seq<Tree>, track: bool)
    requires ListOf(a.kids, tag) == [] && ListOf(c.kids, tag) == []
    ensures ListRun(p, list, ListOps(p, tag, a, c), track) == Some(list)
  {
  }

  /** No node of the tree carries the tracking attribute. */
  ghost predicate NoMarks(t: Tree)
    decreases t
  {
    TRACK !in t.values && forall i :: 0 <= i < |t.kids| ==> NoMarks(t.kids[i].cfg)
  }

  /** What a caller can check beforehand: where a named tag has a changed child, nothing is inserted or
      deleted, or the change edits no children and its index still exists in the new list; and so on
      inside the changed children. */
  ghost predicate Trackable(a: Tree, c: Tree)
    decreases SizeAll(a.kids) + SizeAll(c.kids), 1
  {
    forall tag :: TagTrackable(a, c, tag)
  }

  ghost predicate TagTrackable(a: Tree, c: Tree, tag: string)
    decreases SizeAll(a.kids) + SizeAll(c.kids), 0
  {
    SizeOfListed(a.kids, tag);
    SizeOfListed(c.kids, tag);
    var la, lc := ListOf(a.kids, tag), ListOf(c.kids, tag);
    tag != "" ==> forall i, j | 0 <= i < |la| && 0 <= j < |lc| && Changed(la, lc, START, i, j) ::
      (|la| == |lc| || (j < |la| && !EditsChildren(la[i], lc[j]))) && Trackable(la[i], lc[j])
  }

  lemma {:induction false} NoMarksLists(kids: seq<Kid>, tag: string)
    requires forall i :: 0 <= i < |kids| ==> NoMarks(kids[i].cfg)
    ensures forall i :: 0 <= i < |ListOf(kids, tag)| ==> NoMarks(ListOf(kids, tag)[i])
    ensures Plain(ListOf(kids, tag)) && AllPlainKids(ListOf(kids, tag))
  {
    if kids != [] {
      NoMarksLists(kids[..|kids| - 1], tag);
      assert NoMarks(kids[|kids| - 1].cfg);
    }
  }

  /** Patching brings in no tracking attribute. */
  lemma {:induction false} PatchPlain(a: Tree, c: Tree)
    requires TRACK !in a.values && TRACK !in c.values
    ensures Apply(c, Diff(a, c), false).Some? && TRACK !in Apply(c, Diff(a, c), false).value.values
    ensures ApplyAttrs(c.values[TRACK := Text("modified")], Diff(a, c)) - {TRACK} == ApplyAttrs(c.values, Diff(a, c))
  {
    hide Apply, Diff, ApplyAttrs;
    PatchLists(a, c);
    AttrsPatched(a, c, c.values);
    AttrsPatched(a, c, c.values[TRACK := Text("modified")]);
    var ins, del := AttrInserts(a.values, c.values), AttrDeletes(a.values, c.values).Keys;
    assert c.values[TRACK := Text("modified")] + ins - del - {TRACK} == c.values + ins - del;
  }

  // ---------------------------------------------------------------- the tracked patch, list by list

  /** Cleaning the tracked patch of `y` towards `x` gives the plain patch. */
  ghost predicate Undone(x: Tree, y: Tree) {
    && Apply(y, Diff(x, y), true).Some? && Apply(y, Diff(x, y), false).Some?
    && Clear(Apply(y, Diff(x, y), true).value, Diff(x, y)) == Apply(y, Diff(x, y), false)
  }

  lemma {:induction false} SameLengthTracked(tag: string, a: seq<Tree>, b: seq<Tree>)
    requires |a| == |b| && Plain(b)
    requires forall i, j :: 0 <= i < |a| && 0 <= j < |b| && Changed(a, b, START, i, j) && tag != "" ==>
               Undone(a[i], b[j]) && TRACK !in Apply(b[j], Diff(a[i], b[j]), false).value.values
    ensures OpsFor(Delete, tag, a, b, START) == []
    ensures var r := ListRun(Clean, After(Insert, tag, a, b, START, true), OpsFor(Clean, tag, a, b, START), false);
            r == Some(After(Delete, tag, a, b, START, false)) && UnmarkedList(r.value) == r.value
  {
    hide Apply, Clear, Diff;
    NoDeletes(tag, a, b, START, false);
    NoInserts(tag, a, b, START, true);
    NoInserts(tag, a, b, START, false);
    forall i, j | 0 <= i < |a| && 0 <= j < |b| && Changed(a, b, START, i, j) && tag != ""
      ensures Clear(Patch(tag, a[i], b[j], true), Diff(a[i], b[j])) == Some(Patch(tag, a[i], b[j], false))
    {
      assert Undone(a[i], b[j]);
    }
    ListCleans(tag, a, b, START, []);
    var x, y := After(Change, tag, a, b, START, true), After(Change, tag, a, b, START, false);
    assert [] + x == x && [] + y == y;
    PatchesPlain(tag, a, b, START);
    UnmarkPlain(y);
  }

  lemma {:induction false} PatchesPlain(tag: string, a: seq<Tree>, b: seq<Tree>, w: Cursor)
    requires Within(a, b, w) && Plain(b)
    requires forall i, j :: 0 <= i < |a| && 0 <= j < |b| && Changed(a, b, w, i, j) && tag != "" ==>
               Apply(b[j], Diff(a[i], b[j]), false).Some? && TRACK !in Apply(b[j], Diff(a[i], b[j]), false).value.values
    ensures Plain(After(Change, tag, a, b, w, false))
    decreases Left(a, b, w)
  {
    hide Apply, Diff, TreeEq;
    if !Done(a, b, w) {
      assert NextMove(a, b, w) == Alter ==> Changed(a, b, w, w.ai, w.bi);
      PatchesPlain(tag, a, b, Advance(a, b, w));
    }
  }

  /** The two passes of `clear_diff_track` over a tracked list and its removal of direct marks leave the
      list of the plain patch. */
  ghost predicate Passes(tag: string, a: seq<Tree>, b: seq<Tree>, tracked: seq<Tree>) {
    var l := ListRun(Delete, tracked, OpsFor(Delete, tag, a, b, START), false);
    && l.Some?
    && var r := ListRun(Clean, l.value, OpsFor(Clean, tag, a, b, START), false);
       r.Some? && UnmarkedList(r.value) == After(Delete, tag, a, b, START, false)
  }

  /** So it is when the list is the one the tracked patch leaves. */
  ghost predicate TagCleans(a: Tree, c: Tree, tag: string) {
    var la, lc := ListOf(a.kids, tag), ListOf(c.kids, tag);
    var tracked := ListRun(Delete, After(Insert, tag, la, lc, START, true), OpsFor(Delete, tag, la, lc, START), true);
    tracked.Some? ==> Passes(tag, la, lc, tracked.value)
  }

  ghost predicate PlainKids(t: Tree) {
    forall k :: 0 <= k < |t.kids| ==> TRACK !in t.kids[k].cfg.values
  }

  lemma UnmarkPlainKids(t: Tree)
    requires PlainKids(t)
    ensures UnmarkedKids(t.kids) == t.kids
  {
    forall k | 0 <= k < |t.kids|
      ensures UnmarkedKids(t.kids)[k] == t.kids[k]
    {
      assert t.kids[k].cfg.values - {TRACK} == t.kids[k].cfg.values;
    }
  }

  ghost predicate AllPlainKids(list: seq<Tree>) {
    forall k :: 0 <= k < |list| ==> PlainKids(list[k])
  }

  lemma {:induction false} LightKids(tag: string, a: seq<Tree>, b: seq<Tree>, w: Cursor)
    requires Within(a, b, w) && Light(tag, a, b, w)
    requires Plain(a) && Plain(b) && AllPlainKids(a) && AllPlainKids(b)
    ensures AllPlainKids(After(Delete, tag, a, b, w, false))
    decreases Left(a, b, w)
  {
    hide Apply, Diff, TreeEq, EditsChildren, Patch;
    if !Done(a, b, w) {
      var w' := Advance(a, b, w);
      assert NextMove(a, b, w) == Alter ==> Changed(a, b, w, w.ai, w.bi);
      assert forall i, j :: Changed(a, b, w', i, j) ==> Changed(a, b, w, i, j);
      LightKids(tag, a, b, w');
      if NextMove(a, b, w) == Alter {
        LightPatch(tag, a[w.ai], b[w.bi]);
      }
    }
  }

  /** Cleaning with attribute changes only takes off marks, whichever children it meets. */
  lemma {:induction false} LightCleans(tag: string, a: seq<Tree>, b: seq<Tree>, w: Cursor, list: seq<Tree>)
    requires Within(a, b, w) && Light(tag, a, b, w) && AllPlainKids(list)
    requires tag != "" ==> forall i: nat, j: nat :: Changed(a, b, w, i, j) ==> j < |list|
    ensures var r := ListRun(Clean, list, OpsFor(Clean, tag, a, b, w), false);
            r.Some? && UnmarkedList(r.value) == UnmarkedList(list)
    decreases Left(a, b, w)
  {
    hide Apply, Clear, Diff, TreeEq, EditsChildren, UnmarkedKids;
    if !Done(a, b, w) {
      var w' := Advance(a, b, w);
      assert forall i, j :: Changed(a, b, w', i, j) ==> Changed(a, b, w, i, j);
      var ops := OpsFor(Clean, tag, a, b, w');
      if NextMove(a, b, w) == Alter {
        assert Changed(a, b, w, w.ai, w.bi);
        var op := Op(tag, w.bi, Diff(a[w.ai], b[w.bi]));
        ListRunCons(Clean, list, op, ops, false);
        if tag == "" {
          LightCleans(tag, a, b, w', list);
        } else {
          var t := list[w.bi];
          AttributesOnly(a[w.ai], b[w.bi], t);
          UnmarkPlainKids(t);
          var l := list[w.bi := Unmarked(t)];
          assert Unmarked(Unmarked(t)) == Unmarked(t) by { assert t.values - {TRACK} - {TRACK} == t.values - {TRACK}; }
          assert UnmarkedList(l) == UnmarkedList(list);
          LightCleans(tag, a, b, w', l);
        }
      } else {
        assert OpsFor(Clean, tag, a, b, w) == ops;
        LightCleans(tag, a, b, w', list);
      }
    }
  }

  lemma {:induction false} LightTracked(tag: string, a: seq<Tree>, b: seq<Tree>, marked: seq<Tree>)
    requires Light(tag, a, b, START) && Plain(a) && Plain(b) && AllPlainKids(a) && AllPlainKids(b)
    requires tag != "" ==> forall i: nat, j: nat :: Changed(a, b, START, i, j) ==> j < |a|
    requires ListRun(Delete, After(Insert, tag, a, b, START, true), OpsFor(Delete, tag, a, b, START), true) == Some(marked)
    ensures Passes(tag, a, b, marked)
  {
    hide Apply, Clear, Diff, Light, ListRun, After;
    var ops := OpsFor(Delete, tag, a, b, START);
    UnmarkInserted(tag, a, b, START);
    InsertsKeepBase(tag, a, b, START, true);
    ListMarks(tag, a, b, START, After(Insert, tag, a, b, START, true));
    UnmarkDeletes(marked, ops);
    ListDeletes(tag, a, b, START, [], false);
    var x, y := After(Insert, tag, a, b, START, false), After(Delete, tag, a, b, START, false);
    assert [] + x == x && [] + y == y;
    var l := ListRun(Delete, marked, ops, false).value;
    assert UnmarkedList(l) == y;
    FinalLength(tag, a, b, START);
    assert |l| == |UnmarkedList(l)| == |a|;
    LightKids(tag, a, b, START);
    assert forall k :: 0 <= k < |l| ==> UnmarkedList(l)[k].kids == l[k].kids;
    LightCleans(tag, a, b, START, l);
  }

  /** The tracking on one list can be undone: its changes are undone child by child, or they patch
      attributes only and have their indices in the new list. */
  ghost predicate ListUndone(tag: string, a: seq<Tree>, b: seq<Tree>) {
    && Plain(a) && Plain(b) && AllPlainKids(a) && AllPlainKids(b)
    && (tag != "" ==> forall i, j :: 0 <= i < |a| && 0 <= j < |b| && Changed(a, b, START, i, j) ==>
          if |a| == |b| then Undone(a[i], b[j]) && TRACK !in Apply(b[j], Diff(a[i], b[j]), false).value.values
          else j < |a| && !EditsChildren(a[i], b[j]))
  }

  /** The two passes of `clear_diff_track` over one list. */
  lemma {:induction false} TagTracked(tag: string, a: seq<Tree>, b: seq<Tree>, marked: seq<Tree>)
    requires ListUndone(tag, a, b)
    requires ListRun(Delete, After(Insert, tag, a, b, START, true), OpsFor(Delete, tag, a, b, START), true) == Some(marked)
    ensures Passes(tag, a, b, marked)
  {
    hide Apply, Clear, Diff, After, EditsChildren;
    if |a| == |b| {
      SameLengthTracked(tag, a, b);
    } else {
      forall i: nat, j: nat | Changed(a, b, START, i, j)
        ensures i < |a| && j < |b|
      {
        ChangedInRange(a, b, START, i, j);
      }
      LightTracked(tag, a, b, marked);
    }
  }

  lemma {:induction false} ChangedInRange(a: seq<Tree>, b: seq<Tree>, w: Cursor, i: nat, j: nat)
    requires Within(a, b, w)
    ensures Changed(a, b, w, i, j) ==> i < |a| && j < |b|
    decreases Left(a, b, w)
  {
    if !Done(a, b, w) {
      ChangedInRange(a, b, Advance(a, b, w), i, j);
    }
  }

  /** What the two passes of `clear_diff_track` and its removal of the direct marks leave. */
  ghost predicate Cleared(a: Tree, c: Tree, k3: seq<Kid>, k4: seq<Kid>, k5: seq<Kid>) {
    var d := Diff(a, c);
    && DiffOps(d, Delete).Some? && DiffOps(d, Clean).Some?
    && Run(Delete, k3, DiffOps(d, Delete).value, false) == Some(k4)
    && Run(Clean, k4, DiffOps(d, Clean).value, false) == Some(k5)
  }

  lemma {:induction false} ClearedTree(a: Tree, c: Tree, values: Attrs, k3: seq<Kid>, k4: seq<Kid>, k5: seq<Kid>)
    requires Cleared(a, c, k3, k4, k5)
    ensures Clear(Node(values, k3), Diff(a, c)) == Some(Node(values - {TRACK}, UnmarkedKids(k5)))
  {
    hide Run, DiffOps, Diff, UnmarkedKids;
  }

  /** The passes of `clear_diff_track` over all lists. */
  lemma {:induction false} ClearStages(a: Tree, c: Tree, k3: seq<Kid>) returns (k4: seq<Kid>, k5: seq<Kid>)
    requires forall t :: Passes(t, ListOf(a.kids, t), ListOf(c.kids, t), ListOf(k3, t))
    ensures Cleared(a, c, k3, k4, k5)
    ensures Reached(Delete, a, c, UnmarkedKids(k5), false)
  {
    hide Step, ListStep, ListOf, ListRun, Run, Diff, DiffOps, UnmarkedList, UnmarkedKids, After;
    EntitiesOnce(a.kids, c.kids);
    assert forall t :: Passes(t, ListOf(a.kids, t), ListOf(c.kids, t), ListOf(k3, t)) ==>
      ListRun(Delete, ListOf(k3, t), ListOps(Delete, t, a, c), false).Some?;
    DiffPhase(Delete, a, c, k3, false);
    k4 := Run(Delete, k3, DiffOps(Diff(a, c), Delete).value, false).value;
    forall t
      ensures ListRun(Delete, ListOf(k3, t), ListOps(Delete, t, a, c), false) == Some(ListOf(k4, t))
    {
      if t !in Entities(a.kids, c.kids) {
        NothingToRun(Delete, t, a, c, ListOf(k3, t), false);
      }
    }
    DiffPhase(Clean, a, c, k4, false);
    k5 := Run(Clean, k4, DiffOps(Diff(a, c), Clean).value, false).value;
    forall t
      ensures ListOf(UnmarkedKids(k5), t) == After(Delete, t, ListOf(a.kids, t), ListOf(c.kids, t), START, false)
    {
      if t !in Entities(a.kids, c.kids) {
        NothingToRun(Clean, t, a, c, ListOf(k4, t), false);
      }
      UnmarkedKidsLists(k5, t);
    }
  }

  /** The two ways of patching lay the children out in the same global order. */
  lemma {:induction false} SameShape(a: Tree, c: Tree, u1: seq<Kid>, u2: seq<Kid>, u3: seq<Kid>,
      k1: seq<Kid>, k2: seq<Kid>, k3: seq<Kid>, k4: seq<Kid>, k5: seq<Kid>)
    requires Stages(a, c, false, u1, u2, u3) && Stages(a, c, true, k1, k2, k3) && Cleared(a, c, k3, k4, k5)
    ensures Shape(UnmarkedKids(k5)) == Shape(u3)
  {
    hide Run, DiffOps, Diff;
    var d := Diff(a, c);
    var changes, inserts := DiffOps(d, Change).value, DiffOps(d, Insert).value;
    var deletes, cleans := DiffOps(d, Delete).value, DiffOps(d, Clean).value;
    RunKeepsShape(Change, c.kids, changes, false);
    RunKeepsShape(Change, c.kids, changes, true);
    RunByShape(Insert, k1, u1, inserts, true, false);
    RunKeepsShape(Delete, k2, deletes, true);
    RunByShape(Delete, k3, u2, deletes, false, false);
    RunKeepsShape(Clean, k4, cleans, false);
    assert Shape(UnmarkedKids(k5)) == Shape(k5);
  }

  lemma {:induction false} TrackedPatchFromTags(a: Tree, c: Tree)
    requires TRACK !in a.values && TRACK !in c.values
    requires forall tag :: TagCleans(a, c, tag)
    ensures Undone(a, c)
  {
    hide Apply, Clear, Diff, ListOf, ListRun, After, UnmarkedKids, UnmarkedList, ApplyAttrs, Shape, Undone, Stages, Cleared, Passes;
    var u1, u2, u3 := UntrackedStages(a, c);
    var k1, k2, k3 := TrackedStages(a, c);
    forall t
      ensures Passes(t, ListOf(a.kids, t), ListOf(c.kids, t), ListOf(k3, t))
    {
      assert TagCleans(a, c, t);
    }
    var k4, k5 := ClearStages(a, c, k3);
    SameShape(a, c, u1, u2, u3, k1, k2, k3, k4, k5);
    SameKids(UnmarkedKids(k5), u3);
    FinishTracked(a, c, u1, u2, u3, k1, k2, k3, k4, k5);
  }

  lemma {:induction false} TagUndone(a: Tree, c: Tree, tag: string)
    requires ListUndone(tag, ListOf(a.kids, tag), ListOf(c.kids, tag))
    ensures TagCleans(a, c, tag)
  {
    hide ListOf, ListRun, After, Passes, ListUndone;
    var la, lc := ListOf(a.kids, tag), ListOf(c.kids, tag);
    var tracked := ListRun(Delete, After(Insert, tag, la, lc, START, true), OpsFor(Delete, tag, la, lc, START), true);
    if tracked.Some? {
      TagTracked(tag, la, lc, tracked.value);
    }
  }

  lemma {:induction false} FinishTracked(a: Tree, c: Tree, u1: seq<Kid>, u2: seq<Kid>, u3: seq<Kid>,
      k1: seq<Kid>, k2: seq<Kid>, k3: seq<Kid>, k4: seq<Kid>, k5: seq<Kid>)
    requires TRACK !in a.values && TRACK !in c.values
    requires Stages(a, c, false, u1, u2, u3) && Stages(a, c, true, k1, k2, k3) && Cleared(a, c, k3, k4, k5)
    requires UnmarkedKids(k5) == u3
    ensures Undone(a, c)
  {
    hide Apply, Clear, Diff, ApplyAttrs, Stages, Cleared, UnmarkedKids;
    StagesApply(a, c, false, u1, u2, u3);
    StagesApply(a, c, true, k1, k2, k3);
    ClearedTree(a, c, ApplyAttrs(c.values[TRACK := Text("modified")], Diff(a, c)), k3, k4, k5);
    PatchPlain(a, c);
  }

  /** `apply_diff(d, true)` then `clear_diff_track(d)` gives exactly the tree of `apply_diff(d)`, down
      to the global order of the children. */
  lemma {:induction false} TrackedPatch(a: Tree, c: Tree)
    requires NoMarks(a) && NoMarks(c) && Trackable(a, c)
    ensures Undone(a, c)
    decreases Size(a) + Size(c)
  {
    hide Apply, Clear, Diff, EditsChildren;
    forall tag
      ensures TagCleans(a, c, tag)
    {
      var la, lc := ListOf(a.kids, tag), ListOf(c.kids, tag);
      assert TagTrackable(a, c, tag);
      SizeOfListed(a.kids, tag);
      SizeOfListed(c.kids, tag);
      NoMarksLists(a.kids, tag);
      NoMarksLists(c.kids, tag);
      forall i, j | 0 <= i < |la| && 0 <= j < |lc| && Changed(la, lc, START, i, j) && tag != ""
        ensures Undone(la[i], lc[j]) && TRACK !in Apply(lc[j], Diff(la[i], lc[j]), false).value.values
      {
        TrackedPatch(la[i], lc[j]);
        PatchPlain(la[i], lc[j]);
      }
      TagUndone(a, c, tag);
    }
    TrackedPatchFromTags(a, c);
  }
}
