/** Where cleaning a tracked patch fails: the condition of `ConfigTrack.TrackedPatch` is needed.

    A changed child that no cleaning reaches keeps the marks and the deletions below it, an index past the
    end of the new list makes `clear_diff_track` throw, and children whose lists keep their length are
    cleaned one by one. */
module ConfigTrackExact {
  import opened ConfigTree
  import opened ConfigDiff
  import opened ConfigRoundTrip
  import opened ConfigPatch
  import opened ConfigTrack

  // ---------------------------------------------------------------- phases on the lists

  /** A phase that succeeds has succeeded on every list. */
  lemma {:induction false} RunGroupsSome(p: Phase, kids: seq<Kid>, tags: seq<string>, group: string -> seq<Op>,
                                         track: bool, t: string)
    requires Distinct(tags) && t in tags
    requires forall u, i :: u in tags && 0 <= i < |group(u)| ==> group(u)[i].tag == u
    requires Run(p, kids, Flatten(tags, group), track).Some?
    ensures ListRun(p, ListOf(kids, t), group(t), track).Some?
    decreases |tags|
  {
    hide Step, ListStep, ListOf, ListRun;
    var tag, rest := tags[0], tags[1..];
    RunConcat(p, kids, group(tag), Flatten(rest, group), track);
    RunOneTag(p, kids, group(tag), tag, track, t);
    if t != tag {
      assert t in rest && forall u :: u in rest ==> u in tags;
      RunGroupsSome(p, Run(p, kids, group(tag), track).value, rest, group, track, t);
    }
  }

  lemma {:induction false} DeletesByLength(x: seq<Tree>, y: seq<Tree>, ops: seq<Op>)
    requires |x| == |y|
    ensures ListRun(Delete, x, ops, false).Some? && ListRun(Delete, y, ops, false).Some?
    ensures |ListRun(Delete, x, ops, false).value| == |ListRun(Delete, y, ops, false).value|
    decreases |ops|
  {
    if ops != [] {
      DeletesByLength(ListStep(Delete, x, ops[0], false).value, ListStep(Delete, y, ops[0], false).value, ops[1..]);
    }
  }

  /** Cleaning succeeds only when every index is in range. */
  lemma {:induction false} CleansInRange(tag: string, a: seq<Tree>, b: seq<Tree>, w: Cursor, list: seq<Tree>,
                                         i: nat, j: nat)
    requires Within(a, b, w) && Changed(a, b, w, i, j) && tag != ""
    requires ListRun(Clean, list, OpsFor(Clean, tag, a, b, w), false).Some?
    ensures j < |list|
    decreases Left(a, b, w)
  {
    hide Apply, Clear, Diff, TreeEq;
    var w' := Advance(a, b, w);
    var ops := OpsFor(Clean, tag, a, b, w');
    if NextMove(a, b, w) == Alter {
      var op := Op(tag, w.bi, Diff(a[w.ai], b[w.bi]));
      ListRunCons(Clean, list, op, ops, false);
      if w.ai != i || w.bi != j {
        CleansInRange(tag, a, b, w', ListStep(Clean, list, op, false).value, i, j);
      }
    } else {
      assert OpsFor(Clean, tag, a, b, w) == ops;
      CleansInRange(tag, a, b, w', list, i, j);
    }
  }

  /** A change whose index only exists before the deletions makes `clear_diff_track` throw, although
      the tracked `apply_diff` went through. */
  lemma {:induction false} ChangePastTheEndThrows(a: Tree, c: Tree, tag: string, i: nat, j: nat)
    requires tag != "" && Changed(ListOf(a.kids, tag), ListOf(c.kids, tag), START, i, j)
    requires j >= |ListOf(a.kids, tag)|
    ensures Apply(c, Diff(a, c), true).Some?
    ensures Clear(Apply(c, Diff(a, c), true).value, Diff(a, c)) == None
  {
    hide Apply, Diff, ListOf, ListRun, After, Stages, Run;
    var k1, k2, k3 := TrackedStages(a, c);
    StagesApply(a, c, true, k1, k2, k3);
    if Clear(Apply(c, Diff(a, c), true).value, Diff(a, c)).Some? {
      ClearedLists(a, c, k2, k3, tag);
      var d := Diff(a, c);
      var l := ListRun(Delete, ListOf(k3, tag), ListOps(Delete, tag, a, c), false).value;
      CleansInRange(tag, ListOf(a.kids, tag), ListOf(c.kids, tag), START, l, i, j);
      assert false;
    }
  }

  lemma {:induction false} ClearedLists(a: Tree, c: Tree, k2: seq<Kid>, k3: seq<Kid>, tag: string)
    requires Reached(Insert, a, c, k2, true)
    requires ListRun(Delete, ListOf(k2, tag), ListOps(Delete, tag, a, c), true) == Some(ListOf(k3, tag))
    requires DiffOps(Diff(a, c), Delete).Some? && DiffOps(Diff(a, c), Clean).Some?
    requires Run(Delete, k3, DiffOps(Diff(a, c), Delete).value, false).Some?
    requires Run(Clean, Run(Delete, k3, DiffOps(Diff(a, c), Delete).value, false).value, DiffOps(Diff(a, c), Clean).value, false).Some?
    requires tag in Entities(a.kids, c.kids)
    ensures var l := ListRun(Delete, ListOf(k3, tag), ListOps(Delete, tag, a, c), false);
            l.Some? && |l.value| == |ListOf(a.kids, tag)| &&
            ListRun(Clean, l.value, ListOps(Clean, tag, a, c), false).Some?
  {
    hide Apply, Diff, ListOf, After, Run, DiffOps, Step, ListStep;
    var la, lc := ListOf(a.kids, tag), ListOf(c.kids, tag);
    FinalLength(tag, la, lc, START);
    InsertsKeepBase(tag, la, lc, START, true);
    ListMarks(tag, la, lc, START, ListOf(k2, tag));
    assert |ListOf(k3, tag)| == |UnmarkedList(ListOf(k3, tag))| == |ListOf(k2, tag)|;
    ListDeletes(tag, la, lc, START, [], false);
    var x, y := After(Insert, tag, la, lc, START, false), After(Delete, tag, la, lc, START, false);
    assert [] + x == x && [] + y == y;
    DeletesByLength(ListOf(k3, tag), x, ListOps(Delete, tag, a, c));
    PhaseOnLists(Delete, a, c, k3, false);
    PhaseOnLists(Clean, a, c, Run(Delete, k3, DiffOps(Diff(a, c), Delete).value, false).value, false);
  }

  /** All changes of a list move by the same distance: that between the lengths of the lists. */
  lemma {:induction false} ChangeOffset(a: seq<Tree>, b: seq<Tree>, w: Cursor, i: nat, j: nat)
    requires Within(a, b, w) && Changed(a, b, w, i, j)
    ensures i - j == |a| - |b|
    decreases Left(a, b, w)
  {
    hide TreeEq;
    if NextMove(a, b, w) != Alter || w.ai != i || w.bi != j {
      ChangeOffset(a, b, Advance(a, b, w), i, j);
    }
  }

  /** Where a changed child ends up. */
  lemma {:induction false} ChangedEndsAt(tag: string, a: seq<Tree>, b: seq<Tree>, w: Cursor, i: nat, j: nat, track: bool)
    requires Within(a, b, w) && Changed(a, b, w, i, j)
    ensures w.ai <= i < |a| && j < |b| && i - w.ai < |After(Delete, tag, a, b, w, track)|
    ensures After(Delete, tag, a, b, w, track)[i - w.ai] == Patch(tag, a[i], b[j], track)
    decreases Left(a, b, w)
  {
    hide TreeEq, Apply, Diff;
    if NextMove(a, b, w) != Alter || w.ai != i || w.bi != j {
      ChangedEndsAt(tag, a, b, Advance(a, b, w), i, j, track);
    }
  }

  // ---------------------------------------------------------------- a changed child that is not reached

  /** Cleaning leaves alone what no change names. */
  lemma {:induction false} CleansElsewhere(tag: string, a: seq<Tree>, b: seq<Tree>, w: Cursor, list: seq<Tree>, i: nat)
    requires Within(a, b, w) && i < |list|
    requires forall i': nat, j': nat :: Changed(a, b, w, i', j') ==> j' != i
    requires ListRun(Clean, list, OpsFor(Clean, tag, a, b, w), false).Some?
    ensures var r := ListRun(Clean, list, OpsFor(Clean, tag, a, b, w), false).value;
            |r| == |list| && r[i] == list[i]
    decreases Left(a, b, w)
  {
    hide Apply, Clear, Diff, TreeEq;
    if !Done(a, b, w) {
      var w' := Advance(a, b, w);
      assert forall i', j' :: Changed(a, b, w', i', j') ==> Changed(a, b, w, i', j');
      var ops := OpsFor(Clean, tag, a, b, w');
      if NextMove(a, b, w) == Alter {
        assert Changed(a, b, w, w.ai, w.bi);
        var op := Op(tag, w.bi, Diff(a[w.ai], b[w.bi]));
        ListRunCons(Clean, list, op, ops, false);
        CleansElsewhere(tag, a, b, w', ListStep(Clean, list, op, false).value, i);
      } else {
        assert OpsFor(Clean, tag, a, b, w) == ops;
        CleansElsewhere(tag, a, b, w', list, i);
      }
    }
  }

  /** A phase of a diff that goes through has gone through on every list. */
  lemma {:induction false} PhaseOnLists(p: Phase, a: Tree, c: Tree, kids: seq<Kid>, track: bool)
    requires DiffOps(Diff(a, c), p).Some? && Run(p, kids, DiffOps(Diff(a, c), p).value, track).Some?
    ensures forall t :: t in Entities(a.kids, c.kids) ==>
              Some(ListOf(Run(p, kids, DiffOps(Diff(a, c), p).value, track).value, t))
              == ListRun(p, ListOf(kids, t), ListOps(p, t, a, c), track)
  {
    hide Apply, Diff, ListOf, After, Run, DiffOps, Step, ListStep, ListRun;
    var tags := Entities(a.kids, c.kids);
    EntitiesOnce(a.kids, c.kids);
    DiffOpsScheduled(p, a, c);
    AllOpsFlatten(p, a, c, tags);
    forall u
      ensures forall m :: 0 <= m < |ListOps(p, u, a, c)| ==> ListOps(p, u, a, c)[m].tag == u
    {
      OpsForTag(p, u, ListOf(a.kids, u), ListOf(c.kids, u), START);
    }
    forall t | t in tags
      ensures ListRun(p, ListOf(kids, t), ListOps(p, t, a, c), track).Some?
    {
      RunGroupsSome(p, kids, tags, t => ListOps(p, t, a, c), track, t);
    }
    DiffPhase(p, a, c, kids, track);
  }

  /** After the marks and the deletions the changed child still holds the children of its tracked patch. */
  lemma {:induction false} DeletedAround(tag: string, a: seq<Tree>, b: seq<Tree>, marked: seq<Tree>, i: nat, j: nat)
    requires Changed(a, b, START, i, j)
    requires ListRun(Delete, After(Insert, tag, a, b, START, true), OpsFor(Delete, tag, a, b, START), true) == Some(marked)
    ensures i < |a| && j < |b| && ListRun(Delete, marked, OpsFor(Delete, tag, a, b, START), false).Some?
    ensures var l := ListRun(Delete, marked, OpsFor(Delete, tag, a, b, START), false).value;
            i < |l| && l[i].kids == Patch(tag, a[i], b[j], true).kids
  {
    hide Apply, Diff, After, ListRun, OpsFor;
    var ops, x, y := OpsFor(Delete, tag, a, b, START), After(Insert, tag, a, b, START, true), After(Delete, tag, a, b, START, true);
    InsertsKeepBase(tag, a, b, START, true);
    ListMarks(tag, a, b, START, x);
    UnmarkDeletes(marked, ops);
    UnmarkDeletes(x, ops);
    ListDeletes(tag, a, b, START, [], true);
    assert [] + x == x && [] + y == y;
    ChangedEndsAt(tag, a, b, START, i, j, true);
    var l := ListRun(Delete, marked, ops, false).value;
    assert UnmarkedList(l) == UnmarkedList(y);
    assert |l| == |UnmarkedList(l)| && UnmarkedList(l)[i] == Unmarked(l[i]) && UnmarkedList(y)[i] == Unmarked(y[i]);
  }

  /** A changed child that no cleaning reaches keeps the children of its tracked patch. */
  lemma {:induction false} UncleanedChild(a: Tree, c: Tree, tag: string, i: nat, j: nat)
    requires tag != "" && Changed(ListOf(a.kids, tag), ListOf(c.kids, tag), START, i, j)
    requires forall i': nat, j': nat :: Changed(ListOf(a.kids, tag), ListOf(c.kids, tag), START, i', j') ==> j' != i
    requires Apply(c, Diff(a, c), true).Some? && Clear(Apply(c, Diff(a, c), true).value, Diff(a, c)).Some?
    ensures i < |ListOf(a.kids, tag)| && j < |ListOf(c.kids, tag)|
    ensures var list := ListOf(Clear(Apply(c, Diff(a, c), true).value, Diff(a, c)).value.kids, tag);
            i < |list| && list[i].kids == Patch(tag, ListOf(a.kids, tag)[i], ListOf(c.kids, tag)[j], true).kids
  {
    hide Apply, Diff, ListOf, ListRun, After, Stages, Run, DiffOps, Changed;
    var la, lc := ListOf(a.kids, tag), ListOf(c.kids, tag);
    ChangedInRange(la, lc, START, i, j);
    var k1, k2, k3 := TrackedStages(a, c);
    StagesApply(a, c, true, k1, k2, k3);
    var d := Diff(a, c);
    var k4 := Run(Delete, k3, DiffOps(d, Delete).value, false).value;
    var k5 := Run(Clean, k4, DiffOps(d, Clean).value, false).value;
    PhaseOnLists(Delete, a, c, k3, false);
    PhaseOnLists(Clean, a, c, k4, false);
    InEntities(a, c, tag);
    DeletedAround(tag, la, lc, ListOf(k3, tag), i, j);
    CleansElsewhere(tag, la, lc, START, ListOf(k4, tag), i);
    UnmarkedKidsLists(k5, tag);
  }

  lemma InEntities(a: Tree, c: Tree, tag: string)
    requires ListOf(a.kids, tag) != [] || ListOf(c.kids, tag) != []
    ensures tag in Entities(a.kids, c.kids)
  {
    EntitiesOnce(a.kids, c.kids);
  }

  // ---------------------------------------------------------------- what a child without cleaning keeps

  /** With more targets than children, the tracked insertions leave a mark. */
  lemma {:induction false} InsertionMarks(tag: string, a: seq<Tree>, b: seq<Tree>, w: Cursor) returns (k: nat)
    requires Within(a, b, w) && |a| - w.ai > |b| - w.bi
    ensures var l := After(Insert, tag, a, b, w, true); k < |l| && TRACK in l[k].values
    decreases Left(a, b, w)
  {
    hide Apply, Diff, TreeEq, Patch;
    var rest := After(Insert, tag, a, b, Advance(a, b, w), true);
    if NextMove(a, b, w) == Add {
      k := 0;
    } else {
      k := InsertionMarks(tag, a, b, Advance(a, b, w));
      var l := MoveKeeps(Insert, tag, a, b, w, true) + rest;
      assert l[k + 1] == rest[k];
      k := k + 1;
    }
  }

  /** A change under a named tag leaves a mark. */
  lemma {:induction false} ChangeMarks(tag: string, a: seq<Tree>, b: seq<Tree>, w: Cursor, i: nat, j: nat)
      returns (k: nat)
    requires Within(a, b, w) && Changed(a, b, w, i, j) && tag != "" && Plain(b)
    ensures var l := After(Insert, tag, a, b, w, true); k < |l| && TRACK in l[k].values
    decreases Left(a, b, w)
  {
    hide Apply, Diff, TreeEq, Patch;
    var keeps, rest := MoveKeeps(Insert, tag, a, b, w, true), After(Insert, tag, a, b, Advance(a, b, w), true);
    if NextMove(a, b, w) == Alter && w.ai == i && w.bi == j {
      PatchMarks(tag, a[i], b[j]);
      k := 0;
    } else {
      k := ChangeMarks(tag, a, b, Advance(a, b, w), i, j);
      assert (keeps + rest)[|keeps| + k] == rest[k];
      k := |keeps| + k;
    }
  }

  lemma {:induction false} PatchMarks(tag: string, x: Tree, y: Tree)
    requires tag != "" && TRACK !in y.values
    ensures TRACK in Patch(tag, x, y, true).values
  {
    hide Apply, Diff, Stages, ApplyAttrs;
    var k1, k2, k3 := TrackedStages(x, y);
    StagesApply(x, y, true, k1, k2, k3);
    AttrsPatched(x, y, y.values[TRACK := Text("modified")]);
  }

  lemma {:induction false} FinalPlain(u: string, a: seq<Tree>, b: seq<Tree>, w: Cursor)
    requires Within(a, b, w) && Plain(a) && Plain(b)
    ensures Plain(After(Delete, u, a, b, w, false))
    decreases Left(a, b, w)
  {
    hide Apply, Diff, TreeEq, Patch;
    if !Done(a, b, w) {
      FinalPlain(u, a, b, Advance(a, b, w));
      if NextMove(a, b, w) == Alter {
        PlainPatch(u, a[w.ai], b[w.bi]);
      }
    }
  }

  lemma PlainPatch(u: string, x: Tree, y: Tree)
    requires TRACK !in x.values && TRACK !in y.values
    ensures TRACK !in Patch(u, x, y, false).values
  {
    hide Apply, Diff;
    PatchPlain(x, y);
  }

  /** The tracked patch does not have the children of the plain one when it edits any. */
  lemma {:induction false} EditsShow(x: Tree, y: Tree, u: string)
    requires NoMarks(x) && NoMarks(y) && TagEdited(x, y, u)
    ensures Apply(y, Diff(x, y), true).Some? && Apply(y, Diff(x, y), false).Some?
    ensures Apply(y, Diff(x, y), true).value.kids != Apply(y, Diff(x, y), false).value.kids
  {
    hide Apply, Diff, ListOf, ListRun, After, Stages, Run, DiffOps, NoMarks, Changed;
    var lx, ly := ListOf(x.kids, u), ListOf(y.kids, u);
    NoMarksBelow(x, u);
    NoMarksBelow(y, u);
    PatchLists(x, y);
    FinalLength(u, lx, ly, START);
    FinalPlain(u, lx, ly, START);
    TrackedLength(x, y, u);
    if |lx| >= |ly| {
      TrackedList(x, y, u);
      var k: nat;
      if |lx| > |ly| {
        k := InsertionMarks(u, lx, ly, START);
      } else {
        var i: nat, j: nat :| Changed(lx, ly, START, i, j);
        k := ChangeMarks(u, lx, ly, START, i, j);
      }
      assert TRACK in ListOf(Apply(y, Diff(x, y), true).value.kids, u)[k].values;
    }
  }

  lemma NoMarksBelow(t: Tree, u: string)
    requires NoMarks(t)
    ensures Plain(ListOf(t.kids, u))
    ensures forall i :: 0 <= i < |ListOf(t.kids, u)| ==> NoMarks(ListOf(t.kids, u)[i])
  {
    NoMarksLists(t.kids, u);
  }

  /** Without deletions the tracked list is the one after the insertions. */
  lemma {:induction false} TrackedList(x: Tree, y: Tree, u: string)
    requires |ListOf(x.kids, u)| >= |ListOf(y.kids, u)|
    ensures Apply(y, Diff(x, y), true).Some?
    ensures ListOf(Apply(y, Diff(x, y), true).value.kids, u) == After(Insert, u, ListOf(x.kids, u), ListOf(y.kids, u), START, true)
  {
    hide Apply, Diff, ListOf, After, Stages, Run, DiffOps;
    var k1, k2, k3 := TrackedStages(x, y);
    StagesApply(x, y, true, k1, k2, k3);
    NoDeletes(u, ListOf(x.kids, u), ListOf(y.kids, u), START, true);
  }

  lemma {:induction false} TrackedLength(x: Tree, y: Tree, u: string)
    ensures Apply(y, Diff(x, y), true).Some?
    ensures |ListOf(Apply(y, Diff(x, y), true).value.kids, u)| >= |ListOf(y.kids, u)|
  {
    hide Apply, Diff, ListOf, ListRun, After, Stages, Run, DiffOps;
    var k1, k2, k3 := TrackedStages(x, y);
    StagesApply(x, y, true, k1, k2, k3);
    InsertsKeepBase(u, ListOf(x.kids, u), ListOf(y.kids, u), START, true);
    ListMarks(u, ListOf(x.kids, u), ListOf(y.kids, u), START, ListOf(k2, u));
    assert |ListOf(k3, u)| == |UnmarkedList(ListOf(k3, u))| == |ListOf(k2, u)|;
  }

  /** A changed child that no cleaning reaches keeps the edits made to its children, so the tracked patch is
      never undone. */
  lemma {:induction false} UnreachedSurvives(a: Tree, c: Tree, tag: string, i: nat, j: nat)
    requires NoMarks(a) && NoMarks(c)
    requires tag != "" && Unreached(ListOf(a.kids, tag), ListOf(c.kids, tag), i, j)
    requires i < |ListOf(a.kids, tag)| && j < |ListOf(c.kids, tag)|
    requires EditsChildren(ListOf(a.kids, tag)[i], ListOf(c.kids, tag)[j])
    ensures !Undone(a, c)
  {
    hide Apply, Clear, Diff, ListOf, ListRun, After, Stages, Run, DiffOps, Changed, Reached, TagEdited;
    if Undone(a, c) {
      var la, lc := ListOf(a.kids, tag), ListOf(c.kids, tag);
      NoMarksBelow(a, tag);
      NoMarksBelow(c, tag);
      var u :| TagEdited(la[i], lc[j], u);
      EditsShow(la[i], lc[j], u);
      UncleanedChild(a, c, tag, i, j);
      PlainAt(a, c, tag, i, j);
      assert false;
    }
  }

  // ---------------------------------------------------------------- a change some cleaning does not reach

  /** The change of `b[j]` into `a[i]` stands where no other change has its index. */
  ghost predicate Unreached(a: seq<Tree>, b: seq<Tree>, i: nat, j: nat) {
    Changed(a, b, START, i, j) && forall i': nat, j': nat :: Changed(a, b, START, i', j') ==> j' != i
  }

  /** Among changes next to insertions or deletions the outermost one is not reached. */
  lemma {:induction false} OutermostUnreached(a: seq<Tree>, b: seq<Tree>, i: nat, j: nat) returns (i': nat, j': nat)
    requires |a| != |b| && Changed(a, b, START, i, j)
    ensures Unreached(a, b, i', j') && i' < |a| && j' < |b|
    decreases if |a| > |b| then |a| - i else i
  {
    hide Changed;
    i', j' := i, j;
    ChangeOffset(a, b, START, i, j);
    ChangedInRange(a, b, START, i, j);
    if !Unreached(a, b, i, j) {
      var x: nat, y: nat :| Changed(a, b, START, x, y) && y == i;
      ChangeOffset(a, b, START, x, y);
      ChangedInRange(a, b, START, x, y);
      i', j' := OutermostUnreached(a, b, x, y);
    }
  }

  // ---------------------------------------------------------------- lists that keep their length

  lemma {:induction false} ChangedBehind(a: seq<Tree>, b: seq<Tree>, w: Cursor, i: nat, j: nat)
    requires Within(a, b, w) && Changed(a, b, w, i, j)
    ensures j >= w.bi
    decreases Left(a, b, w)
  {
    hide TreeEq;
    if NextMove(a, b, w) != Alter || w.ai != i || w.bi != j {
      ChangedBehind(a, b, Advance(a, b, w), i, j);
    }
  }

  /** The cleaning of a change meets the child at its index once. */
  lemma {:induction false} CleansOnce(tag: string, a: seq<Tree>, b: seq<Tree>, w: Cursor, list: seq<Tree>, i: nat, j: nat)
    requires Within(a, b, w) && Changed(a, b, w, i, j) && tag != "" && i < |a| && j < |b| && j < |list|
    requires ListRun(Clean, list, OpsFor(Clean, tag, a, b, w), false).Some?
    ensures var r := ListRun(Clean, list, OpsFor(Clean, tag, a, b, w), false).value;
            |r| == |list| && Clear(list[j], Diff(a[i], b[j])) == Some(r[j])
    decreases Left(a, b, w)
  {
    hide Apply, Clear, Diff, TreeEq;
    var w' := Advance(a, b, w);
    var ops := OpsFor(Clean, tag, a, b, w');
    if NextMove(a, b, w) == Alter {
      var op := Op(tag, w.bi, Diff(a[w.ai], b[w.bi]));
      ListRunCons(Clean, list, op, ops, false);
      var l := ListStep(Clean, list, op, false).value;
      if w.ai == i && w.bi == j {
        forall i': nat, j': nat | Changed(a, b, w', i', j')
          ensures j' != j
        {
          ChangedBehind(a, b, w', i', j');
        }
        CleansElsewhere(tag, a, b, w', l, j);
      } else {
        ChangedBehind(a, b, w', i, j);
        CleansOnce(tag, a, b, w', l, i, j);
      }
    } else {
      assert OpsFor(Clean, tag, a, b, w) == ops;
      CleansOnce(tag, a, b, w', list, i, j);
    }
  }

  /** Cleaning leaves no mark on the node itself. */
  lemma ClearUnmarks(t: Tree, d: Tree)
    requires Clear(t, d).Some?
    ensures TRACK !in Clear(t, d).value.values
  {
    hide Run, DiffOps;
  }

  lemma {:induction false} PairUndone(a: Tree, c: Tree, tag: string, i: nat, j: nat)
    requires Undone(a, c) && tag != "" && |ListOf(a.kids, tag)| == |ListOf(c.kids, tag)|
    requires Changed(ListOf(a.kids, tag), ListOf(c.kids, tag), START, i, j)
    ensures i < |ListOf(a.kids, tag)| && j < |ListOf(c.kids, tag)|
    ensures Undone(ListOf(a.kids, tag)[i], ListOf(c.kids, tag)[j])
  {
    hide Apply, Clear, Diff, ListOf, ListRun, After, Changed, Reached, Patch;
    var la, lc := ListOf(a.kids, tag), ListOf(c.kids, tag);
    ChangedInRange(la, lc, START, i, j);
    var x, y := la[i], lc[j];
    ChangeOffset(la, lc, START, i, j);
    CleanedChild(a, c, tag, i, j);
    PlainAt(a, c, tag, i, j);
    PatchBoth(tag, x, y);
    ClearUnmarks(Patch(tag, x, y, true), Diff(x, y));
    var z := Clear(Patch(tag, x, y, true), Diff(x, y)).value;
    assert z.values - {TRACK} == z.values;
  }

  lemma PatchBoth(tag: string, x: Tree, y: Tree)
    requires tag != ""
    ensures Apply(y, Diff(x, y), true) == Some(Patch(tag, x, y, true))
    ensures Apply(y, Diff(x, y), false) == Some(Patch(tag, x, y, false))
  {
    hide Apply, Diff, Stages;
    var k1, k2, k3 := TrackedStages(x, y);
    StagesApply(x, y, true, k1, k2, k3);
    PatchLists(x, y);
  }

  lemma {:induction false} PlainAt(a: Tree, c: Tree, tag: string, i: nat, j: nat)
    requires Changed(ListOf(a.kids, tag), ListOf(c.kids, tag), START, i, j)
    ensures i < |ListOf(a.kids, tag)| && j < |ListOf(c.kids, tag)| && Apply(c, Diff(a, c), false).Some?
    ensures var list := ListOf(Apply(c, Diff(a, c), false).value.kids, tag);
            i < |list| && list[i] == Patch(tag, ListOf(a.kids, tag)[i], ListOf(c.kids, tag)[j], false)
  {
    hide Apply, Diff, ListOf, After, Changed, Patch;
    PatchLists(a, c);
    ChangedEndsAt(tag, ListOf(a.kids, tag), ListOf(c.kids, tag), START, i, j, false);
  }

  /** On a list that keeps its length every changed child is cleaned with its own edits. */
  lemma {:induction false} CleanedChild(a: Tree, c: Tree, tag: string, i: nat, j: nat)
    requires tag != "" && |ListOf(a.kids, tag)| == |ListOf(c.kids, tag)|
    requires Changed(ListOf(a.kids, tag), ListOf(c.kids, tag), START, i, j)
    requires Apply(c, Diff(a, c), true).Some? && Clear(Apply(c, Diff(a, c), true).value, Diff(a, c)).Some?
    ensures i < |ListOf(a.kids, tag)| && j < |ListOf(c.kids, tag)|
    ensures var list := ListOf(Clear(Apply(c, Diff(a, c), true).value, Diff(a, c)).value.kids, tag);
            var x, y := ListOf(a.kids, tag)[i], ListOf(c.kids, tag)[j];
            var z := Clear(Patch(tag, x, y, true), Diff(x, y));
            j < |list| && z.Some? && list[j] == Unmarked(z.value)
  {
    hide Apply, Clear, Diff, ListOf, ListRun, After, Stages, Run, DiffOps, Changed, Patch;
    var la, lc := ListOf(a.kids, tag), ListOf(c.kids, tag);
    ChangedInRange(la, lc, START, i, j);
    ChangeOffset(la, lc, START, i, j);
    var k1, k2, k3 := TrackedStages(a, c);
    StagesApply(a, c, true, k1, k2, k3);
    var d := Diff(a, c);
    ClearParts(Apply(c, d, true).value, d);
    var k4 := Run(Delete, k3, DiffOps(d, Delete).value, false).value;
    var k5 := Run(Clean, k4, DiffOps(d, Clean).value, false).value;
    PhaseOnLists(Delete, a, c, k3, false);
    PhaseOnLists(Clean, a, c, k4, false);
    InEntities(a, c, tag);
    NoDeletes(tag, la, lc, START, true);
    NoRun(ListOf(k3, tag), true);
    NoRun(ListOf(k2, tag), true);
    NoRun(ListOf(k3, tag), false);
    ChangedEndsAt(tag, la, lc, START, i, j, true);
    assert ListOf(k4, tag) == After(Delete, tag, la, lc, START, true);
    CleansOnce(tag, la, lc, START, ListOf(k4, tag), i, j);
    UnmarkedKidsLists(k5, tag);
  }

  lemma NoRun(list: seq<Tree>, track: bool)
    ensures ListRun(Delete, list, [], track) == Some(list)
  {
  }

  lemma ClearParts(t: Tree, d: Tree)
    requires Clear(t, d).Some?
    ensures DiffOps(d, Delete).Some? && DiffOps(d, Clean).Some?
    ensures Run(Delete, t.kids, DiffOps(d, Delete).value, false).Some?
    ensures var k4 := Run(Delete, t.kids, DiffOps(d, Delete).value, false).value;
            && Run(Clean, k4, DiffOps(d, Clean).value, false).Some?
            && Clear(t, d).value.kids == UnmarkedKids(Run(Clean, k4, DiffOps(d, Clean).value, false).value)
  {
    hide Run, DiffOps, UnmarkedKids;
  }

  // ---------------------------------------------------------------- the exact condition

  /** A named tag with insertions or deletions has no change that edits children, or has one that no
      cleaning reaches; and so on inside the changed children of lists that keep their length. Only where
      every such change is cleaned with the edits of another is the outcome not settled by the tag alone. */
  ghost predicate Settled(a: Tree, c: Tree)
    decreases SizeAll(a.kids) + SizeAll(c.kids), 1
  {
    forall tag :: TagSettled(a, c, tag)
  }

  ghost predicate TagSettled(a: Tree, c: Tree, tag: string)
    decreases SizeAll(a.kids) + SizeAll(c.kids), 0
  {
    SizeOfListed(a.kids, tag);
    SizeOfListed(c.kids, tag);
    var la, lc := ListOf(a.kids, tag), ListOf(c.kids, tag);
    tag != "" ==>
      if |la| == |lc| then
        forall i, j | 0 <= i < |la| && 0 <= j < |lc| && Changed(la, lc, START, i, j) :: Settled(la[i], lc[j])
      else
        || (forall i, j | 0 <= i < |la| && 0 <= j < |lc| && Changed(la, lc, START, i, j) :: !EditsChildren(la[i], lc[j]))
        || (exists i, j :: 0 <= i < |la| && 0 <= j < |lc| && Unreached(la, lc, i, j) && EditsChildren(la[i], lc[j]))
  }

  /** For unmarked trees, cleaning the tracked patch gives the plain patch if and only if the patch is
      trackable. */
  lemma {:induction false} TrackedExact(a: Tree, c: Tree)
    requires NoMarks(a) && NoMarks(c) && Settled(a, c)
    ensures Undone(a, c) <==> Trackable(a, c)
    decreases Size(a) + Size(c)
  {
    hide Apply, Clear, Diff, Undone, NoMarks, Changed, EditsChildren;
    if Trackable(a, c) {
      TrackedPatch(a, c);
    }
    if Undone(a, c) {
      forall tag
        ensures TagTrackable(a, c, tag)
      {
        assert TagSettled(a, c, tag);
        if tag != "" {
          var la, lc := ListOf(a.kids, tag), ListOf(c.kids, tag);
          SizeOfListed(a.kids, tag);
          SizeOfListed(c.kids, tag);
          NoMarksBelow(a, tag);
          NoMarksBelow(c, tag);
          if |la| == |lc| {
            forall i, j | 0 <= i < |la| && 0 <= j < |lc| && Changed(la, lc, START, i, j)
              ensures Trackable(la[i], lc[j])
            {
              PairUndone(a, c, tag, i, j);
              TrackedExact(la[i], lc[j]);
            }
          } else {
            UnequalNeeds(a, c, tag);
          }
        }
      }
    }
  }

  lemma {:induction false} UnequalNeeds(a: Tree, c: Tree, tag: string)
    requires NoMarks(a) && NoMarks(c) && Undone(a, c) && tag != "" && TagSettled(a, c, tag)
    requires |ListOf(a.kids, tag)| != |ListOf(c.kids, tag)|
    ensures TagTrackable(a, c, tag)
  {
    hide Apply, Clear, Diff, NoMarks, Changed, EditsChildren, ListOf;
    var la, lc := ListOf(a.kids, tag), ListOf(c.kids, tag);
    forall i, j | 0 <= i < |la| && 0 <= j < |lc| && Unreached(la, lc, i, j)
      ensures !EditsChildren(la[i], lc[j])
    {
      if EditsChildren(la[i], lc[j]) {
        UnreachedSurvives(a, c, tag, i, j);
      }
    }
    forall i, j | 0 <= i < |la| && 0 <= j < |lc| && Changed(la, lc, START, i, j)
      ensures j < |la| && !EditsChildren(la[i], lc[j]) && Trackable(la[i], lc[j])
    {
      if j >= |la| {
        ChangePastTheEndThrows(a, c, tag, i, j);
      }
      IdleTrackable(la[i], lc[j]);
    }
  }

  lemma IdleTrackable(x: Tree, y: Tree)
    requires !EditsChildren(x, y)
    ensures Trackable(x, y)
  {
    hide Changed;
    forall tag
      ensures TagTrackable(x, y, tag)
    {
      assert !TagEdited(x, y, tag);
    }
  }

  /** Every change under a named tag edits children, at every depth. */
  ghost predicate Deep(a: Tree, c: Tree)
    decreases SizeAll(a.kids) + SizeAll(c.kids), 1
  {
    forall tag :: TagDeep(a, c, tag)
  }

  ghost predicate TagDeep(a: Tree, c: Tree, tag: string)
    decreases SizeAll(a.kids) + SizeAll(c.kids), 0
  {
    SizeOfListed(a.kids, tag);
    SizeOfListed(c.kids, tag);
    var la, lc := ListOf(a.kids, tag), ListOf(c.kids, tag);
    tag != "" ==> forall i, j | 0 <= i < |la| && 0 <= j < |lc| && Changed(la, lc, START, i, j) ::
      EditsChildren(la[i], lc[j]) && Deep(la[i], lc[j])
  }

  /** Such a diff is settled, so its tracking can be undone exactly when no named tag has a change next to
      an insertion or deletion, at any depth. */
  lemma {:induction false} DeepSettled(a: Tree, c: Tree)
    requires Deep(a, c)
    ensures Settled(a, c) && (Trackable(a, c) <==> Even(a, c))
    decreases Size(a) + Size(c)
  {
    hide Changed, EditsChildren;
    forall tag
      ensures TagSettled(a, c, tag) && (TagTrackable(a, c, tag) <==> TagEven(a, c, tag))
    {
      assert TagDeep(a, c, tag);
      var la, lc := ListOf(a.kids, tag), ListOf(c.kids, tag);
      SizeOfListed(a.kids, tag);
      SizeOfListed(c.kids, tag);
      forall i, j | 0 <= i < |la| && 0 <= j < |lc| && Changed(la, lc, START, i, j) && tag != ""
        ensures Settled(la[i], lc[j]) && (Trackable(la[i], lc[j]) <==> Even(la[i], lc[j]))
      {
        DeepSettled(la[i], lc[j]);
      }
      if |la| != |lc| && tag != "" {
        forall i, j | 0 <= i < |la| && 0 <= j < |lc| && Changed(la, lc, START, i, j)
          ensures exists i', j' :: 0 <= i' < |la| && 0 <= j' < |lc| && Unreached(la, lc, i', j') && EditsChildren(la[i'], lc[j'])
        {
          var x, y := OutermostUnreached(la, lc, i, j);
          assert Unreached(la, lc, x, y);
        }
      }
    }
  }

  /** No named tag has a change next to an insertion or deletion. */
  ghost predicate Even(a: Tree, c: Tree)
    decreases SizeAll(a.kids) + SizeAll(c.kids), 1
  {
    forall tag :: TagEven(a, c, tag)
  }

  ghost predicate TagEven(a: Tree, c: Tree, tag: string)
    decreases SizeAll(a.kids) + SizeAll(c.kids), 0
  {
    SizeOfListed(a.kids, tag);
    SizeOfListed(c.kids, tag);
    var la, lc := ListOf(a.kids, tag), ListOf(c.kids, tag);
    tag != "" ==> forall i, j | 0 <= i < |la| && 0 <= j < |lc| && Changed(la, lc, START, i, j) ::
      |la| == |lc| && Even(la[i], lc[j])
  }

  lemma DeepExact(a: Tree, c: Tree)
    requires NoMarks(a) && NoMarks(c) && Deep(a, c)
    ensures Undone(a, c) <==> Even(a, c)
  {
    DeepSettled(a, c);
    TrackedExact(a, c);
  }

  // ---------------------------------------------------------------- inputs

  /** The smallest such case: one child becomes two, and the one that stays loses its own child. */
  lemma {:induction false} TrackedPatchCanFail()
    ensures var leaf := Node(map[], []);
            var a := Node(map[], [Kid("t", leaf), Kid("t", Node(map["k" := Num(1)], []))]);
            var c := Node(map[], [Kid("t", Node(map[], [Kid("u", leaf)]))]);
            NoMarks(a) && NoMarks(c) && !Undone(a, c)
  {
    hide Apply, Clear, Diff, Undone;
    var leaf: Tree := Node(map[], []);
    var x, y := Node(map["k" := Num(1)], []), Node(map[], [Kid("u", leaf)]);
    var a, c := Node(map[], [Kid("t", leaf), Kid("t", x)]), Node(map[], [Kid("t", y)]);
    assert a.kids[..1] == [Kid("t", leaf)] && a.kids[..1][..0] == [] && c.kids[..0] == [] && y.kids[..0] == [];
    assert ListOf(a.kids, "t") == [leaf, x] && ListOf(c.kids, "t") == [y];
    var la, lc := [leaf, x], [y];
    assert NextMove(la, lc, START) == Add && NextMove(la, lc, Cursor(1, 0, 0)) == Alter;
    assert Changed(la, lc, START, 1, 0);
    forall i, j | Changed(la, lc, START, i, j)
      ensures j != 1
    {
      ChangedInRange(la, lc, START, i, j);
    }
    assert |ListOf(x.kids, "u")| == 0 && |ListOf(y.kids, "u")| == 1;
    assert TagEdited(x, y, "u");
    UnreachedSurvives(a, c, "t", 1, 0);
  }

  /** The smallest index past the end: of two children the first goes and the second changes. */
  lemma {:induction false} ChangeAfterDeletionThrows()
    ensures var a := Node(map[], [Kid("t", Node(map["k" := Num(1)], []))]);
            var c := Node(map[], [Kid("t", Node(map[], [])), Kid("t", Node(map["k" := Num(2)], []))]);
            Apply(c, Diff(a, c), true).Some? && Clear(Apply(c, Diff(a, c), true).value, Diff(a, c)) == None
  {
    hide Apply, Clear, Diff;
    var x, leaf, y := Node(map["k" := Num(1)], []), Node(map[], []), Node(map["k" := Num(2)], []);
    var a, c := Node(map[], [Kid("t", x)]), Node(map[], [Kid("t", leaf), Kid("t", y)]);
    assert a.kids[..0] == [] && c.kids[..1] == [Kid("t", leaf)] && c.kids[..1][..0] == [];
    assert ListOf(a.kids, "t") == [x] && ListOf(c.kids, "t") == [leaf, y];
    var la, lc := [x], [leaf, y];
    assert "k" in x.values && "k" !in leaf.values && !ValueEq(x.values["k"], y.values["k"]);
    assert !TreeEq(x, leaf) && !TreeEq(x, y);
    assert NextMove(la, lc, START) == Drop && NextMove(la, lc, Cursor(0, 1, 1)) == Alter;
    assert Changed(la, lc, START, 0, 1);
    ChangePastTheEndThrows(a, c, "t", 0, 1);
  }

  // ---------------------------------------------------------------- outside the settled diffs

  const LEAF: Tree := Node(map[], [])
  const GROWN: Tree := Node(map[], [Kid("u", LEAF)])

  /** A diff that adds one child. */
  lemma {:induction false} GrowsOps(p: Phase)
    ensures DiffOps(Diff(GROWN, LEAF), p) == Some(if p == Insert then [Op("u", 0, LEAF)] else [])
  {
    hide Diff, DiffOps;
    var x, y := GROWN.kids, LEAF.kids;
    assert x[..0] == [] && TagsOf([]) == [];
    assert TagsOf(x) == ["u"] && Entities(x, y) == ["u"] + [];
    ListOfOne(x[0], "u");
    DiffOpsScheduled(p, GROWN, LEAF);
    assert AllOps(p, GROWN, LEAF, ["u"]) == ListOps(p, "u", GROWN, LEAF) + AllOps(p, GROWN, LEAF, []) by {
      assert ["u"][1..] == [];
    }
    GrowsWalk(p);
    assert ListOps(p, "u", GROWN, LEAF) == OpsFor(p, "u", [LEAF], [], START);
    assert AllOps(p, GROWN, LEAF, []) == [];
  }

  lemma GrowsWalk(p: Phase)
    ensures OpsFor(p, "u", [LEAF], [], START) == if p == Insert then [Op("u", 0, LEAF)] else []
  {
    var la: seq<Tree>, lc: seq<Tree> := [LEAF], [];
    assert NextMove(la, lc, START) == Add && Advance(la, lc, START) == Cursor(1, 0, 0);
    assert OpsFor(p, "u", la, lc, Cursor(1, 0, 0)) == [];
    assert MoveOps(p, "u", la, lc, START) == if p == Insert then [Op("u", 0, LEAF)] else [];
  }

  lemma {:induction false} GrowsPatch(track: bool)
    ensures Apply(LEAF, Diff(GROWN, LEAF), track) ==
            Some(Node(ApplyAttrs(if track then map[TRACK := Text("modified")] else map[], Diff(GROWN, LEAF)),
                      [Kid("u", if track then Marked(LEAF, "new") else LEAF)]))
  {
    hide Diff, DiffOps, ApplyAttrs;
    GrowsOps(Change);
    GrowsOps(Insert);
    GrowsOps(Delete);
    var ops := [Op("u", 0, LEAF)];
    var kid := Kid("u", if track then Marked(LEAF, "new") else LEAF);
    assert ops[1..] == [];
    assert ListOf([], "u") == [] && InsertKid([], "u", 0, kid.cfg) == [kid];
    assert Run(Change, [], [], track) == Some([]);
    assert Run(Insert, [kid], [], track) == Some([kid]) && Run(Delete, [kid], [], track) == Some([kid]);
    assert Step(Insert, [], ops[0], track) == Some([kid]);
    assert Run(Insert, [], ops, track) == Some([kid]);
    assert LEAF.values[TRACK := Text("modified")] == map[TRACK := Text("modified")];
  }

  lemma GrowsClear(t: Tree)
    ensures Clear(t, Diff(GROWN, LEAF)) == Some(Node(t.values - {TRACK}, UnmarkedKids(t.kids)))
  {
    hide Diff, DiffOps, UnmarkedKids;
    GrowsOps(Delete);
    GrowsOps(Clean);
  }

  /** Three children where there were two: the second grows a child of its own and is cleaned with the
      attribute change of the third, which takes off just the mark it has. So a diff that is not trackable
      can have its tracking undone, and the assumption of `TrackedExact` cannot be dropped. */
  lemma {:induction false} WrongCleaningCanHelp()
    ensures var a := Node(map[], [Kid("t", Node(map["p" := Num(0)], [])), Kid("t", GROWN), Kid("t", Node(map["k" := Num(1)], []))]);
            var c := Node(map[], [Kid("t", LEAF), Kid("t", Node(map["k" := Num(2)], []))]);
            !Trackable(a, c) && Undone(a, c)
  {
    hide Apply, Clear, Diff, Undone, Trackable;
    var p, x, y := Node(map["p" := Num(0)], []), Node(map["k" := Num(1)], []), Node(map["k" := Num(2)], []);
    var la, lc := [p, GROWN, x], [LEAF, y];
    var a, c := Node(map[], Tagged("t", la)), Node(map[], Tagged("t", lc));
    assert a.kids == [Kid("t", p), Kid("t", GROWN), Kid("t", x)] && c.kids == [Kid("t", LEAF), Kid("t", y)];
    HelpWalk(p, x, y);
    HelpPasses(p, x, y);
    forall tag
      ensures ListOf(a.kids, tag) == (if tag == "t" then la else []) && ListOf(c.kids, tag) == (if tag == "t" then lc else [])
    {
      TaggedLists("t", la, tag);
      TaggedLists("t", lc, tag);
    }
    forall tag
      ensures TagCleans(a, c, tag)
    {
      if tag != "t" {
        TagUndone(a, c, tag);
      }
    }
    TrackedPatchFromTags(a, c);
    ListOfOne(GROWN.kids[0], "u");
    assert TagEdited(GROWN, LEAF, "u");
    NotTrackable(a, c, "t", 1, 0);
  }

  lemma NotTrackable(a: Tree, c: Tree, tag: string, i: nat, j: nat)
    requires tag != "" && |ListOf(a.kids, tag)| != |ListOf(c.kids, tag)| && i < |ListOf(a.kids, tag)| && j < |ListOf(c.kids, tag)|
    requires Changed(ListOf(a.kids, tag), ListOf(c.kids, tag), START, i, j)
    requires EditsChildren(ListOf(a.kids, tag)[i], ListOf(c.kids, tag)[j])
    ensures !Trackable(a, c)
  {
    hide EditsChildren, Changed;
    assert !TagTrackable(a, c, tag);
  }

  lemma {:induction false} HelpWalk(p: Tree, x: Tree, y: Tree)
    requires HelpInput(p, x, y)
    ensures var la, lc := [p, GROWN, x], [LEAF, y];
            && NextMove(la, lc, START) == Add
            && NextMove(la, lc, Cursor(1, 0, 0)) == Alter && NextMove(la, lc, Cursor(2, 1, 0)) == Alter
            && Changed(la, lc, START, 1, 0)
  {
    var la, lc := [p, GROWN, x], [LEAF, y];
    assert "p" in p.values && "p" !in LEAF.values;
    assert |GROWN.kids| != |LEAF.kids| && !ValueEq(x.values["k"], y.values["k"]);
    assert !TreeEq(la[0], lc[0]) && !TreeEq(la[1], lc[0]) && !TreeEq(la[2], lc[1]);
  }

  ghost predicate HelpInput(p: Tree, x: Tree, y: Tree) {
    p == Node(map["p" := Num(0)], []) && x == Node(map["k" := Num(1)], []) && y == Node(map["k" := Num(2)], [])
  }

  lemma HelpAfter(p: Tree, x: Tree, y: Tree, track: bool)
    requires HelpInput(p, x, y)
    ensures After(Insert, "t", [p, GROWN, x], [LEAF, y], START, track) ==
            [if track then Marked(p, "new") else p, Patch("t", GROWN, LEAF, track), Patch("t", x, y, track)]
  {
    hide Apply, Diff, NextMove, TreeEq, Patch, HelpInput;
    var la, lc, tag := [p, GROWN, x], [LEAF, y], "t";
    HelpWalk(p, x, y);
    var w1, w2, w3 := Cursor(1, 0, 0), Cursor(2, 1, 0), Cursor(3, 2, 0);
    assert Advance(la, lc, START) == w1 && Advance(la, lc, w1) == w2 && Advance(la, lc, w2) == w3;
    assert After(Insert, tag, la, lc, w3, track) == [];
    assert After(Insert, tag, la, lc, w2, track) == [Patch(tag, x, y, track)] + [];
    assert After(Insert, tag, la, lc, w1, track) == [Patch(tag, GROWN, LEAF, track)] + [Patch(tag, x, y, track)];
  }

  lemma HelpOps(p: Tree, x: Tree, y: Tree)
    requires HelpInput(p, x, y)
    ensures OpsFor(Clean, "t", [p, GROWN, x], [LEAF, y], START) == [Op("t", 0, Diff(GROWN, LEAF)), Op("t", 1, Diff(x, y))]
  {
    hide Diff, NextMove, TreeEq, HelpInput;
    var la, lc, tag := [p, GROWN, x], [LEAF, y], "t";
    HelpWalk(p, x, y);
    var w1, w2, w3 := Cursor(1, 0, 0), Cursor(2, 1, 0), Cursor(3, 2, 0);
    assert Advance(la, lc, START) == w1 && Advance(la, lc, w1) == w2 && Advance(la, lc, w2) == w3;
    assert OpsFor(Clean, tag, la, lc, w3) == [];
    assert OpsFor(Clean, tag, la, lc, w2) == [Op(tag, 1, Diff(x, y))] + [];
    assert OpsFor(Clean, tag, la, lc, w1) == [Op(tag, 0, Diff(GROWN, LEAF))] + [Op(tag, 1, Diff(x, y))];
    assert OpsFor(Clean, tag, la, lc, START) == [] + OpsFor(Clean, tag, la, lc, w1);
  }

  lemma HelpPasses(p: Tree, x: Tree, y: Tree)
    requires HelpInput(p, x, y)
    ensures var la, lc := [p, GROWN, x], [LEAF, y];
            var tracked := ListRun(Delete, After(Insert, "t", la, lc, START, true), OpsFor(Delete, "t", la, lc, START), true);
            tracked.Some? ==> Passes("t", la, lc, tracked.value)
  {
    hide Apply, Clear, Diff, NextMove, TreeEq, Patch, After, OpsFor, ListRun, UnmarkedList, HelpInput;
    var la, lc := [p, GROWN, x], [LEAF, y];
    NoDeletes("t", la, lc, START, true);
    NoDeletes("t", la, lc, START, false);
    HelpAfter(p, x, y, true);
    HelpAfter(p, x, y, false);
    HelpOps(p, x, y);
    var t1, t2 := Patch("t", GROWN, LEAF, true), Patch("t", x, y, true);
    HelpSteps(p, x, y, t1, t2);
    NoRun([Marked(p, "new"), t1, t2], true);
    NoRun([Marked(p, "new"), t1, t2], false);
  }

  lemma {:induction false} HelpSteps(p: Tree, x: Tree, y: Tree, t1: Tree, t2: Tree)
    requires HelpInput(p, x, y)
    requires t1 == Patch("t", GROWN, LEAF, true) && t2 == Patch("t", x, y, true)
    ensures var r := ListRun(Clean, [Marked(p, "new"), t1, t2], [Op("t", 0, Diff(GROWN, LEAF)), Op("t", 1, Diff(x, y))], false);
            r.Some? && UnmarkedList(r.value) == [p, Patch("t", GROWN, LEAF, false), Patch("t", x, y, false)]
  {
    hide Apply, Clear, Diff, ApplyAttrs, ListOf;
    var q := Marked(p, "new");
    var op1, op2 := Op("t", 0, Diff(GROWN, LEAF)), Op("t", 1, Diff(x, y));
    NothingEdited(x, y);
    LightPatch("t", x, y);
    AttributesOnly(x, y, t1);
    GrowsClear(q);
    GrownUnmarked(t1);
    var z := Patch("t", GROWN, LEAF, false);
    assert q.values - {TRACK} == p.values && UnmarkedKids([]) == [];
    assert [op1, op2] == [op1] + [op2];
    ListRunCons(Clean, [q, t1, t2], op1, [op2], false);
    assert Clear(q, Diff(GROWN, LEAF)) == Some(p);
    assert [q, t1, t2][0] == q && [q, t1, t2][0 := p] == [p, t1, t2];
    assert ListStep(Clean, [q, t1, t2], op1, false) == Some([p, t1, t2]);
    assert [op2] == [op2] + [];
    ListRunCons(Clean, [p, t1, t2], op2, [], false);
    assert [p, t1, t2][1] == t1 && [p, t1, t2][1 := z] == [p, z, t2];
    assert ListStep(Clean, [p, t1, t2], op2, false) == Some([p, z, t2]);
    UnmarkPlain([p, z]);
    assert UnmarkedList([p, z])[0] == Unmarked(p) && UnmarkedList([p, z])[1] == Unmarked(z);
  }

  lemma NothingEdited(x: Tree, y: Tree)
    requires x.kids == [] && y.kids == []
    ensures !EditsChildren(x, y)
  {
  }

  lemma {:induction false} GrownUnmarked(t1: Tree)
    requires t1 == Patch("t", GROWN, LEAF, true)
    ensures var z := Patch("t", GROWN, LEAF, false);
            z == Node(t1.values - {TRACK}, UnmarkedKids(t1.kids)) && TRACK !in z.values
  {
    hide Apply, Diff, ApplyAttrs;
    GrowsPatch(true);
    GrowsPatch(false);
    PatchPlain(GROWN, LEAF);
    assert LEAF.values[TRACK := Text("modified")] == map[TRACK := Text("modified")];
    UnmarkMarked(LEAF, "new");
    UnmarkPlain([LEAF]);
    assert UnmarkedList([LEAF])[0] == Unmarked(LEAF);
  }
}
