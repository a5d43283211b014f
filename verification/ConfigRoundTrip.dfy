/** Applying a diff to its base rebuilds the target: `b.apply_diff(a.get_diff(b))` makes `b` like `a`. */
module ConfigRoundTrip {
  import opened ConfigTree
  import opened ConfigDiff

  // ---------------------------------------------------------------- edits act on one list at a time

  /** The effect of one edit on the child list of its own tag. */
  ghost function ListStep(p: Phase, list: seq<Tree>, op: Op, track: bool): Option<seq<Tree>> {
    match p
    case Change =>
      if op.tag == "" then Some(list)
      else if op.index >= |list| then None
      else
        var c :- Apply(list[op.index], op.cfg, track);
        Some(list[op.index := c])
    case Insert =>
      if op.index > |list| then None
      else Some(list[..op.index] + [if track then Marked(op.cfg, "new") else op.cfg] + list[op.index..])
    case Delete =>
      if op.index >= |list| then if track then None else Some(list)
      else if track then Some(list[op.index := Marked(list[op.index], "deleted")])
      else Some(list[..op.index] + list[op.index + 1..])
    case Clean =>
      if op.tag == "" then Some(list)
      else if op.index >= |list| then None
      else
        var c :- Clear(list[op.index], op.cfg);
        Some(list[op.index := c])
  }

  ghost function ListRun(p: Phase, list: seq<Tree>, ops: seq<Op>, track: bool): Option<seq<Tree>>
    decreases |ops|
  {
    if ops == [] then Some(list)
    else
      var l :- ListStep(p, list, ops[0], track);
      ListRun(p, l, ops[1..], track)
  }

  lemma {:induction false} StepLists(p: Phase, kids: seq<Kid>, op: Op, track: bool, t: string)
    ensures Step(p, kids, op, track).Some? <==> ListStep(p, ListOf(kids, op.tag), op, track).Some?
    ensures Step(p, kids, op, track).Some? ==>
              ListOf(Step(p, kids, op, track).value, t) ==
              if t == op.tag then ListStep(p, ListOf(kids, op.tag), op, track).value else ListOf(kids, t)
  {
    hide ListOf, Find, Apply, Clear, InsertKid, UpdateKid;
    var list := ListOf(kids, op.tag);
    match p
    case Change =>
      if op.tag != "" && op.index < |list| && Apply(list[op.index], op.cfg, track).Some? {
        UpdateKidLists(kids, op.tag, op.index, Apply(list[op.index], op.cfg, track).value, t);
      }
    case Insert =>
      if op.index <= |list| {
        InsertKidLists(kids, op.tag, op.index, if track then Marked(op.cfg, "new") else op.cfg, t);
      }
    case Delete =>
      if op.index < |list| {
        RemoveKidLists(kids, op.tag, op.index, t);
        UpdateKidLists(kids, op.tag, op.index, Marked(list[op.index], "deleted"), t);
      }
    case Clean =>
      if op.tag != "" && op.index < |list| && Clear(list[op.index], op.cfg).Some? {
        UpdateKidLists(kids, op.tag, op.index, Clear(list[op.index], op.cfg).value, t);
      }
  }

  /** Edits of one tag run on the list of that tag and leave the other lists alone. */
  lemma {:induction false} RunOneTag(p: Phase, kids: seq<Kid>, ops: seq<Op>, tag: string, track: bool, t: string)
    requires forall i :: 0 <= i < |ops| ==> ops[i].tag == tag
    ensures Run(p, kids, ops, track).Some? <==> ListRun(p, ListOf(kids, tag), ops, track).Some?
    ensures Run(p, kids, ops, track).Some? ==>
              ListOf(Run(p, kids, ops, track).value, t) ==
              if t == tag then ListRun(p, ListOf(kids, tag), ops, track).value else ListOf(kids, t)
    decreases |ops|
  {
    if ops != [] {
      StepLists(p, kids, ops[0], track, t);
      StepLists(p, kids, ops[0], track, tag);
      if Step(p, kids, ops[0], track).Some? {
        RunOneTag(p, Step(p, kids, ops[0], track).value, ops[1..], tag, track, t);
      }
    }
  }

  lemma {:induction false} RunConcat(p: Phase, kids: seq<Kid>, x: seq<Op>, y: seq<Op>, track: bool)
    ensures Run(p, kids, x + y, track) ==
            if Run(p, kids, x, track).None? then None else Run(p, Run(p, kids, x, track).value, y, track)
    decreases |x|
  {
    if x == [] {
      assert x + y == y;
    } else {
      assert (x + y)[0] == x[0] && (x + y)[1..] == x[1..] + y;
      if Step(p, kids, x[0], track).Some? {
        RunConcat(p, Step(p, kids, x[0], track).value, x[1..], y, track);
      }
    }
  }

  // ---------------------------------------------------------------- the edits of one list

  /** The operation one step of the walk contributes to a phase. */
  ghost function MoveOps(p: Phase, tag: string, a: seq<Tree>, b: seq<Tree>, w: Cursor): seq<Op>
    requires Within(a, b, w) && !Done(a, b, w)
  {
    match NextMove(a, b, w)
    case Keep => []
    case Drop => if p == Delete then [Op(tag, w.bi - w.nd, EMPTY)] else []
    case Add => if p == Insert then [Op(tag, w.ai, a[w.ai])] else []
    case Alter => if p == Change || p == Clean then [Op(tag, w.bi, Diff(a[w.ai], b[w.bi]))] else []
  }

  ghost function OpsFor(p: Phase, tag: string, a: seq<Tree>, b: seq<Tree>, w: Cursor): seq<Op>
    requires Within(a, b, w)
    decreases Left(a, b, w)
  {
    if Done(a, b, w) then []
    else MoveOps(p, tag, a, b, w) + OpsFor(p, tag, a, b, Advance(a, b, w))
  }

  ghost function ListOps(p: Phase, tag: string, a: Tree, c: Tree): seq<Op> {
    OpsFor(p, tag, ListOf(a.kids, tag), ListOf(c.kids, tag), START)
  }

  ghost function AllOps(p: Phase, a: Tree, c: Tree, tags: seq<string>): seq<Op> {
    if tags == [] then [] else ListOps(p, tags[0], a, c) + AllOps(p, a, c, tags[1..])
  }

  lemma {:induction false} OpsForTag(p: Phase, tag: string, a: seq<Tree>, b: seq<Tree>, w: Cursor)
    requires Within(a, b, w)
    ensures forall i :: 0 <= i < |OpsFor(p, tag, a, b, w)| ==> OpsFor(p, tag, a, b, w)[i].tag == tag
    decreases Left(a, b, w)
  {
    if !Done(a, b, w) {
      OpsForTag(p, tag, a, b, Advance(a, b, w));
      var m := MoveOps(p, tag, a, b, w);
      assert forall i :: 0 <= i < |m| ==> m[i].tag == tag;
    }
  }

  lemma {:induction false} OpsConcat(x: seq<Tree>, y: seq<Tree>)
    requires Ops(x).Some? && Ops(y).Some?
    ensures Ops(x + y) == Some(Ops(x).value + Ops(y).value)
    decreases |x|
  {
    if x == [] {
      assert x + y == y;
      assert [] + Ops(y).value == Ops(y).value;
    } else {
      assert (x + y)[0] == x[0] && (x + y)[1..] == x[1..] + y;
      OpsConcat(x[1..], y);
      var h := ItemOps(IndexOf(Get(x[0].values, "index")).value, x[0].kids);
      assert h + (Ops(x[1..]).value + Ops(y).value) == (h + Ops(x[1..]).value) + Ops(y).value;
    }
  }

  /** Reading back one emitted edit. */
  lemma {:induction false} EditOps(p: Phase, q: Phase, tag: string, index: nat, c: Tree)
    ensures Ops(ListOf([Edit(p, tag, index, c)], EditTag(q))) ==
            Some(if EditTag(p) == EditTag(q) then [Op(tag, index, c)] else [])
  {
    var e := Edit(p, tag, index, c);
    ListOfOne(e, EditTag(q));
    hide Size, ListOf;
    if EditTag(p) == EditTag(q) {
      assert ItemOps(index, e.cfg.kids) == [Op(tag, index, c)];
      assert [e.cfg][1..] == [] && [Op(tag, index, c)] + [] == [Op(tag, index, c)];
    }
  }

  lemma NoOps(tag: string)
    ensures Ops(ListOf([], tag)) == Some([])
  {
  }

  lemma {:induction false} MoveEditsOps(p: Phase, tag: string, a: seq<Tree>, b: seq<Tree>, w: Cursor)
    requires Within(a, b, w) && !Done(a, b, w)
    ensures Ops(ListOf(MoveEdits(tag, a, b, w), EditTag(p))) == Some(MoveOps(p, tag, a, b, w))
  {
    hide Diff, TreeEq, Ops, ListOf;
    match NextMove(a, b, w)
    case Keep => NoOps(EditTag(p));
    case Drop => EditOps(Delete, p, tag, w.bi - w.nd, EMPTY);
    case Add => EditOps(Insert, p, tag, w.ai, a[w.ai]);
    case Alter => EditOps(Change, p, tag, w.bi, Diff(a[w.ai], b[w.bi]));
  }

  /** Reading back the edits of one list gives the scheduled operations. */
  lemma {:induction false} ListEditsOps(p: Phase, tag: string, a: seq<Tree>, b: seq<Tree>, w: Cursor)
    requires Within(a, b, w)
    ensures Ops(ListOf(ListEdits(tag, a, b, w), EditTag(p))) == Some(OpsFor(p, tag, a, b, w))
    decreases Left(a, b, w)
  {
    if !Done(a, b, w) {
      var w' := Advance(a, b, w);
      ListEditsOps(p, tag, a, b, w');
      MoveEditsOps(p, tag, a, b, w);
      var x, y := MoveEdits(tag, a, b, w), ListEdits(tag, a, b, w');
      ListOfConcat(x, y, EditTag(p));
      OpsConcat(ListOf(x, EditTag(p)), ListOf(y, EditTag(p)));
    }
  }

  lemma {:induction false} EntityEditsOps(p: Phase, a: Tree, c: Tree, tags: seq<string>)
    ensures Ops(ListOf(EntityEdits(a, c, tags), EditTag(p))) == Some(AllOps(p, a, c, tags))
  {
    if tags != [] {
      var la, lc := ListOf(a.kids, tags[0]), ListOf(c.kids, tags[0]);
      ListEditsOps(p, tags[0], la, lc, START);
      EntityEditsOps(p, a, c, tags[1..]);
      var head, rest := ListEdits(tags[0], la, lc, START), EntityEdits(a, c, tags[1..]);
      ListOfConcat(head, rest, EditTag(p));
      OpsConcat(ListOf(head, EditTag(p)), ListOf(rest, EditTag(p)));
    }
  }

  /** Child edits never carry the tags of the attribute edits. */
  lemma {:induction false} EntityEditsTags(a: Tree, c: Tree, tags: seq<string>, t: string)
    requires t == "insert" || t == "delete"
    ensures ListOf(EntityEdits(a, c, tags), t) == []
  {
    if tags != [] {
      var la, lc := ListOf(a.kids, tags[0]), ListOf(c.kids, tags[0]);
      ListEditsTags(tags[0], la, lc, START, t);
      EntityEditsTags(a, c, tags[1..], t);
      ListOfConcat(ListEdits(tags[0], la, lc, START), EntityEdits(a, c, tags[1..]), t);
    }
  }

  lemma {:induction false} ListEditsTags(tag: string, a: seq<Tree>, b: seq<Tree>, w: Cursor, t: string)
    requires Within(a, b, w)
    requires t == "insert" || t == "delete"
    ensures ListOf(ListEdits(tag, a, b, w), t) == []
    decreases Left(a, b, w)
  {
    if !Done(a, b, w) {
      ListEditsTags(tag, a, b, Advance(a, b, w), t);
      var m := MoveEdits(tag, a, b, w);
      assert ListOf(m, t) == [] by {
        if m != [] {
          ListOfOne(m[0], t);
          assert m == [m[0]];
        }
      }
      ListOfConcat(m, ListEdits(tag, a, b, Advance(a, b, w)), t);
    }
  }

  /** The child edits of a diff, read back, are the scheduled operations tag by tag. */
  lemma {:induction false} DiffOpsScheduled(p: Phase, a: Tree, c: Tree)
    ensures DiffOps(Diff(a, c), p) == Some(AllOps(p, a, c, Entities(a.kids, c.kids)))
  {
    var x, y := AttrEdits(a.values, c.values), EntityEdits(a, c, Entities(a.kids, c.kids));
    EntityEditsOps(p, a, c, Entities(a.kids, c.kids));
    AttrEditsLists(a.values, c.values, EditTag(p));
    ListOfConcat(x, y, EditTag(p));
    assert [] + ListOf(y, EditTag(p)) == ListOf(y, EditTag(p));
  }

  lemma {:induction false} AttrEditsLists(a: Attrs, c: Attrs, t: string)
    ensures ListOf(AttrEdits(a, c), t) ==
            if t == "insert" && AttrInserts(a, c) != map[] then [Node(AttrInserts(a, c), [])]
            else if t == "delete" && AttrDeletes(a, c) != map[] then [Node(AttrDeletes(a, c), [])]
            else []
  {
    var ins, del := Kid("insert", Node(AttrInserts(a, c), [])), Kid("delete", Node(AttrDeletes(a, c), []));
    ListOfOne(ins, t);
    ListOfOne(del, t);
    ListOfConcat(if AttrInserts(a, c) == map[] then [] else [ins],
                 if AttrDeletes(a, c) == map[] then [] else [del], t);
  }

  // ---------------------------------------------------------------- attributes

  lemma {:induction false} AttrsRoundTrip(a: Attrs, c: Attrs)
    ensures AttrsSimilar(c + AttrInserts(a, c) - AttrDeletes(a, c).Keys, a)
  {
  }

  /** Attribute edits are found in a diff, whatever its child edits are. */
  lemma {:induction false} DiffAttrLists(a: Tree, c: Tree, t: string)
    requires t == "insert" || t == "delete"
    ensures ListOf(Diff(a, c).kids, t) == ListOf(AttrEdits(a.values, c.values), t)
  {
    var ents := Entities(a.kids, c.kids);
    EntityEditsTags(a, c, ents, t);
    ListOfConcat(AttrEdits(a.values, c.values), EntityEdits(a, c, ents), t);
  }

  lemma {:induction false} AssignEraseOnce(values: Attrs, ins: Attrs, del: Attrs)
    ensures AssignErase(values, if ins == map[] then [] else [Node(ins, [])], if del == map[] then [] else [Node(del, [])])
            == values + ins - del.Keys
  {
    assert ins == map[] ==> values + ins == values;
    assert del == map[] ==> values + ins - del.Keys == values + ins;
  }

  lemma {:induction false} AttrsPatched(a: Tree, c: Tree, values: Attrs)
    ensures ApplyAttrs(values, Diff(a, c)) ==
            values + AttrInserts(a.values, c.values) - AttrDeletes(a.values, c.values).Keys
  {
    DiffAttrLists(a, c, "insert");
    DiffAttrLists(a, c, "delete");
    AttrEditsLists(a.values, c.values, "insert");
    AttrEditsLists(a.values, c.values, "delete");
    AssignEraseOnce(values, AttrInserts(a.values, c.values), AttrDeletes(a.values, c.values));
  }

  // ---------------------------------------------------------------- one list through the phases

  /** What becomes of a child `y` that a [change_child] edit turns towards `x`; the loop over the
      edits skips an empty tag. */
  ghost function Patch(tag: string, x: Tree, y: Tree, track: bool): Tree {
    var r := Apply(y, Diff(x, y), track);
    if tag == "" || r.None? then y else r.value
  }

  /** What one step of the walk contributes to the list once phase `p` is over. */
  ghost function MoveKeeps(p: Phase, tag: string, a: seq<Tree>, b: seq<Tree>, w: Cursor,
                           track: bool): (keeps: seq<Tree>)
    requires Within(a, b, w) && !Done(a, b, w)
    ensures p == Change ==> |keeps| == Advance(a, b, w).bi - w.bi
  {
    match NextMove(a, b, w)
    case Keep => [b[w.bi]]
    case Drop => if p == Delete then [] else [b[w.bi]]
    case Add => if p == Change then [] else [if track then Marked(a[w.ai], "new") else a[w.ai]]
    case Alter => [Patch(tag, a[w.ai], b[w.bi], track)]
  }

  /** The list `b[bi..]` once phase `p` (Change, then Insert, then Delete) is over. */
  ghost function After(p: Phase, tag: string, a: seq<Tree>, b: seq<Tree>, w: Cursor, track: bool): seq<Tree>
    requires Within(a, b, w)
    decreases Left(a, b, w)
  {
    if Done(a, b, w) then []
    else MoveKeeps(p, tag, a, b, w, track) + After(p, tag, a, b, Advance(a, b, w), track)
  }

  /** Every child of `b` can be patched towards every child of `a`. */
  ghost predicate Patchable(tag: string, a: seq<Tree>, b: seq<Tree>, track: bool) {
    tag != "" ==> forall i, j :: 0 <= i < |a| && 0 <= j < |b| ==> Apply(b[j], Diff(a[i], b[j]), track).Some?
  }

  lemma {:induction false} ListRunCons(p: Phase, list: seq<Tree>, op: Op, ops: seq<Op>, track: bool)
    ensures ListRun(p, list, [op] + ops, track) ==
            if ListStep(p, list, op, track).None? then None
            else ListRun(p, ListStep(p, list, op, track).value, ops, track)
  {
    assert ([op] + ops)[1..] == ops;
  }

  /** Moving the first element of the rest to the done part. */
  lemma {:induction false} Shift<T>(pre: seq<T>, x: T, rest: seq<T>)
    ensures pre + ([x] + rest) == (pre + [x]) + rest
    ensures forall y: T :: (pre + ([x] + rest))[|pre| := y] == (pre + [y]) + rest
    ensures (pre + ([x] + rest))[..|pre|] + (pre + ([x] + rest))[|pre| + 1..] == pre + rest
  {
  }

  lemma {:induction false} Splice<T>(pre: seq<T>, x: T, rest: seq<T>)
    ensures (pre + rest)[..|pre|] + [x] + (pre + rest)[|pre|..] == (pre + [x]) + rest
  {
  }

  lemma {:induction false} ListRunConcat(p: Phase, list: seq<Tree>, x: seq<Op>, y: seq<Op>, track: bool)
    ensures ListRun(p, list, x + y, track) ==
            if ListRun(p, list, x, track).None? then None
            else ListRun(p, ListRun(p, list, x, track).value, y, track)
    decreases |x|
  {
    if x == [] {
      assert x + y == y;
    } else {
      assert x == [x[0]] + x[1..] && x + y == [x[0]] + (x[1..] + y);
      ListRunCons(p, list, x[0], x[1..] + y, track);
      if ListStep(p, list, x[0], track).Some? {
        ListRunConcat(p, ListStep(p, list, x[0], track).value, x[1..], y, track);
      }
    }
  }

  lemma {:induction false} ChangeOne(tag: string, x: Tree, pre: seq<Tree>, y: Tree, rest: seq<Tree>, track: bool)
    requires tag != "" ==> Apply(y, Diff(x, y), track).Some?
    ensures ListStep(Change, pre + ([y] + rest), Op(tag, |pre|, Diff(x, y)), track)
            == Some(pre + ([Patch(tag, x, y, track)] + rest))
  {
    hide Apply, Diff;
    var l := pre + ([y] + rest);
    assert l[|pre|] == y;
    assert l[|pre| := Patch(tag, x, y, track)] == pre + ([Patch(tag, x, y, track)] + rest);
    assert tag == "" ==> Patch(tag, x, y, track) == y;
  }

  lemma {:induction false} ChangeStep(tag: string, a: seq<Tree>, b: seq<Tree>, w: Cursor, pre: seq<Tree>, track: bool)
    requires Within(a, b, w) && !Done(a, b, w) && |pre| == w.bi
    requires Patchable(tag, a, b, track)
    ensures ListRun(Change, pre + b[w.bi..], MoveOps(Change, tag, a, b, w), track)
            == Some((pre + MoveKeeps(Change, tag, a, b, w, track)) + b[Advance(a, b, w).bi..])
  {
    hide Apply, Diff;
    var l, m := pre + b[w.bi..], NextMove(a, b, w);
    if m == Add {
      assert pre + [] == pre;
    } else {
      assert b[w.bi..] == [b[w.bi]] + b[w.bi + 1..];
      var z := MoveKeeps(Change, tag, a, b, w, track)[0];
      assert pre + ([z] + b[w.bi + 1..]) == (pre + [z]) + b[w.bi + 1..];
      if m == Alter {
        ChangeOne(tag, a[w.ai], pre, b[w.bi], b[w.bi + 1..], track);
        var op := Op(tag, w.bi, Diff(a[w.ai], b[w.bi]));
        ListRunCons(Change, l, op, [], track);
        assert [op] + [] == [op];
      }
    }
  }

  /** The changes reach exactly the children they were taken for. */
  lemma {:induction false} ListChanges(tag: string, a: seq<Tree>, b: seq<Tree>, w: Cursor, pre: seq<Tree>, track: bool)
    requires Within(a, b, w) && |pre| == w.bi
    requires Patchable(tag, a, b, track)
    ensures ListRun(Change, pre + b[w.bi..], OpsFor(Change, tag, a, b, w), track)
            == Some(pre + After(Change, tag, a, b, w, track))
    decreases Left(a, b, w)
  {
    hide Apply, Diff, ListStep, MoveKeeps, MoveOps, NextMove, Patchable;
    if Done(a, b, w) {
      assert pre + b[w.bi..] == pre == pre + [];
    } else {
      var w', keeps := Advance(a, b, w), MoveKeeps(Change, tag, a, b, w, track);
      ChangeStep(tag, a, b, w, pre, track);
      ListRunConcat(Change, pre + b[w.bi..], MoveOps(Change, tag, a, b, w), OpsFor(Change, tag, a, b, w'), track);
      ListChanges(tag, a, b, w', pre + keeps, track);
      assert (pre + keeps) + After(Change, tag, a, b, w', track) == pre + (keeps + After(Change, tag, a, b, w', track));
    }
  }

  /** With at least as many children in `b` left, nothing more is inserted. */
  lemma {:induction false} NoInserts(tag: string, a: seq<Tree>, b: seq<Tree>, w: Cursor, track: bool)
    requires Within(a, b, w) && |b| - w.bi >= |a| - w.ai
    ensures OpsFor(Insert, tag, a, b, w) == []
    ensures After(Insert, tag, a, b, w, track) == After(Change, tag, a, b, w, track)
    decreases Left(a, b, w)
  {
    hide TreeEq, Apply, Diff;
    if !Done(a, b, w) {
      NoInserts(tag, a, b, Advance(a, b, w), track);
    }
  }

  /** With no more children in `b` left than in `a`, nothing more is deleted. */
  lemma {:induction false} NoDeletes(tag: string, a: seq<Tree>, b: seq<Tree>, w: Cursor, track: bool)
    requires Within(a, b, w) && |b| - w.bi <= |a| - w.ai
    ensures OpsFor(Delete, tag, a, b, w) == []
    ensures After(Delete, tag, a, b, w, track) == After(Insert, tag, a, b, w, track)
    decreases Left(a, b, w)
  {
    hide TreeEq, Apply, Diff;
    if !Done(a, b, w) {
      NoDeletes(tag, a, b, Advance(a, b, w), track);
    }
  }

  /** The insertions land at the positions their targets have in `a`. */
  lemma {:induction false} ListInserts(tag: string, a: seq<Tree>, b: seq<Tree>, w: Cursor, pre: seq<Tree>, track: bool)
    requires Within(a, b, w)
    requires |pre| == w.ai || |b| - w.bi >= |a| - w.ai
    ensures ListRun(Insert, pre + After(Change, tag, a, b, w, track), OpsFor(Insert, tag, a, b, w), track)
            == Some(pre + After(Insert, tag, a, b, w, track))
    decreases Left(a, b, w)
  {
    if |b| - w.bi >= |a| - w.ai {
      NoInserts(tag, a, b, w, track);
    } else {
      var w' := Advance(a, b, w);
      var z := MoveKeeps(Insert, tag, a, b, w, track)[0];
      var rest, ops := After(Change, tag, a, b, w', track), OpsFor(Insert, tag, a, b, w');
      ListInserts(tag, a, b, w', pre + [z], track);
      if NextMove(a, b, w) == Add {
        assert After(Change, tag, a, b, w, track) == rest;
        Splice(pre, z, rest);
        ListRunCons(Insert, pre + rest, Op(tag, w.ai, a[w.ai]), ops, track);
      } else {
        Shift(pre, z, rest);
        assert OpsFor(Insert, tag, a, b, w) == ops;
      }
      Shift(pre, z, After(Insert, tag, a, b, w', track));
    }
  }

  /** The deletions, whose indices allow for the earlier ones, remove exactly the dropped children. */
  lemma {:induction false} ListDeletes(tag: string, a: seq<Tree>, b: seq<Tree>, w: Cursor, pre: seq<Tree>,
                                       track: bool)
    requires Within(a, b, w)
    requires (|pre| == w.ai && w.nd == w.bi - w.ai) || |b| - w.bi <= |a| - w.ai
    ensures ListRun(Delete, pre + After(Insert, tag, a, b, w, track), OpsFor(Delete, tag, a, b, w), false)
            == Some(pre + After(Delete, tag, a, b, w, track))
    decreases Left(a, b, w)
  {
    if |b| - w.bi <= |a| - w.ai {
      NoDeletes(tag, a, b, w, track);
    } else {
      var w' := Advance(a, b, w);
      var z := MoveKeeps(Insert, tag, a, b, w, track)[0];
      var rest, ops := After(Insert, tag, a, b, w', track), OpsFor(Delete, tag, a, b, w');
      Shift(pre, z, rest);
      if NextMove(a, b, w) == Drop {
        ListDeletes(tag, a, b, w', pre, track);
        ListRunCons(Delete, pre + ([z] + rest), Op(tag, w.bi - w.nd, EMPTY), ops, false);
        assert After(Delete, tag, a, b, w, track) == After(Delete, tag, a, b, w', track);
      } else {
        ListDeletes(tag, a, b, w', pre + [z], track);
        assert OpsFor(Delete, tag, a, b, w) == ops;
        Shift(pre, z, After(Delete, tag, a, b, w', track));
      }
    }
  }
}
