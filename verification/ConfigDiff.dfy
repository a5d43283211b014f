/** `get_diff`, `apply_diff` and `clear_diff_track` of the WML `config` as functions on trees.

    A diff is itself a tree: an [insert] and a [delete] child hold attribute edits, and one
    [change_child], [insert_child] or [delete_child] child per child edit holds an index and the
    edited tag.  The methods of module ConfigNode are proved against these functions. */
module ConfigDiff {
  import opened ConfigTree

  const TRACK := "__diff_track"

  // ---------------------------------------------------------------- reading a diff

  /** One edit of one child: `index` is the position in the child list of `tag`. */
  datatype Op = Op(tag: string, index: nat, cfg: Tree)

  /** The loops of `apply_diff` (Change, Insert, Delete) and `clear_diff_track` (Delete, Clean). */
  datatype Phase = Change | Insert | Delete | Clean

  function EditTag(p: Phase): string {
    match p
    case Change => "change_child"
    case Insert => "insert_child"
    case Delete => "delete_child"
    case Clean => "change_child"
  }

  /** `lexical_cast<size_t>` of the string form: a negative number reads as a huge one. */
  function IndexOf(v: Value): Option<nat> {
    if !v.Num? then None
    else if v.n >= 0 then Some(v.n)
    else Some(v.n % 0x1_0000_0000_0000_0000)
  }

  function ItemOps(index: nat, items: seq<Kid>): seq<Op> {
    seq(|items|, i requires 0 <= i < |items| => Op(items[i].tag, index, items[i].cfg))
  }

  /** The edits of one kind in the order the loops meet them; none when an index does not parse. */
  function Ops(edits: seq<Tree>): Option<seq<Op>> {
    if edits == [] then Some([])
    else
      var index :- IndexOf(Get(edits[0].values, "index"));
      var rest :- Ops(edits[1..]);
      Some(ItemOps(index, edits[0].kids) + rest)
  }

  function DiffOps(d: Tree, p: Phase): Option<seq<Op>> {
    Ops(ListOf(d.kids, EditTag(p)))
  }

  ghost function OpsSize(ops: seq<Op>): nat {
    if ops == [] then 0 else 1 + Size(ops[0].cfg) + OpsSize(ops[1..])
  }

  lemma {:induction false} OpsSizeConcat(a: seq<Op>, b: seq<Op>)
    ensures OpsSize(a + b) == OpsSize(a) + OpsSize(b)
  {
    if a == [] {
      assert a + b == b;
    } else {
      assert (a + b)[1..] == a[1..] + b;
      OpsSizeConcat(a[1..], b);
    }
  }

  lemma {:induction false} ItemOpsSize(index: nat, items: seq<Kid>)
    ensures OpsSize(ItemOps(index, items)) == SizeAll(items)
  {
    if items != [] {
      var init, last := items[..|items| - 1], items[|items| - 1];
      ItemOpsSize(index, init);
      assert ItemOps(index, items) == ItemOps(index, init) + [Op(last.tag, index, last.cfg)];
      OpsSizeConcat(ItemOps(index, init), [Op(last.tag, index, last.cfg)]);
      assert OpsSize([Op(last.tag, index, last.cfg)]) == 1 + Size(last.cfg) + OpsSize([]);
    }
  }

  lemma {:induction false} OpsSizeBound(edits: seq<Tree>)
    ensures Ops(edits).Some? ==> OpsSize(Ops(edits).value) <= ListSize(edits)
  {
    if edits != [] && Ops(edits).Some? {
      var index := IndexOf(Get(edits[0].values, "index")).value;
      OpsSizeBound(edits[1..]);
      ItemOpsSize(index, edits[0].kids);
      OpsSizeConcat(ItemOps(index, edits[0].kids), Ops(edits[1..]).value);
    }
  }

  /** The edits a diff holds are smaller than the diff, so patching terminates. */
  lemma {:induction false} DiffOpsSmaller(d: Tree, p: Phase)
    ensures DiffOps(d, p).Some? ==> OpsSize(DiffOps(d, p).value) < Size(d)
  {
    OpsSizeBound(ListOf(d.kids, EditTag(p)));
    ListSizeOfListed(d.kids, EditTag(p));
  }

  // ---------------------------------------------------------------- applying a diff

  function Marked(c: Tree, mark: string): Tree {
    c.(values := c.values[TRACK := Text(mark)])
  }

  function Unmarked(c: Tree): Tree {
    c.(values := c.values - {TRACK})
  }

  function UnmarkedKids(kids: seq<Kid>): seq<Kid> {
    seq(|kids|, i requires 0 <= i < |kids| => Kid(kids[i].tag, Unmarked(kids[i].cfg)))
  }

  /** The attribute edits: what [insert] holds is assigned, then what [delete] names is erased. */
  function ApplyAttrs(values: Attrs, d: Tree): Attrs {
    AssignErase(values, ListOf(d.kids, "insert"), ListOf(d.kids, "delete"))
  }

  function AssignErase(values: Attrs, inserts: seq<Tree>, deletes: seq<Tree>): Attrs {
    var merged := if inserts == [] then values else values + inserts[0].values;
    if deletes == [] then merged else merged - deletes[0].values.Keys
  }

  /** One edit of the child lists; none stands for the thrown error. */
  function Step(p: Phase, kids: seq<Kid>, op: Op, track: bool): Option<seq<Kid>>
    decreases Size(op.cfg), 1
  {
    var list := ListOf(kids, op.tag);
    match p
    case Change =>
      if op.tag == "" then Some(kids)
      else if op.index >= |list| then None
      else
        var c :- Apply(list[op.index], op.cfg, track);
        Some(UpdateKid(kids, op.tag, op.index, c))
    case Insert =>
      if op.index > |list| then None
      else Some(InsertKid(kids, op.tag, op.index, if track then Marked(op.cfg, "new") else op.cfg))
    case Delete =>
      if !track then Some(RemoveKid(kids, op.tag, op.index))
      else if op.index >= |list| then None
      else Some(UpdateKid(kids, op.tag, op.index, Marked(list[op.index], "deleted")))
    case Clean =>
      if op.tag == "" then Some(kids)
      else if op.index >= |list| then None
      else
        var c :- Clear(list[op.index], op.cfg);
        Some(UpdateKid(kids, op.tag, op.index, c))
  }

  function Run(p: Phase, kids: seq<Kid>, ops: seq<Op>, track: bool): Option<seq<Kid>>
    decreases OpsSize(ops), 0
  {
    if ops == [] then Some(kids)
    else
      var k :- Step(p, kids, ops[0], track);
      Run(p, k, ops[1..], track)
  }

  /** `apply_diff`: none when an index does not parse or is out of range and `apply_diff` throws. */
  function Apply(t: Tree, d: Tree, track: bool): Option<Tree>
    decreases Size(d), 0
  {
    DiffOpsSmaller(d, Change); DiffOpsSmaller(d, Insert); DiffOpsSmaller(d, Delete);
    var values := ApplyAttrs(if track then t.values[TRACK := Text("modified")] else t.values, d);
    var changes :- DiffOps(d, Change);
    var inserts :- DiffOps(d, Insert);
    var deletes :- DiffOps(d, Delete);
    var k1 :- Run(Change, t.kids, changes, track);
    var k2 :- Run(Insert, k1, inserts, track);
    var k3 :- Run(Delete, k2, deletes, track);
    Some(Node(values, k3))
  }

  /** `clear_diff_track`: deletions first, then the changed children, then the direct marks. */
  function Clear(t: Tree, d: Tree): Option<Tree>
    decreases Size(d), 0
  {
    DiffOpsSmaller(d, Delete); DiffOpsSmaller(d, Clean);
    var deletes :- DiffOps(d, Delete);
    var cleans :- DiffOps(d, Clean);
    var k1 :- Run(Delete, t.kids, deletes, false);
    var k2 :- Run(Clean, k1, cleans, false);
    Some(Node(t.values - {TRACK}, UnmarkedKids(k2)))
  }

  // ---------------------------------------------------------------- taking a diff

  /** Attributes of `a` that must be assigned to turn the attributes `c` into `a`. */
  function AttrInserts(a: Attrs, c: Attrs): Attrs {
    map k | k in a && (k !in c || (!ValueEq(a[k], c[k]) && !IsEmpty(a[k]))) :: a[k]
  }

  /** Attributes of `c` that must be erased to turn the attributes `c` into `a`. */
  function AttrDeletes(a: Attrs, c: Attrs): Attrs {
    map k | k in c && (k !in a || IsEmpty(a[k])) :: Text("x")
  }

  function AttrEdits(a: Attrs, c: Attrs): seq<Kid> {
    (if AttrInserts(a, c) == map[] then [] else [Kid("insert", Node(AttrInserts(a, c), []))]) +
    (if AttrDeletes(a, c) == map[] then [] else [Kid("delete", Node(AttrDeletes(a, c), []))])
  }

  function Edit(p: Phase, tag: string, index: nat, c: Tree): Kid {
    Kid(EditTag(p), Node(map["index" := Num(index)], [Kid(tag, c)]))
  }

  /** What the double walk over the lists does with `a[ai]` and `b[bi]`. */
  datatype Move = Keep | Drop | Add | Alter

  /** The index variables of the walk: `a[..ai]` and `b[..bi]` are done, `nd` deletions were emitted. */
  datatype Cursor = Cursor(ai: nat, bi: nat, nd: nat)

  const START := Cursor(0, 0, 0)

  ghost predicate Within(a: seq<Tree>, b: seq<Tree>, w: Cursor) {
    w.ai <= |a| && w.nd <= w.bi <= |b|
  }

  predicate Done(a: seq<Tree>, b: seq<Tree>, w: Cursor) {
    w.ai == |a| && w.bi == |b|
  }

  ghost function Left(a: seq<Tree>, b: seq<Tree>, w: Cursor): nat
    requires Within(a, b, w)
  {
    |a| - w.ai + |b| - w.bi
  }

  function NextMove(a: seq<Tree>, b: seq<Tree>, w: Cursor): (m: Move)
    requires Within(a, b, w) && !Done(a, b, w)
  {
    if w.ai < |a| && w.bi < |b| && TreeEq(a[w.ai], b[w.bi]) then Keep
    else if |b| - w.bi > |a| - w.ai then Drop
    else if |b| - w.bi < |a| - w.ai then Add
    else Alter
  }

  function Advance(a: seq<Tree>, b: seq<Tree>, w: Cursor): (w': Cursor)
    requires Within(a, b, w) && !Done(a, b, w)
    ensures Within(a, b, w') && Left(a, b, w') < Left(a, b, w)
  {
    match NextMove(a, b, w)
    case Drop => Cursor(w.ai, w.bi + 1, w.nd + 1)
    case Add => Cursor(w.ai + 1, w.bi, w.nd)
    case _ => Cursor(w.ai + 1, w.bi + 1, w.nd)
  }

  /** The edit emitted for one step of the walk. */
  function MoveEdits(tag: string, a: seq<Tree>, b: seq<Tree>, w: Cursor): seq<Kid>
    requires Within(a, b, w) && !Done(a, b, w)
    decreases ListSize(a) + ListSize(b), 1, 0
  {
    match NextMove(a, b, w)
    case Keep => []
    case Drop => [Edit(Delete, tag, w.bi - w.nd, EMPTY)]
    case Add => [Edit(Insert, tag, w.ai, a[w.ai])]
    case Alter =>
      ListSizeOfMember(a, w.ai); ListSizeOfMember(b, w.bi);
      [Edit(Change, tag, w.bi, Diff(a[w.ai], b[w.bi]))]
  }

  /** The edits that turn `b[bi..]` into `a[ai..]`. */
  function ListEdits(tag: string, a: seq<Tree>, b: seq<Tree>, w: Cursor): seq<Kid>
    requires Within(a, b, w)
    decreases ListSize(a) + ListSize(b), 2, Left(a, b, w)
  {
    if Done(a, b, w) then []
    else MoveEdits(tag, a, b, w) + ListEdits(tag, a, b, Advance(a, b, w))
  }

  /** The tags of both nodes: those of `a` in map order, then those only `c` has. */
  function Entities(a: seq<Kid>, c: seq<Kid>): seq<string> {
    TagsOf(a) + Missing(TagsOf(c), TagsOf(a))
  }

  function Missing(tags: seq<string>, present: seq<string>): (r: seq<string>)
    ensures forall t :: t in r <==> t in tags && t !in present
  {
    if tags == [] then []
    else (if tags[0] in present then [] else [tags[0]]) + Missing(tags[1..], present)
  }

  function EntityEdits(a: Tree, c: Tree, tags: seq<string>): seq<Kid>
    decreases SizeAll(a.kids) + SizeAll(c.kids), 3, |tags|
  {
    if tags == [] then []
    else
      ListSizeOfListed(a.kids, tags[0]); ListSizeOfListed(c.kids, tags[0]);
      ListEdits(tags[0], ListOf(a.kids, tags[0]), ListOf(c.kids, tags[0]), START) +
      EntityEdits(a, c, tags[1..])
  }

  /** `a.get_diff(c)`. */
  function Diff(a: Tree, c: Tree): Tree
    decreases Size(a) + Size(c), 0, 0
  {
    Node(map[], AttrEdits(a.values, c.values) + EntityEdits(a, c, Entities(a.kids, c.kids)))
  }
}
