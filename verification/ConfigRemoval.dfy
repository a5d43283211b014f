/** Where children stand among all others after an edit, and which ones a merge takes away: the k-th child of a
    tag goes exactly when the other config has a k-th child of that tag whose attribute `__remove` is a true
    boolean; all others keep their order. */
module ConfigRemoval {
  import opened ConfigTree
  import opened ConfigMerge

  ghost predicate Increasing(at: seq<nat>) {
    forall i: nat, j: nat :: i < j < |at| ==> at[i] < at[j]
  }

  /** What `__remove=yes` and `__remove=true` leave in the attribute. */
  const REMOVING: set<Value> := {YesNo(true), TrueFalse(true)}

  lemma RemovedMeans(c: Tree)
    ensures IsRemoved(c) <==> Get(c.values, "__remove") in REMOVING
  {
  }

  // ---------------------------------------------------------------- one tag

  /** These positions of `a` are kept by the merge with `b`, up to `n`. */
  ghost predicate Stay(a: seq<Tree>, b: seq<Tree>, n: nat, at: seq<nat>) {
    && Increasing(at)
    && forall k: nat :: k in at <==> k < n && !(k < |b| && Get(b[k].values, "__remove") in REMOVING)
  }

  lemma {:induction false} PrefixSurvivors(a: seq<Tree>, b: seq<Tree>, n: nat) returns (at: seq<nat>)
    requires n <= |a|
    ensures Stay(a, b, n, at) && |MergePrefix(a, b, n)| == |at|
    ensures forall m :: 0 <= m < |at| ==>
              at[m] < n && MergePrefix(a, b, n)[m] == if at[m] < |b| then Merge(a[at[m]], b[at[m]]) else a[at[m]]
  {
    hide Merge, IsRemoved, Get;
    at := [];
    if n > 0 {
      at := PrefixSurvivors(a, b, n - 1);
      var k := n - 1;
      if k < |b| { RemovedMeans(b[k]); }
      if !(k < |b| && Get(b[k].values, "__remove") in REMOVING) {
        OneMoreStays(a, b, k, at);
        at := at + [k];
      }
    }
  }

  lemma OneMoreStays(a: seq<Tree>, b: seq<Tree>, k: nat, at: seq<nat>)
    requires Stay(a, b, k, at) && !(k < |b| && Get(b[k].values, "__remove") in REMOVING)
    ensures Stay(a, b, k + 1, at + [k])
  {
    hide Get;
    forall i: nat, j: nat | i < j < |at + [k]|
      ensures (at + [k])[i] < (at + [k])[j]
    {
      assert at[i] in at;
    }
  }

  /** For every tag: the children that stay keep their order, each merged with its counterpart or unchanged, and
      what the other config has beyond them follows. */
  lemma MergeSurvivors(t: Tree, c: Tree, tag: string) returns (at: seq<nat>)
    ensures Increasing(at)
    ensures var lt, lc := ListOf(t.kids, tag), ListOf(c.kids, tag);
            forall k: nat :: k in at <==>
              k < |lt| && !(k < |lc| && Get(lc[k].values, "__remove") in {YesNo(true), TrueFalse(true)})
    ensures var lt, lc, r := ListOf(t.kids, tag), ListOf(c.kids, tag), ListOf(Merge(t, c).kids, tag);
            && |r| == |at| + (if |lt| < |lc| then |lc| - |lt| else 0)
            && (forall m :: 0 <= m < |at| ==>
                  at[m] < |lt| && r[m] == if at[m] < |lc| then Merge(lt[at[m]], lc[at[m]]) else lt[at[m]])
            && (forall m :: |at| <= m < |r| ==> r[m] == lc[|lt| + m - |at|])
  {
    hide Merge, IsRemoved, Get, ListOf;
    MergeByTag(t, c, tag);
    at := PrefixSurvivors(ListOf(t.kids, tag), ListOf(c.kids, tag), |ListOf(t.kids, tag)|);
  }

  // ---------------------------------------------------------------- all children in their order

  /** The p-th child meets a counterpart that says to remove it. */
  ghost predicate Struck(kids: seq<Kid>, c: Tree, p: nat)
    requires p < |kids|
  {
    var k, list := |ListOf(kids[..p], kids[p].tag)|, ListOf(c.kids, kids[p].tag);
    k < |list| && Get(list[k].values, "__remove") in {YesNo(true), TrueFalse(true)}
  }

  /** What the p-th child becomes when it stays. */
  ghost function Becomes(kids: seq<Kid>, c: Tree, p: nat): Kid
    requires p < |kids|
  {
    var k, list := |ListOf(kids[..p], kids[p].tag)|, ListOf(c.kids, kids[p].tag);
    if k < |list| then Kid(kids[p].tag, Merge(kids[p].cfg, list[k])) else kids[p]
  }

  lemma KidSurvives(kids: seq<Kid>, c: Tree, p: nat)
    requires p < |kids|
    ensures MergeKid(kids, c, p) == if Struck(kids, c, p) then [] else [Becomes(kids, c, p)]
  {
    hide Merge, ListOf, IsRemoved;
    var k, list := |ListOf(kids[..p], kids[p].tag)|, ListOf(c.kids, kids[p].tag);
    if k < |list| { RemovedMeans(list[k]); }
  }

  lemma {:induction false} KidsSurvivors(kids: seq<Kid>, c: Tree, n: nat) returns (at: seq<nat>)
    requires n <= |kids|
    ensures Increasing(at) && forall p: nat :: p in at <==> p < n && !Struck(kids, c, p)
    ensures |MergeKids(kids, c, n)| == |at|
    ensures forall m :: 0 <= m < |at| ==> at[m] < n && MergeKids(kids, c, n)[m] == Becomes(kids, c, at[m])
  {
    hide MergeKid, Struck, Becomes;
    at := [];
    if n > 0 {
      at := KidsSurvivors(kids, c, n - 1);
      KidSurvives(kids, c, n - 1);
      if !Struck(kids, c, n - 1) {
        Behind(at, n - 1);
        at := at + [n - 1];
      }
    }
  }

  lemma Behind(at: seq<nat>, k: nat)
    requires Increasing(at) && forall p: nat :: p in at ==> p < k
    ensures Increasing(at + [k])
  {
    forall i: nat, j: nat | i < j < |at + [k]|
      ensures (at + [k])[i] < (at + [k])[j]
    {
      assert at[i] in at;
    }
  }

  /** The tags of the appended children never go down. */
  ghost predicate TagsRise(kids: seq<Kid>) {
    forall i: nat, j: nat :: i < j < |kids| ==> kids[i].tag == kids[j].tag || Before(kids[i].tag, kids[j].tag)
  }

  lemma {:induction false} ExtrasRise(kids: seq<Kid>, c: Tree, tags: seq<string>)
    requires Sorted(tags)
    ensures TagsRise(Extras(kids, c, tags))
    ensures forall i :: 0 <= i < |Extras(kids, c, tags)| ==> Extras(kids, c, tags)[i].tag in tags
  {
    hide ListOf, Before;
    if tags != [] {
      ExtrasRise(kids, c, tags[1..]);
      var n, list := |ListOf(kids, tags[0])|, ListOf(c.kids, tags[0]);
      var x, y := if n < |list| then Tagged(tags[0], list[n..]) else [], Extras(kids, c, tags[1..]);
      forall j | 0 <= j < |y|
        ensures Before(tags[0], y[j].tag)
      {
        var m :| 0 <= m < |tags[1..]| && tags[1..][m] == y[j].tag;
        assert tags[m + 1] == y[j].tag;
      }
    }
  }

  /** Over all tags: the children that stay come first and in their old order, then the additions, by tag. */
  lemma MergeKeepsOrder(t: Tree, c: Tree) returns (at: seq<nat>)
    ensures Increasing(at) && forall p: nat :: p in at <==> p < |t.kids| && !Struck(t.kids, c, p)
    ensures |at| <= |Merge(t, c).kids|
    ensures forall m :: 0 <= m < |at| ==> at[m] < |t.kids| && Merge(t, c).kids[m] == Becomes(t.kids, c, at[m])
    ensures TagsRise(Merge(t, c).kids[|at|..])
  {
    hide MergeKids, Extras, Struck, Becomes, MergeAttrs, TagsRise;
    at := KidsSurvivors(t.kids, c, |t.kids|);
    TagsOfSorted(c.kids);
    ExtrasRise(t.kids, c, TagsOf(c.kids));
    assert Merge(t, c).kids[|at|..] == Extras(t.kids, c, TagsOf(c.kids));
  }

  // ---------------------------------------------------------------- the order of the map

  /** A string stands before another when it ends first or shows the smaller character where they differ. */
  lemma {:induction false} BeforeMeans(a: string, b: string)
    ensures Before(a, b) <==>
            || (|a| < |b| && a == b[..|a|])
            || exists n: nat :: n < |a| && n < |b| && a[..n] == b[..n] && a[n] < b[n]
  {
    if a != [] && b != [] {
      BeforeMeans(a[1..], b[1..]);
      if a[0] == b[0] {
        BeforeTail(a, b);
      } else {
        assert a[..0] == b[..0];
        PrefixFirst(a, b);
      }
    }
  }

  lemma PrefixFirst(a: string, b: string)
    requires a != [] && b != []
    ensures forall n: nat :: 0 < n <= |a| && n <= |b| && a[..n] == b[..n] ==> a[0] == b[0]
    ensures |a| < |b| && a == b[..|a|] ==> a[0] == b[0]
  {
    forall n: nat | 0 < n <= |a| && n <= |b| && a[..n] == b[..n]
      ensures a[0] == b[0]
    {
      assert a[0] == a[..n][0] == b[..n][0];
    }
  }

  lemma BeforeTail(a: string, b: string)
    requires a != [] && b != [] && a[0] == b[0]
    ensures (|a| < |b| && a == b[..|a|]) <==> (|a[1..]| < |b[1..]| && a[1..] == b[1..][..|a[1..]|])
    ensures (exists n: nat :: n < |a| && n < |b| && a[..n] == b[..n] && a[n] < b[n]) <==>
            (exists n: nat :: n < |a[1..]| && n < |b[1..]| && a[1..][..n] == b[1..][..n] && a[1..][n] < b[1..][n])
  {
    var x, y := a[1..], b[1..];
    assert a == [a[0]] + x && b == [a[0]] + y;
    if n: nat :| n < |a| && n < |b| && a[..n] == b[..n] && a[n] < b[n] {
      assert x[..n - 1] == a[..n][1..] == b[..n][1..] == y[..n - 1];
      assert x[n - 1] < y[n - 1];
    }
    if n: nat :| n < |x| && n < |y| && x[..n] == y[..n] && x[n] < y[n] {
      assert a[..n + 1] == [a[0]] + x[..n] == [a[0]] + y[..n] == b[..n + 1];
      assert a[n + 1] < b[n + 1];
    }
  }

  // ---------------------------------------------------------------- keys that add

  /** The keys that add are those with this prefix. */
  lemma AddToKeys(key: string)
    ensures IsAddTo(key) <==> exists slot :: key == "add_to_" + slot
  {
    if IsAddTo(key) {
      assert key == "add_to_" + key[7..];
    }
    if slot :| key == "add_to_" + slot {
      assert key[..7] == "add_to_";
    }
  }

  /** `add_to_x` adds a number to `x`; what is no number counts as 0 on either side. */
  lemma AddToMeans(v: Value, w: Value)
    ensures MergeAttrs(map["x" := w], map["add_to_x" := v]) ==
            map["x" := Num((if w.Num? then w.n else 0) + (if v.Num? then v.n else 0))]
  {
    OnlyKey("add_to_x");
    var c := map["add_to_x" := v];
    assert "add_to_x"[..7] == "add_to_" && "add_to_x"[7..] == "x";
    assert c.Keys == {"add_to_x"};
    assert ["add_to_x"][1..] == [];
  }

  // ---------------------------------------------------------------- single edits

  /** A child is inserted right in front of the one that had its rank, or behind all children when none had. */
  lemma InsertedPlace(kids: seq<Kid>, tag: string, k: nat, c: Tree) returns (q: nat)
    ensures q <= |kids| && InsertKid(kids, tag, k, c) == kids[..q] + [Kid(tag, c)] + kids[q..]
    ensures if k < |ListOf(kids, tag)| then q < |kids| && kids[q].tag == tag && |ListOf(kids[..q], tag)| == k
            else q == |kids|
  {
    q := Find(kids, tag, k);
  }

  /** Only the child of that rank is removed, and nothing when there is none. */
  lemma RemovedPlace(kids: seq<Kid>, tag: string, k: nat) returns (q: nat)
    ensures if k < |ListOf(kids, tag)| then
              && q < |kids| && kids[q].tag == tag && |ListOf(kids[..q], tag)| == k
              && RemoveKid(kids, tag, k) == kids[..q] + kids[q + 1..]
            else RemoveKid(kids, tag, k) == kids
  {
    q := Find(kids, tag, k);
  }

  /** Clearing a tag takes all its children and leaves the others in their order. */
  lemma {:induction false} WithoutKeeps(kids: seq<Kid>, tag: string) returns (at: seq<nat>)
    ensures Increasing(at) && forall p: nat :: p in at <==> p < |kids| && kids[p].tag != tag
    ensures |Without(kids, tag)| == |at|
    ensures forall m :: 0 <= m < |at| ==> at[m] < |kids| && Without(kids, tag)[m] == kids[at[m]]
  {
    at := [];
    if kids != [] {
      var n := |kids| - 1;
      at := WithoutKeeps(kids[..n], tag);
      if kids[n].tag != tag {
        Behind(at, n);
        at := at + [n];
      }
    }
  }
}
