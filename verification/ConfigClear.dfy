/** `config::clear`: the iterative deletion of a tree of nodes with an explicit stack.

    Nodes live in a store that maps an address to the child lists of the node, one list per tag.
    Deleting a node takes its address out of the store, so every access is checked: reading a node
    that was deleted, or deleting it twice, would not verify. */
module ConfigClear {

  type Addr = nat

  /** The child lists of a node, in map order of the tags. */
  type Cell = seq<seq<Addr>>

  /** The shape of a tree of nodes. */
  datatype Shape = Shape(at: Addr, lists: seq<Group>)
  datatype Group = Group(trees: seq<Shape>)

  // ---------------------------------------------------------------- trees in the store

  ghost function Roots(trees: seq<Shape>): seq<Addr> {
    seq(|trees|, i requires 0 <= i < |trees| => trees[i].at)
  }

  ghost function CellOf(t: Shape): Cell {
    seq(|t.lists|, i requires 0 <= i < |t.lists| => Roots(t.lists[i].trees))
  }

  /** The addresses of a tree, children before their parent, in the order the stack visits them. */
  ghost function Nodes(t: Shape): seq<Addr>
    decreases t, 2, 0, 0
  {
    Below(t, |t.lists|, 0) + [t.at]
  }

  /** The addresses in the first `n` lists and in the first `k` trees of the next one. */
  ghost function Below(t: Shape, n: nat, k: nat): seq<Addr>
    requires n <= |t.lists|
    requires k > 0 ==> n < |t.lists| && k <= |t.lists[n].trees|
    decreases t, 1, n, k
  {
    if k > 0 then Below(t, n, k - 1) + Nodes(t.lists[n].trees[k - 1])
    else if n > 0 then Below(t, n - 1, |t.lists[n - 1].trees|)
    else []
  }

  /** Every node of the tree is in the store with its child lists. */
  ghost predicate Stored(store: map<Addr, Cell>, t: Shape)
    decreases t
  {
    && t.at in store && store[t.at] == CellOf(t)
    && forall n, k :: 0 <= n < |t.lists| && 0 <= k < |t.lists[n].trees| ==> Stored(store, t.lists[n].trees[k])
  }

  ghost predicate Distinct(s: seq<Addr>) {
    forall i, j :: 0 <= i < j < |s| ==> s[i] != s[j]
  }

  // ---------------------------------------------------------------- the stack

  /** `config_clear_state`: the node being emptied, the list it is at and the next child there. */
  datatype Frame = Frame(c: Addr, mi: nat, vi: nat)

  ghost predicate InFrame(t: Shape, f: Frame) {
    && f.c == t.at && f.mi <= |t.lists|
    && (f.mi == |t.lists| ==> f.vi == 0)
    && (f.mi < |t.lists| ==> f.vi <= |t.lists[f.mi].trees|)
  }

  ghost function Done(t: Shape, f: Frame): seq<Addr>
    requires InFrame(t, f)
  {
    Below(t, f.mi, f.vi)
  }

  lemma {:induction false} BelowPrefix(t: Shape, n: nat, k: nat, n': nat, k': nat)
    requires n <= |t.lists| && (k > 0 ==> n < |t.lists| && k <= |t.lists[n].trees|)
    requires n' <= |t.lists| && (k' > 0 ==> n' < |t.lists| && k' <= |t.lists[n'].trees|)
    requires n < n' || (n == n' && k <= k')
    ensures Below(t, n, k) <= Below(t, n', k')
    decreases n', k'
  {
    if n == n' && k == k' {
    } else if k' > 0 {
      BelowPrefix(t, n, k, n', k' - 1);
    } else {
      BelowPrefix(t, n, k, n' - 1, |t.lists[n' - 1].trees|);
    }
  }

  /** What is still to be deleted of the tree of one frame, the node itself last. */
  ghost function Left(t: Shape, f: Frame): (r: seq<Addr>)
    requires InFrame(t, f)
    ensures Done(t, f) + r == Nodes(t)
    ensures |r| > 0 && r[|r| - 1] == t.at
  {
    BelowPrefix(t, f.mi, f.vi, |t.lists|, 0);
    Nodes(t)[|Done(t, f)|..]
  }

  ghost function LeftAll(trees: seq<Shape>, stack: seq<Frame>): seq<Addr>
    requires |trees| == |stack|
    requires forall i :: 0 <= i < |stack| ==> InFrame(trees[i], stack[i])
  {
    if stack == [] then []
    else
      var n := |stack| - 1;
      Left(trees[n], stack[n]) + LeftAll(trees[..n], stack[..n])
  }

  lemma {:induction false} LeftEnd(t: Shape, f: Frame)
    requires InFrame(t, f) && f.mi == |t.lists|
    ensures Left(t, f) == [t.at]
  {
  }

  lemma {:induction false} LeftNextList(t: Shape, f: Frame)
    requires InFrame(t, f) && f.mi < |t.lists| && f.vi == |t.lists[f.mi].trees|
    ensures InFrame(t, Frame(f.c, f.mi + 1, 0))
    ensures Left(t, Frame(f.c, f.mi + 1, 0)) == Left(t, f)
  {
  }

  lemma {:induction false} LeftNextChild(t: Shape, f: Frame)
    requires InFrame(t, f) && f.mi < |t.lists| && f.vi < |t.lists[f.mi].trees|
    ensures InFrame(t, Frame(f.c, f.mi, f.vi + 1))
    ensures Left(t, f) == Nodes(t.lists[f.mi].trees[f.vi]) + Left(t, Frame(f.c, f.mi, f.vi + 1))
  {
    var f' := Frame(f.c, f.mi, f.vi + 1);
    var child := Nodes(t.lists[f.mi].trees[f.vi]);
    assert Done(t, f') == Done(t, f) + child;
    assert Done(t, f) + Left(t, f) == Done(t, f) + (child + Left(t, f'));
    assert (Done(t, f) + Left(t, f))[|Done(t, f)|..] == Left(t, f);
    assert (Done(t, f) + (child + Left(t, f')))[|Done(t, f)|..] == child + Left(t, f');
  }

  lemma {:induction false} LeftStart(t: Shape)
    ensures InFrame(t, Frame(t.at, 0, 0))
    ensures Left(t, Frame(t.at, 0, 0)) == Nodes(t)
  {
  }

  lemma {:induction false} NodesOfLeaf(t: Shape)
    requires t.lists == []
    ensures Nodes(t) == [t.at]
  {
  }

  /** Replacing the top frame. */
  lemma {:induction false} LeftAllTop(trees: seq<Shape>, stack: seq<Frame>, f: Frame)
    requires |trees| == |stack| > 0
    requires forall i :: 0 <= i < |stack| ==> InFrame(trees[i], stack[i])
    requires InFrame(trees[|stack| - 1], f)
    ensures var n := |stack| - 1;
            LeftAll(trees, stack[n := f]) == Left(trees[n], f) + LeftAll(trees[..n], stack[..n])
  {
    var n := |stack| - 1;
    assert stack[n := f][..n] == stack[..n];
  }

  /** Pushing a frame. */
  lemma {:induction false} LeftAllPush(trees: seq<Shape>, stack: seq<Frame>, t: Shape, f: Frame)
    requires |trees| == |stack|
    requires forall i :: 0 <= i < |stack| ==> InFrame(trees[i], stack[i])
    requires InFrame(t, f)
    ensures LeftAll(trees + [t], stack + [f]) == Left(t, f) + LeftAll(trees, stack)
  {
    assert (stack + [f])[..|stack|] == stack && (trees + [t])[..|stack|] == trees;
  }

  /** The nodes of a tree that is stored are in the store. */
  lemma {:induction false} StoredNodes(store: map<Addr, Cell>, t: Shape)
    requires Stored(store, t)
    ensures forall a :: a in Nodes(t) ==> a in store
    decreases t, 1, 0, 0
  {
    StoredBelow(store, t, |t.lists|, 0);
  }

  lemma {:induction false} StoredBelow(store: map<Addr, Cell>, t: Shape, n: nat, k: nat)
    requires Stored(store, t)
    requires n <= |t.lists| && (k > 0 ==> n < |t.lists| && k <= |t.lists[n].trees|)
    ensures forall a :: a in Below(t, n, k) ==> a in store
    decreases t, 0, n, k
  {
    if k > 0 {
      StoredBelow(store, t, n, k - 1);
      StoredNodes(store, t.lists[n].trees[k - 1]);
    } else if n > 0 {
      StoredBelow(store, t, n - 1, |t.lists[n - 1].trees|);
    }
  }

  /** What is left to delete has not been deleted. */
  lemma {:induction false} InStore(t: Shape, freed: seq<Addr>, left: seq<Addr>, a: Addr, i: nat)
    requires freed + left == Nodes(t) && Distinct(Nodes(t))
    requires i < |left| && left[i] == a
    ensures a in Nodes(t) && a !in freed
  {
    var all := freed + left;
    assert all[|freed| + i] == a;
    assert forall j :: 0 <= j < |freed| ==> all[j] == freed[j];
  }

  ghost predicate Framed(trees: seq<Shape>, stack: seq<Frame>) {
    |trees| == |stack| && forall i :: 0 <= i < |stack| ==> InFrame(trees[i], stack[i])
  }

  /** The state of the loop: what was deleted and what the stack still holds make up the tree. */
  ghost predicate Running(orig: map<Addr, Cell>, t: Shape, store: map<Addr, Cell>, freed: seq<Addr>,
                          trees: seq<Shape>, stack: seq<Frame>) {
    && Framed(trees, stack) && stack != [] && trees[0] == t
    && (forall i :: 0 <= i < |stack| ==> Stored(orig, trees[i]))
    && freed + LeftAll(trees, stack) == Nodes(t) && Distinct(Nodes(t)) && Stored(orig, t)
    && store == orig - (set a | a in freed)
  }

  /** An address that is still to be deleted can be read. */
  lemma {:induction false} Readable(orig: map<Addr, Cell>, t: Shape, store: map<Addr, Cell>, freed: seq<Addr>,
                                    left: seq<Addr>, x: Shape, i: nat)
    requires freed + left == Nodes(t) && Distinct(Nodes(t)) && Stored(orig, t) && Stored(orig, x)
    requires store == orig - (set a | a in freed)
    requires i < |left| && left[i] == x.at
    ensures x.at in store && store[x.at] == CellOf(x) && x.at !in freed
  {
    InStore(t, freed, left, x.at, i);
    StoredNodes(orig, t);
  }

  /** The node of the top frame can be read. */
  lemma {:induction false} TopReadable(orig: map<Addr, Cell>, t: Shape, store: map<Addr, Cell>,
                                       freed: seq<Addr>, trees: seq<Shape>, stack: seq<Frame>)
    requires Running(orig, t, store, freed, trees, stack)
    ensures var n := |stack| - 1;
            stack[n].c == trees[n].at && stack[n].c in store && store[stack[n].c] == CellOf(trees[n])
  {
    var n := |stack| - 1;
    var l := Left(trees[n], stack[n]);
    Readable(orig, t, store, freed, l + LeftAll(trees[..n], stack[..n]), trees[n], |l| - 1);
  }

  lemma {:induction false} DeleteOne(orig: map<Addr, Cell>, freed: seq<Addr>, c: Addr)
    ensures (orig - (set a | a in freed)) - {c} == orig - (set a | a in freed + [c])
  {
  }

  /** The next child is still stored, and its nodes are the next to go. */
  lemma {:induction false} ChildLeft(orig: map<Addr, Cell>, t: Shape, store: map<Addr, Cell>, freed: seq<Addr>,
                                     trees: seq<Shape>, stack: seq<Frame>, child: Shape, stack': seq<Frame>)
    requires Running(orig, t, store, freed, trees, stack)
    requires var n := |stack| - 1;
             && stack[n].mi < |trees[n].lists| && stack[n].vi < |trees[n].lists[stack[n].mi].trees|
             && child == trees[n].lists[stack[n].mi].trees[stack[n].vi]
             && stack' == stack[n := Frame(stack[n].c, stack[n].mi, stack[n].vi + 1)]
    ensures Framed(trees, stack') && LeftAll(trees, stack) == Nodes(child) + LeftAll(trees, stack')
    ensures Stored(orig, child) && child.at in store && store[child.at] == CellOf(child)
  {
    hide Nodes, Below, Left, Done, CellOf;
    var n := |stack| - 1;
    LeftNextChild(trees[n], stack[n]);
    LeftAllTop(trees, stack, stack'[n]);
    LeftStart(child);
    var left := Nodes(child) + LeftAll(trees, stack');
    assert LeftAll(trees, stack) == left;
    Readable(orig, t, store, freed, left, child, |Nodes(child)| - 1);
  }

  lemma {:induction false} LeafGone(orig: map<Addr, Cell>, t: Shape, store: map<Addr, Cell>, freed: seq<Addr>,
                                    trees: seq<Shape>, stack: seq<Frame>, child: Shape, stack': seq<Frame>)
    requires Running(orig, t, store, freed, trees, stack) && Framed(trees, stack') && child.lists == []
    requires LeftAll(trees, stack) == Nodes(child) + LeftAll(trees, stack')
    ensures Running(orig, t, store - {child.at}, freed + [child.at], trees, stack')
  {
    hide Nodes, Below, Left, Done, CellOf, LeftAll, InFrame;
    NodesOfLeaf(child);
    DeleteOne(orig, freed, child.at);
    assert freed + ([child.at] + LeftAll(trees, stack')) == (freed + [child.at]) + LeftAll(trees, stack');
  }

  lemma {:induction false} ChildPushed(orig: map<Addr, Cell>, t: Shape, store: map<Addr, Cell>, freed: seq<Addr>,
                                       trees: seq<Shape>, stack: seq<Frame>, child: Shape, stack': seq<Frame>)
    requires Running(orig, t, store, freed, trees, stack) && Framed(trees, stack') && Stored(orig, child)
    requires LeftAll(trees, stack) == Nodes(child) + LeftAll(trees, stack')
    ensures Running(orig, t, store, freed, trees + [child], stack' + [Frame(child.at, 0, 0)])
  {
    hide Nodes, Below, Left, Done, CellOf, LeftAll, InFrame;
    LeftStart(child);
    LeftAllPush(trees, stack', child, Frame(child.at, 0, 0));
  }

  /** The next child: a leaf can be deleted on the spot, any other child goes on the stack. */
  lemma {:induction false} NextChild(orig: map<Addr, Cell>, t: Shape, store: map<Addr, Cell>, freed: seq<Addr>,
                                     trees: seq<Shape>, stack: seq<Frame>)
    requires Running(orig, t, store, freed, trees, stack)
    requires var n := |stack| - 1;
             stack[n].mi < |trees[n].lists| && stack[n].vi < |trees[n].lists[stack[n].mi].trees|
    ensures var n := |stack| - 1;
            var child, stack' := trees[n].lists[stack[n].mi].trees[stack[n].vi], stack[n := Frame(stack[n].c, stack[n].mi, stack[n].vi + 1)];
            && child.at in store && store[child.at] == CellOf(child)
            && (child.lists == [] ==> Running(orig, t, store - {child.at}, freed + [child.at], trees, stack'))
            && (child.lists != [] ==> Running(orig, t, store, freed, trees + [child], stack' + [Frame(child.at, 0, 0)]))
  {
    hide Nodes, LeftAll, CellOf, Stored, InFrame;
    var n := |stack| - 1;
    var child := trees[n].lists[stack[n].mi].trees[stack[n].vi];
    var stack' := stack[n := Frame(stack[n].c, stack[n].mi, stack[n].vi + 1)];
    ChildLeft(orig, t, store, freed, trees, stack, child, stack');
    if child.lists == [] {
      LeafGone(orig, t, store, freed, trees, stack, child, stack');
    } else {
      ChildPushed(orig, t, store, freed, trees, stack, child, stack');
    }
  }

  lemma {:induction false} NextList(orig: map<Addr, Cell>, t: Shape, store: map<Addr, Cell>, freed: seq<Addr>,
                                    trees: seq<Shape>, stack: seq<Frame>)
    requires Running(orig, t, store, freed, trees, stack)
    requires var n := |stack| - 1;
             stack[n].mi < |trees[n].lists| && stack[n].vi == |trees[n].lists[stack[n].mi].trees|
    ensures var n := |stack| - 1;
            Running(orig, t, store, freed, trees, stack[n := Frame(stack[n].c, stack[n].mi + 1, 0)])
  {
    hide Nodes, Below, Left, Done, CellOf;
    var n := |stack| - 1;
    LeftNextList(trees[n], stack[n]);
    LeftAllTop(trees, stack, Frame(stack[n].c, stack[n].mi + 1, 0));
  }

  /** The last list is done: the node itself goes, unless it is the root. */
  lemma {:induction false} Finish(orig: map<Addr, Cell>, t: Shape, store: map<Addr, Cell>, freed: seq<Addr>,
                                  trees: seq<Shape>, stack: seq<Frame>)
    requires Running(orig, t, store, freed, trees, stack)
    requires stack[|stack| - 1].mi == |trees[|stack| - 1].lists|
    ensures var n := |stack| - 1;
            var c := stack[n].c;
            && (n == 0 ==> c == t.at && freed + [t.at] == Nodes(t))
            && (n > 0 ==> c != t.at && Running(orig, t, store - {c}, freed + [c], trees[..n], stack[..n]))
  {
    hide Nodes, Below, Left, Done, CellOf;
    var n := |stack| - 1;
    LeftEnd(trees[n], stack[n]);
    var below := LeftAll(trees[..n], stack[..n]);
    assert LeftAll(trees, stack) == [stack[n].c] + below;
    if n > 0 {
      DeleteOne(orig, freed, stack[n].c);
      assert freed + ([stack[n].c] + below) == (freed + [stack[n].c]) + below;
      RootLast(trees[..n], stack[..n]);
      var all := freed + ([stack[n].c] + below);
      assert all[|freed|] == stack[n].c && all[|all| - 1] == t.at;
    } else {
      assert below == [];
      assert freed + ([t.at] + below) == freed + [t.at];
    }
  }

  lemma {:induction false} RootLast(trees: seq<Shape>, stack: seq<Frame>)
    requires Framed(trees, stack) && stack != []
    ensures var l := LeftAll(trees, stack);
            |l| > 0 && l[|l| - 1] == trees[0].at
    decreases |stack|
  {
    hide Left, Done, InFrame;
    var n := |stack| - 1;
    if n > 0 {
      RootLast(trees[..n], stack[..n]);
    } else {
      assert LeftAll(trees[..0], stack[..0]) == [];
    }
  }

  class Heap {
    var store: map<Addr, Cell>
    /** The deleted addresses, in order. */
    ghost var freed: seq<Addr>

    method Delete(c: Addr)
      requires c in store
      modifies this
      ensures store == old(store) - {c} && freed == old(freed) + [c]
    {
      store := store - {c};
      freed := freed + [c];
    }

    /** The deletion part of `clear`: every proper descendant of the root is deleted exactly once,
        children before parents, and the root stays with no children. */
    method Clear(root: Addr, ghost t: Shape)
      requires t.at == root && Stored(store, t) && Distinct(Nodes(t))
      requires freed == []
      modifies this
      ensures freed + [root] == Nodes(t)
      ensures store == (old(store) - (set a | a in freed))[root := []]
    {
      hide Nodes, Below, Running, Left, Done, Distinct;
      if store[root] == [] {
        NodesOfLeaf(t);
        assert store == (store - (set a | a in freed))[root := []];
        return;
      }
      var stack := [Frame(root, 0, 0)];
      ghost var trees := [t];
      RunningStart(store, t);
      while stack != []
        invariant |trees| == |stack|
        invariant stack != [] ==> Running(old(store), t, store, freed, trees, stack)
        invariant stack == [] ==> freed + [root] == Nodes(t) && store == (old(store) - (set a | a in freed))[root := []]
        decreases |Nodes(t)| - |freed|, |stack| > 0, if stack == [] then t else trees[|stack| - 1],
                  if stack == [] then 0 else |trees[|stack| - 1].lists| - stack[|stack| - 1].mi
      {
        var n := |stack| - 1;
        var state := stack[n];
        ghost var top := trees[n];
        TopReadable(old(store), t, store, freed, trees, stack);
        RunningFrame(old(store), t, store, freed, trees, stack);
        if state.mi < |store[state.c]| {
          var v := store[state.c][state.mi];
          if state.vi < |v| {
            NextChild(old(store), t, store, freed, trees, stack);
            ghost var child := top.lists[state.mi].trees[state.vi];
            var c := v[state.vi];
            stack := stack[n := Frame(state.c, state.mi, state.vi + 1)];
            if store[c] == [] {
              Delete(c);
            } else {
              stack, trees := stack + [Frame(c, 0, 0)], trees + [child];
            }
          } else {
            NextList(old(store), t, store, freed, trees, stack);
            stack := stack[n := Frame(state.c, state.mi + 1, 0)];
          }
        } else {
          Finish(old(store), t, store, freed, trees, stack);
          assert store[state.c := []] - {state.c} == store - {state.c};
          store := store[state.c := []];
          if state.c != root {
            Delete(state.c);
          }
          stack, trees := stack[..n], trees[..n];
        }
      }
    }
  }

  lemma {:induction false} RunningStart(orig: map<Addr, Cell>, t: Shape)
    requires Stored(orig, t) && Distinct(Nodes(t))
    ensures Running(orig, t, orig, [], [t], [Frame(t.at, 0, 0)])
  {
    hide Nodes, Below, Left, Done, CellOf, Distinct;
    LeftStart(t);
    LeftAllPush([], [], t, Frame(t.at, 0, 0));
    assert LeftAll([], []) == [] && [t] == [] + [t] && [Frame(t.at, 0, 0)] == [] + [Frame(t.at, 0, 0)];
    assert [] + (Nodes(t) + []) == Nodes(t);
    assert orig - (set a: Addr | a in []) == orig;
  }

  lemma {:induction false} RunningFrame(orig: map<Addr, Cell>, t: Shape, store: map<Addr, Cell>,
                                        freed: seq<Addr>, trees: seq<Shape>, stack: seq<Frame>)
    requires Running(orig, t, store, freed, trees, stack)
    ensures InFrame(trees[|stack| - 1], stack[|stack| - 1]) && |freed| < |Nodes(t)| && trees[0] == t
    ensures store == orig - (set a | a in freed)
  {
    RootLast(trees, stack);
  }

  /** Each proper descendant is among the deleted addresses exactly once, and the root is not. */
  lemma {:induction false} DeletedOnce(t: Shape, freed: seq<Addr>)
    requires freed + [t.at] == Nodes(t) && Distinct(Nodes(t))
    ensures multiset(freed) == multiset(Nodes(t)) - multiset{t.at}
    ensures forall a :: multiset(freed)[a] == if a in Nodes(t) && a != t.at then 1 else 0
  {
    var all := freed + [t.at];
    assert forall i :: 0 <= i < |freed| ==> all[i] == freed[i];
    assert all[|freed|] == t.at;
    assert multiset(all) == multiset(freed) + multiset{t.at};
    forall a
      ensures multiset(freed)[a] == if a in Nodes(t) && a != t.at then 1 else 0
    {
      DistinctOnce(freed, a);
    }
  }

  lemma {:induction false} DistinctOnce(s: seq<Addr>, a: Addr)
    requires Distinct(s)
    ensures multiset(s)[a] == if a in s then 1 else 0
  {
    if s != [] {
      var n := |s| - 1;
      assert s == s[..n] + [s[n]];
      DistinctOnce(s[..n], a);
    }
  }
}
