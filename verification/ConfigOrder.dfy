/** The double representation of the children of a `config`: one list per tag, and a global order of
    (tag, index) entries.  The lemmas say what renumbering has to do so that both stay in step with
    one sequence of (tag, child) pairs. */
module ConfigOrder {
  import opened ConfigTree

  datatype Pos = Pos(tag: string, index: nat)

  type Lists = map<string, seq<Tree>>

  function ListIn(children: Lists, tag: string): seq<Tree> {
    if tag in children then children[tag] else []
  }

  /** The number of entries of a tag. */
  function Count(order: seq<Pos>, tag: string): nat {
    if order == [] then 0
    else Count(order[..|order| - 1], tag) + if order[|order| - 1].tag == tag then 1 else 0
  }

  /** The entries of each tag carry the indices 0, 1, ... in order and cover exactly its list. */
  ghost predicate Dense(children: Lists, order: seq<Pos>) {
    && (forall p :: 0 <= p < |order| ==> order[p].index == Count(order[..p], order[p].tag))
    && (forall tag :: Count(order, tag) == |ListIn(children, tag)|)
  }

  predicate InRange(children: Lists, order: seq<Pos>) {
    forall p :: 0 <= p < |order| ==> order[p].index < |ListIn(children, order[p].tag)|
  }

  function KidsOf(children: Lists, order: seq<Pos>): (kids: seq<Kid>)
    requires InRange(children, order)
    ensures |kids| == |order|
  {
    seq(|order|, p requires 0 <= p < |order| =>
      Kid(order[p].tag, ListIn(children, order[p].tag)[order[p].index]))
  }

  lemma CountNone(order: seq<Pos>, tag: string)
    ensures Count(order[..0], tag) == 0
  {
  }

  lemma {:induction false} CountConcat(x: seq<Pos>, y: seq<Pos>, tag: string)
    ensures Count(x + y, tag) == Count(x, tag) + Count(y, tag)
    decreases |y|
  {
    if y == [] {
      assert x + y == x;
    } else {
      assert (x + y)[..|x + y| - 1] == x + y[..|y| - 1];
      CountConcat(x, y[..|y| - 1], tag);
    }
  }

  /** Counting up to a position, past it, and in total. */
  lemma {:induction false} CountAround(order: seq<Pos>, p: nat, tag: string)
    requires p < |order|
    ensures Count(order[..p + 1], tag) == Count(order[..p], tag) + if order[p].tag == tag then 1 else 0
    ensures Count(order[..p + 1], tag) <= Count(order, tag)
  {
    assert order[..p + 1][..p] == order[..p];
    assert order == order[..p + 1] + order[p + 1..];
    CountConcat(order[..p + 1], order[p + 1..], tag);
  }

  lemma {:induction false} CountMonotone(order: seq<Pos>, p: nat, q: nat, tag: string)
    requires p <= q <= |order|
    ensures Count(order[..p], tag) <= Count(order[..q], tag)
  {
    assert order[..q] == order[..p] + order[p..q];
    CountConcat(order[..p], order[p..q], tag);
  }

  lemma {:induction false} DenseInRange(children: Lists, order: seq<Pos>)
    requires Dense(children, order)
    ensures InRange(children, order)
  {
    forall p | 0 <= p < |order|
      ensures order[p].index < |ListIn(children, order[p].tag)|
    {
      CountAround(order, p, order[p].tag);
    }
  }

  /** The global order, cut by tag, gives back the lists. */
  lemma {:induction false} DensePrefix(children: Lists, order: seq<Pos>, n: nat, tag: string)
    requires Dense(children, order) && n <= |order|
    ensures InRange(children, order)
    ensures Count(order[..n], tag) <= |ListIn(children, tag)|
    ensures ListOf(KidsOf(children, order)[..n], tag) == ListIn(children, tag)[..Count(order[..n], tag)]
    decreases n
  {
    hide ListOf, Count;
    DenseInRange(children, order);
    var kids := KidsOf(children, order);
    if n == 0 {
      ListOfNone(tag);
      CountNone(order, tag);
      assert kids[..0] == [];
    } else {
      DensePrefix(children, order, n - 1, tag);
      CountAround(order, n - 1, tag);
      var kid, list := kids[n - 1], ListIn(children, tag);
      assert kids[..n] == kids[..n - 1] + [kid];
      ListOfConcat(kids[..n - 1], [kid], tag);
      ListOfOne(kid, tag);
      if kid.tag == tag {
        var k := order[n - 1].index;
        assert list[..k] + [list[k]] == list[..k + 1];
      }
    }
  }

  lemma {:induction false} DenseLists(children: Lists, order: seq<Pos>, tag: string)
    requires Dense(children, order)
    ensures InRange(children, order)
    ensures ListOf(KidsOf(children, order), tag) == ListIn(children, tag)
  {
    DensePrefix(children, order, |order|, tag);
    assert order[..|order|] == order;
    assert KidsOf(children, order)[..|order|] == KidsOf(children, order);
  }

  /** An entry is where the search for its tag and index ends. */
  lemma {:induction false} DenseFind(children: Lists, order: seq<Pos>, p: nat)
    requires Dense(children, order) && p < |order|
    ensures InRange(children, order)
    ensures Find(KidsOf(children, order), order[p].tag, order[p].index) == p
  {
    DensePrefix(children, order, p, order[p].tag);
    FindUnique(KidsOf(children, order), order[p].tag, p);
  }

  /** Entries of the tag before the k-th one have smaller indices, the others do not. */
  lemma {:induction false} DenseSplit(children: Lists, order: seq<Pos>, tag: string, k: nat, p: nat)
    requires Dense(children, order) && p < |order| && order[p].tag == tag
    ensures InRange(children, order)
    ensures p < Find(KidsOf(children, order), tag, k) <==> order[p].index < k
    ensures p == Find(KidsOf(children, order), tag, k) <==> order[p].index == k
  {
    hide ListOf, Count, Find;
    DenseInRange(children, order);
    var q := Find(KidsOf(children, order), tag, k);
    DenseFind(children, order, p);
    DenseLists(children, order, tag);
    CountAround(order, p, tag);
    if q < |order| {
      DensePrefix(children, order, q, tag);
      CountAround(order, q, tag);
      if p < q { CountMonotone(order, p + 1, q, tag); }
      if q < p { CountMonotone(order, q + 1, p, tag); }
    }
  }

  // ---------------------------------------------------------------- renumbering

  /** The entries of a tag with their indices moved by `d`. */
  function Moved(order: seq<Pos>, tag: string, d: int): (r: seq<Pos>)
    requires forall p :: 0 <= p < |order| && order[p].tag == tag ==> order[p].index + d >= 0
    ensures |r| == |order|
  {
    seq(|order|, p requires 0 <= p < |order| =>
      if order[p].tag == tag then Pos(tag, order[p].index + d) else order[p])
  }

  lemma {:induction false} CountMoved(order: seq<Pos>, tag: string, d: int, t: string)
    requires forall p :: 0 <= p < |order| && order[p].tag == tag ==> order[p].index + d >= 0
    ensures Count(Moved(order, tag, d), t) == Count(order, t)
  {
    if order != [] {
      var n := |order| - 1;
      assert Moved(order, tag, d)[..n] == Moved(order[..n], tag, d);
      CountMoved(order[..n], tag, d, t);
    }
  }

  function Inserted(order: seq<Pos>, q: nat, tag: string, k: nat): seq<Pos>
    requires q <= |order|
  {
    order[..q] + [Pos(tag, k)] + Moved(order[q..], tag, 1)
  }

  function Removed(order: seq<Pos>, q: nat, tag: string): seq<Pos>
    requires q < |order|
    requires forall p :: q < p < |order| && order[p].tag == tag ==> order[p].index > 0
  {
    order[..q] + Moved(order[q + 1..], tag, -1)
  }

  lemma {:induction false} CountInserted(order: seq<Pos>, q: nat, tag: string, k: nat, p: nat, t: string)
    requires q <= |order| && p <= |order| + 1
    ensures Count(Inserted(order, q, tag, k)[..p], t) ==
            if p <= q then Count(order[..p], t) else Count(order[..p - 1], t) + if t == tag then 1 else 0
  {
    var r := Inserted(order, q, tag, k);
    if p <= q {
      assert r[..p] == order[..p];
    } else {
      var mid := order[q..p - 1];
      assert r[..p] == order[..q] + [Pos(tag, k)] + Moved(mid, tag, 1);
      assert order[..p - 1] == order[..q] + mid;
      CountConcat(order[..q] + [Pos(tag, k)], Moved(mid, tag, 1), t);
      CountConcat(order[..q], [Pos(tag, k)], t);
      CountConcat(order[..q], mid, t);
      CountMoved(mid, tag, 1, t);
      assert Count([Pos(tag, k)], t) == if t == tag then 1 else 0 by {
        CountNone([Pos(tag, k)], t);
        CountAround([Pos(tag, k)], 0, t);
        assert [Pos(tag, k)][..1] == [Pos(tag, k)];
      }
    }
  }

  lemma {:induction false} CountRemoved(order: seq<Pos>, q: nat, tag: string, p: nat, t: string)
    requires q < |order| && p < |order| && order[q].tag == tag
    requires forall p :: q < p < |order| && order[p].tag == tag ==> order[p].index > 0
    ensures Count(Removed(order, q, tag)[..p], t) ==
            if p < q then Count(order[..p], t) else Count(order[..p + 1], t) - if t == tag then 1 else 0
  {
    var r := Removed(order, q, tag);
    if p < q {
      assert r[..p] == order[..p];
    } else {
      var mid := order[q + 1..p + 1];
      assert r[..p] == order[..q] + Moved(mid, tag, -1);
      assert order[..p + 1] == order[..q + 1] + mid;
      CountConcat(order[..q], Moved(mid, tag, -1), t);
      CountConcat(order[..q + 1], mid, t);
      CountMoved(mid, tag, -1, t);
      CountAround(order, q, t);
    }
  }

  /** Before the place of the k-th entry there are k entries of the tag. */
  lemma {:induction false} InsertRank(children: Lists, order: seq<Pos>, tag: string, k: nat)
    requires Dense(children, order) && k <= |ListIn(children, tag)|
    ensures InRange(children, order)
    ensures Count(order[..Find(KidsOf(children, order), tag, k)], tag) == k
  {
    hide ListOf, Count, Find;
    DenseLists(children, order, tag);
    var kids := KidsOf(children, order);
    var q := Find(kids, tag, k);
    DensePrefix(children, order, q, tag);
    if q == |order| {
      assert order[..q] == order && kids[..q] == kids;
    }
  }

  function InsertedList(list: seq<Tree>, k: nat, c: Tree): seq<Tree>
    requires k <= |list|
  {
    list[..k] + [c] + list[k..]
  }

  function RemovedList(list: seq<Tree>, k: nat): seq<Tree>
    requires k < |list|
  {
    list[..k] + list[k + 1..]
  }

  /** One entry after an insertion: its index is right. */
  lemma {:induction false} InsertedIndex(children: Lists, order: seq<Pos>, tag: string, k: nat, p: nat)
    requires Dense(children, order) && k <= |ListIn(children, tag)| && p <= |order|
    ensures InRange(children, order)
    ensures var order' := Inserted(order, Find(KidsOf(children, order), tag, k), tag, k);
            order'[p].index == Count(order'[..p], order'[p].tag)
  {
    hide ListOf, Count, Find, Dense, KidsOf, ListIn;
    DenseLists(children, order, tag);
    var q := Find(KidsOf(children, order), tag, k);
    var order' := Inserted(order, q, tag, k);
    InsertRank(children, order, tag, k);
    CountInserted(order, q, tag, k, p, order'[p].tag);
    if p < q {
      EntryRank(children, order, p);
    } else if p > q {
      EntryRank(children, order, p - 1);
    }
  }

  /** ... and it names the pair it should. */
  lemma {:induction false} InsertedEntry(children: Lists, order: seq<Pos>, tag: string, k: nat, c: Tree, p: nat)
    requires Dense(children, order) && k <= |ListIn(children, tag)| && p <= |order|
    ensures InRange(children, order)
    ensures var kids, children' := KidsOf(children, order), children[tag := InsertedList(ListIn(children, tag), k, c)];
            var order' := Inserted(order, Find(kids, tag, k), tag, k);
            && order'[p].index < |ListIn(children', order'[p].tag)|
            && Kid(order'[p].tag, ListIn(children', order'[p].tag)[order'[p].index]) == InsertKid(kids, tag, k, c)[p]
  {
    hide ListOf, Count, Find, Dense;
    DenseInRange(children, order);
    PlaceOf(children, order, tag, k);
    InsertedNames(children, order, tag, k, c, Find(KidsOf(children, order), tag, k), p);
  }

  lemma {:induction false} InsertedNames(children: Lists, order: seq<Pos>, tag: string, k: nat, c: Tree, q: nat, p: nat)
    requires InRange(children, order) && k <= |ListIn(children, tag)| && p <= |order|
    requires IsPlace(order, tag, k, q)
    ensures var kids, children' := KidsOf(children, order), children[tag := InsertedList(ListIn(children, tag), k, c)];
            var e := Inserted(order, q, tag, k)[p];
            && e.index < |ListIn(children', e.tag)|
            && Kid(e.tag, ListIn(children', e.tag)[e.index]) == (kids[..q] + [Kid(tag, c)] + kids[q..])[p]
  {
    var e := Inserted(order, q, tag, k)[p];
    if p < q {
      assert e == order[p];
    } else if p > q {
      assert e == if order[p - 1].tag == tag then Pos(tag, order[p - 1].index + 1) else order[p - 1];
    }
  }

  lemma {:induction false} EntryRank(children: Lists, order: seq<Pos>, p: nat)
    requires Dense(children, order) && p < |order|
    ensures order[p].index == Count(order[..p], order[p].tag) < |ListIn(children, order[p].tag)|
  {
    DenseInRange(children, order);
  }

  lemma {:induction false} CountTotal(children: Lists, order: seq<Pos>, t: string)
    requires Dense(children, order)
    ensures Count(order[..|order|], t) == |ListIn(children, t)|
  {
    assert order[..|order|] == order;
  }

  /** Inserting into the list and renumbering the later entries inserts one pair. */
  lemma {:induction false} InsertDense(children: Lists, order: seq<Pos>, tag: string, k: nat, c: Tree)
    requires Dense(children, order) && k <= |ListIn(children, tag)|
    ensures InRange(children, order)
    ensures var kids, children' := KidsOf(children, order), children[tag := InsertedList(ListIn(children, tag), k, c)];
            var order' := Inserted(order, Find(kids, tag, k), tag, k);
            && Dense(children', order') && InRange(children', order')
            && KidsOf(children', order') == InsertKid(kids, tag, k, c)
  {
    hide ListOf, Count, Find, Inserted;
    DenseLists(children, order, tag);
    var kids := KidsOf(children, order);
    var q := Find(kids, tag, k);
    var children', order' := children[tag := InsertedList(ListIn(children, tag), k, c)], Inserted(order, q, tag, k);
    InsertedLength(order, q, tag, k);
    forall p | 0 <= p < |order'|
      ensures order'[p].index == Count(order'[..p], order'[p].tag)
      ensures order'[p].index < |ListIn(children', order'[p].tag)|
      ensures Kid(order'[p].tag, ListIn(children', order'[p].tag)[order'[p].index]) == InsertKid(kids, tag, k, c)[p]
    {
      InsertedIndex(children, order, tag, k, p);
      InsertedEntry(children, order, tag, k, c, p);
    }
    forall t
      ensures Count(order', t) == |ListIn(children', t)|
    {
      CountInserted(order, q, tag, k, |order'|, t);
      CountTotal(children, order, t);
      assert order'[..|order'|] == order';
    }
    assert KidsOf(children', order') == InsertKid(kids, tag, k, c);
  }

  lemma {:induction false} InsertedLength(order: seq<Pos>, q: nat, tag: string, k: nat)
    requires q <= |order|
    ensures |Inserted(order, q, tag, k)| == |order| + 1
  {
  }

  /** The entries after the k-th one of a tag have larger indices. */
  lemma {:induction false} LaterEntries(children: Lists, order: seq<Pos>, tag: string, k: nat)
    requires Dense(children, order) && k < |ListIn(children, tag)|
    ensures InRange(children, order)
    ensures var q := Find(KidsOf(children, order), tag, k);
            && q < |order| && order[q].tag == tag
            && forall p :: q < p < |order| && order[p].tag == tag ==> order[p].index > k
  {
    hide ListOf, Count, Find, Dense;
    DenseLists(children, order, tag);
    var q := Find(KidsOf(children, order), tag, k);
    forall p | q < p < |order| && order[p].tag == tag
      ensures order[p].index > k
    {
      DenseSplit(children, order, tag, k, p);
    }
  }

  /** One entry after a removal: its index is right. */
  lemma {:induction false} RemovedIndex(children: Lists, order: seq<Pos>, tag: string, k: nat, q: nat, p: nat)
    requires Dense(children, order) && q < |order| && order[q].tag == tag && p < |order| - 1
    requires forall p :: q < p < |order| && order[p].tag == tag ==> order[p].index > 0
    ensures var order' := Removed(order, q, tag);
            order'[p].index == Count(order'[..p], order'[p].tag)
  {
    hide ListOf, Count, Find, Dense, ListIn;
    var order' := Removed(order, q, tag);
    CountRemoved(order, q, tag, p, order'[p].tag);
    EntryRank(children, order, if p < q then p else p + 1);
  }

  /** ... and it names the pair it should. */
  lemma {:induction false} RemovedNames(children: Lists, order: seq<Pos>, tag: string, k: nat, q: nat, p: nat)
    requires InRange(children, order) && k < |ListIn(children, tag)| && q < |order| && p < |order| - 1
    requires IsPlace(order, tag, k, q)
    ensures forall p :: q < p < |order| && order[p].tag == tag ==> order[p].index > 0
    ensures var kids, children' := KidsOf(children, order), children[tag := RemovedList(ListIn(children, tag), k)];
            var e := Removed(order, q, tag)[p];
            && e.index < |ListIn(children', e.tag)|
            && Kid(e.tag, ListIn(children', e.tag)[e.index]) == (kids[..q] + kids[q + 1..])[p]
  {
    RemovedAt(order, q, tag, p);
    hide Removed, RemovedList;
    var kids, o := KidsOf(children, order), order[if p < q then p else p + 1];
    assert (kids[..q] + kids[q + 1..])[p] == kids[if p < q then p else p + 1] == Kid(o.tag, ListIn(children, o.tag)[o.index]);
    if o.tag == tag {
      RemovedListAt(ListIn(children, tag), k, o.index);
    }
  }

  lemma RemovedAt(order: seq<Pos>, q: nat, tag: string, p: nat)
    requires q < |order| && p < |order| - 1
    requires forall p :: q < p < |order| && order[p].tag == tag ==> order[p].index > 0
    ensures |Removed(order, q, tag)| == |order| - 1
    ensures Removed(order, q, tag)[p] ==
            if p < q then order[p]
            else if order[p + 1].tag == tag then Pos(tag, order[p + 1].index - 1)
            else order[p + 1]
  {
  }

  lemma RemovedListAt(list: seq<Tree>, k: nat, i: nat)
    requires k < |list| && i < |list|
    ensures |RemovedList(list, k)| == |list| - 1
    ensures i < k ==> RemovedList(list, k)[i] == list[i]
    ensures i > k ==> RemovedList(list, k)[i - 1] == list[i]
  {
  }

  /** Removing from the list and renumbering the later entries removes one pair. */
  lemma {:induction false} RemoveDense(children: Lists, order: seq<Pos>, tag: string, k: nat)
    requires Dense(children, order) && k < |ListIn(children, tag)|
    ensures InRange(children, order)
    ensures var kids, children' := KidsOf(children, order), children[tag := RemovedList(ListIn(children, tag), k)];
            var q := Find(kids, tag, k);
            && q < |order|
            && (forall p :: q < p < |order| && order[p].tag == tag ==> order[p].index > 0)
            && var order' := Removed(order, q, tag);
               && Dense(children', order') && InRange(children', order')
               && KidsOf(children', order') == RemoveKid(kids, tag, k)
  {
    hide ListOf, Count, Find;
    DenseLists(children, order, tag);
    LaterEntries(children, order, tag, k);
    PlaceOf(children, order, tag, k);
    var kids := KidsOf(children, order);
    var q := Find(kids, tag, k);
    var children', order' := children[tag := RemovedList(ListIn(children, tag), k)], Removed(order, q, tag);
    forall p | 0 <= p < |order'|
      ensures order'[p].index == Count(order'[..p], order'[p].tag)
      ensures order'[p].index < |ListIn(children', order'[p].tag)|
      ensures Kid(order'[p].tag, ListIn(children', order'[p].tag)[order'[p].index]) == RemoveKid(kids, tag, k)[p]
    {
      RemovedIndex(children, order, tag, k, q, p);
      RemovedNames(children, order, tag, k, q, p);
    }
    forall t
      ensures Count(order', t) == |ListIn(children', t)|
    {
      CountRemoved(order, q, tag, |order'|, t);
      CountTotal(children, order, t);
      assert order'[..|order'|] == order';
    }
    assert KidsOf(children', order') == RemoveKid(kids, tag, k);
  }

  /** Appending to the list and to the order appends one pair. */
  lemma {:induction false} AppendDense(children: Lists, order: seq<Pos>, tag: string, c: Tree)
    requires Dense(children, order)
    ensures InRange(children, order)
    ensures var l := ListIn(children, tag);
            var children', order' := children[tag := l + [c]], order + [Pos(tag, |l|)];
            && Dense(children', order') && InRange(children', order')
            && KidsOf(children', order') == KidsOf(children, order) + [Kid(tag, c)]
  {
    hide ListOf, Count;
    var l := ListIn(children, tag);
    DenseLists(children, order, tag);
    InsertDense(children, order, tag, |l|, c);
    assert Find(KidsOf(children, order), tag, |l|) == |order|;
    assert InsertedList(l, |l|, c) == l + [c];
    assert Inserted(order, |order|, tag, |l|) == order + [Pos(tag, |l|)];
  }

  /** An empty list for a tag without children changes nothing. */
  lemma {:induction false} EmptyEntryDense(children: Lists, order: seq<Pos>, tag: string)
    requires Dense(children, order)
    ensures var children' := children[tag := ListIn(children, tag)];
            && InRange(children, order) && Dense(children', order) && InRange(children', order)
            && KidsOf(children', order) == KidsOf(children, order)
  {
    DenseInRange(children, order);
    var children' := children[tag := ListIn(children, tag)];
    assert forall t :: ListIn(children', t) == ListIn(children, t);
  }

  /** One more entry renumbered. */
  lemma {:induction false} MovedStep(o: seq<Pos>, q: nat, j: nat, tag: string, d: int)
    requires q <= j < |o|
    requires forall p :: q <= p < |o| && o[p].tag == tag ==> o[p].index + d >= 0
    ensures Moved(o[q..j + 1], tag, d) ==
            Moved(o[q..j], tag, d) + [if o[j].tag == tag then Pos(tag, o[j].index + d) else o[j]]
    ensures o[j..] == [o[j]] + o[j + 1..]
  {
    assert o[q..j + 1] == o[q..j] + [o[j]];
  }

  // ---------------------------------------------------------------- the renumbering loops

  /** `q` is where the k-th entry of the tag is, or the end. */
  ghost predicate IsPlace(o: seq<Pos>, tag: string, k: nat, q: nat) {
    && q <= |o| && (q < |o| ==> o[q].tag == tag)
    && forall p :: 0 <= p < |o| && o[p].tag == tag ==> (p < q <==> o[p].index < k) && (p == q <==> o[p].index == k)
  }

  lemma {:induction false} PlaceOf(children: Lists, o: seq<Pos>, tag: string, k: nat)
    requires Dense(children, o)
    ensures InRange(children, o)
    ensures IsPlace(o, tag, k, Find(KidsOf(children, o), tag, k))
    ensures Find(KidsOf(children, o), tag, k) < |o| <==> k < |ListIn(children, tag)|
  {
    hide ListOf, Count, Dense;
    DenseLists(children, o, tag);
    forall p | 0 <= p < |o| && o[p].tag == tag {
      DenseSplit(children, o, tag, k, p);
    }
  }

  /** The state of the loop of `add_child_at` before it looks at entry `i`. */
  ghost predicate Inserting(o: seq<Pos>, q: nat, tag: string, k: nat, order: seq<Pos>, i: nat, inserted: bool) {
    if !inserted then order == o && i <= q && i <= |o|
    else q < |o| && q < i <= |o| + 1 && order == o[..q] + [Pos(tag, k)] + Moved(o[q..i - 1], tag, 1) + o[i - 1..]
  }

  lemma {:induction false} InsertingStep(o: seq<Pos>, q: nat, tag: string, k: nat, order: seq<Pos>, i: nat,
                                         inserted: bool)
    requires IsPlace(o, tag, k, q) && Inserting(o, q, tag, k, order, i, inserted) && i < |order|
    ensures i <= |o|
    ensures inserted && order[i].tag == tag ==> order[i].index >= k
    ensures !inserted && order[i].tag == tag ==> order[i].index <= k
    ensures if !inserted && order[i].tag == tag && order[i].index == k then
              Inserting(o, q, tag, k, order[..i] + [Pos(tag, k)] + order[i..], i + 1, true)
            else if inserted && order[i].tag == tag then
              Inserting(o, q, tag, k, order[i := Pos(tag, order[i].index + 1)], i + 1, true)
            else Inserting(o, q, tag, k, order, i + 1, inserted)
  {
    hide Moved;
    if inserted {
      InsertedStep(o, q, tag, k, order, i);
    } else if order[i].tag == tag && order[i].index == k {
      NoneMoved(o, i, tag);
    }
  }

  lemma NoneMoved(o: seq<Pos>, i: nat, tag: string)
    requires i <= |o|
    ensures Moved(o[i..i], tag, 1) == []
  {
  }

  /** Behind the place of insertion every entry of the tag is raised. */
  lemma {:induction false} InsertedStep(o: seq<Pos>, q: nat, tag: string, k: nat, order: seq<Pos>, i: nat)
    requires IsPlace(o, tag, k, q) && Inserting(o, q, tag, k, order, i, true) && i < |order|
    ensures order[i] == o[i - 1] && (order[i].tag == tag ==> order[i].index >= k)
    ensures Inserting(o, q, tag, k, order[i := if order[i].tag == tag then Pos(tag, order[i].index + 1) else order[i]],
                      i + 1, true)
  {
    hide Moved;
    var done := o[..q] + [Pos(tag, k)] + Moved(o[q..i - 1], tag, 1);
    MovedStep(o, q, i - 1, tag, 1);
    var e := if o[i - 1].tag == tag then Pos(tag, o[i - 1].index + 1) else o[i - 1];
    assert |done| == i;
    assert order == done + ([o[i - 1]] + o[i..]);
    assert order[i := e] == (done + [e]) + o[i..];
    assert done + [e] == o[..q] + [Pos(tag, k)] + (Moved(o[q..i - 1], tag, 1) + [e]);
  }

  lemma {:induction false} InsertingStart(o: seq<Pos>, q: nat, tag: string, k: nat)
    requires IsPlace(o, tag, k, q)
    ensures Inserting(o, q, tag, k, o, 0, false)
  {
  }

  lemma {:induction false} InsertingDone(o: seq<Pos>, q: nat, tag: string, k: nat, order: seq<Pos>, i: nat,
                                         inserted: bool)
    requires IsPlace(o, tag, k, q) && Inserting(o, q, tag, k, order, i, inserted) && i >= |order|
    ensures Inserted(o, q, tag, k) == if inserted then order else order + [Pos(tag, k)]
  {
    if inserted {
      assert i == |o| + 1 && o[q..|o|] == o[q..];
    }
  }

  /** The state of the loop of `remove_child` before it looks at entry `i`. */
  ghost predicate Removing(o: seq<Pos>, q: nat, tag: string, order: seq<Pos>, i: nat, found: nat) {
    && i <= |o| == |order|
    && (forall p :: i <= p < |o| ==> order[p] == o[p])
    && (q < i ==> found == q)
    && forall p :: 0 <= p < i && p != q ==>
         if q < p && o[p].tag == tag then o[p].index > 0 && order[p] == Pos(tag, o[p].index - 1) else order[p] == o[p]
  }

  lemma {:induction false} RemovingStep(o: seq<Pos>, q: nat, tag: string, k: nat, order: seq<Pos>, i: nat, found: nat)
    requires IsPlace(o, tag, k, q) && q < |o| && Removing(o, q, tag, order, i, found) && i < |o|
    ensures order[i].tag == tag && order[i].index > k ==>
              order[i].index > 0 && Removing(o, q, tag, order[i := Pos(tag, order[i].index - 1)], i + 1, found)
    ensures order[i].tag == tag && order[i].index == k ==> Removing(o, q, tag, order, i + 1, i)
    ensures !(order[i].tag == tag && order[i].index >= k) ==> Removing(o, q, tag, order, i + 1, found)
  {
  }

  lemma {:induction false} RemovingStart(o: seq<Pos>, q: nat, tag: string)
    ensures Removing(o, q, tag, o, 0, 0)
  {
  }

  lemma {:induction false} RemovingEnd(o: seq<Pos>, q: nat, tag: string, order: seq<Pos>, i: nat, found: nat)
    requires Removing(o, q, tag, order, i, found) && i >= |order|
    ensures i == |o|
  {
  }

  lemma {:induction false} RemoveBeyond(kids: seq<Kid>, tag: string, k: nat)
    ensures k >= |ListOf(kids, tag)| ==> RemoveKid(kids, tag, k) == kids
  {
    hide ListOf;
  }

  lemma {:induction false} RemovingDone(o: seq<Pos>, q: nat, tag: string, k: nat, order: seq<Pos>, found: nat)
    requires IsPlace(o, tag, k, q) && q < |o|
    requires Removing(o, q, tag, order, |o|, found)
    ensures forall p :: q < p < |o| && o[p].tag == tag ==> o[p].index > 0
    ensures found == q && order[..q] + order[q + 1..] == Removed(o, q, tag)
  {
    assert order[..q] == o[..q];
    assert order[q + 1..] == Moved(o[q + 1..], tag, -1);
  }

  // ---------------------------------------------------------------- clearing a tag

  function WithoutPos(order: seq<Pos>, tag: string): seq<Pos> {
    if order == [] then []
    else
      var n := |order| - 1;
      WithoutPos(order[..n], tag) + (if order[n].tag == tag then [] else [order[n]])
  }

  lemma {:induction false} CountWithout(order: seq<Pos>, tag: string, t: string)
    ensures Count(WithoutPos(order, tag), t) == if t == tag then 0 else Count(order, t)
  {
    if order != [] {
      var n := |order| - 1;
      CountWithout(order[..n], tag, t);
      if order[n].tag != tag {
        var r := WithoutPos(order[..n], tag);
        assert (r + [order[n]])[..|r|] == r;
      } else {
        assert WithoutPos(order[..n], tag) + [] == WithoutPos(order[..n], tag);
      }
    }
  }

  /** The part of a dense pair of lists and order that a prefix of the order covers. */
  ghost predicate DenseOrder(order: seq<Pos>) {
    forall p :: 0 <= p < |order| ==> order[p].index == Count(order[..p], order[p].tag)
  }

  lemma {:induction false} DenseOrderAppend(order: seq<Pos>, e: Pos)
    requires DenseOrder(order) && e.index == Count(order, e.tag)
    ensures DenseOrder(order + [e])
  {
    hide Count;
    var r := order + [e];
    assert r[..|order|] == order;
    assert forall p :: 0 <= p < |order| ==> r[..p] == order[..p];
  }

  lemma {:induction false} DenseOrderPrefix(order: seq<Pos>, n: nat)
    requires DenseOrder(order) && n <= |order|
    ensures DenseOrder(order[..n])
  {
    hide Count;
    assert forall p :: 0 <= p < n ==> order[..n][..p] == order[..p];
  }

  lemma {:induction false} WithoutDense(order: seq<Pos>, tag: string)
    requires DenseOrder(order)
    ensures DenseOrder(WithoutPos(order, tag))
  {
    hide Count, DenseOrder;
    if order == [] {
      assert WithoutPos(order, tag) == order;
    } else {
      var n := |order| - 1;
      DenseOrderPrefix(order, n);
      WithoutDense(order[..n], tag);
      CountWithout(order[..n], tag, order[n].tag);
      if order[n].tag != tag {
        DenseOrderLast(order);
        DenseOrderAppend(WithoutPos(order[..n], tag), order[n]);
      } else {
        assert WithoutPos(order[..n], tag) + [] == WithoutPos(order[..n], tag);
      }
    }
  }

  lemma {:induction false} DenseOrderLast(order: seq<Pos>)
    requires DenseOrder(order) && order != []
    ensures order[|order| - 1].index == Count(order[..|order| - 1], order[|order| - 1].tag)
  {
  }

  /** Erasing the list and the entries of a tag erases its pairs. */
  lemma {:induction false} WithoutKids(children: Lists, order: seq<Pos>, tag: string)
    requires InRange(children, order)
    ensures InRange(children - {tag}, WithoutPos(order, tag))
    ensures KidsOf(children - {tag}, WithoutPos(order, tag)) == Without(KidsOf(children, order), tag)
  {
    if order != [] {
      var n := |order| - 1;
      hide Without, WithoutPos, KidsOf, InRange;
      KidsOfLast(children, order);
      WithoutKids(children, order[..n], tag);
      LastPos(order, tag);
      LastKid(KidsOf(children, order), tag);
      if order[n].tag != tag {
        KidsOfMore(children, children - {tag}, WithoutPos(order[..n], tag), order[n]);
      }
    }
  }

  lemma KidsOfLast(children: Lists, order: seq<Pos>)
    requires order != [] && InRange(children, order)
    ensures var n := |order| - 1;
            && InRange(children, order[..n]) && KidsOf(children, order)[..n] == KidsOf(children, order[..n])
            && order[n].index < |ListIn(children, order[n].tag)|
            && KidsOf(children, order)[n] == Kid(order[n].tag, ListIn(children, order[n].tag)[order[n].index])
  {
  }

  /** One more entry of a tag that both sets of lists hold alike. */
  lemma KidsOfMore(children: Lists, children': Lists, order: seq<Pos>, e: Pos)
    requires InRange(children', order) && ListIn(children', e.tag) == ListIn(children, e.tag)
    requires e.index < |ListIn(children, e.tag)|
    ensures InRange(children', order + [e])
    ensures KidsOf(children', order + [e]) == KidsOf(children', order) + [Kid(e.tag, ListIn(children, e.tag)[e.index])]
  {
  }

  lemma LastPos(order: seq<Pos>, tag: string)
    requires order != []
    ensures var n := |order| - 1;
            WithoutPos(order, tag) == if order[n].tag == tag then WithoutPos(order[..n], tag) else WithoutPos(order[..n], tag) + [order[n]]
  {
    assert WithoutPos(order[..|order| - 1], tag) + [] == WithoutPos(order[..|order| - 1], tag);
  }

  lemma LastKid(kids: seq<Kid>, tag: string)
    requires kids != []
    ensures var n := |kids| - 1;
            Without(kids, tag) == if kids[n].tag == tag then Without(kids[..n], tag) else Without(kids[..n], tag) + [kids[n]]
  {
    assert Without(kids[..|kids| - 1], tag) + [] == Without(kids[..|kids| - 1], tag);
  }

  /** Erasing the list and the entries of a tag keeps the other indices dense. */
  lemma {:induction false} ClearDense(children: Lists, order: seq<Pos>, tag: string)
    requires Dense(children, order)
    ensures Dense(children - {tag}, WithoutPos(order, tag))
  {
    hide ListOf, Count, WithoutPos;
    assert DenseOrder(order);
    WithoutDense(order, tag);
    forall t
      ensures Count(WithoutPos(order, tag), t) == |ListIn(children - {tag}, t)|
    {
      CountWithout(order, tag, t);
    }
  }

  /** A tag without a list has no pairs. */
  lemma {:induction false} ClearNothing(children: Lists, order: seq<Pos>, tag: string)
    requires InRange(children, order) && tag !in children
    ensures Without(KidsOf(children, order), tag) == KidsOf(children, order)
  {
    hide Without;
    forall p | 0 <= p < |order|
      ensures order[p].tag != tag
    {
      assert order[p].index < |ListIn(children, order[p].tag)|;
    }
    WithoutNone(KidsOf(children, order), tag);
  }

  lemma {:induction false} WithoutNone(kids: seq<Kid>, tag: string)
    requires forall p :: 0 <= p < |kids| ==> kids[p].tag != tag
    ensures Without(kids, tag) == kids
  {
    if kids != [] {
      WithoutNone(kids[..|kids| - 1], tag);
    }
  }

  // ---------------------------------------------------------------- splicing

  /** The order after `n` of the moved children got their entries. */
  ghost predicate Spliced(own: Lists, tag: string, moved: seq<Tree>, n: nat, order: seq<Pos>, kids: seq<Kid>) {
    n <= |moved| &&
    var shown := own[tag := ListIn(own, tag) + moved[..n]];
    && Dense(shown, order) && InRange(shown, order)
    && KidsOf(shown, order) == kids + Tagged(tag, moved[..n])
  }

  lemma {:induction false} SplicedStart(own: Lists, tag: string, moved: seq<Tree>, order: seq<Pos>)
    requires Dense(own, order)
    ensures InRange(own, order)
    ensures Spliced(own, tag, moved, 0, order, KidsOf(own, order))
  {
    EmptyEntryDense(own, order, tag);
    assert ListIn(own, tag) + moved[..0] == ListIn(own, tag);
    assert KidsOf(own, order) + Tagged(tag, moved[..0]) == KidsOf(own, order);
  }

  lemma {:induction false} SplicedStep(own: Lists, tag: string, moved: seq<Tree>, n: nat, order: seq<Pos>,
                                       kids: seq<Kid>)
    requires Spliced(own, tag, moved, n, order, kids) && n < |moved|
    ensures Spliced(own, tag, moved, n + 1, order + [Pos(tag, |ListIn(own, tag)| + n)], kids)
  {
    hide Dense, InRange;
    var l := ListIn(own, tag);
    var shown, shown' := own[tag := l + moved[..n]], own[tag := l + moved[..n + 1]];
    AppendDense(shown, order, tag, moved[n]);
    assert moved[..n + 1] == moved[..n] + [moved[n]];
    assert (l + moved[..n]) + [moved[n]] == l + moved[..n + 1];
    assert shown[tag := l + moved[..n + 1]] == shown';
    assert kids + Tagged(tag, moved[..n]) + [Kid(tag, moved[n])] == kids + Tagged(tag, moved[..n + 1]);
  }

  lemma {:induction false} SplicedDone(own: Lists, tag: string, moved: seq<Tree>, order: seq<Pos>, kids: seq<Kid>)
    requires Spliced(own, tag, moved, |moved|, order, kids)
    ensures var children := own[tag := ListIn(own, tag) + moved];
            Dense(children, order) && InRange(children, order) && KidsOf(children, order) == kids + Tagged(tag, moved)
  {
    assert moved[..|moved|] == moved;
  }

  // ---------------------------------------------------------------- updating one child

  lemma {:induction false} UpdateDense(children: Lists, order: seq<Pos>, tag: string, k: nat, c: Tree)
    requires Dense(children, order) && k < |ListIn(children, tag)|
    ensures InRange(children, order) && k < |ListOf(KidsOf(children, order), tag)|
    ensures var children' := children[tag := ListIn(children, tag)[k := c]];
            && Dense(children', order) && InRange(children', order)
            && KidsOf(children', order) == UpdateKid(KidsOf(children, order), tag, k, c)
  {
    hide ListOf, Count, Find;
    DenseLists(children, order, tag);
    PlaceOf(children, order, tag, k);
    var children' := children[tag := ListIn(children, tag)[k := c]];
    assert forall t :: |ListIn(children', t)| == |ListIn(children, t)|;
  }

  /** What one entry of the order stands for. */
  lemma {:induction false} EntryView(children: Lists, order: seq<Pos>, i: nat)
    requires Dense(children, order) && i < |order|
    ensures InRange(children, order)
    ensures var kids, tag, k := KidsOf(children, order), order[i].tag, order[i].index;
            && tag in children && k < |children[tag]|
            && kids[i] == Kid(tag, children[tag][k])
            && Find(kids, tag, k) == i && k == |ListOf(kids[..i], tag)| && k < |ListOf(kids, tag)|
  {
    hide ListOf, Count, Find;
    DenseInRange(children, order);
    EntryRank(children, order, i);
    DensePrefix(children, order, i, order[i].tag);
    DenseFind(children, order, i);
    DenseLists(children, order, order[i].tag);
  }
}
