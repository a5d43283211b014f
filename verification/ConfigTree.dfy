/** The WML `config` node as a value: attributes, and one sequence of (tag, child) pairs.

    `config.cpp` stores the children of a node twice, as one list per tag and as a global order of
    (tag, index) entries.  Module ConfigNode keeps that double representation and shows that every
    mutator refines the plain operation on the sequence defined here. */
module ConfigTree {

  datatype Option<+T> = None | Some(value: T) {
    predicate IsFailure() { None? }
    function PropagateFailure<U>(): Option<U> requires None? { None }
    function Extract(): T requires Some? { value }
  }

  // ---------------------------------------------------------------- attribute values

  /** An attribute value.  `Text` stands for a string that does not read as a number or a boolean:
      assignment of such a string is stored as `Num`, `YesNo` or `TrueFalse` instead. */
  datatype Value = Blank | YesNo(on: bool) | TrueFalse(on: bool) | Num(n: int) | Text(s: string)

  predicate IsBool(v: Value) { v.YesNo? || v.TrueFalse? }

  /** `attribute_value::operator==`: boolean synonyms are equal, a blank differs from "". */
  predicate ValueEq(a: Value, b: Value) {
    if IsBool(a) && IsBool(b) then a.on == b.on else a == b
  }

  /** The comparison with "" in `get_diff`: it compares strings, and a blank reads as "". */
  predicate IsEmpty(v: Value) { v.Blank? || v == Text("") }

  type Attrs = map<string, Value>

  function Get(m: Attrs, k: string): Value { if k in m then m[k] else Blank }

  // ---------------------------------------------------------------- trees

  datatype Tree = Node(values: Attrs, kids: seq<Kid>)
  datatype Kid = Kid(tag: string, cfg: Tree)

  const EMPTY := Node(map[], [])

  ghost function Size(t: Tree): nat
    decreases t
  {
    1 + SizeAll(t.kids)
  }

  ghost function SizeAll(kids: seq<Kid>): nat
    decreases kids
  {
    if kids == [] then 0
    else SizeAll(kids[..|kids| - 1]) + 1 + Size(kids[|kids| - 1].cfg)
  }

  lemma {:induction false} SizeOfMember(kids: seq<Kid>, i: nat)
    requires i < |kids|
    ensures Size(kids[i].cfg) < SizeAll(kids)
  {
    if i < |kids| - 1 {
      SizeOfMember(kids[..|kids| - 1], i);
    }
  }

  /** The child list of one tag. */
  function ListOf(kids: seq<Kid>, tag: string): (list: seq<Tree>)
    ensures |list| <= |kids|
  {
    if kids == [] then []
    else
      var init, last := kids[..|kids| - 1], kids[|kids| - 1];
      ListOf(init, tag) + (if last.tag == tag then [last.cfg] else [])
  }

  lemma {:induction false} SizeOfListed(kids: seq<Kid>, tag: string)
    ensures forall i :: 0 <= i < |ListOf(kids, tag)| ==> Size(ListOf(kids, tag)[i]) < SizeAll(kids)
  {
    if kids != [] {
      SizeOfListed(kids[..|kids| - 1], tag);
    }
  }

  ghost function ListSize(list: seq<Tree>): nat {
    if list == [] then 0 else Size(list[0]) + ListSize(list[1..])
  }

  lemma {:induction false} ListSizeConcat(a: seq<Tree>, b: seq<Tree>)
    ensures ListSize(a + b) == ListSize(a) + ListSize(b)
  {
    if a == [] {
      assert a + b == b;
    } else {
      assert (a + b)[1..] == a[1..] + b;
      ListSizeConcat(a[1..], b);
    }
  }

  lemma {:induction false} ListSizeOfListed(kids: seq<Kid>, tag: string)
    ensures ListSize(ListOf(kids, tag)) <= SizeAll(kids)
  {
    if kids != [] {
      var init, last := kids[..|kids| - 1], kids[|kids| - 1];
      ListSizeOfListed(init, tag);
      ListSizeConcat(ListOf(init, tag), [last.cfg]);
      assert ListOf(init, tag) + [] == ListOf(init, tag);
      assert ListSize([last.cfg]) == Size(last.cfg) + ListSize([]);
    }
  }

  lemma {:induction false} ListSizeOfMember(list: seq<Tree>, i: nat)
    requires i < |list|
    ensures Size(list[i]) <= ListSize(list)
  {
    if i > 0 {
      ListSizeOfMember(list[1..], i - 1);
    }
  }

  lemma {:induction false} ListSizeBounds(list: seq<Tree>)
    ensures forall i :: 0 <= i < |list| ==> Size(list[i]) <= ListSize(list)
  {
    forall i | 0 <= i < |list| { ListSizeOfMember(list, i); }
  }

  lemma {:induction false} EveryListSize(kids: seq<Kid>)
    ensures forall tag :: ListSize(ListOf(kids, tag)) <= SizeAll(kids)
  {
    forall tag { ListSizeOfListed(kids, tag); }
  }

  /** The position of the k-th child (from 0) with the tag, or the length when there are fewer. */
  function Find(kids: seq<Kid>, tag: string, k: nat): (q: nat)
    ensures q <= |kids|
    ensures q < |kids| <==> k < |ListOf(kids, tag)|
    ensures q < |kids| ==> kids[q].tag == tag && |ListOf(kids[..q], tag)| == k && kids[q].cfg == ListOf(kids, tag)[k]
  {
    if kids == [] then 0
    else
      var init, last := kids[..|kids| - 1], kids[|kids| - 1];
      var q := Find(init, tag, k);
      assert q < |init| ==> kids[..q] == init[..q];
      if q < |init| then q
      else if last.tag == tag && |ListOf(init, tag)| == k then |init|
      else |kids|
  }

  lemma {:induction false} ListOfConcat(a: seq<Kid>, b: seq<Kid>, tag: string)
    ensures ListOf(a + b, tag) == ListOf(a, tag) + ListOf(b, tag)
  {
    if b == [] {
      assert a + b == a;
    } else {
      var init := b[..|b| - 1];
      assert (a + b)[..|a + b| - 1] == a + init;
      ListOfConcat(a, init, tag);
    }
  }

  lemma ListOfNone(tag: string)
    ensures ListOf([], tag) == []
  {
  }

  lemma {:induction false} ListOfOne(k: Kid, tag: string)
    ensures ListOf([k], tag) == if k.tag == tag then [k.cfg] else []
  {
    assert [k][..0] == [];
    assert ListOf([], tag) == [];
  }

  /** Positions with the same tag and the same rank are the same position. */
  lemma {:induction false} FindUnique(kids: seq<Kid>, tag: string, p: nat)
    requires p < |kids| && kids[p].tag == tag
    ensures Find(kids, tag, |ListOf(kids[..p], tag)|) == p
    ensures |ListOf(kids[..p], tag)| < |ListOf(kids, tag)|
  {
    var n := |kids| - 1;
    if p < n {
      assert kids[..n][..p] == kids[..p];
      FindUnique(kids[..n], tag, p);
    }
  }

  // ---------------------------------------------------------------- operations on the pairs

  function InsertKid(kids: seq<Kid>, tag: string, k: nat, c: Tree): seq<Kid> {
    var q := Find(kids, tag, k);
    kids[..q] + [Kid(tag, c)] + kids[q..]
  }

  function RemoveKid(kids: seq<Kid>, tag: string, k: nat): seq<Kid> {
    var q := Find(kids, tag, k);
    if q < |kids| then kids[..q] + kids[q + 1..] else kids
  }

  function UpdateKid(kids: seq<Kid>, tag: string, k: nat, c: Tree): seq<Kid>
    requires k < |ListOf(kids, tag)|
  {
    kids[Find(kids, tag, k) := Kid(tag, c)]
  }

  function Without(kids: seq<Kid>, tag: string): seq<Kid> {
    if kids == [] then []
    else
      var init, last := kids[..|kids| - 1], kids[|kids| - 1];
      Without(init, tag) + (if last.tag == tag then [] else [last])
  }

  function Tagged(tag: string, list: seq<Tree>): (kids: seq<Kid>)
    ensures |kids| == |list|
    ensures forall i :: 0 <= i < |list| ==> kids[i] == Kid(tag, list[i])
  {
    seq(|list|, i requires 0 <= i < |list| => Kid(tag, list[i]))
  }

  /** The lists of a sequence cut in two. */
  lemma {:induction false} SplitLists(kids: seq<Kid>, q: nat, t: string)
    requires q <= |kids|
    ensures ListOf(kids, t) == ListOf(kids[..q], t) + ListOf(kids[q..], t)
  {
    assert kids == kids[..q] + kids[q..];
    ListOfConcat(kids[..q], kids[q..], t);
  }

  lemma {:induction false} CutMiddle<T>(x: seq<T>, m: seq<T>, z: seq<T>)
    ensures (x + m + z)[..|x|] == x
    ensures (x + m + z)[|x| + |m|..] == z
  {
  }

  /** The lists of a sequence cut around the k-th child of a tag. */
  lemma {:induction false} SplitAtKid(kids: seq<Kid>, tag: string, k: nat, t: string)
    requires k < |ListOf(kids, tag)|
    ensures var q, l := Find(kids, tag, k), ListOf(kids, t);
            if t == tag then ListOf(kids[..q], t) == l[..k] && ListOf(kids[q + 1..], t) == l[k + 1..]
            else ListOf(kids[..q], t) + ListOf(kids[q + 1..], t) == l
  {
    hide ListOf;
    var q := Find(kids, tag, k);
    var x, z := ListOf(kids[..q], t), ListOf(kids[q + 1..], t);
    assert kids == kids[..q] + [kids[q]] + kids[q + 1..];
    JoinLists(kids[..q], kids[q], kids[q + 1..], t);
    if t == tag {
      CutMiddle(x, [kids[q].cfg], z);
    } else {
      assert x + [] == x;
    }
  }

  lemma {:induction false} InsertKidLists(kids: seq<Kid>, tag: string, k: nat, c: Tree, t: string)
    requires k <= |ListOf(kids, tag)|
    ensures var l := ListOf(kids, t);
            ListOf(InsertKid(kids, tag, k, c), t) == if t == tag then l[..k] + [c] + l[k..] else l
  {
    hide ListOf;
    var q := Find(kids, tag, k);
    SplitLists(kids, q, t);
    JoinLists(kids[..q], Kid(tag, c), kids[q..], t);
    if q == |kids| {
      assert kids[..q] == kids;
    }
  }

  lemma {:induction false} JoinLists(a: seq<Kid>, k: Kid, b: seq<Kid>, t: string)
    ensures ListOf(a + [k] + b, t) == ListOf(a, t) + (if t == k.tag then [k.cfg] else []) + ListOf(b, t)
  {
    hide ListOf;
    ListOfConcat(a, [k], t);
    ListOfConcat(a + [k], b, t);
    ListOfOne(k, t);
  }

  lemma {:induction false} RemoveKidLists(kids: seq<Kid>, tag: string, k: nat, t: string)
    requires k < |ListOf(kids, tag)|
    ensures var l := ListOf(kids, t);
            ListOf(RemoveKid(kids, tag, k), t) == if t == tag then l[..k] + l[k + 1..] else l
  {
    hide ListOf;
    var q := Find(kids, tag, k);
    SplitAtKid(kids, tag, k, t);
    ListOfConcat(kids[..q], kids[q + 1..], t);
  }

  lemma {:induction false} ReplaceOne<T>(s: seq<T>, q: nat, e: T)
    requires q < |s|
    ensures s[..q] + [e] + s[q + 1..] == s[q := e]
  {
  }

  lemma {:induction false} UpdateKidLists(kids: seq<Kid>, tag: string, k: nat, c: Tree, t: string)
    requires k < |ListOf(kids, tag)|
    ensures var l := ListOf(kids, t);
            ListOf(UpdateKid(kids, tag, k, c), t) == if t == tag then l[k := c] else l
  {
    hide ListOf, Find;
    var q, l := Find(kids, tag, k), ListOf(kids, t);
    SplitAtKid(kids, tag, k, t);
    ReplaceOne(kids, q, Kid(tag, c));
    JoinLists(kids[..q], Kid(tag, c), kids[q + 1..], t);
    if t == tag {
      ReplaceOne(l, k, c);
    } else {
      assert ListOf(kids[..q], t) + [] == ListOf(kids[..q], t);
    }
  }

  lemma {:induction false} TaggedLists(tag: string, list: seq<Tree>, t: string)
    ensures ListOf(Tagged(tag, list), t) == if t == tag then list else []
  {
    if list != [] {
      var init := list[..|list| - 1];
      assert Tagged(tag, list)[..|list| - 1] == Tagged(tag, init);
      TaggedLists(tag, init, t);
    }
  }

  // ---------------------------------------------------------------- equality and similarity

  predicate AttrsEq(a: Attrs, b: Attrs) {
    a.Keys == b.Keys && forall k :: k in a ==> ValueEq(a[k], b[k])
  }

  /** `operator==` on two nodes: equal attributes and equal children in the global order. */
  predicate TreeEq(a: Tree, b: Tree)
    decreases a
  {
    && AttrsEq(a.values, b.values)
    && |a.kids| == |b.kids|
    && forall i :: 0 <= i < |a.kids| ==> a.kids[i].tag == b.kids[i].tag && TreeEq(a.kids[i].cfg, b.kids[i].cfg)
  }

  /** Attributes agree once the ones that are absent, blank or "" are identified. */
  ghost predicate AttrsSimilar(a: Attrs, b: Attrs) {
    forall k {:trigger Get(a, k)} {:trigger Get(b, k)} ::
      if IsEmpty(Get(a, k)) then IsEmpty(Get(b, k)) else ValueEq(Get(a, k), Get(b, k))
  }

  /** The nodes agree at every depth up to empty attributes and the interleaving of different tags. */
  ghost predicate Similar(a: Tree, b: Tree)
    decreases Size(a), 0
  {
    EveryListSize(a.kids);
    AttrsSimilar(a.values, b.values) && forall tag :: ListsSimilar(ListOf(a.kids, tag), ListOf(b.kids, tag))
  }

  ghost predicate ListsSimilar(a: seq<Tree>, b: seq<Tree>)
    decreases ListSize(a), 1
  {
    ListSizeBounds(a);
    |a| == |b| && forall i :: 0 <= i < |a| ==> Similar(a[i], b[i])
  }

  lemma {:induction false} SimilarReflexive(t: Tree)
    ensures Similar(t, t)
    decreases Size(t), 0
  {
    forall tag
      ensures ListsSimilar(ListOf(t.kids, tag), ListOf(t.kids, tag))
    {
      SizeOfListed(t.kids, tag);
      forall i | 0 <= i < |ListOf(t.kids, tag)| { SimilarReflexive(ListOf(t.kids, tag)[i]); }
    }
  }

  /** Nodes that `operator==` calls equal are similar. */
  lemma {:induction false} EqImpliesSimilar(a: Tree, b: Tree)
    requires TreeEq(a, b)
    ensures Similar(a, b)
    decreases Size(a)
  {
    forall tag
      ensures ListsSimilar(ListOf(a.kids, tag), ListOf(b.kids, tag))
    {
      EqKidsSimilar(a.kids, b.kids, tag);
    }
  }

  lemma {:induction false} EqKidsSimilar(a: seq<Kid>, b: seq<Kid>, tag: string)
    requires |a| == |b|
    requires forall i :: 0 <= i < |a| ==> a[i].tag == b[i].tag && TreeEq(a[i].cfg, b[i].cfg)
    ensures ListsSimilar(ListOf(a, tag), ListOf(b, tag))
    decreases SizeAll(a)
  {
    if a != [] {
      EqKidsSimilar(a[..|a| - 1], b[..|b| - 1], tag);
      EqImpliesSimilar(a[|a| - 1].cfg, b[|b| - 1].cfg);
    }
  }

  /** The nodes agree exactly at every depth, except for the interleaving of different tags. */
  ghost predicate PerTagEq(a: Tree, b: Tree)
    decreases Size(a), 0
  {
    EveryListSize(a.kids);
    a.values == b.values && forall tag :: ListsPerTagEq(ListOf(a.kids, tag), ListOf(b.kids, tag))
  }

  ghost predicate ListsPerTagEq(a: seq<Tree>, b: seq<Tree>)
    decreases ListSize(a), 1
  {
    ListSizeBounds(a);
    |a| == |b| && forall i :: 0 <= i < |a| ==> PerTagEq(a[i], b[i])
  }

  lemma {:induction false} PerTagReflexive(t: Tree)
    ensures PerTagEq(t, t)
    decreases Size(t), 0
  {
    forall tag
      ensures ListsPerTagEq(ListOf(t.kids, tag), ListOf(t.kids, tag))
    {
      SizeOfListed(t.kids, tag);
      forall i | 0 <= i < |ListOf(t.kids, tag)| { PerTagReflexive(ListOf(t.kids, tag)[i]); }
    }
  }

  lemma {:induction false} PerTagImpliesSimilar(a: Tree, b: Tree)
    requires PerTagEq(a, b)
    ensures Similar(a, b)
    decreases Size(a), 0
  {
    forall tag
      ensures ListsSimilar(ListOf(a.kids, tag), ListOf(b.kids, tag))
    {
      assert ListsPerTagEq(ListOf(a.kids, tag), ListOf(b.kids, tag));
      SizeOfListed(a.kids, tag);
      forall i | 0 <= i < |ListOf(a.kids, tag)| {
        PerTagImpliesSimilar(ListOf(a.kids, tag)[i], ListOf(b.kids, tag)[i]);
      }
    }
  }

  // ---------------------------------------------------------------- the tags in map order

  /** The order of `std::map<std::string, ...>`: lexicographic. */
  predicate Before(a: string, b: string) {
    if b == [] then false
    else if a == [] then true
    else a[0] < b[0] || (a[0] == b[0] && Before(a[1..], b[1..]))
  }

  function AddTag(tags: seq<string>, tag: string): (r: seq<string>)
    ensures forall t :: t in r <==> t == tag || t in tags
  {
    if tags == [] || Before(tag, tags[0]) then [tag] + tags
    else if tag == tags[0] then tags
    else [tags[0]] + AddTag(tags[1..], tag)
  }

  /** The keys of the child map, in the order a loop over the map meets them. */
  function TagsOf(kids: seq<Kid>): (tags: seq<string>)
    ensures forall t :: t in tags <==> ListOf(kids, t) != []
  {
    if kids == [] then [] else AddTag(TagsOf(kids[..|kids| - 1]), kids[|kids| - 1].tag)
  }

  ghost predicate Sorted(tags: seq<string>) {
    forall i, j :: 0 <= i < j < |tags| ==> Before(tags[i], tags[j])
  }

  lemma {:induction false} BeforeTransitive(a: string, b: string, c: string)
    requires Before(a, b) && Before(b, c)
    ensures Before(a, c)
  {
    if a != [] && a[0] == b[0] && b[0] == c[0] {
      BeforeTransitive(a[1..], b[1..], c[1..]);
    }
  }

  lemma {:induction false} BeforeTotal(a: string, b: string)
    ensures Before(a, b) || a == b || Before(b, a)
    ensures !(Before(a, b) && a == b)
  {
    if a != [] && b != [] && a[0] == b[0] {
      BeforeTotal(a[1..], b[1..]);
      assert a == [a[0]] + a[1..] && b == [b[0]] + b[1..];
    }
  }

  lemma {:induction false} AddTagSorted(tags: seq<string>, tag: string)
    requires Sorted(tags)
    ensures Sorted(AddTag(tags, tag))
  {
    if tags == [] {
    } else if Before(tag, tags[0]) {
      forall j | 0 < j < |tags|
        ensures Before(tag, tags[j])
      {
        BeforeTransitive(tag, tags[0], tags[j]);
      }
    } else if tag != tags[0] {
      BeforeTotal(tag, tags[0]);
      AddTagSorted(tags[1..], tag);
      var r := AddTag(tags[1..], tag);
      forall j | 0 <= j < |r|
        ensures Before(tags[0], r[j])
      {
        assert r[j] in r;
      }
    }
  }

  /** A loop over the child map meets every tag in use once, in increasing order. */
  lemma {:induction false} TagsOfSorted(kids: seq<Kid>)
    ensures Sorted(TagsOf(kids))
    ensures forall i, j :: 0 <= i < j < |TagsOf(kids)| ==> TagsOf(kids)[i] != TagsOf(kids)[j]
  {
    if kids != [] {
      TagsOfSorted(kids[..|kids| - 1]);
      AddTagSorted(TagsOf(kids[..|kids| - 1]), kids[|kids| - 1].tag);
    }
    var tags := TagsOf(kids);
    forall i, j | 0 <= i < j < |tags|
      ensures tags[i] != tags[j]
    {
      BeforeTotal(tags[i], tags[j]);
    }
  }

  // ---------------------------------------------------------------- the global order depends on tags only

  function Shape(kids: seq<Kid>): seq<string> {
    seq(|kids|, i requires 0 <= i < |kids| => kids[i].tag)
  }

  lemma {:induction false} FindByShape(x: seq<Kid>, y: seq<Kid>, tag: string, k: nat)
    requires Shape(x) == Shape(y)
    ensures |ListOf(x, tag)| == |ListOf(y, tag)| && Find(x, tag, k) == Find(y, tag, k)
  {
    assert |x| == |Shape(x)| == |y|;
    if x != [] {
      var n := |x| - 1;
      assert Shape(x[..n]) == Shape(x)[..n] == Shape(y[..n]);
      assert x[n].tag == Shape(x)[n] == y[n].tag;
      FindByShape(x[..n], y[..n], tag, k);
    }
  }

  /** Equal tag sequences and equal lists make equal sequences. */
  lemma {:induction false} SameKids(x: seq<Kid>, y: seq<Kid>)
    requires Shape(x) == Shape(y)
    requires forall t :: ListOf(x, t) == ListOf(y, t)
    ensures x == y
  {
    assert |x| == |Shape(x)| == |y|;
    forall p | 0 <= p < |x|
      ensures x[p] == y[p]
    {
      var tag := x[p].tag;
      assert tag == Shape(x)[p] == y[p].tag;
      assert Shape(x[..p]) == Shape(x)[..p] == Shape(y[..p]);
      FindByShape(x[..p], y[..p], tag, 0);
      FindUnique(x, tag, p);
      FindUnique(y, tag, p);
    }
  }

  // ---------------------------------------------------------------- the attributes in map order

  lemma {:induction false} BeforeIrreflexive(a: string)
    ensures !Before(a, a)
  {
    if a != [] {
      BeforeIrreflexive(a[1..]);
    }
  }

  predicate IsLeast(k: string, keys: set<string>) {
    k in keys && forall j :: j in keys && j != k ==> Before(k, j)
  }

  lemma {:induction false} LeastExists(keys: set<string>)
    requires keys != {}
    ensures exists k :: IsLeast(k, keys)
    decreases keys
  {
    var x :| x in keys;
    if keys == {x} {
      assert IsLeast(x, keys);
    } else {
      assert keys - {x} != {};
      LeastExists(keys - {x});
      var m :| IsLeast(m, keys - {x});
      BeforeTotal(x, m);
      if Before(x, m) {
        forall j | j in keys && j != x
          ensures Before(x, j)
        {
          if j != m { BeforeTransitive(x, m, j); }
        }
        assert IsLeast(x, keys);
      } else {
        assert IsLeast(m, keys);
      }
    }
  }

  lemma {:induction false} LeastUnique(keys: set<string>)
    ensures forall x, y :: IsLeast(x, keys) && IsLeast(y, keys) ==> x == y
  {
    forall x, y | IsLeast(x, keys) && IsLeast(y, keys)
      ensures x == y
    {
      if x != y {
        BeforeTransitive(x, y, x);
        BeforeIrreflexive(x);
      }
    }
  }

  /** The keys of an attribute map, in the order a loop over the map meets them. */
  function SortedKeys(keys: set<string>): (r: seq<string>)
    ensures forall k :: k in r <==> k in keys
    ensures |r| == |keys|
  {
    if keys == {} then []
    else
      LeastExists(keys);
      LeastUnique(keys);
      var k :| IsLeast(k, keys);
      [k] + SortedKeys(keys - {k})
  }

  lemma {:induction false} SortedKeysSorted(keys: set<string>)
    ensures Sorted(SortedKeys(keys))
    decreases keys
  {
    if keys != {} {
      LeastExists(keys);
      LeastUnique(keys);
      var k :| IsLeast(k, keys);
      SortedKeysSorted(keys - {k});
      var rest := SortedKeys(keys - {k});
      forall j | 0 <= j < |rest|
        ensures Before(k, rest[j])
      {
        assert rest[j] in rest;
      }
    }
  }
}
