/** `merge_with`, `merge_attributes` and `inherit_from` of the WML `config` as functions on trees. */
module ConfigMerge {
  import opened ConfigTree

  const ADD_TO := "add_to_"

  predicate IsAddTo(key: string) { |key| >= 7 && key[..7] == ADD_TO }

  /** `to_int`: only numbers are read, everything else counts as 0. */
  function ToInt(v: Value): int { if v.Num? then v.n else 0 }

  /** `to_bool` of the attribute `__remove`. */
  predicate IsRemoved(c: Tree) {
    var v := Get(c.values, "__remove");
    IsBool(v) && v.on
  }

  function MergeKey(values: Attrs, key: string, v: Value): Attrs {
    if IsAddTo(key) then values[key[7..] := Num(ToInt(Get(values, key[7..])) + ToInt(v))]
    else values[key := v]
  }

  function MergeKeys(values: Attrs, c: Attrs, keys: seq<string>): Attrs
    requires forall k :: k in keys ==> k in c
    decreases |keys|
  {
    if keys == [] then values else MergeKeys(MergeKey(values, keys[0], c[keys[0]]), c, keys[1..])
  }

  /** `merge_attributes`. */
  function MergeAttrs(values: Attrs, c: Attrs): Attrs {
    MergeKeys(values, c, SortedKeys(c.Keys))
  }

  /** What becomes of the p-th child: the k-th of its tag is merged with the k-th of that tag in `c`,
      or goes away when that one says so. */
  function MergeKid(kids: seq<Kid>, c: Tree, p: nat): seq<Kid>
    requires p < |kids|
    decreases Size(c), 0, 0
  {
    var tag := kids[p].tag;
    var k, list := |ListOf(kids[..p], tag)|, ListOf(c.kids, tag);
    if k >= |list| then [kids[p]]
    else
      SizeOfListed(c.kids, tag);
      if IsRemoved(list[k]) then [] else [Kid(tag, Merge(kids[p].cfg, list[k]))]
  }

  function MergeKids(kids: seq<Kid>, c: Tree, p: nat): seq<Kid>
    requires p <= |kids|
    decreases Size(c), 1, p
  {
    if p == 0 then [] else MergeKids(kids, c, p - 1) + MergeKid(kids, c, p - 1)
  }

  /** The children of `c` that had no counterpart, tag by tag. */
  function Extras(kids: seq<Kid>, c: Tree, tags: seq<string>): seq<Kid> {
    if tags == [] then []
    else
      var n, list := |ListOf(kids, tags[0])|, ListOf(c.kids, tags[0]);
      (if n < |list| then Tagged(tags[0], list[n..]) else []) + Extras(kids, c, tags[1..])
  }

  /** `merge_with`. */
  function Merge(t: Tree, c: Tree): Tree
    decreases Size(c), 2, 0
  {
    Node(MergeAttrs(t.values, c.values),
         MergeKids(t.kids, c, |t.kids|) + Extras(t.kids, c, TagsOf(c.kids)))
  }

  /** `inherit_from`: a copy of `c` is merged with this config. */
  function Inherit(t: Tree, c: Tree): Tree { Merge(c, t) }

  // ---------------------------------------------------------------- one list

  /** The merge of two child lists of one tag, position by position. */
  function MergeAt(a: seq<Tree>, b: seq<Tree>, i: nat): seq<Tree>
    requires i < |a|
  {
    if i >= |b| then [a[i]] else if IsRemoved(b[i]) then [] else [Merge(a[i], b[i])]
  }

  function MergePrefix(a: seq<Tree>, b: seq<Tree>, n: nat): seq<Tree>
    requires n <= |a|
  {
    if n == 0 then [] else MergePrefix(a, b, n - 1) + MergeAt(a, b, n - 1)
  }

  function MergeList(a: seq<Tree>, b: seq<Tree>): seq<Tree> {
    MergePrefix(a, b, |a|) + (if |a| < |b| then b[|a|..] else [])
  }

  /** One more child in the prefix. */
  lemma {:induction false} PrefixStep(kids: seq<Kid>, p: nat, tag: string)
    requires p < |kids|
    ensures var k := |ListOf(kids[..p], tag)|;
            if kids[p].tag == tag then
              |ListOf(kids[..p + 1], tag)| == k + 1 && k < |ListOf(kids, tag)| && ListOf(kids, tag)[k] == kids[p].cfg
            else |ListOf(kids[..p + 1], tag)| == k
  {
    assert kids[..p + 1][..p] == kids[..p] && kids[..p + 1][p] == kids[p];
    if kids[p].tag == tag {
      FindUnique(kids, tag, p);
    }
  }

  lemma {:induction false} MergeKidsLists(kids: seq<Kid>, c: Tree, p: nat, tag: string)
    requires p <= |kids|
    ensures |ListOf(kids[..p], tag)| <= |ListOf(kids, tag)|
    ensures ListOf(MergeKids(kids, c, p), tag) ==
            MergePrefix(ListOf(kids, tag), ListOf(c.kids, tag), |ListOf(kids[..p], tag)|)
    decreases p
  {
    hide Merge, IsRemoved, MergeKid, Find, ListOf;
    if p == 0 {
      assert kids[..0] == [];
      ListOfNone(tag);
    } else {
      MergeKidsLists(kids, c, p - 1, tag);
      PrefixStep(kids, p - 1, tag);
      ListOfConcat(MergeKids(kids, c, p - 1), MergeKid(kids, c, p - 1), tag);
      MergeKidList(kids, c, p - 1, tag);
      var done := ListOf(MergeKids(kids, c, p - 1), tag);
      assert done + [] == done;
    }
  }

  lemma {:induction false} MergeKidList(kids: seq<Kid>, c: Tree, p: nat, tag: string)
    requires p < |kids|
    ensures ListOf(MergeKid(kids, c, p), tag) ==
            if kids[p].tag != tag then []
            else
              var k, list := |ListOf(kids[..p], tag)|, ListOf(c.kids, tag);
              if k >= |list| then [kids[p].cfg] else if IsRemoved(list[k]) then [] else [Merge(kids[p].cfg, list[k])]
  {
    hide Merge, IsRemoved;
    var m := MergeKid(kids, c, p);
    if m != [] {
      assert m == [m[0]];
      ListOfOne(m[0], tag);
    }
  }

  lemma {:induction false} ExtrasLists(kids: seq<Kid>, c: Tree, tags: seq<string>, tag: string)
    requires forall i, j :: 0 <= i < j < |tags| ==> tags[i] != tags[j]
    ensures ListOf(Extras(kids, c, tags), tag) ==
            if tag in tags && |ListOf(kids, tag)| < |ListOf(c.kids, tag)| then ListOf(c.kids, tag)[|ListOf(kids, tag)|..]
            else []
  {
    hide ListOf;
    ListOfNone(tag);
    if tags != [] {
      ExtrasLists(kids, c, tags[1..], tag);
      var n, list := |ListOf(kids, tags[0])|, ListOf(c.kids, tags[0]);
      var x, y := if n < |list| then Tagged(tags[0], list[n..]) else [], Extras(kids, c, tags[1..]);
      ListOfConcat(x, y, tag);
      if n < |list| {
        TaggedLists(tags[0], list[n..], tag);
      }
      assert tags[0] !in tags[1..];
    }
  }

  /** The children of each tag merge position by position, whatever the other tags do, and the rest
      of the other list is appended. */
  lemma {:induction false} MergeByTag(t: Tree, c: Tree, tag: string)
    ensures ListOf(Merge(t, c).kids, tag) == MergeList(ListOf(t.kids, tag), ListOf(c.kids, tag))
  {
    hide MergeKids, MergePrefix, Extras, ListOf, MergeAttrs;
    assert t.kids[..|t.kids|] == t.kids;
    MergeKidsLists(t.kids, c, |t.kids|, tag);
    TagsOfSorted(c.kids);
    ExtrasLists(t.kids, c, TagsOf(c.kids), tag);
    ListOfConcat(MergeKids(t.kids, c, |t.kids|), Extras(t.kids, c, TagsOf(c.kids)), tag);
  }

  // ---------------------------------------------------------------- laws

  /** No `add_to_` key and no child marked for removal, at any depth. */
  ghost predicate Mergeable(t: Tree)
    decreases Size(t), 0
  {
    EveryListSize(t.kids);
    (forall k :: k in t.values ==> !IsAddTo(k)) && forall tag :: AllMergeable(ListOf(t.kids, tag))
  }

  ghost predicate AllMergeable(list: seq<Tree>)
    decreases ListSize(list), 1
  {
    ListSizeBounds(list);
    forall i :: 0 <= i < |list| ==> !IsRemoved(list[i]) && Mergeable(list[i])
  }

  lemma {:induction false} MergeKeysPlain(values: Attrs, c: Attrs, keys: seq<string>)
    requires forall k :: k in keys ==> k in c && !IsAddTo(k)
    ensures MergeKeys(values, c, keys) == values + (map k | k in keys :: c[k])
    decreases |keys|
  {
    if keys != [] {
      MergeKeysPlain(values[keys[0] := c[keys[0]]], c, keys[1..]);
    }
  }

  lemma {:induction false} MergeAttrsPlain(values: Attrs, c: Attrs)
    requires forall k :: k in c ==> !IsAddTo(k)
    ensures MergeAttrs(values, c) == values + c
  {
    hide SortedKeys, MergeKeys, IsAddTo;
    MergeKeysPlain(values, c, SortedKeys(c.Keys));
    assert (map k | k in SortedKeys(c.Keys) :: c[k]) == c;
  }

  lemma {:induction false} MergeValues(t: Tree, c: Tree)
    requires forall k :: k in c.values ==> !IsAddTo(k)
    ensures Merge(t, c).values == t.values + c.values
  {
    hide MergeAttrs, MergeKids, Extras, TagsOf;
    MergeAttrsPlain(t.values, c.values);
  }

  lemma {:induction false} MergePrefixPlain(a: seq<Tree>, b: seq<Tree>, n: nat)
    requires n <= |a|
    requires forall i :: 0 <= i < |b| ==> !IsRemoved(b[i])
    ensures |MergePrefix(a, b, n)| == n
    ensures forall i :: 0 <= i < n ==> MergePrefix(a, b, n)[i] == if i < |b| then Merge(a[i], b[i]) else a[i]
  {
    hide Merge, IsRemoved;
    if n > 0 {
      MergePrefixPlain(a, b, n - 1);
    }
  }

  /** Without removals the k-th child meets the k-th child, and the longer list keeps its rest. */
  lemma {:induction false} MergeListPlain(a: seq<Tree>, b: seq<Tree>)
    requires forall i :: 0 <= i < |b| ==> !IsRemoved(b[i])
    ensures |MergeList(a, b)| == if |a| < |b| then |b| else |a|
    ensures forall i :: 0 <= i < |MergeList(a, b)| ==>
              MergeList(a, b)[i] == if i < |a| && i < |b| then Merge(a[i], b[i]) else if i < |a| then a[i] else b[i]
  {
    hide Merge, IsRemoved;
    MergePrefixPlain(a, b, |a|);
  }

  /** Nothing is left to append when the other lists are no longer. */
  lemma {:induction false} NoExtras(kids: seq<Kid>, c: Tree, tags: seq<string>)
    requires forall t :: |ListOf(c.kids, t)| <= |ListOf(kids, t)|
    ensures Extras(kids, c, tags) == []
  {
    if tags != [] {
      NoExtras(kids, c, tags[1..]);
    }
  }

  lemma {:induction false} MergeKidsShape(kids: seq<Kid>, c: Tree, p: nat)
    requires p <= |kids|
    requires forall tag :: AllMergeable(ListOf(c.kids, tag))
    ensures Shape(MergeKids(kids, c, p)) == Shape(kids[..p])
    decreases p
  {
    hide Merge, ListOf;
    if p > 0 {
      MergeKidsShape(kids, c, p - 1);
      assert AllMergeable(ListOf(c.kids, kids[p - 1].tag));
      var m := MergeKid(kids, c, p - 1);
      assert |m| == 1 && m[0].tag == kids[p - 1].tag;
      assert kids[..p] == kids[..p - 1] + [kids[p - 1]];
      ShapeConcat(MergeKids(kids, c, p - 1), m);
      ShapeConcat(kids[..p - 1], [kids[p - 1]]);
      assert Shape(m) == Shape([kids[p - 1]]);
    }
  }

  lemma {:induction false} ShapeConcat(x: seq<Kid>, y: seq<Kid>)
    ensures Shape(x + y) == Shape(x) + Shape(y)
  {
  }

  /** A config that already holds everything `c` says is left as it is, order included. */
  lemma {:induction false} MergeAbsorbs(m: Tree, c: Tree)
    requires Mergeable(c)
    requires m.values + c.values == m.values
    requires forall tag :: |ListOf(c.kids, tag)| <= |ListOf(m.kids, tag)|
    requires forall tag, i :: 0 <= i < |ListOf(c.kids, tag)| ==>
               Merge(ListOf(m.kids, tag)[i], ListOf(c.kids, tag)[i]) == ListOf(m.kids, tag)[i]
    ensures Merge(m, c) == m
  {
    hide MergeAttrs, MergeKids, Extras, ListOf, MergeList;
    MergeAttrsPlain(m.values, c.values);
    NoExtras(m.kids, c, TagsOf(c.kids));
    MergeKidsShape(m.kids, c, |m.kids|);
    assert m.kids[..|m.kids|] == m.kids;
    var r := Merge(m, c);
    assert r.kids == MergeKids(m.kids, c, |m.kids|) + [] == MergeKids(m.kids, c, |m.kids|);
    forall tag
      ensures ListOf(r.kids, tag) == ListOf(m.kids, tag)
    {
      assert AllMergeable(ListOf(c.kids, tag));
      MergeByTag(m, c, tag);
      MergeListPlain(ListOf(m.kids, tag), ListOf(c.kids, tag));
    }
    SameKids(r.kids, m.kids);
  }

  /** Merging a config with itself changes nothing. */
  lemma {:induction false} MergeSelf(c: Tree)
    requires Mergeable(c)
    ensures Merge(c, c) == c
    decreases Size(c)
  {
    hide Merge;
    forall tag, i | 0 <= i < |ListOf(c.kids, tag)|
      ensures Merge(ListOf(c.kids, tag)[i], ListOf(c.kids, tag)[i]) == ListOf(c.kids, tag)[i]
    {
      SizeOfListed(c.kids, tag);
      assert AllMergeable(ListOf(c.kids, tag));
      MergeSelf(ListOf(c.kids, tag)[i]);
    }
    MergeAbsorbs(c, c);
  }

  /** Merging the same config a second time changes nothing. */
  lemma {:induction false} MergeIdempotent(t: Tree, c: Tree)
    requires Mergeable(c)
    ensures Merge(Merge(t, c), c) == Merge(t, c)
    decreases Size(c)
  {
    var m := Merge(t, c);
    MergeAttrsPlain(t.values, c.values);
    assert (t.values + c.values) + c.values == t.values + c.values;
    assert m.values == t.values + c.values;
    hide Merge, MergeList, MergeAttrs;
    forall tag
      ensures |ListOf(c.kids, tag)| <= |ListOf(m.kids, tag)|
      ensures forall i :: 0 <= i < |ListOf(c.kids, tag)| ==>
                Merge(ListOf(m.kids, tag)[i], ListOf(c.kids, tag)[i]) == ListOf(m.kids, tag)[i]
    {
      var a, b := ListOf(t.kids, tag), ListOf(c.kids, tag);
      SizeOfListed(c.kids, tag);
      assert AllMergeable(b);
      MergeByTag(t, c, tag);
      MergeListPlain(a, b);
      forall i | 0 <= i < |b|
        ensures Merge(ListOf(m.kids, tag)[i], b[i]) == ListOf(m.kids, tag)[i]
      {
        if i < |a| { MergeIdempotent(a[i], b[i]); } else { MergeSelf(b[i]); }
      }
    }
    MergeAbsorbs(m, c);
  }

  lemma OnlyKey(key: string)
    ensures SortedKeys({key}) == [key]
  {
    assert {key} - {key} == {};
  }

  /** With an `add_to_` key merging twice adds twice, so the law needs its condition. */
  lemma AddToAccumulates(n: int)
    requires n != 0
    ensures var t, c := Node(map[], []), Node(map["add_to_gold" := Num(n)], []);
            var once := Merge(t, c);
            once.values == map["gold" := Num(n)] && Merge(once, c).values == map["gold" := Num(n + n)]
            && Merge(once, c) != once
  {
    var c: Attrs := map["add_to_gold" := Num(n)];
    OnlyKey("add_to_gold");
    assert c.Keys == {"add_to_gold"};
    assert "add_to_gold"[..7] == ADD_TO && "add_to_gold"[7..] == "gold";
    var keys := ["add_to_gold"];
    assert keys[1..] == [];
    var first: Attrs := map["gold" := Num(n)];
    assert MergeAttrs(map[], c) == first;
    assert MergeAttrs(first, c) == map["gold" := Num(n + n)];
  }

  lemma {:induction false} MergeMergeable(b: Tree, c: Tree)
    requires Mergeable(b) && Mergeable(c)
    ensures Mergeable(Merge(b, c))
    ensures !IsRemoved(b) && !IsRemoved(c) ==> !IsRemoved(Merge(b, c))
    decreases Size(c), 1
  {
    hide Merge, MergeList, ListOf;
    MergeValues(b, c);
    forall tag
      ensures AllMergeable(ListOf(Merge(b, c).kids, tag))
    {
      SizeOfListed(c.kids, tag);
      ListSizeOfListed(c.kids, tag);
      MergeByTag(b, c, tag);
      MergeListMergeable(ListOf(b.kids, tag), ListOf(c.kids, tag));
    }
  }

  lemma {:induction false} MergeListMergeable(x: seq<Tree>, y: seq<Tree>)
    requires AllMergeable(x) && AllMergeable(y)
    ensures AllMergeable(MergeList(x, y))
    decreases ListSize(y), 2
  {
    hide Merge, MergeList, Mergeable, IsRemoved;
    MergeListPlain(x, y);
    ListSizeBounds(y);
    forall i | 0 <= i < |x| && i < |y|
      ensures Mergeable(Merge(x[i], y[i])) && !IsRemoved(Merge(x[i], y[i]))
    {
      MergeMergeable(x[i], y[i]);
    }
  }

  /** Merging is associative: attributes and every child list agree at every depth, exactly and so also in
      the sense of the round trip of diffs. */
  lemma {:induction false} MergeAssociative(a: Tree, b: Tree, c: Tree)
    requires Mergeable(b) && Mergeable(c)
    ensures PerTagEq(Merge(Merge(a, b), c), Merge(a, Merge(b, c)))
    ensures Similar(Merge(Merge(a, b), c), Merge(a, Merge(b, c)))
    decreases Size(c)
  {
    hide Merge, MergeList, ListOf, ListsPerTagEq, AllMergeable, Similar;
    MergeMergeable(b, c);
    MergeValues(a, b);
    MergeValues(Merge(a, b), c);
    MergeValues(b, c);
    MergeValues(a, Merge(b, c));
    assert (a.values + b.values) + c.values == a.values + (b.values + c.values);
    forall tag
      ensures ListsPerTagEq(ListOf(Merge(Merge(a, b), c).kids, tag), ListOf(Merge(a, Merge(b, c)).kids, tag))
    {
      var x, y, z := ListOf(a.kids, tag), ListOf(b.kids, tag), ListOf(c.kids, tag);
      MergeByTag(a, b, tag);
      MergeByTag(Merge(a, b), c, tag);
      MergeByTag(b, c, tag);
      MergeByTag(a, Merge(b, c), tag);
      SizeOfListed(c.kids, tag);
      AllMergeableMembers(y);
      AllMergeableMembers(z);
      forall i | 0 <= i < |x| && i < |y| && i < |z|
        ensures PerTagEq(Merge(Merge(x[i], y[i]), z[i]), Merge(x[i], Merge(y[i], z[i])))
      {
        MergeAssociative(x[i], y[i], z[i]);
      }
      ListsAssociative(x, y, z);
    }
    PerTagImpliesSimilar(Merge(Merge(a, b), c), Merge(a, Merge(b, c)));
  }

  lemma {:induction false} AllMergeableMembers(list: seq<Tree>)
    requires AllMergeable(list)
    ensures forall i :: 0 <= i < |list| ==> Mergeable(list[i])
  {
  }

  lemma {:induction false} ListsAssociative(x: seq<Tree>, y: seq<Tree>, z: seq<Tree>)
    requires AllMergeable(y) && AllMergeable(z) && AllMergeable(MergeList(y, z))
    requires forall i :: 0 <= i < |x| && i < |y| && i < |z| ==>
               PerTagEq(Merge(Merge(x[i], y[i]), z[i]), Merge(x[i], Merge(y[i], z[i])))
    ensures ListsPerTagEq(MergeList(MergeList(x, y), z), MergeList(x, MergeList(y, z)))
  {
    hide Merge, MergeList, PerTagEq;
    MergeListPlain(x, y);
    MergeListPlain(MergeList(x, y), z);
    MergeListPlain(y, z);
    MergeListPlain(x, MergeList(y, z));
    var l, r := MergeList(MergeList(x, y), z), MergeList(x, MergeList(y, z));
    forall i | 0 <= i < |l|
      ensures PerTagEq(l[i], r[i])
    {
      if !(i < |x| && i < |y| && i < |z|) {
        PerTagReflexive(l[i]);
      }
    }
  }

  lemma MergeKeyAt(values: Attrs, key: string, v: Value, slot: string)
    ensures Get(MergeKey(values, key, v), slot) ==
            if key == ADD_TO + slot then Num(ToInt(Get(values, slot)) + ToInt(v))
            else if key == slot && !IsAddTo(slot) then v
            else Get(values, slot)
  {
    if IsAddTo(key) {
      assert key == ADD_TO + key[7..];
    }
  }

  /** What the loop over the sorted keys leaves under one key: the value given last wins, and an addition
      counts on top of what is there when its turn comes. */
  lemma {:induction false} MergedAt(values: Attrs, c: Attrs, keys: seq<string>, slot: string)
    requires Sorted(keys) && forall k :: k in keys ==> k in c
    ensures var own, added := slot in keys && !IsAddTo(slot), ADD_TO + slot in keys;
            Get(MergeKeys(values, c, keys), slot) ==
            if added && (!own || Before(slot, ADD_TO + slot)) then
              Num(ToInt(if own then c[slot] else Get(values, slot)) + ToInt(c[ADD_TO + slot]))
            else if own then c[slot]
            else Get(values, slot)
    decreases |keys|
  {
    hide MergeKey, IsAddTo, Before;
    if keys != [] {
      var key, rest := keys[0], keys[1..];
      MergeKeyAt(values, key, c[key], slot);
      assert Sorted(rest);
      MergedAt(MergeKey(values, key, c[key]), c, rest, slot);
      forall k | k in rest
        ensures Before(key, k) && !Before(k, key) && k != key
      {
        var i :| 0 <= i < |rest| && rest[i] == k;
        assert Before(keys[0], keys[i + 1]);
        BeforeTotal(key, k);
        BeforeAsymmetric(key, k);
      }
    }
  }

  lemma BeforeAsymmetric(a: string, b: string)
    requires Before(a, b)
    ensures !Before(b, a)
  {
    if Before(b, a) {
      BeforeTransitive(a, b, a);
      BeforeIrreflexive(a);
    }
  }

  /** The value of any attribute after inheriting. */
  lemma {:induction false} InheritedValue(t: Tree, c: Tree, key: string)
    ensures var own, added := key in t.values && !IsAddTo(key), ADD_TO + key in t.values;
            Get(Inherit(t, c).values, key) ==
            if added && (!own || Before(key, ADD_TO + key)) then
              Num(ToInt(if own then t.values[key] else Get(c.values, key)) + ToInt(t.values[ADD_TO + key]))
            else if own then t.values[key]
            else Get(c.values, key)
  {
    hide MergeKeys, IsAddTo, Before, MergeKids, Extras;
    SortedKeysSorted(t.values.Keys);
    MergedAt(c.values, t.values, SortedKeys(t.values.Keys), key);
  }

  /** Inheriting keeps an attribute of the inheriting config unless an `add_to_` key behind it adds to it, and
      it takes what the config neither has nor adds to. */
  lemma {:induction false} InheritKeepsOwn(t: Tree, c: Tree, key: string)
    ensures key in t.values && !IsAddTo(key) ==>
              (Get(Inherit(t, c).values, key) == t.values[key] <==>
                 || ADD_TO + key !in t.values || !Before(key, ADD_TO + key)
                 || (t.values[key].Num? && ToInt(t.values[ADD_TO + key]) == 0))
    ensures key !in t.values && ADD_TO + key !in t.values ==> Get(Inherit(t, c).values, key) == Get(c.values, key)
  {
    hide Inherit, IsAddTo, Before;
    InheritedValue(t, c, key);
  }

  /** `aa` comes before `add_to_aa`, so the sum replaces what was there. */
  lemma InheritAddsToOwn(c: Tree)
    ensures var t := Node(map["aa" := Num(1), "add_to_aa" := Num(2)], []);
            Get(Inherit(t, c).values, "aa") == Num(3)
  {
    hide Inherit;
    var t := Node(map["aa" := Num(1), "add_to_aa" := Num(2)], []);
    InheritedValue(t, c, "aa");
    assert ADD_TO + "aa" == "add_to_aa" && Before("aa", "add_to_aa");
  }

  // ---------------------------------------------------------------- the loops of merge_with

  /** The p-th child meets a counterpart that asks for its removal. */
  predicate IsMarked(kids: seq<Kid>, c: Tree, p: nat)
    requires p < |kids|
  {
    var k, list := |ListOf(kids[..p], kids[p].tag)|, ListOf(c.kids, kids[p].tag);
    k < |list| && IsRemoved(list[k])
  }

  /** The p-th child after the first loop, which merges but does not remove. */
  function KeepKid(kids: seq<Kid>, c: Tree, p: nat): (kid: Kid)
    requires p < |kids|
    ensures kid.tag == kids[p].tag
  {
    var k, list := |ListOf(kids[..p], kids[p].tag)|, ListOf(c.kids, kids[p].tag);
    if k < |list| && !IsRemoved(list[k]) then Kid(kids[p].tag, Merge(kids[p].cfg, list[k])) else kids[p]
  }

  function Kept(kids: seq<Kid>, c: Tree): (r: seq<Kid>)
    ensures |r| == |kids|
  {
    seq(|kids|, p requires 0 <= p < |kids| => KeepKid(kids, c, p))
  }

  lemma {:induction false} MergeKidIsKeep(kids: seq<Kid>, c: Tree, p: nat)
    requires p < |kids|
    ensures MergeKid(kids, c, p) == if IsMarked(kids, c, p) then [] else [KeepKid(kids, c, p)]
  {
    hide Merge, IsRemoved;
  }

  /** Over a stretch without marks nothing is removed. */
  lemma {:induction false} KeepRun(kids: seq<Kid>, c: Tree, q: nat, p: nat)
    requires q <= p <= |kids|
    requires forall i :: q <= i < p ==> !IsMarked(kids, c, i)
    ensures MergeKids(kids, c, p) == MergeKids(kids, c, q) + Kept(kids, c)[q..p]
    ensures forall t :: |ListOf(MergeKids(kids, c, p), t)| - |ListOf(MergeKids(kids, c, q), t)| ==
                        |ListOf(kids[..p], t)| - |ListOf(kids[..q], t)|
    decreases p
  {
    hide Merge, IsRemoved, IsMarked, KeepKid, MergeKid, ListOf;
    if q < p {
      KeepRun(kids, c, q, p - 1);
      MergeKidIsKeep(kids, c, p - 1);
      assert Kept(kids, c)[q..p] == Kept(kids, c)[q..p - 1] + [KeepKid(kids, c, p - 1)];
      forall t
        ensures |ListOf(MergeKids(kids, c, p), t)| == |ListOf(MergeKids(kids, c, p - 1), t)| + if t == kids[p - 1].tag then 1 else 0
      {
        ListOfConcat(MergeKids(kids, c, p - 1), [KeepKid(kids, c, p - 1)], t);
        ListOfOne(KeepKid(kids, c, p - 1), t);
      }
      forall t
        ensures |ListOf(kids[..p], t)| == |ListOf(kids[..p - 1], t)| + if t == kids[p - 1].tag then 1 else 0
      {
        PrefixStep(kids, p - 1, t);
      }
    } else {
      assert Kept(kids, c)[q..p] == [];
    }
  }

  /** Removing a pair by the rank it has among the pairs of its tag. */
  lemma {:induction false} RemoveByRank(x: seq<Kid>, kid: Kid, y: seq<Kid>)
    ensures RemoveKid(x + [kid] + y, kid.tag, |ListOf(x, kid.tag)|) == x + y
  {
    hide ListOf;
    var all := x + [kid] + y;
    assert all[..|x|] == x && all[|x|] == kid && all[|x| + 1..] == y;
    FindUnique(all, kid.tag, |x|);
  }

  /** `at` lists the marked positions in order, and `marks` their tags and ranks. */
  ghost predicate MarksOf(kids: seq<Kid>, c: Tree, n: nat, marks: seq<(string, nat)>, at: seq<nat>) {
    && |marks| == |at| && n <= |kids|
    && (forall m :: 0 <= m < |at| ==> at[m] < n && marks[m] == (kids[at[m]].tag, |ListOf(kids[..at[m]], kids[at[m]].tag)|))
    && (forall m, m' :: 0 <= m < m' < |at| ==> at[m] < at[m'])
    && (forall p :: 0 <= p < n ==> (IsMarked(kids, c, p) <==> p in at))
  }

  /** The state of the last loop: the first `m` marked children are gone. */
  ghost predicate Purged(kids: seq<Kid>, c: Tree, q: nat, now: seq<Kid>, extras: seq<Kid>, gone: map<string, nat>) {
    && q <= |kids|
    && now == MergeKids(kids, c, q) + Kept(kids, c)[q..] + extras
    && forall t :: Times(gone, t) + |ListOf(MergeKids(kids, c, q), t)| == |ListOf(kids[..q], t)|
  }

  function Times(counts: map<string, nat>, t: string): nat { if t in counts then counts[t] else 0 }

  lemma {:induction false} PurgeStep(kids: seq<Kid>, c: Tree, q: nat, p: nat, now: seq<Kid>, extras: seq<Kid>,
                                     gone: map<string, nat>)
    requires Purged(kids, c, q, now, extras, gone)
    requires q <= p < |kids| && IsMarked(kids, c, p) && forall i :: q <= i < p ==> !IsMarked(kids, c, i)
    ensures var tag := kids[p].tag;
            var rank := |ListOf(kids[..p], tag)|;
            && Times(gone, tag) <= rank
            && Purged(kids, c, p + 1, RemoveKid(now, tag, rank - Times(gone, tag)), extras, gone[tag := Times(gone, tag) + 1])
  {
    hide Merge, IsRemoved, IsMarked, KeepKid, MergeKid, ListOf, RemoveKid;
    var kept, tag := Kept(kids, c), kids[p].tag;
    KeepRun(kids, c, q, p);
    assert kept[q..] == kept[q..p] + ([kept[p]] + kept[p + 1..]);
    assert now == MergeKids(kids, c, p) + [kept[p]] + (kept[p + 1..] + extras);
    RemoveByRank(MergeKids(kids, c, p), kept[p], kept[p + 1..] + extras);
    MergeKidIsKeep(kids, c, p);
    assert MergeKids(kids, c, p + 1) == MergeKids(kids, c, p) + [] == MergeKids(kids, c, p);
    forall t
      ensures |ListOf(kids[..p + 1], t)| == |ListOf(kids[..p], t)| + if t == tag then 1 else 0
    {
      PrefixStep(kids, p, t);
    }
  }

  lemma {:induction false} PurgeStart(kids: seq<Kid>, c: Tree, now: seq<Kid>, extras: seq<Kid>)
    requires now == Kept(kids, c) + extras
    ensures Purged(kids, c, 0, now, extras, map[])
  {
    ListOfNoneAll();
    assert kids[..0] == [];
    assert MergeKids(kids, c, 0) + Kept(kids, c)[0..] == Kept(kids, c);
  }

  lemma ListOfNoneAll()
    ensures forall t :: ListOf([], t) == []
  {
  }

  /** Between two marks, and after the last one, there are no marked positions. */
  lemma {:induction false} BetweenMarks(kids: seq<Kid>, c: Tree, marks: seq<(string, nat)>, at: seq<nat>, m: nat)
    requires MarksOf(kids, c, |kids|, marks, at) && m <= |marks|
    ensures var q := if m == 0 then 0 else at[m - 1] + 1;
            && q <= (if m < |marks| then at[m] else |kids|)
            && (forall i :: q <= i < (if m < |marks| then at[m] else |kids|) ==> !IsMarked(kids, c, i))
            && (m < |marks| ==> IsMarked(kids, c, at[m]))
  {
    hide IsMarked, ListOf;
    var q, e := if m == 0 then 0 else at[m - 1] + 1, if m < |marks| then at[m] else |kids|;
    forall i | q <= i < e
      ensures !IsMarked(kids, c, i)
    {
      assert forall n :: 0 <= n < |at| ==> (n < m ==> at[n] < q) && (n >= m ==> at[n] >= e);
    }
    assert m < |marks| ==> at[m] in at;
  }

  lemma {:induction false} PurgeDone(kids: seq<Kid>, c: Tree, q: nat, now: seq<Kid>, extras: seq<Kid>,
                                     gone: map<string, nat>)
    requires Purged(kids, c, q, now, extras, gone)
    requires forall i :: q <= i < |kids| ==> !IsMarked(kids, c, i)
    ensures now == MergeKids(kids, c, |kids|) + extras
  {
    hide Merge, IsRemoved, IsMarked, KeepKid, MergeKid, ListOf;
    KeepRun(kids, c, q, |kids|);
    assert Kept(kids, c)[q..] == Kept(kids, c)[q..|kids|];
  }

  function Visited(n: nat, m: nat): nat { if n < m then n else m }

  lemma {:induction false} VisitStart(kids: seq<Kid>, c: Tree)
    ensures forall t :: |ListOf(kids[..0], t)| == 0
    ensures MarksOf(kids, c, 0, [], [])
  {
  }

  lemma {:induction false} KeptStep(kids: seq<Kid>, c: Tree, i: nat, now: seq<Kid>)
    requires i < |kids| && now == Kept(kids, c)[..i] + kids[i..]
    ensures now[i] == kids[i]
    ensures now[i := KeepKid(kids, c, i)] == Kept(kids, c)[..i + 1] + kids[i + 1..]
    ensures KeepKid(kids, c, i) == kids[i] ==> now == Kept(kids, c)[..i + 1] + kids[i + 1..]
  {
    hide KeepKid, ListOf, Merge;
    assert Kept(kids, c)[i] == KeepKid(kids, c, i);
  }

  lemma {:induction false} MarksStep(kids: seq<Kid>, c: Tree, i: nat, marks: seq<(string, nat)>, at: seq<nat>)
    requires MarksOf(kids, c, i, marks, at) && i < |kids|
    ensures if IsMarked(kids, c, i) then MarksOf(kids, c, i + 1, marks + [(kids[i].tag, |ListOf(kids[..i], kids[i].tag)|)], at + [i])
            else MarksOf(kids, c, i + 1, marks, at)
  {
    hide IsMarked, ListOf;
    if IsMarked(kids, c, i) {
      assert forall p :: p in at + [i] <==> p in at || p == i;
    }
  }

  lemma {:induction false} KeptEnds(kids: seq<Kid>, c: Tree)
    ensures Kept(kids, c)[..0] + kids[0..] == kids
    ensures Kept(kids, c)[..|kids|] + kids[|kids|..] == Kept(kids, c)
    ensures kids[..|kids|] == kids
  {
  }

  lemma {:induction false} KeptRank(kids: seq<Kid>, c: Tree, i: nat, now: seq<Kid>, tag: string)
    requires i <= |kids| && now == Kept(kids, c)[..i] + kids[i..]
    ensures |ListOf(now[..i], tag)| == |ListOf(kids[..i], tag)|
  {
    hide KeepKid, ListOf, Find;
    assert now[..i] == Kept(kids, c)[..i];
    assert forall p :: 0 <= p < i ==> now[..i][p].tag == kids[..i][p].tag;
    assert Shape(now[..i]) == Shape(kids[..i]);
    FindByShape(now[..i], kids[..i], tag, 0);
  }

  /** The visit counter of a tag is the rank of the child at hand while counterparts remain. */
  lemma {:induction false} VisitStep(kids: seq<Kid>, c: Tree, i: nat, visits: map<string, nat>)
    requires i < |kids|
    requires forall t :: Times(visits, t) == Visited(|ListOf(kids[..i], t)|, |ListOf(c.kids, t)|)
    ensures var tag := kids[i].tag;
            var v, rank, n := Times(visits, tag), |ListOf(kids[..i], tag)|, |ListOf(c.kids, tag)|;
            && (v < n <==> rank < n) && (v < n ==> v == rank)
            && forall t :: Times(if v < n then visits[tag := v + 1] else visits, t) == Visited(|ListOf(kids[..i + 1], t)|, |ListOf(c.kids, t)|)
  {
    hide ListOf;
    forall t
      ensures |ListOf(kids[..i + 1], t)| == |ListOf(kids[..i], t)| + if t == kids[i].tag then 1 else 0
    {
      PrefixStep(kids, i, t);
    }
  }

  lemma UpdateAt(kids: seq<Kid>, tag: string, k: nat, i: nat, c: Tree)
    requires k < |ListOf(kids, tag)| && Find(kids, tag, k) == i
    ensures UpdateKid(kids, tag, k, c) == kids[i := Kid(tag, c)]
  {
  }

  lemma NoMoreExtras(kids: seq<Kid>, c: Tree)
    ensures Extras(kids, c, []) == []
  {
  }

  /** The children appended for one tag. */
  function Rest(kids: seq<Kid>, c: Tree, tag: string, visit: nat): seq<Kid> {
    var list := ListOf(c.kids, tag);
    if visit < |list| then Tagged(tag, list[visit..]) else []
  }

  lemma {:induction false} ExtrasStep(kids: seq<Kid>, c: Tree, tags: seq<string>, i: nat, visit: nat, before: seq<Kid>)
    requires i < |tags| && visit == Visited(|ListOf(kids, tags[i])|, |ListOf(c.kids, tags[i])|)
    ensures before + Extras(kids, c, tags[i..]) == (before + Rest(kids, c, tags[i], visit)) + Extras(kids, c, tags[i + 1..])
  {
    hide ListOf;
    assert tags[i..][0] == tags[i] && tags[i..][1..] == tags[i + 1..];
    assert Extras(kids, c, tags[i..]) == Rest(kids, c, tags[i], visit) + Extras(kids, c, tags[i + 1..]);
  }

  lemma {:induction false} RestStep(kids: seq<Kid>, c: Tree, tag: string, visit: nat, now: seq<Kid>)
    requires visit <= |ListOf(c.kids, tag)|
    ensures visit == |ListOf(c.kids, tag)| ==> now + Rest(kids, c, tag, visit) == now
    ensures visit < |ListOf(c.kids, tag)| ==>
              now + Rest(kids, c, tag, visit) ==
              (now + [Kid(tag, ListOf(c.kids, tag)[visit])]) + Rest(kids, c, tag, visit + 1)
  {
    hide ListOf;
    var list := ListOf(c.kids, tag);
    if visit < |list| {
      hide Tagged;
      TaggedFirst(tag, list, visit);
      var first, rest := [Kid(tag, list[visit])], Tagged(tag, list[visit + 1..]);
      assert Rest(kids, c, tag, visit + 1) == rest;
      assert now + (first + rest) == (now + first) + rest;
    } else {
      assert now + [] == now;
    }
  }

  lemma TaggedFirst(tag: string, list: seq<Tree>, visit: nat)
    requires visit < |list|
    ensures Tagged(tag, list[visit..]) == [Kid(tag, list[visit])] + Tagged(tag, list[visit + 1..])
    ensures visit + 1 == |list| ==> Tagged(tag, list[visit + 1..]) == []
  {
  }
}
