/** The table that says which font to take for a code point: an ordered map of blocks. */
module CharBlocks {

  datatype Option<+T> = None | Some(value: T)

  /** An entry of the map: its key is `first`. */
  datatype Block = Block(first: int, last: int, id: int)

  /** Blocks in order, none empty, no two sharing a point. */
  ghost predicate Sorted(blocks: seq<Block>) {
    && (forall i :: 0 <= i < |blocks| ==> blocks[i].first <= blocks[i].last)
    && forall i, j :: 0 <= i < j < |blocks| ==> blocks[i].last < blocks[j].first
  }

  predicate Covers(b: Block, p: int) { b.first <= p <= b.last }

  /** The font associated with a point. */
  function FontOf(blocks: seq<Block>, p: int): Option<int> {
    if blocks == [] then None
    else if Covers(blocks[0], p) then Some(blocks[0].id)
    else FontOf(blocks[1..], p)
  }

  lemma {:induction false} FontOfBlock(blocks: seq<Block>, p: int, k: nat)
    requires Sorted(blocks) && k < |blocks| && Covers(blocks[k], p)
    ensures FontOf(blocks, p) == Some(blocks[k].id)
  {
    if k > 0 {
      FontOfBlock(blocks[1..], p, k - 1);
    }
  }

  lemma {:induction false} FontOfGap(blocks: seq<Block>, p: int)
    requires forall k :: 0 <= k < |blocks| ==> !Covers(blocks[k], p)
    ensures FontOf(blocks, p) == None
  {
    if blocks != [] {
      FontOfGap(blocks[1..], p);
    }
  }

  lemma {:induction false} FontOfConcat(a: seq<Block>, b: seq<Block>, p: int)
    ensures FontOf(a + b, p) == if FontOf(a, p).Some? then FontOf(a, p) else FontOf(b, p)
  {
    if a == [] {
      assert a + b == b;
    } else {
      assert (a + b)[1..] == a[1..] + b;
      FontOfConcat(a[1..], b, p);
    }
  }

  /** Where filling begins: behind a block that reaches over `first` from before it. */
  function Start(blocks: seq<Block>, first: int): (s: int)
    ensures s >= first
  {
    if blocks == [] then first
    else if blocks[0].first < first <= blocks[0].last then blocks[0].last + 1
    else Start(blocks[1..], first)
  }

  /** The points that `insert` associates: those from the start on up to the next block. */
  ghost predicate Added(blocks: seq<Block>, first: int, last: int, p: int) {
    Start(blocks, first) <= p <= last
    && forall k :: 0 <= k < |blocks| ==> !(Start(blocks, first) <= blocks[k].first <= p)
  }

  lemma {:induction false} StartAt(blocks: seq<Block>, first: int, k: nat)
    requires Sorted(blocks) && k < |blocks| && blocks[k].first < first <= blocks[k].last
    ensures Start(blocks, first) == blocks[k].last + 1
  {
    if k > 0 {
      StartAt(blocks[1..], first, k - 1);
    }
  }

  lemma {:induction false} StartFree(blocks: seq<Block>, first: int)
    requires forall k :: 0 <= k < |blocks| ==> !(blocks[k].first < first <= blocks[k].last)
    ensures Start(blocks, first) == first
  {
    if blocks != [] {
      StartFree(blocks[1..], first);
    }
  }

  /** The first entry whose key is not below `first`, or is above it for the upper bound. */
  function LowerBound(blocks: seq<Block>, first: int): (i: nat)
    ensures i <= |blocks| && (forall k :: 0 <= k < i ==> blocks[k].first < first)
    ensures i < |blocks| ==> first <= blocks[i].first
  {
    if blocks == [] || first <= blocks[0].first then 0 else 1 + LowerBound(blocks[1..], first)
  }

  class CharBlockMap {
    var blocks: seq<Block>

    ghost predicate Valid()
      reads this
    {
      Sorted(blocks)
    }

    constructor ()
      ensures Valid() && blocks == []
    {
      blocks := [];
    }

    /** `insert` */
    method Insert(first: int, last: int, id: int)
      requires Valid()
      modifies this
      ensures Valid()
      ensures forall p :: FontOf(blocks, p)
                == if Added(old(blocks), first, last, p) then Some(id) else FontOf(old(blocks), p)
      decreases last - first + 1
    {
      if first > last {
        return;
      }
      var i := LowerBound(blocks, first);
      if i != 0 {
        var j := i - 1;
        if first <= blocks[j].last {
          StartAt(blocks, first, j);
          StartFree(blocks, blocks[j].last + 1);
          Insert(blocks[j].last + 1, last, id);
          return;
        }
      }
      StartFree(blocks, first);
      if i != |blocks| {
        if blocks[i].first <= last {
          Insert(first, blocks[i].first - 1, id);
          return;
        }
      }
      InsertBlock(blocks, i, Block(first, last, id));
      blocks := blocks[..i] + [Block(first, last, id)] + blocks[i..];
    }

    /** `compress` */
    method Compress()
      requires Valid()
      modifies this
      ensures Valid() && blocks == Compressed(old(blocks))
    {
      CompressedSorted(blocks);
      hide Sorted, Compressed;
      var i := 0;
      assert blocks[..0] + Compressed(blocks[0..]) == Compressed(blocks) by {
        assert blocks[0..] == blocks;
      }
      while i != |blocks|
        invariant 0 <= i <= |blocks|
        invariant blocks[..i] + Compressed(blocks[i..]) == Compressed(old(blocks))
        decreases |blocks| - i
      {
        var j := i + 1;
        if j == |blocks| || blocks[i].id != blocks[j].id {
          KeepBlock(blocks, i);
          i := j;
        } else {
          MergeBlock(blocks, i);
          blocks := blocks[..i] + [blocks[i].(last := blocks[j].last)] + blocks[j + 1..];
        }
      }
      NoBlocks(blocks);
    }

    /** `get_id`: the entry before the first one behind the point, if it reaches it. */
    method GetId(ch: int) returns (id: int)
      requires Valid()
      ensures id == match FontOf(blocks, ch) case None => -1 case Some(font) => font
    {
      var i := LowerBound(blocks, ch + 1);
      if i != 0 {
        i := i - 1;
        if ch <= blocks[i].last {
          FontOfBlock(blocks, ch, i);
          return blocks[i].id;
        }
      }
      FontOfGap(blocks, ch);
      return -1;
    }
  }

  lemma InsertedSorted(blocks: seq<Block>, i: nat, b: Block)
    requires Sorted(blocks) && i <= |blocks| && b.first <= b.last
    requires i > 0 ==> blocks[i - 1].last < b.first
    requires i < |blocks| ==> b.last < blocks[i].first
    ensures Sorted(blocks[..i] + [b] + blocks[i..])
  {
    var now := blocks[..i] + [b] + blocks[i..];
    forall j | 0 <= j < |now|
      ensures now[j] == if j < i then blocks[j] else if j == i then b else blocks[j - 1]
    {
    }
  }

  lemma InsertBlock(blocks: seq<Block>, i: nat, b: Block)
    requires Sorted(blocks) && i <= |blocks| && b.first <= b.last
    requires i > 0 ==> blocks[i - 1].last < b.first
    requires i < |blocks| ==> b.last < blocks[i].first
    ensures var now := blocks[..i] + [b] + blocks[i..];
            && Sorted(now)
            && forall p :: FontOf(now, p) == if Covers(b, p) then Some(b.id) else FontOf(blocks, p)
  {
    hide FontOf, Covers;
    var now := blocks[..i] + [b] + blocks[i..];
    InsertedSorted(blocks, i, b);
    hide Sorted;
    forall p
      ensures FontOf(now, p) == if Covers(b, p) then Some(b.id) else FontOf(blocks, p)
    {
      InsertedFont(blocks, i, b, p);
    }
  }

  lemma FontOfOne(b: Block, p: int)
    ensures FontOf([b], p) == if Covers(b, p) then Some(b.id) else None
  {
  }

  lemma InsertedFont(blocks: seq<Block>, i: nat, b: Block, p: int)
    requires Sorted(blocks) && i <= |blocks| && b.first <= b.last
    requires i > 0 ==> blocks[i - 1].last < b.first
    ensures FontOf(blocks[..i] + [b] + blocks[i..], p) == if Covers(b, p) then Some(b.id) else FontOf(blocks, p)
  {
    hide FontOf;
    assert blocks == blocks[..i] + blocks[i..];
    FontOfConcat(blocks[..i], blocks[i..], p);
    FontOfConcat(blocks[..i] + [b], blocks[i..], p);
    FontOfConcat(blocks[..i], [b], p);
    FontOfOne(b, p);
    if Covers(b, p) {
      FontOfGap(blocks[..i], p);
    }
  }

  // ---------------------------------------------------------------- does insert fill the whole range?

  /** The points of the range that have no font. */
  ghost predicate Open(blocks: seq<Block>, first: int, last: int, p: int) {
    first <= p <= last && FontOf(blocks, p) == None
  }

  /** `insert` gives a font to every open point of the range exactly when none of them lies behind a block
      that begins in the range at or behind the start; it gives fonts to open points only. */
  lemma InsertFills(blocks: seq<Block>, first: int, last: int)
    requires Sorted(blocks)
    ensures forall p :: Added(blocks, first, last, p) ==> Open(blocks, first, last, p)
    ensures (forall p :: Open(blocks, first, last, p) ==> Added(blocks, first, last, p))
       <==> (forall p, k :: Open(blocks, first, last, p) && 0 <= k < |blocks| ==>
               !(Start(blocks, first) <= blocks[k].first < p))
  {
    forall p | Added(blocks, first, last, p)
      ensures Open(blocks, first, last, p)
    {
      AddedIsOpen(blocks, first, last, p);
    }
    forall p | Open(blocks, first, last, p)
      ensures p >= Start(blocks, first)
      ensures forall k :: 0 <= k < |blocks| ==> blocks[k].first != p
    {
      OpenIsBehindStart(blocks, first, last, p);
    }
  }

  lemma AddedIsOpen(blocks: seq<Block>, first: int, last: int, p: int)
    requires Sorted(blocks) && Added(blocks, first, last, p)
    ensures Open(blocks, first, last, p)
  {
    if j :| 0 <= j < |blocks| && blocks[j].first < first <= blocks[j].last {
      StartAt(blocks, first, j);
    } else {
      StartFree(blocks, first);
    }
    FontOfGap(blocks, p);
  }

  lemma OpenIsBehindStart(blocks: seq<Block>, first: int, last: int, p: int)
    requires Sorted(blocks) && Open(blocks, first, last, p)
    ensures p >= Start(blocks, first)
    ensures forall k :: 0 <= k < |blocks| ==> blocks[k].first != p
  {
    if k :| 0 <= k < |blocks| && blocks[k].first < first <= blocks[k].last {
      StartAt(blocks, first, k);
      if Covers(blocks[k], p) {
        FontOfBlock(blocks, p, k);
      }
    } else {
      StartFree(blocks, first);
    }
    forall k | 0 <= k < |blocks|
      ensures blocks[k].first != p
    {
      if blocks[k].first == p {
        FontOfBlock(blocks, p, k);
      }
    }
  }

  /** A range with a block in its middle is filled in front of the block only. */
  lemma GapBehindBlockStaysOpen(id: int)
    ensures var blocks := [Block(5, 6, id)];
            Sorted(blocks) && Open(blocks, 1, 10, 8) && !Added(blocks, 1, 10, 8) && Added(blocks, 1, 10, 3)
  {
    assert FontOf([Block(5, 6, id)], 8) == None;
    assert Start([Block(5, 6, id)], 1) == 1;
  }

  // ---------------------------------------------------------------- compressing

  function Compressed(blocks: seq<Block>): seq<Block>
    decreases |blocks|
  {
    if |blocks| < 2 then blocks
    else if blocks[0].id == blocks[1].id then Compressed([blocks[0].(last := blocks[1].last)] + blocks[2..])
    else [blocks[0]] + Compressed(blocks[1..])
  }

  lemma NoBlocks(blocks: seq<Block>)
    ensures blocks[..|blocks|] + Compressed(blocks[|blocks|..]) == blocks
  {
  }

  lemma KeepBlock(blocks: seq<Block>, i: nat)
    requires i < |blocks| && (i + 1 == |blocks| || blocks[i].id != blocks[i + 1].id)
    ensures blocks[..i + 1] + Compressed(blocks[i + 1..]) == blocks[..i] + Compressed(blocks[i..])
  {
    assert blocks[i..][1..] == blocks[i + 1..];
    assert Compressed(blocks[i..]) == [blocks[i]] + Compressed(blocks[i + 1..]);
    assert blocks[..i + 1] == blocks[..i] + [blocks[i]];
  }

  lemma MergeBlock(blocks: seq<Block>, i: nat)
    requires i + 1 < |blocks| && blocks[i].id == blocks[i + 1].id
    ensures var now := blocks[..i] + [blocks[i].(last := blocks[i + 1].last)] + blocks[i + 2..];
            now[..i] + Compressed(now[i..]) == blocks[..i] + Compressed(blocks[i..])
  {
    var now := blocks[..i] + [blocks[i].(last := blocks[i + 1].last)] + blocks[i + 2..];
    assert blocks[i..][2..] == blocks[i + 2..];
    assert now[i..] == [blocks[i].(last := blocks[i + 1].last)] + blocks[i + 2..];
    assert now[..i] == blocks[..i];
  }

  lemma {:induction false} CompressedSorted(blocks: seq<Block>)
    requires Sorted(blocks)
    ensures Sorted(Compressed(blocks)) && |Compressed(blocks)| <= |blocks|
    ensures blocks != [] ==> Compressed(blocks) != [] && Compressed(blocks)[0].first == blocks[0].first
    ensures blocks != [] ==> Compressed(blocks)[0].id == blocks[0].id
    decreases |blocks|
  {
    if |blocks| >= 2 {
      if blocks[0].id == blocks[1].id {
        CompressedSorted([blocks[0].(last := blocks[1].last)] + blocks[2..]);
      } else {
        CompressedSorted(blocks[1..]);
      }
    }
  }

  /** No two neighbours have the same font. */
  lemma {:induction false} CompressedDiffers(blocks: seq<Block>)
    requires Sorted(blocks)
    ensures forall i :: 0 <= i < |Compressed(blocks)| - 1 ==> Compressed(blocks)[i].id != Compressed(blocks)[i + 1].id
    decreases |blocks|
  {
    if |blocks| >= 2 {
      if blocks[0].id == blocks[1].id {
        CompressedDiffers([blocks[0].(last := blocks[1].last)] + blocks[2..]);
      } else {
        CompressedDiffers(blocks[1..]);
        CompressedSorted(blocks[1..]);
      }
    }
  }

  /** The gap that lies over a point has blocks of the same font on both sides. */
  ghost predicate Bridged(blocks: seq<Block>, p: int, id: int) {
    exists k :: 0 <= k < |blocks| - 1 && blocks[k].last < p < blocks[k + 1].first
                && blocks[k].id == id && blocks[k + 1].id == id
  }

  lemma BridgedFirst(blocks: seq<Block>, p: int, id: int)
    requires |blocks| >= 2
    ensures Bridged(blocks, p, id) <==>
              || (blocks[0].last < p < blocks[1].first && blocks[0].id == id && blocks[1].id == id)
              || Bridged(blocks[1..], p, id)
  {
    if Bridged(blocks[1..], p, id) {
      var rest := blocks[1..];
      var k :| 0 <= k < |rest| - 1 && rest[k].last < p < rest[k + 1].first && rest[k].id == id && rest[k + 1].id == id;
      assert blocks[k + 1] == rest[k] && blocks[k + 2] == rest[k + 1];
      assert Bridged(blocks, p, id);
    }
    if Bridged(blocks, p, id) {
      var k :| 0 <= k < |blocks| - 1 && blocks[k].last < p < blocks[k + 1].first
               && blocks[k].id == id && blocks[k + 1].id == id;
      if k > 0 {
        assert blocks[1..][k - 1] == blocks[k] && blocks[1..][k] == blocks[k + 1];
      }
    }
  }

  /** In front of the second block there is nothing to bridge further on. */
  lemma NotBridged(blocks: seq<Block>, p: int, id: int)
    requires Sorted(blocks) && blocks != [] && p <= blocks[0].last
    ensures !Bridged(blocks, p, id)
  {
  }

  /** Merging two neighbours of the same font only fills the gap between them. */
  lemma MergedFont(blocks: seq<Block>, p: int, id: int)
    requires Sorted(blocks) && |blocks| >= 2 && blocks[0].id == blocks[1].id
    ensures var merged := [blocks[0].(last := blocks[1].last)] + blocks[2..];
            Sorted(merged) &&
            (FontOf(merged, p) == Some(id) || Bridged(merged, p, id)
             <==> FontOf(blocks, p) == Some(id) || Bridged(blocks, p, id))
  {
    var a, b, rest := blocks[0], blocks[1], blocks[2..];
    var merged := [a.(last := b.last)] + rest;
    assert Sorted(merged);
    assert merged[1..] == rest && blocks[1..][1..] == rest;
    BridgedFirst(blocks, p, id);
    if rest != [] {
      assert blocks[1..][1] == rest[0];
      BridgedFirst(blocks[1..], p, id);
      BridgedFirst(merged, p, id);
    }
    if p <= b.last {
      if rest != [] {
        NotBridged(rest, p, id);
      }
      FontOfGap(rest, p);
    }
  }

  /** Compressing keeps every association and adds just those of bridged gaps. */
  lemma {:induction false} CompressedExact(blocks: seq<Block>, p: int, id: int)
    requires Sorted(blocks)
    ensures FontOf(Compressed(blocks), p) == Some(id) <==> (FontOf(blocks, p) == Some(id) || Bridged(blocks, p, id))
    decreases |blocks|
  {
    hide Bridged;
    if |blocks| >= 2 {
      if blocks[0].id == blocks[1].id {
        CompressedExact([blocks[0].(last := blocks[1].last)] + blocks[2..], p, id);
        MergedFont(blocks, p, id);
      } else {
        CompressedExact(blocks[1..], p, id);
        BridgedFirst(blocks, p, id);
        if p <= blocks[0].last {
          NotBridged(blocks[1..], p, id);
        }
      }
    } else {
      NoGap(blocks, p, id);
    }
  }

  lemma NoGap(blocks: seq<Block>, p: int, id: int)
    requires |blocks| < 2
    ensures !Bridged(blocks, p, id)
  {
  }
}
