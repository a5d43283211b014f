/** The text buffer of a file: growing it, replacing a span in place and replacing strings throughout. */
module FileData {

  type Byte = n: int | 0 <= n < 256

  const NUL: Byte := 0

  // ---------------------------------------------------------------- searching

  predicate Occurs(s: seq<Byte>, p: seq<Byte>, k: nat) {
    k + |p| <= |s| && s[k..k + |p|] == p
  }

  /** The first occurrence of a pattern, or the length of the text. */
  function Find(s: seq<Byte>, p: seq<Byte>): (k: nat)
    requires p != []
    ensures k <= |s| && (k < |s| ==> Occurs(s, p, k))
    ensures forall j :: 0 <= j < k ==> !Occurs(s, p, j)
    ensures k == |s| ==> forall j :: 0 <= j <= |s| ==> !Occurs(s, p, j)
  {
    FindFrom(s, p, 0)
  }

  function FindFrom(s: seq<Byte>, p: seq<Byte>, i: nat): (k: nat)
    requires p != [] && i <= |s| && forall j :: 0 <= j < i ==> !Occurs(s, p, j)
    ensures k <= |s| && (k < |s| ==> Occurs(s, p, k))
    ensures forall j :: 0 <= j < k ==> !Occurs(s, p, j)
    ensures k == |s| ==> forall j :: 0 <= j <= |s| ==> !Occurs(s, p, j)
    decreases |s| - i
  {
    if i == |s| || Occurs(s, p, i) then i else FindFrom(s, p, i + 1)
  }

  /** Where a C string ends. */
  function FirstNul(s: seq<Byte>): (z: nat)
    ensures z <= |s| && (z < |s| ==> s[z] == NUL) && forall i :: 0 <= i < z ==> s[i] != NUL
  {
    if s == [] || s[0] == NUL then 0 else 1 + FirstNul(s[1..])
  }

  lemma FirstNulIs(s: seq<Byte>, z: nat)
    requires z <= |s| && (z < |s| ==> s[z] == NUL) && forall i :: 0 <= i < z ==> s[i] != NUL
    ensures FirstNul(s) == z
  {
    hide FirstNul;
  }

  // ---------------------------------------------------------------- replacing, as a function of the text

  /** Every occurrence replaced from left to right; what was put in is not looked at again. */
  function ReplaceAll(s: seq<Byte>, src: seq<Byte>, dst: seq<Byte>): seq<Byte>
    requires src != []
    decreases |s|
  {
    var k := Find(s, src);
    if k == |s| then s else s[..k] + dst + ReplaceAll(s[k + |src|..], src, dst)
  }

  /** The pieces of a text between the occurrences. */
  function Pieces(s: seq<Byte>, src: seq<Byte>): (r: seq<seq<Byte>>)
    requires src != []
    ensures r != []
    decreases |s|
  {
    var k := Find(s, src);
    if k == |s| then [s] else [s[..k]] + Pieces(s[k + |src|..], src)
  }

  function Join(pieces: seq<seq<Byte>>, sep: seq<Byte>): seq<Byte>
    requires pieces != []
  {
    if |pieces| == 1 then pieces[0] else pieces[0] + sep + Join(pieces[1..], sep)
  }

  /** Replacing is joining the pieces of the text with the new string; with the old one they make the text. */
  lemma {:induction false} ReplaceJoins(s: seq<Byte>, src: seq<Byte>, dst: seq<Byte>)
    requires src != []
    ensures Join(Pieces(s, src), src) == s
    ensures Join(Pieces(s, src), dst) == ReplaceAll(s, src, dst)
    decreases |s|
  {
    hide Occurs, FindFrom, Find;
    FindInside(s, src);
    var k := Find(s, src);
    if k < |s| {
      var rest := Pieces(s[k + |src|..], src);
      assert ([s[..k]] + rest)[1..] == rest;
      ReplaceJoins(s[k + |src|..], src, dst);
      assert s == s[..k] + src + s[k + |src|..];
    }
  }

  lemma FindInside(s: seq<Byte>, p: seq<Byte>)
    requires p != []
    ensures var k := Find(s, p); k <= |s| && (k < |s| ==> k + |p| <= |s| && s[k..k + |p|] == p)
  {
  }

  lemma NoOccurrence(s: seq<Byte>, p: seq<Byte>, j: nat)
    requires p != [] && Find(s, p) == |s|
    ensures !Occurs(s, p, j)
  {
  }

  lemma PrefixOccurs(s: seq<Byte>, p: seq<Byte>, j: nat, k: nat)
    requires p != [] && k <= |s|
    ensures Occurs(s[..k], p, j) ==> Occurs(s, p, j) && j < k
  {
    if Occurs(s[..k], p, j) {
      assert s[j..j + |p|] == s[..k][j..j + |p|];
    }
  }

  /** No piece holds the pattern. */
  lemma {:induction false} PiecesFree(s: seq<Byte>, src: seq<Byte>, i: nat, j: nat)
    requires src != [] && i < |Pieces(s, src)|
    ensures !Occurs(Pieces(s, src)[i], src, j)
    decreases |s|
  {
    hide Occurs, FindFrom;
    var k := Find(s, src);
    if k < |s| {
      FindInside(s, src);
      if i == 0 {
        PrefixOccurs(s, src, j, k);
      } else {
        PiecesFree(s[k + |src|..], src, i - 1, j);
      }
    } else {
      NoOccurrence(s, src, j);
    }
  }

  /** A text without the pattern stays as it is. */
  lemma ReplaceNothing(s: seq<Byte>, src: seq<Byte>, dst: seq<Byte>)
    requires src != [] && Find(s, src) == |s|
    ensures ReplaceAll(s, src, dst) == s
  {
  }

  datatype Pair = Pair(first: seq<Byte>, second: seq<Byte>)

  /** One pair on a buffer: only the text before the first NUL is searched. */
  function ReplacePair(s: seq<Byte>, p: Pair): seq<Byte>
    requires p.first != []
  {
    var z := FirstNul(s);
    if p.first == p.second then s else ReplaceAll(s[..z], p.first, p.second) + s[z..]
  }

  ghost predicate Searchable(pairs: seq<Pair>) {
    forall i :: 0 <= i < |pairs| ==> pairs[i].first != [] && NUL !in pairs[i].first
  }

  /** The pairs one after the other. */
  function ReplacePairs(s: seq<Byte>, pairs: seq<Pair>): seq<Byte>
    requires forall i :: 0 <= i < |pairs| ==> pairs[i].first != []
    decreases |pairs|
  {
    if pairs == [] then s
    else ReplacePair(ReplacePairs(s, pairs[..|pairs| - 1]), pairs[|pairs| - 1])
  }

  /** Whether any pair finds something to replace. */
  predicate AnyFound(s: seq<Byte>, pairs: seq<Pair>)
    requires forall i :: 0 <= i < |pairs| ==> pairs[i].first != []
    decreases |pairs|
  {
    pairs != [] &&
    var front, p := pairs[..|pairs| - 1], pairs[|pairs| - 1];
    var now := ReplacePairs(s, front);
    AnyFound(s, front) || Finds(now, p)
  }

  /** On text without NUL bytes every pair replaces throughout. */
  lemma WholeText(s: seq<Byte>, p: Pair)
    requires p.first != [] && NUL !in s && p.first != p.second
    ensures ReplacePair(s, p) == ReplaceAll(s, p.first, p.second)
  {
    var z := FirstNul(s);
    assert z == |s|;
    assert s[..z] == s && s[z..] == [];
  }

  // ---------------------------------------------------------------- the buffer

  const BLOCK := 4096
  const BOM: seq<Byte> := [0xef, 0xbb, 0xbf]

  function AlignCeil(n: int): (r: int)
    ensures r % 4096 == 0 && n <= r < n + 4096
  {
    (n + BLOCK - 1) / BLOCK * BLOCK
  }

  /** Where searching starts: behind the byte order mark if there is one. */
  function TextStart(s: seq<Byte>): (b: nat)
    ensures b <= |s|
    ensures b == 3 <==> |s| >= 3 && s[0] == 0xef && s[1] == 0xbb && s[2] == 0xbf
    ensures b == 0 || b == 3
  {
    if |s| >= |BOM| && s[..|BOM|] == BOM then |BOM| else 0
  }

  class TextBuffer {
    var data: array?<Byte>
    var dataSize: int

    ghost predicate Valid()
      reads this
    {
      dataSize == if data == null then 0 else data.Length
    }

    /** The first bytes of the buffer. */
    ghost function Text(n: nat): seq<Byte>
      requires data != null && n <= data.Length
      reads this, data
    {
      data[..n]
    }

    constructor ()
      ensures Valid() && data == null
    {
      data, dataSize := null, 0;
    }

    /** `resize_data`: makes room in whole blocks and keeps the first `vsize` bytes. */
    method ResizeData(size: nat, vsize: nat)
      requires Valid() && (data != null ==> vsize <= dataSize)
      modifies this
      ensures Valid() && dataSize >= AlignCeil(size) && dataSize >= old(dataSize)
      ensures data == old(data) || fresh(data)
      ensures old(data) != null && data != null ==> Text(vsize) == old(Text(vsize))
      ensures size > 0 ==> data != null
      ensures dataSize == old(dataSize) || dataSize == AlignCeil(size)
    {
      var aligned := AlignCeil(size);
      if aligned > dataSize {
        var tmp := new Byte[aligned];
        if data != null {
          forall i | 0 <= i < vsize {
            tmp[i] := data[i];
          }
          assert tmp[..vsize] == data[..vsize];
        }
        data := tmp;
        dataSize := aligned;
      }
    }

    /** `memmove` within the buffer. */
    method MoveBytes(to: nat, from: nat, n: nat)
      requires data != null && to + n <= data.Length && from + n <= data.Length
      modifies data
      ensures forall i :: 0 <= i < data.Length ==>
                data[i] == old(data[..])[if to <= i < to + n then from + i - to else i]
    {
      forall i | to <= i < to + n {
        data[i] := data[from + i - to];
      }
    }

    /** The in-place part of `replace_span`, once there is room. */
    method Splice(start: nat, originalSize: nat, newData: seq<Byte>, fsize: nat)
      requires data != null && start + originalSize <= fsize <= data.Length
      requires fsize + |newData| - originalSize < data.Length
      modifies data
      ensures forall i :: 0 <= i < start ==> data[i] == old(data[..])[i]
      ensures forall i :: start <= i < start + |newData| ==> data[i] == newData[i - start]
      ensures forall i :: start + |newData| <= i < fsize + |newData| - originalSize ==>
                data[i] == old(data[..])[i + originalSize - |newData|]
      ensures data[fsize + |newData| - originalSize] == NUL
    {
      MoveBytes(start + |newData|, start + originalSize, fsize - start - originalSize);
      forall i | start <= i < start + |newData| {
        data[i] := newData[i - start];
      }
      data[fsize + |newData| - originalSize] := NUL;
    }

    /** `replace_span`: the span gives way to the new bytes, and the text behind it moves up or down. */
    method ReplaceSpan(start: nat, originalSize: nat, newData: seq<Byte>, fsize: nat) returns (newSize: nat)
      requires Valid() && data != null && start + originalSize <= fsize <= dataSize
      modifies this, data
      ensures Valid() && data != null && (data == old(data) || fresh(data))
      ensures newSize == fsize + |newData| - originalSize && newSize < dataSize && data[newSize] == NUL
      ensures var text := old(Text(fsize)); Text(newSize) == text[..start] + newData + text[start + originalSize..]
      ensures dataSize >= old(dataSize)
    {
      newSize := fsize + |newData| - originalSize;
      ghost var was := data[..fsize];
      ResizeData(newSize + 1, fsize);
      ghost var grown := data[..];
      assert grown[..fsize] == was;
      Splice(start, originalSize, newData, fsize);
      SplicedText(grown, data[..], start, originalSize, newData, fsize);
    }

    /** `strstr` from an offset on, in a buffer that ends with a NUL byte at `fsize`. */
    method StrStr(from: nat, pattern: seq<Byte>, fsize: nat) returns (found: bool, pos: nat)
      requires data != null && from <= fsize <= data.Length && pattern != []
      ensures var text := data[from..fsize];
              var z := FirstNul(text);
              found == (Find(text[..z], pattern) < z) && (found ==> pos == from + Find(text[..z], pattern))
    {
      var text := data[from..fsize];
      text := text[..FirstNul(text)];
      var k := Find(text, pattern);
      found, pos := k < |text|, from + k;
    }

    /** Replaces the occurrence at a place of the text. */
    method ReplaceAt(pos: nat, p: Pair, size: nat) returns (fsize: nat)
      requires Valid() && data != null && pos + |p.first| <= size <= dataSize
      modifies this, data
      ensures Valid() && data != null && (data == old(data) || fresh(data)) && dataSize >= old(dataSize)
      ensures fsize == size + |p.second| - |p.first| && fsize < dataSize && data[fsize] == NUL
      ensures var text := old(Text(size)); Text(fsize) == text[..pos] + p.second + text[pos + |p.first|..]
    {
      fsize := ReplaceSpan(pos, |p.first|, p.second, size);
    }

    /** Searches the part of a text that is still to be searched. */
    method Search(at: nat, p: Pair, fsize: nat, ghost head: seq<Byte>, ghost done: seq<Byte>, ghost todo: seq<Byte>,
                  ghost rest: seq<Byte>) returns (hit: bool, pos: nat)
      requires data != null && at <= fsize <= data.Length && p.first != []
      requires Text(fsize) == Whole(head, done, todo, rest) && at == |head| + |done|
      requires NUL !in todo && (rest == [] || rest[0] == NUL)
      ensures hit == (Find(todo, p.first) < |todo|) && (hit ==> pos == at + Find(todo, p.first))
    {
      hide FirstNul, FindFrom, Find, Occurs, Whole;
      TextBehind(head, done, todo, rest);
      assert data[at..fsize] == data[..fsize][at..];
      hit, pos := StrStr(at, p.first, fsize);
    }

    /** Replaces the first occurrence in that part. */
    method ReplaceNext(pos: nat, p: Pair, size: nat, ghost head: seq<Byte>, ghost done: seq<Byte>,
                       ghost todo: seq<Byte>, ghost rest: seq<Byte>, ghost k: nat) returns (fsize: nat)
      requires Valid() && data != null && size <= dataSize && p.first != []
      requires Text(size) == Whole(head, done, todo, rest)
      requires k == Find(todo, p.first) < |todo| && pos == |head| + |done| + k
      modifies this, data
      ensures Valid() && data != null && (data == old(data) || fresh(data)) && dataSize >= old(dataSize)
      ensures fsize < dataSize && data[fsize] == NUL && k + |p.first| <= |todo|
      ensures pos + |p.second| <= fsize
      ensures Text(fsize) == Whole(head, done + todo[..k] + p.second, todo[k + |p.first|..], rest)
    {
      FindInside(todo, p.first);
      hide FirstNul, FindFrom, Find, Occurs, Whole;
      SpanReplaced(head, done, todo, rest, p, k);
      fsize := ReplaceAt(pos, p, size);
    }

    /** One pair of `replace_string`. */
    method ReplacePairIn(start: nat, p: Pair, size: nat) returns (fsize: nat, found: bool)
      requires Valid() && data != null && start <= size < dataSize && data[size] == NUL && p.first != []
      modifies this, data
      ensures Valid() && data != null && (data == old(data) || fresh(data)) && dataSize >= old(dataSize)
      ensures start <= fsize < dataSize && data[fsize] == NUL
      ensures Text(fsize) == old(Text(start)) + ReplacePair(old(data[start..size]), p)
      ensures found == Finds(old(data[start..size]), p)
    {
      hide FirstNul, FindFrom, Find, ReplaceAll, Occurs, Whole;
      fsize, found := size, false;
      ghost var head, text := data[..start], data[start..size];
      assert data[..size] == head + text;
      if p.first == p.second {
        return;
      }
      ghost var z := FirstNul(text);
      ghost var done, todo, rest := [], text[..z], text[z..];
      CutText(text);
      WholeStart(head, text, z);
      var at := start;
      var hit, pos := Search(at, p, fsize, head, done, todo, rest);
      while hit
        invariant Valid() && data != null && (data == old(data) || fresh(data)) && dataSize >= old(dataSize)
        invariant start <= at <= fsize < dataSize && data[fsize] == NUL
        invariant Text(fsize) == Whole(head, done, todo, rest) && at == |head| + |done|
        invariant NUL !in todo
        invariant done + ReplaceAll(todo, p.first, p.second) == ReplaceAll(text[..z], p.first, p.second)
        invariant hit == (Find(todo, p.first) < |todo|) && (hit ==> pos == at + Find(todo, p.first))
        invariant if found then Find(text[..z], p.first) < z else todo == text[..z]
        decreases |todo|
      {
        ghost var k := Find(todo, p.first);
        ReplaceFirst(done, todo, p, k);
        fsize := ReplaceNext(pos, p, fsize, head, done, todo, rest, k);
        done, todo := done + todo[..k] + p.second, todo[k + |p.first|..];
        at := pos + |p.second|;
        hit, pos := Search(at, p, fsize, head, done, todo, rest);
        found := true;
      }
      ReplaceNothing(todo, p.first, p.second);
      WholeEnd(head, done, todo, rest);
    }

    method Terminate(size: nat)
      requires Valid() && data != null && size <= dataSize
      modifies this, data
      ensures Valid() && data != null && (data == old(data) || fresh(data))
      ensures size < dataSize && data[size] == NUL && Text(size) == old(Text(size))
    {
      ResizeData(size + 1, size);
      ghost var text := data[..size];
      data[size] := NUL;
      assert data[..size] == text;
    }

    /** `replace_string`: the pairs in turn, each throughout the text behind a byte order mark. */
    method ReplaceString(size: nat, pairs: seq<Pair>) returns (ok: bool, fsize: nat, dirty: bool)
      requires Valid() && Searchable(pairs)
      modifies this, data
      ensures Valid() && ok == (old(data) != null && size <= old(dataSize))
      ensures !ok ==> data == old(data) && (data != null ==> data[..] == old(data[..])) && fsize == size && !dirty
      ensures ok ==> data != null && fsize < dataSize && data[fsize] == NUL
      ensures ok ==>
                var text := old(Text(size));
                var b := if |text| >= 3 && text[..3] == [0xef, 0xbb, 0xbf] then 3 else 0;
                Text(fsize) == text[..b] + ReplacePairs(text[b..], pairs) && dirty == AnyFound(text[b..], pairs)
    {
      hide Finds, ReplacePair, FirstNul, Find, FindFrom, Occurs;
      fsize, dirty := size, false;
      if data == null || size > dataSize {
        return false, size, false;
      }
      ok := true;
      ghost var text := data[..size];
      Terminate(size);
      var b := TextStart(data[..size]);
      ghost var head, behind := text[..b], text[b..];
      assert pairs[..0] == [];
      var i := 0;
      while i < |pairs|
        invariant 0 <= i <= |pairs|
        invariant Valid() && data != null && (data == old(data) || fresh(data))
        invariant b <= fsize < dataSize && data[fsize] == NUL
        invariant Text(fsize) == head + ReplacePairs(behind, pairs[..i])
        invariant dirty == AnyFound(behind, pairs[..i])
      {
        ghost var now := ReplacePairs(behind, pairs[..i]);
        assert data[..b] == data[..fsize][..b] && data[b..fsize] == data[..fsize][b..] == now;
        assert pairs[..i + 1][..i] == pairs[..i];
        var found;
        fsize, found := ReplacePairIn(b, pairs[i], fsize);
        dirty := dirty || found;
        i := i + 1;
      }
      assert pairs[..i] == pairs;
    }
  }

  lemma WholeStart(head: seq<Byte>, text: seq<Byte>, z: nat)
    requires z <= |text|
    ensures Whole(head, [], text[..z], text[z..]) == head + text
  {
    assert text == text[..z] + text[z..];
  }

  lemma WholeEnd(head: seq<Byte>, done: seq<Byte>, todo: seq<Byte>, rest: seq<Byte>)
    ensures Whole(head, done, todo, rest) == head + ((done + todo) + rest)
  {
  }

  lemma SplicedText(was: seq<Byte>, now: seq<Byte>, start: nat, originalSize: nat, newData: seq<Byte>, fsize: nat)
    requires start + originalSize <= fsize <= |was| == |now| && fsize + |newData| - originalSize <= |now|
    requires forall i :: 0 <= i < start ==> now[i] == was[i]
    requires forall i :: start <= i < start + |newData| ==> now[i] == newData[i - start]
    requires forall i :: start + |newData| <= i < fsize + |newData| - originalSize ==>
               now[i] == was[i + originalSize - |newData|]
    ensures now[..fsize + |newData| - originalSize]
         == was[..fsize][..start] + newData + was[..fsize][start + originalSize..]
  {
  }

  /** Whether a pair finds something to replace. */
  predicate Finds(s: seq<Byte>, p: Pair)
    requires p.first != []
  {
    p.first != p.second && Find(s[..FirstNul(s)], p.first) < FirstNul(s)
  }

  /** The pattern stands at `k` and no NUL in front of its end. */
  ghost predicate Reachable(s: seq<Byte>, p: seq<Byte>, k: nat) {
    k + |p| <= |s| && s[k..k + |p|] == p && forall i :: 0 <= i < k + |p| ==> s[i] != 0
  }

  /** A pair finds something when it changes anything and what it looks for stands before the first NUL. */
  lemma FindsMeans(s: seq<Byte>, p: Pair)
    requires p.first != []
    ensures Finds(s, p) <==> (p.first != p.second && exists k: nat :: Reachable(s, p.first, k))
  {
    var z := FirstNul(s);
    forall k: nat | Reachable(s, p.first, k)
      ensures Find(s[..z], p.first) < z
    {
      assert s[..z][k..k + |p.first|] == p.first;
      assert Occurs(s[..z], p.first, k);
    }
    if Find(s[..z], p.first) < z {
      FindInside(s[..z], p.first);
      assert Reachable(s, p.first, Find(s[..z], p.first));
    }
  }

  /** What lies behind the first NUL stays as it is. */
  lemma BehindNulStays(front: seq<Byte>, behind: seq<Byte>, p: Pair)
    requires p.first != [] && NUL !in front
    ensures ReplacePair(front + [0] + behind, p) == ReplacePair(front, p) + [0] + behind
  {
    hide ReplaceAll, FirstNul;
    var s := front + [0] + behind;
    FirstNulIs(s, |front|);
    FirstNulIs(front, |front|);
    assert s[..|front|] == front && s[|front|..] == [0] + behind && front[..|front|] == front && front[|front|..] == [];
  }

  /** The first pair of the list is replaced first. */
  lemma {:induction false} PairsInOrder(s: seq<Byte>, pairs: seq<Pair>)
    requires pairs != [] && forall i :: 0 <= i < |pairs| ==> pairs[i].first != []
    ensures ReplacePairs(s, pairs) == ReplacePairs(ReplacePair(s, pairs[0]), pairs[1..])
    ensures AnyFound(s, pairs) <==> Finds(s, pairs[0]) || AnyFound(ReplacePair(s, pairs[0]), pairs[1..])
    decreases |pairs|
  {
    hide ReplacePair, Finds;
    var n := |pairs| - 1;
    if n > 0 {
      PairsInOrder(s, pairs[..n]);
      assert pairs[..n][1..] == pairs[1..][..n - 1];
    } else {
      assert pairs[..n] == [] && pairs[1..] == [];
    }
  }

  /** When no pair finds anything, the text stays as it is. */
  lemma {:induction false} CleanIsUnchanged(s: seq<Byte>, pairs: seq<Pair>)
    requires forall i :: 0 <= i < |pairs| ==> pairs[i].first != []
    requires !AnyFound(s, pairs)
    ensures ReplacePairs(s, pairs) == s
    decreases |pairs|
  {
    hide ReplaceAll, Find, FirstNul;
    if pairs != [] {
      var p := pairs[|pairs| - 1];
      CleanIsUnchanged(s, pairs[..|pairs| - 1]);
      var z := FirstNul(s);
      if p.first != p.second {
        ReplaceNothing(s[..z], p.first, p.second);
      }
      assert s[..z] + s[z..] == s;
    }
  }

  lemma CutText(text: seq<Byte>)
    ensures var z := FirstNul(text); z <= |text| && NUL !in text[..z] && (text[z..] == [] || text[z..][0] == NUL)
  {
  }

  /** What a search behind the replaced part sees. */
  lemma TextBehind(head: seq<Byte>, done: seq<Byte>, todo: seq<Byte>, rest: seq<Byte>)
    requires NUL !in todo && (rest == [] || rest[0] == NUL)
    ensures var text := Whole(head, done, todo, rest);
            var at := |head| + |done|;
            at <= |text| && text[at..] == todo + rest && FirstNul(todo + rest) == |todo| && (todo + rest)[..|todo|] == todo
  {
    FirstNulIs(todo + rest, |todo|);
  }

  /** The text around an occurrence, before and after it is replaced. */
  lemma AroundSpan(a: seq<Byte>, src: seq<Byte>, dst: seq<Byte>, b: seq<Byte>)
    ensures (a + src + b)[..|a|] == a && (a + src + b)[|a| + |src|..] == b
  {
  }

  lemma Regroup(head: seq<Byte>, done: seq<Byte>, front: seq<Byte>, mid: seq<Byte>, back: seq<Byte>, rest: seq<Byte>)
    ensures head + done + (front + mid + back) + rest == (head + done + front) + mid + (back + rest)
    ensures head + (done + front + mid) + back + rest == (head + done + front) + mid + (back + rest)
  {
    assert head + done + (front + mid + back) == (head + done + front) + mid + back;
    assert head + (done + front + mid) == (head + done + front) + mid;
  }

  lemma ThreeParts(s: seq<Byte>, k: nat, n: nat)
    requires k + n <= |s|
    ensures s == s[..k] + s[k..k + n] + s[k + n..]
  {
  }

  lemma Associate(done: seq<Byte>, a: seq<Byte>, b: seq<Byte>, c: seq<Byte>)
    ensures (done + a + b) + c == done + (a + b + c)
  {
  }

  lemma ReplaceUnfolds(todo: seq<Byte>, p: Pair, k: nat)
    requires p.first != [] && k == Find(todo, p.first) < |todo| && k + |p.first| <= |todo|
    ensures ReplaceAll(todo, p.first, p.second)
         == todo[..k] + p.second + ReplaceAll(todo[k + |p.first|..], p.first, p.second)
  {
    hide Find, Occurs;
  }

  lemma ReplaceFirst(done: seq<Byte>, todo: seq<Byte>, p: Pair, k: nat)
    requires p.first != [] && k == Find(todo, p.first) < |todo|
    ensures k + |p.first| <= |todo|
    ensures (done + todo[..k] + p.second) + ReplaceAll(todo[k + |p.first|..], p.first, p.second)
         == done + ReplaceAll(todo, p.first, p.second)
  {
    FindInside(todo, p.first);
    hide FindFrom, Occurs, Find, ReplaceAll;
    ReplaceUnfolds(todo, p, k);
    Associate(done, todo[..k], p.second, ReplaceAll(todo[k + |p.first|..], p.first, p.second));
  }

  /** A text in four parts: what is kept, what is done, what is to be searched and what lies behind. */
  ghost function Whole(head: seq<Byte>, done: seq<Byte>, todo: seq<Byte>, rest: seq<Byte>): seq<Byte> {
    head + done + todo + rest
  }

  /** The text once an occurrence in `todo` has been replaced. */
  lemma SpanReplaced(head: seq<Byte>, done: seq<Byte>, todo: seq<Byte>, rest: seq<Byte>, p: Pair, k: nat)
    requires k + |p.first| <= |todo| && todo[k..k + |p.first|] == p.first
    ensures var text, pos := Whole(head, done, todo, rest), |head| + |done| + k;
            && pos + |p.first| <= |text|
            && text[..pos] + p.second + text[pos + |p.first|..]
               == Whole(head, done + todo[..k] + p.second, todo[k + |p.first|..], rest)
  {
    var front, back := todo[..k], todo[k + |p.first|..];
    ThreeParts(todo, k, |p.first|);
    assert todo == front + p.first + back;
    hide Whole;
    Spliced(head, done, front, back, rest, p);
  }

  lemma Spliced(head: seq<Byte>, done: seq<Byte>, front: seq<Byte>, back: seq<Byte>, rest: seq<Byte>, p: Pair)
    ensures var text, pos := Whole(head, done, front + p.first + back, rest), |head| + |done| + |front|;
            && pos + |p.first| <= |text|
            && text[..pos] + p.second + text[pos + |p.first|..] == Whole(head, done + front + p.second, back, rest)
  {
    Regroup(head, done, front, p.first, back, rest);
    Regroup(head, done, front, p.second, back, rest);
    AroundSpan(head + done + front, p.first, p.second, back + rest);
  }
}
