/**
 * `serializeBlocks` and `deserializeBlocks` of app/utils/serializer.ts,
 * below the JSON text layer: the encoding is the array of
 * `[id, parentId, order, type]` tuples that `JSON.stringify` would print,
 * and decoding rebuilds one object per tuple.
 */
module Serializer {
  import opened Wrappers
  import opened BlockModel
  import opened Sorting

  /** One element of the encoded array, `[id, parentId, order, type]`. */
  datatype Tuple = Tuple(id: string, parentId: Option<string>, order: int, kind: BlockType)

  /** The object `deserializeBlocks` builds from a tuple: a block with no `itemId` or other field. */
  datatype Decoded = Decoded(id: string, kind: BlockType, parentId: Option<string>, order: int)

  function Encode(b: Block): Tuple {
    Tuple(b.id, b.parentId, b.order, b.kind)
  }

  function Decode(t: Tuple): Decoded {
    Decoded(t.id, t.kind, t.parentId, t.order)
  }

  /** The part of a block the encoding keeps. */
  function Strip(b: Block): Decoded {
    Decoded(b.id, b.kind, b.parentId, b.order)
  }

  /** `s.map(f)`. */
  function Map<A, B>(f: A -> B, s: seq<A>): (r: seq<B>)
    ensures |r| == |s|
    ensures forall k :: 0 <= k < |s| ==> r[k] == f(s[k])
  {
    if |s| == 0 then [] else [f(s[0])] + Map(f, s[1..])
  }

  lemma MapConcat<A, B>(f: A -> B, a: seq<A>, b: seq<A>)
    ensures Map(f, a + b) == Map(f, a) + Map(f, b)
  {
    assert forall k :: 0 <= k < |a| ==> (a + b)[k] == a[k];
    assert forall k :: 0 <= k < |b| ==> (a + b)[|a| + k] == b[k];
  }

  /** Mapping two permutations of each other gives permutations of each other. */
  lemma {:induction false} MapPerm<A, B>(f: A -> B, a: seq<A>, b: seq<A>)
    requires multiset(a) == multiset(b)
    ensures multiset(Map(f, a)) == multiset(Map(f, b))
    decreases |a|
  {
    if |a| > 0 {
      var k := PermHas(a, b);
      var rest := b[..k] + b[k + 1..];
      assert a[..0] + a[1..] == a[1..];
      MapRemove(f, a, 0);
      MapRemove(f, b, k);
      MapPerm(f, a[1..], rest);
    }
  }

  /** A position of `b` holding the first element of its permutation `a`; the rest stay permutations. */
  lemma PermHas<A>(a: seq<A>, b: seq<A>) returns (k: nat)
    requires |a| > 0 && multiset(a) == multiset(b)
    ensures k < |b| && b[k] == a[0]
    ensures multiset(a[1..]) == multiset(b[..k] + b[k + 1..])
  {
    assert a[0] in multiset(b);
    k :| 0 <= k < |b| && b[k] == a[0];
    assert multiset(a) == multiset{a[0]} + multiset(a[1..]) by {
      assert a == [a[0]] + a[1..];
    }
    assert multiset(b) == multiset(b[..k] + b[k + 1..]) + multiset{a[0]} by {
      SplitAt(b, k);
      MultisetSplit(b[..k], b[k], b[k + 1..]);
    }
    MultisetCancel(multiset(a[1..]), multiset(b[..k] + b[k + 1..]), a[0]);
  }

  lemma MultisetCancel<T>(x: multiset<T>, y: multiset<T>, e: T)
    requires x + multiset{e} == y + multiset{e}
    ensures x == y
  {
    forall z ensures x[z] == y[z] {
      assert (x + multiset{e})[z] == (y + multiset{e})[z];
    }
  }

  /** Mapping a list equals mapping it with one position taken out, plus that position's image. */
  lemma MapRemove<A, B>(f: A -> B, s: seq<A>, k: nat)
    requires k < |s|
    ensures multiset(Map(f, s)) == multiset(Map(f, s[..k] + s[k + 1..])) + multiset{f(s[k])}
  {
    var p, q, y := s[..k], s[k + 1..], s[k];
    assert Map(f, s) == Map(f, p + [y]) + Map(f, q) by {
      SplitAt(s, k);
      MapConcat(f, p + [y], q);
    }
    assert Map(f, p + [y]) == Map(f, p) + [f(y)] by {
      MapConcat(f, p, [y]);
    }
    assert Map(f, p + q) == Map(f, p) + Map(f, q) by {
      MapConcat(f, p, q);
    }
    MultisetSplit(Map(f, p), f(y), Map(f, q));
  }

  lemma SplitAt<T>(s: seq<T>, k: nat)
    requires k < |s|
    ensures s == (s[..k] + [s[k]]) + s[k + 1..]
  {
  }

  lemma MultisetSplit<T>(x: seq<T>, y: T, z: seq<T>)
    ensures multiset(x + [y] + z) == multiset(x + z) + multiset{y}
  {
  }

  /**
   * `serializeBlocks(blocks).blocks` before `JSON.stringify`: the blocks
   * sorted by parent text then `order`, one tuple each. The tuples are the
   * input's tuples, rearranged.
   */
  function Serialize(blocks: seq<Block>): (r: seq<Tuple>)
    ensures |r| == |blocks|
    ensures multiset(r) == multiset(Map(Encode, blocks))
  {
    var sorted := Sort(ByParentThenOrder, blocks);
    MapPerm(Encode, sorted, blocks);
    Map(Encode, sorted)
  }

  /** `deserializeBlocks` after `JSON.parse`: one object per tuple, in the same order. */
  function Deserialize(tuples: seq<Tuple>): (r: seq<Decoded>)
    ensures |r| == |tuples|
    ensures forall k :: 0 <= k < |r| ==>
      && r[k].id == tuples[k].id && r[k].parentId == tuples[k].parentId
      && r[k].order == tuples[k].order && r[k].kind == tuples[k].kind
  {
    Map(Decode, tuples)
  }

  /**
   * Tuples come out sorted: blocks with the same parent by ascending
   * `order`, and groups of different parents by the text of the parent
   * (provided no parent is the string "null").
   */
  lemma SerializeSorted(blocks: seq<Block>)
    requires Consistent(ByParentThenOrder, blocks)
    ensures var r := Serialize(blocks);
      forall i, j :: 0 <= i < j < |r| ==>
        && (r[i].parentId == r[j].parentId ==> r[i].order <= r[j].order)
        && (r[i].parentId != r[j].parentId ==> StrCompare(ParentText(r[i].parentId), ParentText(r[j].parentId)) < 0)
  {
    var sorted := Sort(ByParentThenOrder, blocks);
    SortSorted(ByParentThenOrder, blocks);
    SortFits(ByParentThenOrder, blocks);
    forall i, j | 0 <= i < j < |sorted|
      ensures sorted[i].parentId != sorted[j].parentId
        ==> StrCompare(ParentText(sorted[i].parentId), ParentText(sorted[j].parentId)) != 0
    {
    }
  }

  /** Decoding the encoding gives back every block, without its `itemId`, in sorted order. */
  lemma RoundTrip(blocks: seq<Block>)
    ensures Deserialize(Serialize(blocks)) == Map(Strip, Sort(ByParentThenOrder, blocks))
    ensures multiset(Deserialize(Serialize(blocks))) == multiset(Map(Strip, blocks))
  {
    var sorted := Sort(ByParentThenOrder, blocks);
    assert Deserialize(Serialize(blocks)) == Map(Strip, sorted);
    MapPerm(Strip, sorted, blocks);
  }

  /** A list already in canonical order decodes to itself, field for field. */
  lemma RoundTripCanonical(blocks: seq<Block>)
    requires Sorted(ByParentThenOrder, blocks)
    ensures Deserialize(Serialize(blocks)) == Map(Strip, blocks)
  {
    SortKeepsSorted(ByParentThenOrder, blocks);
    RoundTrip(blocks);
  }

  /** Inserting blocks that agree on the kept fields gives lists that agree on them. */
  lemma {:induction false} InsertIgnoresDropped(o: Ordering, x: Block, s: seq<Block>, y: Block, t: seq<Block>)
    requires Strip(x) == Strip(y) && Map(Strip, s) == Map(Strip, t)
    ensures Map(Strip, Insert(o, x, s)) == Map(Strip, Insert(o, y, t))
  {
    if |s| > 0 {
      MapTail(Strip, s, t);
      assert Cmp(o, s[0], x) == Cmp(o, t[0], y) by {
        StripCmp(o, s[0], x, t[0], y);
      }
      if Cmp(o, s[0], x) <= 0 {
        InsertIgnoresDropped(o, x, s[1..], y, t[1..]);
        InsertPast(o, x, s);
        InsertPast(o, y, t);
        MapCons(Strip, s[0], Insert(o, x, s[1..]));
        MapCons(Strip, t[0], Insert(o, y, t[1..]));
      } else {
        InsertFront(o, x, s);
        InsertFront(o, y, t);
        MapCons(Strip, x, s);
        MapCons(Strip, y, t);
      }
    }
  }

  /** Lists that map alike have heads and tails that map alike. */
  lemma MapTail<A, B>(f: A -> B, s: seq<A>, t: seq<A>)
    requires |s| > 0 && Map(f, s) == Map(f, t)
    ensures f(s[0]) == f(t[0]) && Map(f, s[1..]) == Map(f, t[1..])
  {
    assert Map(f, s)[0] == Map(f, t)[0];
  }

  lemma MapCons<A, B>(f: A -> B, x: A, s: seq<A>)
    ensures Map(f, [x] + s) == [f(x)] + Map(f, s)
  {
    assert ([x] + s)[1..] == s;
  }

  /** The comparator reads only the kept fields. */
  lemma StripCmp(o: Ordering, a: Block, b: Block, c: Block, d: Block)
    requires Strip(a) == Strip(c) && Strip(b) == Strip(d)
    ensures Cmp(o, a, b) == Cmp(o, c, d)
  {
  }

  lemma {:induction false} SortIgnoresDropped(o: Ordering, s: seq<Block>, t: seq<Block>)
    requires Map(Strip, s) == Map(Strip, t)
    ensures Map(Strip, Sort(o, s)) == Map(Strip, Sort(o, t))
  {
    if |s| > 0 {
      var n := |s| - 1;
      assert Map(Strip, s[..n]) == Map(Strip, t[..n]);
      SortIgnoresDropped(o, s[..n], t[..n]);
      InsertIgnoresDropped(o, s[n], Sort(o, s[..n]), t[n], Sort(o, t[..n]));
    }
  }

  /**
   * `itemId` and every other field beyond the four are dropped: two lists
   * that agree on id, parent, order and type serialize identically.
   */
  lemma SerializeIgnoresDropped(a: seq<Block>, b: seq<Block>)
    requires Map(Strip, a) == Map(Strip, b)
    ensures Serialize(a) == Serialize(b)
  {
    var sa := Sort(ByParentThenOrder, a);
    var sb := Sort(ByParentThenOrder, b);
    SortIgnoresDropped(ByParentThenOrder, a, b);
    forall k | 0 <= k < |sa| ensures Encode(sa[k]) == Encode(sb[k]) {
      assert Strip(sa[k]) == Strip(sb[k]);
    }
  }
}
