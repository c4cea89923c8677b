/**
 * The block record shared by every component, and the array helpers the
 * TypeScript code uses on block lists (`find`, `findIndex`, `filter`).
 * All helpers scan the list from the front, as the JavaScript methods do.
 */
module BlockModel {
  import opened Wrappers

  /** The closed set of block kinds; only `Section` is a container. */
  datatype BlockType = Section | Topic | Objective | ActionItem

  /**
   * A flat block record. `parentId == None` is JavaScript `null` (a root);
   * `itemId` keys the block's content payload, which lives elsewhere.
   */
  datatype Block = Block(id: string, kind: BlockType, parentId: Option<string>, order: int, itemId: string)

  /** No two blocks of the list share an id. */
  predicate UniqueIds(s: seq<Block>) {
    forall i, j :: 0 <= i < j < |s| ==> s[i].id != s[j].id
  }

  /** The ids occurring in a list. */
  ghost function IdSet(s: seq<Block>): set<string> {
    set b | b in s :: b.id
  }

  /**
   * JavaScript truthiness of `parentId`: `null` and the empty string are
   * both falsy, so `Some("")` behaves like a root where the code tests
   * `item.parentId && ...`.
   */
  predicate HasParent(b: Block) {
    b.parentId.Some? && b.parentId.value != ""
  }

  /** `s.find(b => b.id === id)`: the first block with that id. */
  function Find(s: seq<Block>, id: string): (r: Option<Block>)
    ensures r.Some? ==> r.value.id == id
    ensures r.None? <==> (forall k :: 0 <= k < |s| ==> s[k].id != id)
  {
    if |s| == 0 then None
    else if s[0].id == id then Some(s[0])
    else Find(s[1..], id)
  }

  /** `s.findIndex(b => b.id === id)`: the first position holding that id, or -1. */
  function FindIndex(s: seq<Block>, id: string): (r: int)
    ensures -1 <= r < |s|
    ensures r >= 0 ==> s[r].id == id && (forall k :: 0 <= k < r ==> s[k].id != id)
    ensures r == -1 <==> (forall k :: 0 <= k < |s| ==> s[k].id != id)
  {
    if |s| == 0 then -1
    else if s[0].id == id then 0
    else
      var k := FindIndex(s[1..], id);
      if k == -1 then -1 else k + 1
  }

  /** `s.filter(b => b.id !== id)`. */
  function Without(s: seq<Block>, id: string): (r: seq<Block>)
    ensures |r| <= |s|
    ensures forall k :: 0 <= k < |r| ==> r[k].id != id
  {
    if |s| == 0 then []
    else if s[0].id == id then Without(s[1..], id)
    else [s[0]] + Without(s[1..], id)
  }

  /** `s.filter(b => b.parentId === p)`: the blocks whose parent is exactly `p`. */
  function ChildrenOf(s: seq<Block>, p: Option<string>): (r: seq<Block>)
    ensures |r| <= |s|
    ensures forall k :: 0 <= k < |r| ==> r[k].parentId == p
  {
    if |s| == 0 then []
    else if s[0].parentId == p then [s[0]] + ChildrenOf(s[1..], p)
    else ChildrenOf(s[1..], p)
  }

  /** `a` can be obtained from `b` by deleting elements: relative order is kept. */
  ghost predicate Subsequence<T>(a: seq<T>, b: seq<T>)
    decreases |b|
  {
    |a| == 0 || (|b| > 0 && if a[0] == b[0] then Subsequence(a[1..], b[1..]) else Subsequence(a, b[1..]))
  }

  /** `Without` keeps exactly the blocks with another id, in their original order. */
  lemma {:induction false} WithoutMembers(s: seq<Block>, id: string)
    ensures forall b :: b in Without(s, id) <==> b in s && b.id != id
    ensures Subsequence(Without(s, id), s)
  {
    if |s| > 0 {
      WithoutMembers(s[1..], id);
    }
  }

  /** `ChildrenOf` keeps exactly the blocks with parent `p`, in their original order. */
  lemma {:induction false} ChildrenOfMembers(s: seq<Block>, p: Option<string>)
    ensures forall b :: b in ChildrenOf(s, p) <==> b in s && b.parentId == p
    ensures Subsequence(ChildrenOf(s, p), s)
  {
    if |s| > 0 {
      ChildrenOfMembers(s[1..], p);
    }
  }

  lemma {:induction false} FindIndexAgreesWithFind(s: seq<Block>, id: string)
    ensures FindIndex(s, id) >= 0 ==> Find(s, id) == Some(s[FindIndex(s, id)])
    ensures FindIndex(s, id) == -1 <==> Find(s, id).None?
  {
    if |s| > 0 && s[0].id != id {
      FindIndexAgreesWithFind(s[1..], id);
    }
  }

  /** With unique ids, a block found anywhere is the block at the found position. */
  lemma UniqueFind(s: seq<Block>, k: nat)
    requires UniqueIds(s) && k < |s|
    ensures Find(s, s[k].id) == Some(s[k])
    ensures FindIndex(s, s[k].id) == k
  {
    var r := FindIndex(s, s[k].id);
    assert r >= 0;
    assert r == k by {
      assert s[r].id == s[k].id;
    }
    FindIndexAgreesWithFind(s, s[k].id);
  }

  lemma UniqueIdsWithout(s: seq<Block>, id: string)
    requires UniqueIds(s)
    ensures UniqueIds(Without(s, id))
  {
    if |s| > 0 {
      UniqueIdsTail(s);
      UniqueIdsWithout(s[1..], id);
      if s[0].id != id {
        var w := Without(s[1..], id);
        forall k | 0 <= k < |w| ensures w[k].id != s[0].id {
          WithoutMembers(s[1..], id);
          assert w[k] in s[1..];
        }
        UniqueCons(s[0], w);
      }
    }
  }

  lemma UniqueCons(h: Block, t: seq<Block>)
    requires UniqueIds(t)
    requires forall k :: 0 <= k < |t| ==> t[k].id != h.id
    ensures UniqueIds([h] + t)
  {
    forall i, j | 0 <= i < j < |[h] + t| ensures ([h] + t)[i].id != ([h] + t)[j].id {
      assert ([h] + t)[j] == t[j - 1];
      if i > 0 {
        assert ([h] + t)[i] == t[i - 1];
      }
    }
  }

  /** The children of one parent in a list with unique ids have unique ids. */
  lemma ChildrenOfUnique(s: seq<Block>, p: Option<string>)
    requires UniqueIds(s)
    ensures UniqueIds(ChildrenOf(s, p))
  {
    if |s| > 0 {
      UniqueIdsTail(s);
      ChildrenOfUnique(s[1..], p);
      ChildrenOfMembers(s[1..], p);
      assert forall b :: b in ChildrenOf(s[1..], p) ==> b in s[1..];
      assert forall b :: b in s[1..] ==> b.id != s[0].id;
    }
  }

  /** Removing an id that does not occur leaves the list as it was. */
  lemma {:induction false} WithoutAbsent(s: seq<Block>, id: string)
    requires forall k :: 0 <= k < |s| ==> s[k].id != id
    ensures Without(s, id) == s
  {
    if |s| > 0 {
      WithoutAbsent(s[1..], id);
    }
  }

  lemma WithoutConcat(a: seq<Block>, b: seq<Block>, id: string)
    ensures Without(a + b, id) == Without(a, id) + Without(b, id)
  {
    if |a| == 0 {
      assert a + b == b;
    } else {
      assert (a + b)[1..] == a[1..] + b;
      WithoutConcat(a[1..], b, id);
    }
  }

  lemma ChildrenOfConcat(a: seq<Block>, b: seq<Block>, p: Option<string>)
    ensures ChildrenOf(a + b, p) == ChildrenOf(a, p) + ChildrenOf(b, p)
  {
    if |a| == 0 {
      assert a + b == b;
    } else {
      assert (a + b)[1..] == a[1..] + b;
      ChildrenOfConcat(a[1..], b, p);
    }
  }

  /** Unique ids survive dropping the head, and the head's id is not repeated. */
  lemma UniqueIdsTail(s: seq<Block>)
    requires UniqueIds(s) && |s| > 0
    ensures UniqueIds(s[1..])
    ensures forall j :: 0 <= j < |s[1..]| ==> s[1..][j].id != s[0].id
  {
    forall i, j | 0 <= i < j < |s[1..]| ensures s[1..][i].id != s[1..][j].id {
      assert s[1..][i] == s[i + 1] && s[1..][j] == s[j + 1];
    }
    forall j | 0 <= j < |s[1..]| ensures s[1..][j].id != s[0].id {
      assert s[1..][j] == s[j + 1];
    }
  }

  /**
   * With unique ids, the list is the one block with `id` plus the rest:
   * the multiset view of `filter(b => b.id !== id)`.
   */
  lemma WithoutMultiset(s: seq<Block>, k: nat)
    requires UniqueIds(s) && k < |s|
    ensures multiset(s) == multiset(Without(s, s[k].id)) + multiset{s[k]}
  {
    assert s == [s[0]] + s[1..];
    UniqueIdsTail(s);
    if k == 0 {
      WithoutAbsent(s[1..], s[0].id);
    } else {
      assert s[1..][k - 1] == s[k];
      WithoutMultiset(s[1..], k - 1);
    }
  }

  /** With unique ids, two blocks of the list share an id only if they are the same block. */
  lemma SameIdSameBlock(s: seq<Block>, x: Block, y: Block)
    requires UniqueIds(s) && x in s && y in s
    ensures x.id == y.id <==> x == y
  {
    var i :| 0 <= i < |s| && s[i] == x;
    var j :| 0 <= j < |s| && s[j] == y;
    if x.id == y.id {
      assert i == j;
    }
  }

  /** No element occurs twice. */
  predicate Distinct<T(==)>(a: seq<T>) {
    forall i, j :: 0 <= i < j < |a| ==> a[i] != a[j]
  }

  /** A duplicate-free sequence drawn from `b` is no longer than `b`. */
  lemma {:induction false} DistinctLength<T>(a: seq<T>, b: seq<T>)
    requires Distinct(a) && forall i :: 0 <= i < |a| ==> a[i] in b
    ensures |a| <= |b|
    decreases |b|
  {
    if |a| > 0 {
      var x := a[0];
      var k :| 0 <= k < |b| && b[k] == x;
      var b' := b[..k] + b[k + 1..];
      var a' := a[1..];
      forall i | 0 <= i < |a'| ensures a'[i] in b' {
        assert a'[i] == a[i + 1] != a[0];
        assert a'[i] in b;
        var j :| 0 <= j < |b| && b[j] == a'[i];
        if j < k {
          assert b'[j] == b[j];
        } else {
          assert j != k;
          assert b'[j - 1] == b[j];
        }
      }
      assert Distinct(a') by {
        forall i, j | 0 <= i < j < |a'| ensures a'[i] != a'[j] {
          assert a'[i] == a[i + 1] && a'[j] == a[j + 1];
        }
      }
      DistinctLength(a', b');
    }
  }
}
