/**
 * The content store behind `useAgenda` (app/hooks/useAgenda.ts): a map
 * from block id to the block's content record. `remove` walks the block
 * list with an explicit stack to collect a block and everything below it,
 * then drops the collected keys from the store. The React Query cache
 * refresh (`sync`) after each change is left out.
 */
module AgendaStore {
  import opened Wrappers
  import opened BlockModel
  import Cascade

  /** `BlockContent` (app/types/agenda.ts); `progress` is a JavaScript number. */
  datatype Content =
    | SectionContent(id: string, title: string, summary: string)
    | TopicContent(id: string, title: string, description: string)
    | ObjectiveContent(id: string, title: string, progress: real)
    | ActionItemContent(id: string, title: string)

  type Store = map<string, Content>

  /** `create(item, blockId)`: stores the item under the block's id and returns the item's own id. */
  function Create(store: Store, item: Content, blockId: string): (r: (Store, string))
    ensures r.0.Keys == store.Keys + {blockId}
    ensures r.0[blockId] == item
    ensures forall k :: k in store && k != blockId ==> r.0[k] == store[k]
    ensures r.1 == item.id
  {
    (store[blockId := item], item.id)
  }

  /** `get(blockId)`: the stored record, or `undefined`. */
  function Get(store: Store, blockId: string): (r: Option<Content>)
    ensures r.Some? <==> blockId in store
    ensures r.Some? ==> r.value == store[blockId]
  {
    if blockId in store then Some(store[blockId]) else None
  }

  /** `getAll()`: a copy holding the same entries. */
  function GetAll(store: Store): (r: Store)
    ensures forall k :: Get(r, k) == Get(store, k)
  {
    store
  }

  /** `removeAll()`: the store is cleared. */
  function RemoveAll(store: Store): (r: Store)
    ensures forall k :: Get(r, k).None?
  {
    map[]
  }

  /** What `create` stores, `get` returns; other keys read as before. */
  lemma CreateThenGet(store: Store, item: Content, blockId: string, other: string)
    ensures Get(Create(store, item, blockId).0, blockId) == Some(item)
    ensures other != blockId ==> Get(Create(store, item, blockId).0, other) == Get(store, other)
  {
  }

  /**
   * Ranks that fall along every parent link leaving a ranked block: the
   * parent links reachable from a ranked id are acyclic. Without this the
   * stack walk of `remove` runs forever on a cycle.
   */
  ghost predicate Ranked(blocks: seq<Block>, rank: map<string, nat>) {
    forall k :: 0 <= k < |blocks| && blocks[k].parentId.Some? && blocks[k].parentId.value in rank ==>
      blocks[k].id in rank && rank[blocks[k].id] < rank[blocks[k].parentId.value]
  }

  /** How many times the walk pops a given id: once, plus once per pop below each child link. */
  ghost function Weight(blocks: seq<Block>, rank: map<string, nat>, x: string): nat
    requires Ranked(blocks, rank) && x in rank
    decreases rank[x], 1
  {
    1 + ChildWeight(blocks, rank, x, 0)
  }

  ghost function ChildWeight(blocks: seq<Block>, rank: map<string, nat>, x: string, i: nat): nat
    requires Ranked(blocks, rank) && x in rank && i <= |blocks|
    decreases rank[x], 0, |blocks| - i
  {
    if i == |blocks| then 0
    else
      var own := if blocks[i].parentId == Some(x) then Weight(blocks, rank, blocks[i].id) else 0;
      own + ChildWeight(blocks, rank, x, i + 1)
  }

  /** The pops still to come for everything on the stack. */
  ghost function StackWeight(blocks: seq<Block>, rank: map<string, nat>, stack: seq<string>): nat
    requires Ranked(blocks, rank) && forall k :: 0 <= k < |stack| ==> stack[k] in rank
  {
    if |stack| == 0 then 0
    else StackWeight(blocks, rank, stack[..|stack| - 1]) + Weight(blocks, rank, stack[|stack| - 1])
  }

  /** Every block whose parent is `x` (by `===`) is already collected or waiting on the stack. */
  ghost predicate ChildrenPending(blocks: seq<Block>, x: string, toDelete: set<string>, stack: seq<string>) {
    forall k :: 0 <= k < |blocks| && blocks[k].parentId == Some(x) ==> blocks[k].id in toDelete || blocks[k].id in stack
  }

  /** The collected set is closed: every block whose parent is collected is collected. */
  ghost predicate ClosedUnder(blocks: seq<Block>, s: set<string>) {
    forall k :: 0 <= k < |blocks| && blocks[k].parentId.Some? && blocks[k].parentId.value in s ==> blocks[k].id in s
  }

  /** The truthiness test of the reducers' cascade and `===` agree when no parent is the empty string. */
  predicate NoEmptyParents(blocks: seq<Block>) {
    forall k :: 0 <= k < |blocks| ==> blocks[k].parentId != Some("")
  }

  /** `x` is `id`, or a chain of at most `n` parent links, each followed by `===`, leads from `x` to `id`. */
  ghost predicate LinkedWithin(blocks: seq<Block>, x: string, id: string, n: nat)
    decreases n
  {
    x == id
    || (n > 0 && exists k :: 0 <= k < |blocks| && blocks[k].id == x && blocks[k].parentId.Some?
                             && LinkedWithin(blocks, blocks[k].parentId.value, id, n - 1))
  }

  /** `x` is `id` or lies below it along `===` parent links: what the walk of `remove` reaches. */
  ghost predicate Below(blocks: seq<Block>, x: string, id: string) {
    exists n: nat :: LinkedWithin(blocks, x, id, n)
  }

  lemma BelowStep(blocks: seq<Block>, k: nat, id: string)
    requires k < |blocks| && blocks[k].parentId.Some? && Below(blocks, blocks[k].parentId.value, id)
    ensures Below(blocks, blocks[k].id, id)
  {
    var n: nat :| LinkedWithin(blocks, blocks[k].parentId.value, id, n);
    assert LinkedWithin(blocks, blocks[k].id, id, n + 1);
  }

  /** A set that holds `id` and is closed under parent links holds everything below `id`. */
  lemma {:induction false} BelowInClosed(blocks: seq<Block>, x: string, id: string, n: nat, s: set<string>)
    requires id in s && ClosedUnder(blocks, s) && LinkedWithin(blocks, x, id, n)
    ensures x in s
    decreases n
  {
    if x != id {
      var k :| 0 <= k < |blocks| && blocks[k].id == x && blocks[k].parentId.Some?
               && LinkedWithin(blocks, blocks[k].parentId.value, id, n - 1);
      BelowInClosed(blocks, blocks[k].parentId.value, id, n - 1, s);
    }
  }

  /** Without empty parent ids, `===` links and the cascade's truthy links are the same links. */
  lemma {:induction false} LinkedIsReaches(blocks: seq<Block>, x: string, id: string, n: nat)
    requires NoEmptyParents(blocks)
    ensures LinkedWithin(blocks, x, id, n) <==> Cascade.ReachesWithin(blocks, x, id, n)
    decreases n
  {
    if n > 0 {
      var m: nat := n - 1;
      forall y | true
        ensures LinkedWithin(blocks, y, id, m) <==> Cascade.ReachesWithin(blocks, y, id, m)
      {
        LinkedIsReaches(blocks, y, id, m);
      }
      forall k | 0 <= k < |blocks|
        ensures blocks[k].parentId.Some? <==> HasParent(blocks[k])
      {
      }
    }
  }

  /** Without empty parent ids, what the walk reaches is the reducers' set of descendants. */
  lemma BelowIsDescendant(blocks: seq<Block>, x: string, id: string)
    requires NoEmptyParents(blocks)
    ensures Below(blocks, x, id) <==> Cascade.Descendant(blocks, x, id)
  {
    if Below(blocks, x, id) {
      var n: nat :| LinkedWithin(blocks, x, id, n);
      LinkedIsReaches(blocks, x, id, n);
    }
    if Cascade.Descendant(blocks, x, id) {
      var n: nat :| Cascade.ReachesWithin(blocks, x, id, n);
      LinkedIsReaches(blocks, x, id, n);
    }
  }

  lemma PopPending(blocks: seq<Block>, toDelete: set<string>, stack: seq<string>)
    requires |stack| > 0
    requires forall x :: x in toDelete ==> ChildrenPending(blocks, x, toDelete, stack)
    ensures var cur := stack[|stack| - 1];
      forall x :: x in toDelete ==> ChildrenPending(blocks, x, toDelete + {cur}, stack[..|stack| - 1])
  {
    assert stack == stack[..|stack| - 1] + [stack[|stack| - 1]];
  }

  /**
   * The stack walk of `remove`: pop an id, collect it, push the id of every
   * block whose parent is that id. The collected set is exactly `blockId`
   * and what lies below it along `===` links. It contains the reducers'
   * cascade, and when no parent is the empty string it is that cascade.
   */
  method CollectDescendants(blocks: seq<Block>, blockId: string, ghost rank: map<string, nat>) returns (toDelete: set<string>)
    requires Ranked(blocks, rank) && blockId in rank
    ensures blockId in toDelete
    ensures ClosedUnder(blocks, toDelete)
    ensures forall x :: x in toDelete <==> Below(blocks, x, blockId)
    ensures Cascade.DeleteSet(blocks, blockId) <= toDelete
    ensures NoEmptyParents(blocks) ==> toDelete == Cascade.DeleteSet(blocks, blockId)
  {
    toDelete := {};
    var stack := [blockId];
    assert LinkedWithin(blocks, blockId, blockId, 0);
    while |stack| > 0
      invariant forall k :: 0 <= k < |stack| ==> stack[k] in rank
      invariant blockId in toDelete || blockId in stack
      invariant forall x :: x in toDelete ==> ChildrenPending(blocks, x, toDelete, stack)
      invariant forall x :: x in toDelete || x in stack ==> Below(blocks, x, blockId)
      decreases StackWeight(blocks, rank, stack)
    {
      ghost var before := StackWeight(blocks, rank, stack);
      var cur := stack[|stack| - 1];
      PopPending(blocks, toDelete, stack);
      stack := stack[..|stack| - 1];
      toDelete := toDelete + {cur};
      assert StackWeight(blocks, rank, stack) + ChildWeight(blocks, rank, cur, 0) + 1 == before;
      stack := PushChildren(blocks, cur, stack, rank, blockId);
    }
    assert ClosedUnder(blocks, toDelete);
    WalkResult(blocks, blockId, toDelete);
  }

  /** A closed set holding `blockId` and nothing that is not below it: the walk's final set. */
  lemma WalkResult(blocks: seq<Block>, blockId: string, toDelete: set<string>)
    requires blockId in toDelete && ClosedUnder(blocks, toDelete)
    requires forall x :: x in toDelete ==> Below(blocks, x, blockId)
    ensures forall x :: x in toDelete <==> Below(blocks, x, blockId)
    ensures Cascade.DeleteSet(blocks, blockId) <= toDelete
    ensures NoEmptyParents(blocks) ==> toDelete == Cascade.DeleteSet(blocks, blockId)
  {
    assert Cascade.Closed(blocks, toDelete);
    Cascade.ClosureLeast(blocks, {blockId}, toDelete);
    forall x | Below(blocks, x, blockId) ensures x in toDelete {
      var n: nat :| LinkedWithin(blocks, x, blockId, n);
      BelowInClosed(blocks, x, blockId, n, toDelete);
    }
    if NoEmptyParents(blocks) {
      Cascade.DeleteSetIsDescendants(blocks, blockId);
      forall x ensures Below(blocks, x, blockId) <==> Cascade.Descendant(blocks, x, blockId) {
        BelowIsDescendant(blocks, x, blockId);
      }
    }
  }

  /** The inner loop of `remove`: pushes the id of every block whose parent is `cur`, in list order. */
  method PushChildren(blocks: seq<Block>, cur: string, stack: seq<string>, ghost rank: map<string, nat>, ghost blockId: string)
    returns (out: seq<string>)
    requires Ranked(blocks, rank) && cur in rank
    requires forall k :: 0 <= k < |stack| ==> stack[k] in rank
    requires forall x :: x == cur || x in stack ==> Below(blocks, x, blockId)
    ensures forall k :: 0 <= k < |out| ==> out[k] in rank
    ensures forall x :: x in stack ==> x in out
    ensures forall k :: 0 <= k < |blocks| && blocks[k].parentId == Some(cur) ==> blocks[k].id in out
    ensures forall x :: x in out ==> Below(blocks, x, blockId)
    ensures StackWeight(blocks, rank, out) == StackWeight(blocks, rank, stack) + ChildWeight(blocks, rank, cur, 0)
    ensures out == stack + IdList(ChildrenOf(blocks, Some(cur)))
  {
    out := stack;
    var i := 0;
    while i < |blocks|
      invariant 0 <= i <= |blocks|
      invariant out == stack + Pushed(blocks, i, Some(cur))
      invariant forall k :: 0 <= k < |out| ==> out[k] in rank
      invariant StackWeight(blocks, rank, out) + ChildWeight(blocks, rank, cur, i)
        == StackWeight(blocks, rank, stack) + ChildWeight(blocks, rank, cur, 0)
    {
      PushedStep(stack, out, blocks, i, Some(cur));
      ghost var prev := out;
      if blocks[i].parentId == Some(cur) {
        out := out + [blocks[i].id];
      }
      WeightStep(blocks, rank, cur, prev, out, i);
      i := i + 1;
    }
    assert blocks[..i] == blocks;
    assert Pushed(blocks, i, Some(cur)) == IdList(ChildrenOf(blocks, Some(cur)));
    ChildIdsPushed(blocks, cur);
    PushedBelow(blocks, cur, blockId);
  }

  /** The id of every child of `cur` is among the ids pushed for it. */
  lemma ChildIdsPushed(blocks: seq<Block>, cur: string)
    ensures forall k :: 0 <= k < |blocks| && blocks[k].parentId == Some(cur) ==> blocks[k].id in IdList(ChildrenOf(blocks, Some(cur)))
  {
    var c := ChildrenOf(blocks, Some(cur));
    ChildrenOfMembers(blocks, Some(cur));
    forall k | 0 <= k < |blocks| && blocks[k].parentId == Some(cur)
      ensures blocks[k].id in IdList(c)
    {
      assert blocks[k] in c;
      var j :| 0 <= j < |c| && c[j] == blocks[k];
      assert IdList(c)[j] == blocks[k].id;
    }
  }

  /** Every id pushed for `cur` lies below `blockId` when `cur` does. */
  lemma PushedBelow(blocks: seq<Block>, cur: string, blockId: string)
    requires Below(blocks, cur, blockId)
    ensures forall x :: x in IdList(ChildrenOf(blocks, Some(cur))) ==> Below(blocks, x, blockId)
  {
    var c := ChildrenOf(blocks, Some(cur));
    ChildrenOfMembers(blocks, Some(cur));
    forall x | x in IdList(c)
      ensures Below(blocks, x, blockId)
    {
      var j :| 0 <= j < |c| && IdList(c)[j] == x;
      assert c[j] in blocks;
      var k :| 0 <= k < |blocks| && blocks[k] == c[j];
      BelowStep(blocks, k, blockId);
    }
  }

  /** Scanning block `i` moves its weight, if it is a child of `cur`, from the children still to scan onto the stack. */
  lemma WeightStep(blocks: seq<Block>, rank: map<string, nat>, cur: string, out: seq<string>, next: seq<string>, i: nat)
    requires Ranked(blocks, rank) && cur in rank && i < |blocks|
    requires forall k :: 0 <= k < |out| ==> out[k] in rank
    requires next == if blocks[i].parentId == Some(cur) then out + [blocks[i].id] else out
    ensures forall k :: 0 <= k < |next| ==> next[k] in rank
    ensures StackWeight(blocks, rank, next) + ChildWeight(blocks, rank, cur, i + 1)
      == StackWeight(blocks, rank, out) + ChildWeight(blocks, rank, cur, i)
  {
    if blocks[i].parentId == Some(cur) {
      assert next[..|out|] == out;
    }
  }

  /** The ids of a list of blocks, in order. */
  function IdList(s: seq<Block>): (r: seq<string>)
    ensures |r| == |s| && forall k :: 0 <= k < |s| ==> r[k] == s[k].id
  {
    if |s| == 0 then [] else IdList(s[..|s| - 1]) + [s[|s| - 1].id]
  }

  /** The ids pushed once the first `i` blocks have been scanned. */
  function Pushed(blocks: seq<Block>, i: nat, p: Option<string>): seq<string>
    requires i <= |blocks|
  {
    IdList(ChildrenOf(blocks[..i], p))
  }

  /** One more block of the list adds it to its parent's children, last. */
  lemma PushedStep(stack: seq<string>, out: seq<string>, blocks: seq<Block>, i: nat, p: Option<string>)
    requires i < |blocks| && out == stack + Pushed(blocks, i, p)
    ensures blocks[i].parentId == p ==> out + [blocks[i].id] == stack + Pushed(blocks, i + 1, p)
    ensures blocks[i].parentId != p ==> out == stack + Pushed(blocks, i + 1, p)
  {
    var a := ChildrenOf(blocks[..i], p);
    assert blocks[..i + 1] == blocks[..i] + [blocks[i]];
    ChildrenOfConcat(blocks[..i], [blocks[i]], p);
    assert [blocks[i]][1..] == [];
    if blocks[i].parentId == p {
      assert (a + [blocks[i]])[..|a|] == a;
    } else {
      assert a + [] == a;
    }
  }

  /**
   * A block that is its own parent, as an `into-` drop of a block onto
   * itself produces (`Reparent.IntoSelfMakesOwnParent`), admits no ranking:
   * every pop of its id pushes that id again, so `remove` of it never ends.
   */
  lemma SelfParentUnranked(blocks: seq<Block>, k: nat, rank: map<string, nat>)
    requires k < |blocks| && blocks[k].parentId == Some(blocks[k].id)
    ensures blocks[k].id in IdList(ChildrenOf(blocks, Some(blocks[k].id)))
    ensures !(Ranked(blocks, rank) && blocks[k].id in rank)
  {
    ChildrenOfMembers(blocks, Some(blocks[k].id));
    var c := ChildrenOf(blocks, Some(blocks[k].id));
    var j :| 0 <= j < |c| && c[j] == blocks[k];
    assert IdList(c)[j] == blocks[k].id;
  }

  /**
   * `remove(blockId)`: the block and everything below it along `===` links
   * lose their entries; every other entry stays as it was.
   */
  method Remove(store: Store, blocks: seq<Block>, blockId: string, ghost rank: map<string, nat>) returns (r: Store)
    requires Ranked(blocks, rank) && blockId in rank
    ensures blockId !in r
    ensures forall k :: k in r ==> k in store && r[k] == store[k]
    ensures forall k :: k in r ==> k !in Cascade.DeleteSet(blocks, blockId)
    ensures forall k :: k in r <==> k in store && !Below(blocks, k, blockId)
    ensures NoEmptyParents(blocks) ==>
      forall k :: k in r <==> k in store && !Cascade.Descendant(blocks, k, blockId)
  {
    var toDelete := CollectDescendants(blocks, blockId, rank);
    r := map k | k in store && k !in toDelete :: store[k];
    if NoEmptyParents(blocks) {
      Cascade.DeleteSetIsDescendants(blocks, blockId);
      forall k ensures Below(blocks, k, blockId) <==> Cascade.Descendant(blocks, k, blockId) {
        BelowIsDescendant(blocks, k, blockId);
      }
    }
  }
}
