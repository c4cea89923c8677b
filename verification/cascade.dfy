/**
 * The cascading delete shared by `blockReducer` and `agendaReducer`
 * (DELETE_ITEM): starting from `{id}`, passes over the list add every block
 * whose truthy `parentId` is already in the set, until a pass adds nothing;
 * then every block whose id is in the set is filtered out.
 */
module Cascade {
  import opened Wrappers
  import opened BlockModel

  /**
   * One pass of `for (const item of state)`: in list order, adds the id of
   * each item whose parent is truthy and already in the set. Additions made
   * earlier in the pass are seen by later items.
   */
  function Pass(state: seq<Block>, s: set<string>): (r: set<string>)
    ensures s <= r
    ensures forall x :: x in r && x !in s ==> exists k :: 0 <= k < |state| && state[k].id == x
    decreases |state|
  {
    if |state| == 0 then s
    else
      var s' := if HasParent(state[0]) && state[0].parentId.value in s then s + {state[0].id} else s;
      var r := Pass(state[1..], s');
      assert forall x :: x in r && x !in s' ==> exists k :: 0 <= k < |state| && state[k].id == x by {
        forall x | x in r && x !in s' ensures exists k :: 0 <= k < |state| && state[k].id == x {
          var k :| 0 <= k < |state[1..]| && state[1..][k].id == x;
          assert state[k + 1].id == x;
        }
      }
      r
  }

  /** No block of the list has a (truthy) parent in `s` without being in `s` itself. */
  ghost predicate Closed(state: seq<Block>, s: set<string>) {
    forall k :: 0 <= k < |state| && HasParent(state[k]) && state[k].parentId.value in s ==> state[k].id in s
  }

  /** The ids that may ever enter the set: the start set plus the list's ids. */
  ghost function Universe(state: seq<Block>, s: set<string>): set<string> {
    s + set k | 0 <= k < |state| :: state[k].id
  }

  /**
   * The `do { ... } while (toDelete.size !== oldSize)` loop. It terminates
   * because the set only grows and stays inside the start set plus the
   * list's ids; it stops at a set closed under "child of a member".
   */
  function Closure(state: seq<Block>, s: set<string>): (r: set<string>)
    ensures s <= r <= Universe(state, s)
    ensures Closed(state, r)
    decreases |Universe(state, s) - s|
  {
    var next := Pass(state, s);
    if |next| == |s| then
      SameSizeSuperset(s, next);
      PassFixpointClosed(state, s);
      s
    else
      PassShrinksMeasure(state, s);
      Closure(state, next)
  }

  lemma SameSizeSuperset(s: set<string>, t: set<string>)
    requires s <= t && |t| == |s|
    ensures t == s
  {
    if t != s {
      var x :| x in t && x !in s;
      assert |s + {x}| == |s| + 1;
      assert s + {x} <= t;
      SubsetSize(s + {x}, t);
    }
  }

  lemma SubsetSize(a: set<string>, b: set<string>)
    requires a <= b
    ensures |a| <= |b|
  {
    assert b == a + (b - a);
    assert a * (b - a) == {};
  }

  /** A pass that grows the set brings the termination measure down. */
  lemma PassShrinksMeasure(state: seq<Block>, s: set<string>)
    requires |Pass(state, s)| != |s|
    ensures Universe(state, Pass(state, s)) == Universe(state, s)
    ensures |Universe(state, Pass(state, s)) - Pass(state, s)| < |Universe(state, s) - s|
  {
    var next := Pass(state, s);
    PassInUniverse(state, s);
    UniverseGrows(state, s, next);
    GrowthShrinksRest(Universe(state, s), s, next);
  }

  lemma PassInUniverse(state: seq<Block>, s: set<string>)
    ensures Pass(state, s) <= Universe(state, s)
  {
    forall x | x in Pass(state, s) && x !in s ensures x in Universe(state, s) {
      var k :| 0 <= k < |state| && state[k].id == x;
    }
  }

  lemma UniverseGrows(state: seq<Block>, s: set<string>, t: set<string>)
    requires s <= t <= Universe(state, s)
    ensures Universe(state, t) == Universe(state, s)
  {
  }

  lemma GrowthShrinksRest(u: set<string>, s: set<string>, t: set<string>)
    requires s <= t <= u && |t| != |s|
    ensures |u - t| < |u - s|
  {
    assert |t - s| > 0 by {
      assert t == s + (t - s);
      assert s * (t - s) == {};
    }
    var x :| x in t - s;
    assert u - t + {x} <= u - s;
    assert |u - t + {x}| == |u - t| + 1;
    SubsetSize(u - t + {x}, u - s);
  }

  /** A set a pass does not grow is closed. */
  lemma {:induction false} PassFixpointClosed(state: seq<Block>, s: set<string>)
    requires Pass(state, s) == s
    ensures Closed(state, s)
  {
    if |state| > 0 {
      var s' := if HasParent(state[0]) && state[0].parentId.value in s then s + {state[0].id} else s;
      assert s' <= Pass(state[1..], s') == s;
      assert s' == s;
      PassFixpointClosed(state[1..], s);
      forall k | 0 < k < |state| ensures state[k] == state[1..][k - 1] { }
    }
  }

  /** A pass never leaves a closed superset of where it starts. */
  lemma {:induction false} PassBelowClosed(state: seq<Block>, whole: seq<Block>, s: set<string>, bound: set<string>)
    requires s <= bound && Closed(whole, bound)
    requires forall k :: 0 <= k < |state| ==> state[k] in whole
    ensures Pass(state, s) <= bound
    decreases |state|
  {
    if |state| > 0 {
      var s' := if HasParent(state[0]) && state[0].parentId.value in s then s + {state[0].id} else s;
      assert state[0] in whole;
      forall k | 0 <= k < |state[1..]| ensures state[1..][k] in whole {
        assert state[1..][k] == state[k + 1];
      }
      PassBelowClosed(state[1..], whole, s', bound);
    }
  }

  /** The closure is the least closed superset of the start set. */
  lemma {:induction false} ClosureLeast(state: seq<Block>, s: set<string>, bound: set<string>)
    requires s <= bound && Closed(state, bound)
    ensures Closure(state, s) <= bound
    decreases |Universe(state, s) - s|
  {
    var next := Pass(state, s);
    PassBelowClosed(state, state, s, bound);
    if |next| != |s| {
      PassShrinksMeasure(state, s);
      ClosureLeast(state, next, bound);
    }
  }

  /** The ids DELETE_ITEM removes: `id` and every block hanging below it. */
  function DeleteSet(state: seq<Block>, id: string): (r: set<string>)
    ensures id in r && Closed(state, r)
    ensures r <= Universe(state, {id})
  {
    Closure(state, {id})
  }

  /** `state.filter(item => !ids.has(item.id))`. */
  function Survivors(state: seq<Block>, ids: set<string>): (r: seq<Block>)
    ensures |r| <= |state|
    ensures forall k :: 0 <= k < |r| ==> r[k].id !in ids
  {
    if |state| == 0 then []
    else if state[0].id in ids then Survivors(state[1..], ids)
    else [state[0]] + Survivors(state[1..], ids)
  }

  lemma {:induction false} SurvivorsMembers(state: seq<Block>, ids: set<string>)
    ensures forall b :: b in Survivors(state, ids) <==> b in state && b.id !in ids
    ensures Subsequence(Survivors(state, ids), state)
  {
    if |state| > 0 {
      SurvivorsMembers(state[1..], ids);
    }
  }

  lemma {:induction false} SurvivorsNone(state: seq<Block>, ids: set<string>)
    requires forall k :: 0 <= k < |state| ==> state[k].id !in ids
    ensures Survivors(state, ids) == state
  {
    if |state| > 0 {
      SurvivorsNone(state[1..], ids);
    }
  }

  /** The whole DELETE_ITEM case. */
  function DeleteCascade(state: seq<Block>, id: string): (r: seq<Block>)
    ensures forall k :: 0 <= k < |r| ==> r[k].id != id
    ensures forall b :: b in r <==> b in state && b.id !in DeleteSet(state, id)
    ensures Subsequence(r, state)
  {
    SurvivorsMembers(state, DeleteSet(state, id));
    Survivors(state, DeleteSet(state, id))
  }

  /** `x` is `id`, or a chain of at most `n` truthy parent links leads from `x` to `id`. */
  ghost predicate ReachesWithin(state: seq<Block>, x: string, id: string, n: nat)
    decreases n
  {
    x == id
    || (n > 0 && exists k :: 0 <= k < |state| && state[k].id == x && HasParent(state[k])
                             && ReachesWithin(state, state[k].parentId.value, id, n - 1))
  }

  /** `x` is `id` or one of its transitive descendants. */
  ghost predicate Descendant(state: seq<Block>, x: string, id: string) {
    exists n: nat :: ReachesWithin(state, x, id, n)
  }

  /** DELETE_ITEM removes exactly the target and its transitive descendants. */
  lemma DeleteSetIsDescendants(state: seq<Block>, id: string)
    ensures forall x :: x in DeleteSet(state, id) <==> Descendant(state, x, id)
  {
    var c := DeleteSet(state, id);
    forall x, n: nat | ReachesWithin(state, x, id, n) ensures x in c {
      DescendantInClosed(state, x, id, n, c);
    }
    var reach := set x | x in Universe(state, {id}) && Descendant(state, x, id);
    assert ReachesWithin(state, id, id, 0);
    forall k | 0 <= k < |state| && HasParent(state[k]) && state[k].parentId.value in reach
      ensures state[k].id in reach
    {
      var n: nat :| ReachesWithin(state, state[k].parentId.value, id, n);
      assert ReachesWithin(state, state[k].id, id, n + 1);
    }
    ClosureLeast(state, {id}, reach);
  }

  lemma {:induction false} DescendantInClosed(state: seq<Block>, x: string, id: string, n: nat, c: set<string>)
    requires id in c && Closed(state, c) && ReachesWithin(state, x, id, n)
    ensures x in c
    decreases n
  {
    if x != id {
      var k :| 0 <= k < |state| && state[k].id == x && HasParent(state[k])
               && ReachesWithin(state, state[k].parentId.value, id, n - 1);
      DescendantInClosed(state, state[k].parentId.value, id, n - 1, c);
    }
  }

  /**
   * Deleting an id that is neither a block's id nor any block's parent
   * returns the list unchanged.
   */
  lemma DeleteUnknownIsNoop(state: seq<Block>, id: string)
    requires forall k :: 0 <= k < |state| ==> state[k].id != id && state[k].parentId != Some(id)
    ensures DeleteCascade(state, id) == state
  {
    assert Closed(state, {id});
    ClosureLeast(state, {id}, {id});
    SurvivorsNone(state, DeleteSet(state, id));
  }

  /** Deleting the same id twice is the same as deleting it once. */
  lemma DeleteIdempotent(state: seq<Block>, id: string)
    ensures DeleteCascade(DeleteCascade(state, id), id) == DeleteCascade(state, id)
  {
    var once := DeleteCascade(state, id);
    var c := DeleteSet(state, id);
    assert Closed(once, c) by {
      forall k | 0 <= k < |once| ensures !(HasParent(once[k]) && once[k].parentId.value in c) {
        assert once[k] in once;
        var j :| 0 <= j < |state| && state[j] == once[k];
      }
    }
    ClosureLeast(once, {id}, c);
    SurvivorsNone(once, DeleteSet(once, id));
  }
}
