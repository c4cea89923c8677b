/**
 * `blockReducer` of app/reducers/blockReducer.ts: the list-of-blocks
 * reducer. ADD_ITEM appends, DELETE_ITEM removes a block with everything
 * below it, SET_ALL replaces the list, MOVE_ITEM delegates to
 * `reparentBlock`; every other action returns the state.
 */
module BlockReducer {
  import opened Wrappers
  import opened BlockModel
  import Cascade
  import Reparent

  /**
   * The actions of `BlockAction` (app/types/block.ts). `ApplyDiff` carries
   * a serialized diff whose shape the reducer never reads; `Unrecognised`
   * is any action object whose `type` is none of the declared ones.
   */
  datatype Action =
    | AddItem(item: Block)
    | DeleteItem(id: string)
    | SetAll(items: seq<Block>)
    | MoveItem(activeId: string, hoverZone: string)
    | ApplyDiff(diff: string)
    | InsertItem(item: Block, parentId: Option<string>, index: int)
    | Unrecognised(tag: string)

  /** The actions that have a case of their own in the switch. */
  predicate Handled(action: Action) {
    action.AddItem? || action.DeleteItem? || action.SetAll? || action.MoveItem?
  }

  /** `blockReducer(state, action)`. */
  function Reduce(state: seq<Block>, action: Action): (r: seq<Block>)
    ensures action.AddItem? ==> |r| == |state| + 1 && r[..|state|] == state && r[|state|] == action.item
    ensures action.DeleteItem? ==>
      && (forall b :: b in r <==> b in state && b.id !in Cascade.DeleteSet(state, action.id))
      && Subsequence(r, state)
    ensures action.SetAll? ==> r == action.items
    ensures action.MoveItem? ==> r == Reparent.ReparentBlock(state, action.activeId, action.hoverZone)
    ensures !Handled(action) ==> r == state
  {
    match action
    case AddItem(item) => state + [item]
    case DeleteItem(id) => Cascade.DeleteCascade(state, id)
    case SetAll(items) => items
    case MoveItem(activeId, hoverZone) => Reparent.ReparentBlock(state, activeId, hoverZone)
    case _ => state
  }

  /** The three lookup maps MOVE_ITEM derives from the state. */
  datatype LookupMaps = LookupMaps(
    blockMap: map<string, Block>,
    childrenMap: map<Option<string>, seq<Block>>,
    indexMap: map<string, int>)

  /**
   * The indexing loop of MOVE_ITEM. Later duplicates overwrite earlier ones
   * in `blockMap` and `indexMap`; `childrenMap` keys are exactly the parents
   * that occur, each holding its children in array order.
   */
  method BuildLookupMaps(state: seq<Block>) returns (m: LookupMaps)
    ensures forall k :: 0 <= k < |state| ==> state[k].id in m.indexMap && state[k].parentId in m.childrenMap
    ensures m.blockMap.Keys == m.indexMap.Keys
    ensures forall id :: id in m.indexMap ==>
      && 0 <= m.indexMap[id] < |state|
      && state[m.indexMap[id]].id == id
      && m.blockMap[id] == state[m.indexMap[id]]
      && (forall j :: m.indexMap[id] < j < |state| ==> state[j].id != id)
    ensures forall p :: p in m.childrenMap ==> m.childrenMap[p] == ChildrenOf(state, p) && |m.childrenMap[p]| > 0
    ensures UniqueIds(state) ==> forall k :: 0 <= k < |state| ==> m.indexMap[state[k].id] == k && m.blockMap[state[k].id] == state[k]
  {
    m := LookupMaps(map[], map[], map[]);
    var i := 0;
    while i < |state|
      invariant 0 <= i <= |state|
      invariant IndexedUpTo(state, i, m.blockMap, m.indexMap)
      invariant GroupedUpTo(state, i, m.childrenMap)
    {
      m := Record(state, i, m);
      i := i + 1;
    }
    LookupMapsDone(state, m);
  }

  /**
   * One turn of the loop: `blockMap.set(block.id, block)`, the block pushed
   * onto its parent's list in `childrenMap`, `indexMap.set(block.id, i)`.
   */
  function Record(state: seq<Block>, i: nat, m: LookupMaps): (r: LookupMaps)
    requires i < |state| && IndexedUpTo(state, i, m.blockMap, m.indexMap) && GroupedUpTo(state, i, m.childrenMap)
    ensures IndexedUpTo(state, i + 1, r.blockMap, r.indexMap) && GroupedUpTo(state, i + 1, r.childrenMap)
  {
    var block := state[i];
    var key := block.parentId;
    var list := if key in m.childrenMap then m.childrenMap[key] else [];
    IndexStep(state, i, m.blockMap, m.indexMap);
    GroupStep(state, i, m.childrenMap);
    LookupMaps(m.blockMap[block.id := block], m.childrenMap[key := list + [block]], m.indexMap[block.id := i])
  }

  /** What the invariants give once the whole list is scanned. */
  lemma LookupMapsDone(state: seq<Block>, m: LookupMaps)
    requires IndexedUpTo(state, |state|, m.blockMap, m.indexMap)
    requires GroupedUpTo(state, |state|, m.childrenMap)
    ensures forall k :: 0 <= k < |state| ==> state[k].id in m.indexMap && state[k].parentId in m.childrenMap
    ensures m.blockMap.Keys == m.indexMap.Keys
    ensures forall id :: id in m.indexMap ==>
      && 0 <= m.indexMap[id] < |state|
      && state[m.indexMap[id]].id == id
      && m.blockMap[id] == state[m.indexMap[id]]
      && (forall j :: m.indexMap[id] < j < |state| ==> state[j].id != id)
    ensures forall p :: p in m.childrenMap ==> m.childrenMap[p] == ChildrenOf(state, p) && |m.childrenMap[p]| > 0
    ensures UniqueIds(state) ==> forall k :: 0 <= k < |state| ==> m.indexMap[state[k].id] == k && m.blockMap[state[k].id] == state[k]
  {
    assert state[..|state|] == state;
    if UniqueIds(state) {
      forall k | 0 <= k < |state| ensures m.indexMap[state[k].id] == k {
        var j := m.indexMap[state[k].id];
        assert state[j].id == state[k].id;
      }
    }
  }

  /** `blockMap` and `indexMap` after scanning `state[..i]`: the last position of each id seen. */
  ghost predicate IndexedUpTo(state: seq<Block>, i: nat, blockMap: map<string, Block>, indexMap: map<string, int>)
    requires i <= |state|
  {
    && (forall k :: 0 <= k < i ==> state[k].id in indexMap)
    && blockMap.Keys == indexMap.Keys
    && (forall id :: id in indexMap ==>
          && 0 <= indexMap[id] < i
          && state[indexMap[id]].id == id
          && blockMap[id] == state[indexMap[id]]
          && (forall j :: indexMap[id] < j < i ==> state[j].id != id))
  }

  /** `childrenMap` after scanning `state[..i]`: a non-empty list per parent seen. */
  ghost predicate GroupedUpTo(state: seq<Block>, i: nat, childrenMap: map<Option<string>, seq<Block>>)
    requires i <= |state|
  {
    && (forall k :: 0 <= k < i ==> state[k].parentId in childrenMap)
    && (forall p :: p in childrenMap ==> childrenMap[p] == ChildrenOf(state[..i], p) && |childrenMap[p]| > 0)
    && (forall p :: p !in childrenMap ==> ChildrenOf(state[..i], p) == [])
  }

  lemma IndexStep(state: seq<Block>, i: nat, blockMap: map<string, Block>, indexMap: map<string, int>)
    requires i < |state| && IndexedUpTo(state, i, blockMap, indexMap)
    ensures IndexedUpTo(state, i + 1, blockMap[state[i].id := state[i]], indexMap[state[i].id := i])
  {
  }

  lemma GroupStep(state: seq<Block>, i: nat, childrenMap: map<Option<string>, seq<Block>>)
    requires i < |state| && GroupedUpTo(state, i, childrenMap)
    ensures var key := state[i].parentId;
      var list := if key in childrenMap then childrenMap[key] else [];
      GroupedUpTo(state, i + 1, childrenMap[key := list + [state[i]]])
  {
    ChildrenOfSnoc(state, i);
  }

  /** Extending the scanned prefix by one block extends only that block's parent's list. */
  lemma ChildrenOfSnoc(state: seq<Block>, i: nat)
    requires i < |state|
    ensures forall p :: ChildrenOf(state[..i + 1], p) == ChildrenOf(state[..i], p) + (if state[i].parentId == p then [state[i]] else [])
  {
    assert state[..i + 1] == state[..i] + [state[i]];
    forall p ensures ChildrenOf(state[..i + 1], p) == ChildrenOf(state[..i], p) + (if state[i].parentId == p then [state[i]] else []) {
      ChildrenOfConcat(state[..i], [state[i]], p);
    }
  }

  /**
   * DELETE_ITEM removes exactly the target and the blocks whose parent chain
   * reaches it; survivors keep their order.
   */
  lemma DeleteRemovesDescendants(state: seq<Block>, id: string)
    ensures var r := Reduce(state, DeleteItem(id));
      && (forall b :: b in r <==> b in state && !Cascade.Descendant(state, b.id, id))
      && Subsequence(r, state)
  {
    Cascade.DeleteSetIsDescendants(state, id);
  }

  /** Deleting an unknown id, or the same id twice, changes nothing more. */
  lemma DeleteNoopAndIdempotent(state: seq<Block>, id: string)
    ensures (forall k :: 0 <= k < |state| ==> state[k].id != id && state[k].parentId != Some(id))
      ==> Reduce(state, DeleteItem(id)) == state
    ensures var once := Reduce(state, DeleteItem(id));
      Reduce(once, DeleteItem(id)) == once
  {
    if forall k :: 0 <= k < |state| ==> state[k].id != id && state[k].parentId != Some(id) {
      Cascade.DeleteUnknownIsNoop(state, id);
    }
    Cascade.DeleteIdempotent(state, id);
  }

  /**
   * A block that is not a section, dropped `into-X`, ends up with parent X;
   * nothing else about it changes.
   */
  lemma MoveIntoReparents(state: seq<Block>, activeId: string, x: string)
    requires Find(state, activeId).Some? && Find(state, activeId).value.kind != Section
    ensures Find(Reduce(state, MoveItem(activeId, "into-" + x)), activeId)
      == Some(Find(state, activeId).value.(parentId := Some(x)))
  {
    var z := "into-" + x;
    Reparent.ParseZoneName(Reparent.Zone(Reparent.Into, x));
    assert Reparent.ParseZone(z) == Reparent.Zone(Reparent.Into, x);
    Reparent.ReparentFindMoved(state, activeId, z);
  }

  /** The reducer test: a topic moved `into-1` gets parent "1". */
  lemma MoveTopicIntoSection()
    ensures var state := [Block("1", Section, None, 0, "a"), Block("2", Topic, None, 1, "b")];
      Find(Reduce(state, MoveItem("2", "into-1")), "2").value.parentId == Some("1")
  {
    var state := [Block("1", Section, None, 0, "a"), Block("2", Topic, None, 1, "b")];
    assert Find(state, "2") == Some(state[1]);
    MoveIntoReparents(state, "2", "1");
  }

  /** The reducer test: deleting section "1" takes its topic "2" with it and keeps "3". */
  lemma DeleteSectionWithTopic()
    ensures var state := [Block("1", Section, None, 0, "a"), Block("2", Topic, Some("1"), 0, "b"), Block("3", Topic, None, 1, "c")];
      Reduce(state, DeleteItem("1")) == [state[2]]
  {
    var state := [Block("1", Section, None, 0, "a"), Block("2", Topic, Some("1"), 0, "b"), Block("3", Topic, None, 1, "c")];
    var c := Cascade.DeleteSet(state, "1");
    ExampleDeleteSet(state);
    ExampleSurvivors(state, c);
    assert Reduce(state, DeleteItem("1")) == Cascade.Survivors(state, c);
  }

  lemma ExampleDeleteSet(state: seq<Block>)
    requires state == [Block("1", Section, None, 0, "a"), Block("2", Topic, Some("1"), 0, "b"), Block("3", Topic, None, 1, "c")]
    ensures Cascade.DeleteSet(state, "1") == {"1", "2"}
  {
    var c := Cascade.DeleteSet(state, "1");
    assert c <= {"1", "2"} by {
      assert Cascade.Closed(state, {"1", "2"});
      Cascade.ClosureLeast(state, {"1"}, {"1", "2"});
    }
    assert "2" in c by {
      assert HasParent(state[1]) && state[1].parentId.value in c;
    }
  }

  lemma ExampleSurvivors(state: seq<Block>, c: set<string>)
    requires state == [Block("1", Section, None, 0, "a"), Block("2", Topic, Some("1"), 0, "b"), Block("3", Topic, None, 1, "c")]
    requires c == {"1", "2"}
    ensures Cascade.Survivors(state, c) == [state[2]]
  {
    assert state[1..][1..] == [state[2]];
    assert Cascade.Survivors([state[2]], c) == [state[2]] by {
      Cascade.SurvivorsNone([state[2]], c);
    }
  }
}
