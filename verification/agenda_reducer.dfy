/**
 * `agendaReducer` of app/reducers/agendaReducer.ts: the twin of
 * `blockReducer` over the `Agenda` records of the agenda provider. It has
 * the same four cases and a default. The `Agenda` record is the block
 * record without `order` and `itemId`; neither field is read by these
 * cases, so the model reuses `Block` and the reducer carries them along
 * untouched.
 */
module AgendaReducer {
  import opened Wrappers
  import opened BlockModel
  import Cascade
  import Reparent
  import BlockReducer

  /** `AgendaAction`, plus any action object with another `type`. */
  datatype AgendaAction =
    | Add(item: Block)
    | Delete(id: string)
    | ReplaceAll(items: seq<Block>)
    | Move(activeId: string, hoverZone: string)
    | Unrecognised(tag: string)

  /** `agendaReducer(state, action)`. */
  function Reduce(state: seq<Block>, action: AgendaAction): (r: seq<Block>)
    ensures action.Add? ==> |r| == |state| + 1 && r[..|state|] == state && r[|state|] == action.item
    ensures action.Delete? ==>
      && (forall b :: b in r <==> b in state && !Cascade.Descendant(state, b.id, action.id))
      && Subsequence(r, state)
    ensures action.ReplaceAll? ==> r == action.items
    ensures action.Unrecognised? ==> r == state
  {
    match action
    case Add(item) => state + [item]
    case Delete(id) =>
      Cascade.DeleteSetIsDescendants(state, id);
      Cascade.DeleteCascade(state, id)
    case ReplaceAll(items) => items
    case Move(activeId, hoverZone) => Reparent.ReparentBlock(state, activeId, hoverZone)
    case Unrecognised(_) => state
  }

  /** The `blockReducer` action with the same `type` and payload. */
  function AsBlockAction(action: AgendaAction): BlockReducer.Action {
    match action
    case Add(item) => BlockReducer.AddItem(item)
    case Delete(id) => BlockReducer.DeleteItem(id)
    case ReplaceAll(items) => BlockReducer.SetAll(items)
    case Move(activeId, hoverZone) => BlockReducer.MoveItem(activeId, hoverZone)
    case Unrecognised(tag) => BlockReducer.Unrecognised(tag)
  }

  /** The two reducers agree on every action they share. */
  lemma AgreesWithBlockReducer(state: seq<Block>, action: AgendaAction)
    ensures Reduce(state, action) == BlockReducer.Reduce(state, AsBlockAction(action))
  {
  }

  /**
   * Moving a block `after-` a block with the same parent keeps the list's
   * length and the moved block's parent (the large-agenda move scenario).
   */
  lemma MoveAfterSiblingKeepsParent(state: seq<Block>, activeId: string, sibling: string)
    requires UniqueIds(state)
    requires Find(state, activeId).Some? && Find(state, sibling).Some?
    requires Find(state, sibling).value.parentId == Find(state, activeId).value.parentId
    ensures var r := Reduce(state, Move(activeId, "after-" + sibling));
      && |r| == |state|
      && Find(r, activeId).Some?
      && Find(r, activeId).value.parentId == Find(state, activeId).value.parentId
  {
    var z := "after-" + sibling;
    Reparent.ParseZoneName(Reparent.Zone(Reparent.After, sibling));
    assert Reparent.ParseZone(z) == Reparent.Zone(Reparent.After, sibling);
    if Reparent.Moves(state, activeId, z) {
      Reparent.ReparentPermutation(state, activeId, z);
      Reparent.ReparentFindMoved(state, activeId, z);
    }
  }
}
