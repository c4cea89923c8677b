# Agenda block tree — a Dafny model

This project models the core of an agenda editor. An agenda is a flat list
of blocks: sections, topics, objectives and action items. Each block has an
id, a type, an optional parent id, a numeric `order` and a content key
(`itemId`). The list is read as a tree through the parent links.

The model covers the following parts of the editor:

- the drag-and-drop re-parenting function `reparentBlock`, with the drop-zone
  name parsing that `extractUUID` also performs;
- the two list reducers, `blockReducer` and `agendaReducer`. They handle adding,
  cascading deletion, replacing the list and moving, and they build lookup maps;
- the expand/collapse reducer `expandReducer`;
- `flattenVisible`, which lists the visible rows of the tree in pre-order
  with their depth;
- the serializer: the tuple encoding `serializeBlocks`, the decoding
  `deserializeBlocks`, the change list `diffBlocks`, and `buildTree`;
- the content store of `useAgenda` (`create`, `get`, `getAll`, `removeAll`,
  `remove`). `remove` walks the block list with an explicit stack to find
  everything below a block.

## Modules

| file | module | contents |
|---|---|---|
| wrappers.dfy | `Wrappers` | `Option` |
| block.dfy | `BlockModel` | the `Block` record, `find`/`findIndex`/`filter` equivalents and their facts |
| helper.dfy | `Helper` | `extractUUID` with the default pattern |
| blocks.dfy | `Reparent` | drop-zone parsing and `reparentBlock` |
| cascade.dfy | `Cascade` | the closure loop of `DELETE_ITEM` and the filtered list |
| block_reducer.dfy | `BlockReducer` | `blockReducer` and the lookup maps of `MOVE_ITEM` |
| agenda_reducer.dfy | `AgendaReducer` | `agendaReducer` |
| expand_reducer.dfy | `ExpandReducer` | `expandReducer` |
| virtual_tree.dfy | `VirtualTree` | `flattenVisible` |
| sorting.dfy | `Sorting` | the stable sort used by `serializeBlocks` and `buildTree` |
| serializer.dfy | `Serializer` | `serializeBlocks` and `deserializeBlocks` |
| diff.dfy | `Diff` | `diffBlocks` |
| build_tree.dfy | `BuildTree` | `buildTree` |
| agenda_store.dfy | `AgendaStore` | the `useAgenda` content store |

## Modelling choices

- `parentId` is `Option<string>`, where `None` stands for `null`. The code uses two
  tests on it, and the model keeps them apart:
  - Strict `===` comparisons become `Option` equality.
  - Truthiness tests (`item.parentId && …` in the delete cascade, `node.parentId &&
    …` in `buildTree`) become `HasParent`. Under `HasParent`, `Some("")` counts as
    no parent.
- JavaScript `slice` clamps an index past the end. `findIndex` returns -1 for
  a missing id. Both are written out. So `into-X` puts the moved block first
  when neither `X` nor any block whose parent is `X` remains. `after-T` with no
  block `T` puts it last. An `into-X` drop with `X` absent but some child of `X`
  present (an orphan) still lands after that child's last remaining block.
- `Array.prototype.sort` is stable. It is modelled as an insertion sort that
  takes the elements in input order.
- `localeCompare` is modelled as lexicographic order on code points (Unicode scalar values).
- `String(null)` is the text `"null"`. For that reason the comparator of
  `serializeBlocks` is a consistent order only when no parent id is the
  string `"null"`. The sort is modelled as written. Its ordering lemmas
  require this condition (`Sorting.Consistent`).
- The expand flags are a plain object (`Record<string, boolean>`). Reading a
  key it does not own falls through to `Object.prototype`, whose members are
  all truthy. `ExpandReducer.IsExpanded` reads an own key's flag, and
  otherwise tests the id against the inherited names
  (`ExpandReducer.InheritedKeys`). Both `expandReducer` and `flattenVisible`
  use it.
- `useAgenda.remove` follows `===` parent links (`AgendaStore.Below`), while
  the reducers' cascade follows truthy ones. The two differ only for a
  parent id that is the empty string.
- `useAgenda.remove` loops forever when the parent links below the removed
  block form a cycle. Its model takes a ghost ranking (`AgendaStore.Ranked`)
  as evidence that the links reachable from the block are acyclic.
- `diffBlocks` builds JavaScript `Map`s. In such a map a key keeps the place of
  its first insertion and holds its last value. `Diff.IdMap` models exactly that.
- `buildTree` links mutable node objects. The model returns the same graph flat:
  - a node table in insertion order, each node naming its children by id;
  - the sorted roots.

  Depths are computed the way the code does it: a child whose parent comes
  later in the table sees the parent's initial depth 0.

## Model

| member | source | states |
|---|---|---|
| Reparent.ParseZone | app/utils/blocks.ts:18-23 | the zone is "into" exactly when the name starts with `into-`, "after" exactly when it starts with `after-`; the target is a suffix of the name |
| Reparent.ParseZoneName | app/utils/blocks.ts:18-23 | parsing the name a drop zone is given recovers the zone (round trip) |
| Reparent.ParseZoneTargetIsExtractUUID | app/utils/blocks.ts:18 | the parsed target is what `extractUUID` returns for the same name |
| Reparent.ParseZoneUnprefixed | app/utils/blocks.ts:18-23 | a name with none of the prefixes is "before" a target named by the whole string |
| Reparent.InsertIndex | app/utils/blocks.ts:36-56 | the insertion index lies between 0 and one past the end of the remaining list |
| Reparent.ReparentBlock | app/utils/blocks.ts:4-69 | an unknown block, or a section given a parent, returns the input; otherwise the list without the dragged id is unchanged, and the dragged block appears once, at the landing index, with only its parent replaced |
| Reparent.ReparentPermutation | app/utils/blocks.ts:14-68 | with unique ids the result is the input with the dragged block swapped for its re-parented copy: same length, same ids, ids still unique |
| Reparent.ReparentChangesOnlyParent | app/utils/blocks.ts:27-29 | the moved block keeps its id, type, order and content key; its parent is the target for "into", and the target block's parent otherwise |
| Reparent.SectionNeverNested | app/utils/blocks.ts:31-33 | a section dropped into a block, or next to a block that has a parent, leaves the list unchanged |
| Reparent.ReparentKeepsSectionsAtRoot | app/utils/blocks.ts:27-33 | if no section has a parent before a move, none has one after it |
| Reparent.ReparentIntoPlacement | app/utils/blocks.ts:38-49 | "into-S" lands right after the last remaining child of S, right after S when S has no children, and first when neither S nor any child of S remains |
| Reparent.ReparentSiblingPlacement | app/utils/blocks.ts:50-55 | "before-T" lands just before T and "after-T" just after T; when T is not among the remaining blocks the moved block lands last |
| Reparent.ReparentIdempotent | app/utils/blocks.ts:10-68 | repeating the same drop changes nothing more |
| Reparent.ReparentFindMoved | app/utils/blocks.ts:58-61 | looking up the dragged id after a move finds the re-parented block |
| Reparent.IntoSelfMakesOwnParent | app/utils/blocks.ts:27-29 | dropping a non-section block into its own zone makes it its own parent, because the code does not guard against it |
| Helper.ExtractUUID | app/utils/helper.ts:1-4 | the result is a suffix of the input |
| Helper.StripFirstPrefix | app/utils/helper.ts:1-4 | only the first matching alternative is removed, and an input matching none is returned unchanged |
| Helper.ExtractUUIDStripsPrefix | app/utils/helper.ts:1-4 | `before-`, `after-` and `into-` followed by any text give back that text |
| Helper.ExtractUUIDUnprefixed | app/utils/helper.ts:1-4 | an id without any of the prefixes is returned as is |
| Helper.ExtractUUIDNested | app/utils/helper.ts:1-4 | the pattern is anchored and not global: only one prefix is removed |
| Cascade.Pass | app/reducers/blockReducer.ts:15-22 | one sweep only adds ids, and only ids of blocks in the list |
| Cascade.Closure | app/reducers/blockReducer.ts:15-22 | the loop ends with a superset of the start, bounded by the start plus the list's ids, closed under truthy parent links |
| Cascade.ClosureLeast | app/reducers/blockReducer.ts:15-22 | the result lies inside every closed set that contains the start |
| Cascade.DeleteSet | app/reducers/blockReducer.ts:13-22 | the deleted set holds the target, is closed, and holds nothing beyond the target and the list's ids |
| Cascade.DeleteCascade | app/reducers/blockReducer.ts:12-25 | the survivors are exactly the blocks outside the deleted set, in their original order |
| Cascade.DeleteSetIsDescendants | app/reducers/blockReducer.ts:15-22 | an id is deleted exactly when it is the target or a truthy parent chain leads from it to the target |
| Cascade.DeleteUnknownIsNoop | app/reducers/blockReducer.ts:13-24 | deleting an id that is no block's id and no block's parent returns the list |
| Cascade.DeleteIdempotent | app/reducers/blockReducer.ts:13-24 | deleting the same id twice equals deleting it once |
| BlockReducer.Reduce | app/reducers/blockReducer.ts:4-58 | ADD appends and keeps the prefix, DELETE keeps exactly the blocks outside the cascade, SET_ALL returns the payload, MOVE is `reparentBlock`, and every other action returns the state |
| BlockReducer.BuildLookupMaps | app/reducers/blockReducer.ts:31-43 | every block is indexed; `childrenMap[p]` lists exactly the blocks whose parent is `p`, in order; with unique ids `indexMap` gives positions and `blockMap` gives the blocks |
| BlockReducer.DeleteRemovesDescendants | app/reducers/blockReducer.ts:12-25 | after DELETE no remaining block is the target or reaches it by parent links, and every block that did neither remains |
| BlockReducer.DeleteNoopAndIdempotent | app/reducers/blockReducer.ts:13-24 | DELETE of an unknown id is a no-op, and DELETE twice is DELETE once |
| BlockReducer.MoveIntoReparents | app/reducers/blockReducer.ts:30-52 | a non-section block moved `into-x` ends with parent `x` |
| BlockReducer.MoveTopicIntoSection | app/reducers/blockReducer.ts:30-52 | a topic moved into section "1" comes out with parent "1" |
| BlockReducer.DeleteSectionWithTopic | app/reducers/blockReducer.ts:12-25 | deleting a section removes its topic and keeps the unrelated topic |
| AgendaReducer.Reduce | app/reducers/agendaReducer.ts:11-58 | ADD appends, DELETE keeps exactly the blocks outside the cascade, SET_ALL returns the payload, and an unrecognised action returns the state |
| AgendaReducer.AgreesWithBlockReducer | app/reducers/agendaReducer.ts:11-58 | on every action it returns what `blockReducer` returns for the matching action |
| AgendaReducer.MoveAfterSiblingKeepsParent | app/reducers/agendaReducer.ts:46-53 | a move after a sibling that has the same parent keeps the length and the moved block's parent |
| ExpandReducer.Reduce | app/reducers/expandReducer.ts:5-17 | TOGGLE changes only the toggled key, SET_ALL returns the map, and any other action returns the state |
| ExpandReducer.ToggleFlips | app/reducers/expandReducer.ts:10-11 | after TOGGLE the block is expanded exactly when it was not; a missing key reads through to `Object.prototype` |
| ExpandReducer.ToggleAbsent | app/reducers/expandReducer.ts:10-11 | a missing id that names no inherited member reads as collapsed, so TOGGLE stores `true` |
| ExpandReducer.ToggleInheritedName | app/reducers/expandReducer.ts:10-11 | on an empty record, TOGGLE of `constructor` stores `false`, because the inherited member is truthy |
| ExpandReducer.ToggleTwice | app/reducers/expandReducer.ts:10-11 | toggling twice restores the flag's truth value, and every other key is untouched |
| VirtualTree.FlattenVisible | app/components/VirtualTreeRenderer.tsx:24-36 | every row is a block of the list, and rows of depth 0 are the root blocks |
| VirtualTree.RootsInOrder | app/components/VirtualTreeRenderer.tsx:27-30 | the depth-0 rows are exactly the root blocks, in list order |
| VirtualTree.FlattenVisibleExact | app/components/VirtualTreeRenderer.tsx:24-36 | a row (block, depth) appears exactly when a chain of expanded ancestors of that length leads from a root to the block |
| VirtualTree.FlattenVisibleParentsFirst | app/components/VirtualTreeRenderer.tsx:29-31 | every row below the top level comes after a row for its expanded parent |
| VirtualTree.FlattenVisiblePreOrder | app/components/VirtualTreeRenderer.tsx:26-34 | the rows are in pre-order: each row is followed directly by a contiguous block of deeper rows, and the rows one level down in that block are exactly the block's children, in list order, when it is expanded, and nothing when it is not; the first row has depth 0 and depth grows by at most one from row to row |
| VirtualTree.ExampleWalk | app/components/VirtualTreeRenderer.tsx:24-36 | for two expanded sections a, b with one topic each, the rows are a, its topic, b, its topic |
| VirtualTree.ExampleInheritedFlag | app/components/VirtualTreeRenderer.tsx:31 | with an empty flag record, a block whose id is `toString` reads as expanded, so its child is listed one level down |
| VirtualTree.ExampleBreadthFirst | app/components/VirtualTreeRenderer.tsx:26-34 | the breadth-first listing of that example (a, b, then the topics) is not in pre-order |
| VirtualTree.FlattenVisibleDistinct | app/components/VirtualTreeRenderer.tsx:24-36 | with unique ids no block is listed twice, so there are at most as many rows as blocks |
| Sorting.StrCompare | app/utils/serializer.ts:12 | the comparison gives -1, 0 or 1, and 0 exactly for equal texts |
| Sorting.CmpTrans | app/utils/serializer.ts:10-13 | the comparator is transitive when no parent id is the text "null" |
| Sorting.Sort | app/utils/serializer.ts:10-13 | the sort is a permutation of its input |
| Sorting.SortSorted | app/utils/serializer.ts:10-13 | the result is ordered by the comparator |
| Sorting.SortStable | app/utils/serializer.ts:10-13 | blocks that compare equal keep their input order |
| Sorting.SortKeepsSorted | app/utils/serializer.ts:10-13 | sorting an already ordered list returns it |
| Serializer.Serialize | app/utils/serializer.ts:9-29 | one tuple per block, and the tuples are the input's tuples rearranged |
| Serializer.Deserialize | app/utils/serializer.ts:31-34 | one object per tuple, in order, carrying the tuple's four fields |
| Serializer.SerializeSorted | app/utils/serializer.ts:10-13 | tuples with the same parent come by ascending order, and groups with different parents come by the parent's text |
| Serializer.RoundTrip | app/utils/serializer.ts:15-34 | decoding the encoding gives every block back, without its content key, in canonical order |
| Serializer.RoundTripCanonical | app/utils/serializer.ts:15-34 | a list already in canonical order decodes to itself field for field |
| Serializer.SerializeIgnoresDropped | app/utils/serializer.ts:15-20 | two lists that agree on id, parent, order and type serialize identically |
| Diff.FromList | app/utils/serializer.ts:49-50 | the map has distinct keys, and each key holds a block with that id |
| Diff.FromListLast | app/utils/serializer.ts:49-50 | the map holds exactly the list's ids, each with the last block that carries it |
| Diff.FromListUnique | app/utils/serializer.ts:49-50 | with unique ids the keys come in list order |
| Diff.Upserts | app/utils/serializer.ts:53-67 | the first loop reports no `removed` entries |
| Diff.UpsertsAbout | app/utils/serializer.ts:53-67 | for each id, the first loop reports `added` when only the new map has it, `changed` when both have it and parent, order or type differ, and nothing otherwise |
| Diff.Removals | app/utils/serializer.ts:69-73 | the second loop reports only `removed` entries |
| Diff.RemovalsAbout | app/utils/serializer.ts:69-73 | for each id, the second loop reports `removed` with the old block exactly when only the old map has it |
| Diff.DiffBlocks | app/utils/serializer.ts:45-76 | every `removed` entry follows all the other entries |
| Diff.DiffPerId | app/utils/serializer.ts:53-73 | for each id the diff says `added` when only the new list has it, `removed` when only the old one has it, `changed` when both have it with a different parent, order or type, and nothing otherwise |
| Diff.DiffSelfEmpty | app/utils/serializer.ts:45-76 | a list diffed against itself gives no entries |
| Diff.UnchangedNotReported | app/utils/serializer.ts:58-65 | a block whose parent, order and type are unchanged is not mentioned |
| BuildTree.FirstWins | app/utils/serializer.ts:86-89 | each id is kept once, with its first block |
| BuildTree.FirstWinsOrder | app/utils/serializer.ts:86-89 | the kept blocks come in the order in which their ids first appear |
| BuildTree.Depth | app/utils/serializer.ts:91-99 | the depth is 0 exactly for a node without a parent in the table |
| BuildTree.Build | app/utils/serializer.ts:80-102 | the roots have depth 0 and come by ascending order |
| BuildTree.BuildTable | app/utils/serializer.ts:86-89 | the table has one node per distinct id of both lists, holding the first block with that id |
| BuildTree.BuildRoots | app/utils/serializer.ts:91-101 | the roots are exactly the nodes whose parent is null, empty or missing, each once |
| BuildTree.BuildDepths | app/utils/serializer.ts:91-99 | a child of a root has depth 1, and a node whose parent comes earlier is one deeper than that parent |
| BuildTree.BuildChildren | app/utils/serializer.ts:91-99 | a node lists exactly the ids of the nodes whose truthy parent is its id |
| AgendaStore.Create | app/hooks/useAgenda.ts:19-23 | the item is stored under the block id, other entries are unchanged, and the item's own id is returned |
| AgendaStore.Get | app/hooks/useAgenda.ts:55-57 | a record is returned exactly when one is stored, and it is the stored one |
| AgendaStore.GetAll | app/hooks/useAgenda.ts:59-61 | the copy answers every lookup like the store |
| AgendaStore.RemoveAll | app/hooks/useAgenda.ts:50-53 | no lookup finds anything afterwards |
| AgendaStore.CreateThenGet | app/hooks/useAgenda.ts:19-23 | what `create` stores, `get` returns, and other keys read as before |
| AgendaStore.CollectDescendants | app/hooks/useAgenda.ts:26-38 | the collected set is exactly the block and everything below it along `===` parent links; it contains the reducers' cascade, and equals it when no parent id is the empty string |
| AgendaStore.WalkResult | app/hooks/useAgenda.ts:29-38 | a closed set that holds the block and nothing outside what lies below it is exactly what lies below it |
| AgendaStore.BelowIsDescendant | app/hooks/useAgenda.ts:34 | when no parent id is the empty string, the `===` links the walk follows and the cascade's truthy links reach the same blocks |
| AgendaStore.SelfParentUnranked | app/hooks/useAgenda.ts:29-37 | a block that is its own parent is pushed again by every pop of its id, so no ranking (and no terminating walk) exists |
| AgendaStore.PushChildren | app/hooks/useAgenda.ts:33-37 | the stack grows by exactly the ids of the blocks whose parent is the popped id, in list order; the pushed ids are all below the removed block |
| AgendaStore.Remove | app/hooks/useAgenda.ts:25-48 | a record is kept exactly when its key is neither the block nor below it along `===` parent links, and kept records are unchanged |

## Left out

- The JSON text layer of `serializeBlocks`/`deserializeBlocks` and the SHA-256 hash are left out: the model stops at the tuple array, since text formatting and hashing are not part of the block logic.
- `extractUUID` takes an optional pattern argument. Only the default pattern is modelled, because no caller in the core passes another.
- `localeCompare` is modelled as lexicographic order on code points (Unicode scalar values). The locale-dependent collation of the runtime is not modelled. Neither is the UTF-16 code-unit order, which differs from code-point order for characters above U+FFFF.
- `order` is modelled as an unbounded integer, not a floating-point number. An objective's `progress` is modelled as a real number.
- `APPLY_DIFF` and `INSERT_ITEM` are declared in the block action type (app/types/block.ts:18-19), but `blockReducer` has no case for them. They are the `BlockReducer.ApplyDiff` and `BlockReducer.InsertItem` actions, which fall to the default branch: `BlockReducer.Handled` is false for them, so the state is returned unchanged. The payload of `APPLY_DIFF` is kept as a plain string and not modelled further.
- The reducers call `reparentBlock` with three extra lookup maps that its definition does not take. `MOVE_ITEM` is modelled as the three-argument call. The maps are modelled separately, by `BuildLookupMaps`.
- `agendaReducer` works on the `Agenda` record, which has no `order` or `itemId`. It is modelled over the same `Block` type, since neither field is read on its paths.
- The React state, the query-cache refresh (`sync`) after each store change, and the iteration order of `getAll`'s `Map` copy are left out.
- `buildTree` returns a flat node table with child id lists instead of a graph of heap objects.
- AgendaStore.CollectDescendants: termination is proved only when the links below the removed block are acyclic, as witnessed by a ghost ranking. The source loops forever on a cycle.
- Serializer.SerializeSorted: stated only for lists where no parent id is the text "null", because for such a parent the comparator is not a consistent order.
- Sorting.SortSorted: stated only for lists where no parent id is the text "null", for the same reason.
- Sorting.SortStable: stated only for lists where no parent id is the text "null", for the same reason.
- The rest of the repository is not part of this model: the rendering components, drag-and-drop sensors, providers and the other hooks.
