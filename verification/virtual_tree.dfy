/**
 * `flattenVisible` of app/components/VirtualTreeRenderer.tsx: the rows of
 * the virtualised tree. A pre-order walk from the roots lists each block
 * with its depth and descends into a block's children only when the block
 * is expanded. Children are found with `filter(b => b.parentId === p)`, so
 * siblings keep their order in the flat list.
 *
 * With unique ids the walk always terminates: the blocks on the way from a
 * root down to the current one form a chain whose blocks are pairwise
 * distinct, so it is never longer than the list. The model carries that
 * chain as a ghost parameter, used only for the termination argument and
 * the proofs.
 */
module VirtualTree {
  import opened Wrappers
  import opened BlockModel
  import opened ExpandReducer

  /** A row: the block (`{ ...block, depth }`) and its indentation depth. */
  datatype FlatEntry = FlatEntry(block: Block, depth: nat)

  /**
   * A root-first chain: blocks of the list, the first a root, each next one
   * a child of the one before it, and every block but the last expanded.
   */
  ghost predicate IsChain(blocks: seq<Block>, expanded: map<string, bool>, c: seq<Block>) {
    && (forall k :: 0 <= k < |c| ==> c[k] in blocks)
    && (|c| > 0 ==> c[0].parentId == None)
    && (forall k :: 0 <= k < |c| - 1 ==> c[k + 1].parentId == Some(c[k].id) && IsExpanded(expanded, c[k].id))
  }

  /** A chain the walk descends along: its last block is expanded as well. */
  ghost predicate OpenPath(blocks: seq<Block>, expanded: map<string, bool>, path: seq<Block>) {
    IsChain(blocks, expanded, path) && (|path| > 0 ==> IsExpanded(expanded, path[|path| - 1].id))
  }

  /** The parent id whose children the walk lists at the end of `path`. */
  function PathParent(path: seq<Block>): Option<string> {
    if |path| == 0 then None else Some(path[|path| - 1].id)
  }

  /** `walk(parentId, depth)`: lists the children of `parentId` and their visible subtrees. */
  function Walk(blocks: seq<Block>, expanded: map<string, bool>, parentId: Option<string>, depth: nat,
                ghost path: seq<Block>): (r: seq<FlatEntry>)
    requires UniqueIds(blocks) && OpenPath(blocks, expanded, path) && |path| <= |blocks|
    requires parentId == PathParent(path) && depth == |path|
    ensures forall i :: 0 <= i < |r| ==> r[i].depth >= depth && r[i].block in blocks
    ensures forall i :: 0 <= i < |r| && r[i].depth == depth ==> r[i].block.parentId == parentId
    decreases |blocks| - |path|, 1, 0
  {
    ChildrenOfMembers(blocks, parentId);
    WalkSiblings(blocks, expanded, ChildrenOf(blocks, parentId), depth, path)
  }

  /** `.forEach` over the children: each row, then its subtree if it is expanded. */
  function WalkSiblings(blocks: seq<Block>, expanded: map<string, bool>, siblings: seq<Block>, depth: nat,
                        ghost path: seq<Block>): (r: seq<FlatEntry>)
    requires UniqueIds(blocks) && OpenPath(blocks, expanded, path) && |path| <= |blocks| && depth == |path|
    requires forall k :: 0 <= k < |siblings| ==> siblings[k] in blocks && siblings[k].parentId == PathParent(path)
    ensures forall i :: 0 <= i < |r| ==> r[i].depth >= depth && r[i].block in blocks
    ensures forall i :: 0 <= i < |r| && r[i].depth == depth ==> r[i].block.parentId == PathParent(path)
    decreases |blocks| - |path|, 0, |siblings|
  {
    if |siblings| == 0 then []
    else
      var b := siblings[0];
      [FlatEntry(b, depth)] + SubRows(blocks, expanded, b, depth, path)
        + WalkSiblings(blocks, expanded, siblings[1..], depth, path)
  }

  /**
   * `if (map[block.id]) walk(block.id, depth + 1)`: the rows below one
   * sibling, all deeper than it, those one level down being its children.
   */
  function SubRows(blocks: seq<Block>, expanded: map<string, bool>, b: Block, depth: nat,
                   ghost path: seq<Block>): (r: seq<FlatEntry>)
    requires UniqueIds(blocks) && OpenPath(blocks, expanded, path) && |path| <= |blocks| && depth == |path|
    requires b in blocks && b.parentId == PathParent(path)
    ensures forall i :: 0 <= i < |r| ==> r[i].depth > depth && r[i].block in blocks
    ensures forall i :: 0 <= i < |r| && r[i].depth == depth + 1 ==> r[i].block.parentId == Some(b.id)
    ensures |r| > 0 ==> IsExpanded(expanded, b.id)
    decreases |blocks| - |path|, 0, 0
  {
    if IsExpanded(expanded, b.id) then
      Descend(blocks, expanded, path, b);
      Walk(blocks, expanded, Some(b.id), depth + 1, path + [b])
    else []
  }

  /** One step of the sibling walk. */
  lemma WalkSiblingsCons(blocks: seq<Block>, expanded: map<string, bool>, siblings: seq<Block>, depth: nat, path: seq<Block>)
    requires UniqueIds(blocks) && OpenPath(blocks, expanded, path) && |path| <= |blocks| && depth == |path|
    requires forall k :: 0 <= k < |siblings| ==> siblings[k] in blocks && siblings[k].parentId == PathParent(path)
    requires |siblings| > 0
    ensures WalkSiblings(blocks, expanded, siblings, depth, path)
      == [FlatEntry(siblings[0], depth)] + SubRows(blocks, expanded, siblings[0], depth, path)
         + WalkSiblings(blocks, expanded, siblings[1..], depth, path)
  {
  }

  /** Below an expanded sibling the walk goes one level down, along the extended path. */
  lemma SubRowsOpen(blocks: seq<Block>, expanded: map<string, bool>, b: Block, depth: nat, path: seq<Block>)
    requires UniqueIds(blocks) && OpenPath(blocks, expanded, path) && |path| <= |blocks| && depth == |path|
    requires b in blocks && b.parentId == PathParent(path) && IsExpanded(expanded, b.id)
    ensures OpenPath(blocks, expanded, path + [b]) && |path + [b]| <= |blocks|
    ensures SubRows(blocks, expanded, b, depth, path) == Walk(blocks, expanded, Some(b.id), depth + 1, path + [b])
  {
    Descend(blocks, expanded, path, b);
  }

  /** `flattenVisible(blocks, map)`: the walk from the roots at depth 0. */
  function FlattenVisible(blocks: seq<Block>, expanded: map<string, bool>): (r: seq<FlatEntry>)
    requires UniqueIds(blocks)
    ensures forall i :: 0 <= i < |r| ==> r[i].block in blocks
    ensures forall i :: 0 <= i < |r| && r[i].depth == 0 ==> r[i].block.parentId == None
  {
    Walk(blocks, expanded, None, 0, [])
  }

  /** Descending into an expanded child extends the path, and the path still fits in the list. */
  lemma Descend(blocks: seq<Block>, expanded: map<string, bool>, path: seq<Block>, b: Block)
    requires UniqueIds(blocks) && OpenPath(blocks, expanded, path)
    requires b in blocks && b.parentId == PathParent(path) && IsExpanded(expanded, b.id)
    ensures OpenPath(blocks, expanded, path + [b]) && |path + [b]| <= |blocks|
  {
    var c := path + [b];
    ExtendChain(blocks, expanded, path, b);
    ChainDistinct(blocks, expanded, c);
    DistinctLength(c, blocks);
  }

  /** With unique ids the blocks of a chain are pairwise distinct. */
  lemma ChainDistinct(blocks: seq<Block>, expanded: map<string, bool>, c: seq<Block>)
    requires UniqueIds(blocks) && IsChain(blocks, expanded, c)
    ensures Distinct(c)
  {
    forall i, j | 0 <= i < j < |c| ensures c[i] != c[j] {
      ChainNoRepeat(blocks, expanded, c, i, j);
    }
  }

  lemma {:induction false} ChainNoRepeat(blocks: seq<Block>, expanded: map<string, bool>, c: seq<Block>, i: nat, j: nat)
    requires UniqueIds(blocks) && IsChain(blocks, expanded, c) && i < j < |c|
    ensures c[i] != c[j]
    decreases i
  {
    assert c[j].parentId == Some(c[j - 1].id);
    if i > 0 {
      ChainNoRepeat(blocks, expanded, c, i - 1, j - 1);
      assert c[i].parentId == Some(c[i - 1].id);
      SameIdSameBlock(blocks, c[i - 1], c[j - 1]);
    }
  }

  /** With unique ids a block has at most one chain ending in it. */
  lemma {:induction false} ChainUnique(blocks: seq<Block>, expanded: map<string, bool>, c: seq<Block>, d: seq<Block>)
    requires UniqueIds(blocks) && IsChain(blocks, expanded, c) && IsChain(blocks, expanded, d)
    requires |c| > 0 && |d| > 0
    ensures c[|c| - 1] == d[|d| - 1] ==> c == d
    decreases |c|
  {
    assert |c| > 1 ==> c[|c| - 1].parentId == Some(c[|c| - 2].id);
    assert |d| > 1 ==> d[|d| - 1].parentId == Some(d[|d| - 2].id);
    if c[|c| - 1] == d[|d| - 1] {
      if |c| > 1 && |d| > 1 {
        var c', d' := c[..|c| - 1], d[..|d| - 1];
        assert c'[|c'| - 1].id == d'[|d'| - 1].id;
        SameIdSameBlock(blocks, c'[|c'| - 1], d'[|d'| - 1]);
        ChainUnique(blocks, expanded, c', d');
        DropLast(c);
        DropLast(d);
      } else {
        assert |c| == 1 ==> c[|c| - 1].parentId == None;
        assert |d| == 1 ==> d[|d| - 1].parentId == None;
        assert |c| == 1 && |d| == 1;
        assert c == [c[0]] && d == [d[0]];
      }
    }
  }

  lemma DropLast(s: seq<Block>)
    requires |s| > 0
    ensures s == s[..|s| - 1] + [s[|s| - 1]]
  {
  }

  /** A child of the path's end extends the path to a chain. */
  lemma ExtendChain(blocks: seq<Block>, expanded: map<string, bool>, path: seq<Block>, b: Block)
    requires OpenPath(blocks, expanded, path)
    requires b in blocks && b.parentId == PathParent(path)
    ensures IsChain(blocks, expanded, path + [b]) && (path + [b])[..|path|] == path && (path + [b])[|path|] == b
  {
    var c := path + [b];
    forall k | 0 <= k < |c| - 1 ensures c[k + 1].parentId == Some(c[k].id) && IsExpanded(expanded, c[k].id) {
      if k + 1 == |path| {
        assert c[k + 1] == b && c[k] == path[|path| - 1];
      } else {
        assert c[k + 1] == path[k + 1] && c[k] == path[k];
      }
    }
    assert c[..|path|] == path;
  }

  /** The blocks of the rows, in row order. */
  function RowBlocks(r: seq<FlatEntry>): (bs: seq<Block>)
    ensures |bs| == |r| && forall i :: 0 <= i < |r| ==> bs[i] == r[i].block
  {
    if |r| == 0 then [] else [r[0].block] + RowBlocks(r[1..])
  }

  /** The blocks of the rows at depth `d`, in row order. */
  function RowsAt(r: seq<FlatEntry>, d: nat): seq<Block> {
    if |r| == 0 then []
    else (if r[0].depth == d then [r[0].block] else []) + RowsAt(r[1..], d)
  }

  lemma RowsAtConcat(x: seq<FlatEntry>, y: seq<FlatEntry>, d: nat)
    ensures RowsAt(x + y, d) == RowsAt(x, d) + RowsAt(y, d)
  {
    if |x| > 0 {
      assert (x + y)[1..] == x[1..] + y;
      RowsAtConcat(x[1..], y, d);
    } else {
      assert x + y == y;
    }
  }

  lemma {:induction false} RowsAtNone(r: seq<FlatEntry>, d: nat)
    requires forall i :: 0 <= i < |r| ==> r[i].depth != d
    ensures RowsAt(r, d) == []
  {
    if |r| > 0 {
      RowsAtNone(r[1..], d);
    }
  }

  /** The rows at the walk's own depth are exactly the siblings, in their order. */
  lemma {:induction false} WalkSiblingsTopRows(blocks: seq<Block>, expanded: map<string, bool>, siblings: seq<Block>, depth: nat, path: seq<Block>)
    requires UniqueIds(blocks) && OpenPath(blocks, expanded, path) && |path| <= |blocks| && depth == |path|
    requires forall k :: 0 <= k < |siblings| ==> siblings[k] in blocks && siblings[k].parentId == PathParent(path)
    ensures RowsAt(WalkSiblings(blocks, expanded, siblings, depth, path), depth) == siblings
    decreases |siblings|
  {
    if |siblings| > 0 {
      WalkSiblingsCons(blocks, expanded, siblings, depth, path);
      WalkSiblingsTopRows(blocks, expanded, siblings[1..], depth, path);
      TopRowsJoin(siblings[0], depth, SubRows(blocks, expanded, siblings[0], depth, path),
                  WalkSiblings(blocks, expanded, siblings[1..], depth, path));
      assert siblings == [siblings[0]] + siblings[1..];
    }
  }

  lemma TopRowsJoin(b: Block, depth: nat, sub: seq<FlatEntry>, rest: seq<FlatEntry>)
    requires forall i :: 0 <= i < |sub| ==> sub[i].depth != depth
    ensures RowsAt([FlatEntry(b, depth)] + sub + rest, depth) == [b] + RowsAt(rest, depth)
  {
    var h := [FlatEntry(b, depth)];
    RowsAtNone(sub, depth);
    assert RowsAt(h, depth) == [b] by {
      assert h[1..] == [];
    }
    RowsAtConcat(h, sub, depth);
    RowsAtConcat(h + sub, rest, depth);
    assert [b] + [] == [b];
  }

  /** The depth-0 rows are the roots (`parentId === null`) in list order. */
  lemma RootsInOrder(blocks: seq<Block>, expanded: map<string, bool>)
    requires UniqueIds(blocks)
    ensures RowsAt(FlattenVisible(blocks, expanded), 0) == ChildrenOf(blocks, None)
  {
    ChildrenOfMembers(blocks, None);
    WalkSiblingsTopRows(blocks, expanded, ChildrenOf(blocks, None), 0, []);
  }

  /**
   * The row `e` is placed under `path`: some chain from a root through
   * `path` and then one of `siblings` ends in `e.block`, with one block per
   * level of depth.
   */
  ghost predicate PlacedUnder(blocks: seq<Block>, expanded: map<string, bool>, path: seq<Block>, siblings: seq<Block>, e: FlatEntry) {
    exists c :: IsChain(blocks, expanded, c) && |c| == e.depth + 1 && |path| < |c|
      && c[|c| - 1] == e.block && c[..|path|] == path && c[|path|] in siblings
  }

  /** Soundness of the walk over one list of siblings. */
  lemma {:induction false} WalkSiblingsSound(blocks: seq<Block>, expanded: map<string, bool>, siblings: seq<Block>, depth: nat, path: seq<Block>)
    requires UniqueIds(blocks) && OpenPath(blocks, expanded, path) && |path| <= |blocks| && depth == |path|
    requires forall k :: 0 <= k < |siblings| ==> siblings[k] in blocks && siblings[k].parentId == PathParent(path)
    ensures forall i :: 0 <= i < |WalkSiblings(blocks, expanded, siblings, depth, path)| ==>
      PlacedUnder(blocks, expanded, path, siblings, WalkSiblings(blocks, expanded, siblings, depth, path)[i])
    decreases |blocks| - |path|, 0, |siblings|
  {
    if |siblings| > 0 {
      var b := siblings[0];
      var sub := SubRows(blocks, expanded, b, depth, path);
      var rest := WalkSiblings(blocks, expanded, siblings[1..], depth, path);
      WalkSiblingsCons(blocks, expanded, siblings, depth, path);
      WalkSiblingsSound(blocks, expanded, siblings[1..], depth, path);
      PlacedHead(blocks, expanded, path, siblings);
      PlacedFromRestAll(blocks, expanded, path, siblings, rest);
      SubRowsSound(blocks, expanded, siblings, depth, path);
      PlacedConcat(blocks, expanded, path, siblings, [FlatEntry(b, depth)], sub, rest);
    }
  }

  lemma {:induction false} SubRowsSound(blocks: seq<Block>, expanded: map<string, bool>, siblings: seq<Block>, depth: nat, path: seq<Block>)
    requires UniqueIds(blocks) && OpenPath(blocks, expanded, path) && |path| <= |blocks| && depth == |path|
    requires |siblings| > 0 && siblings[0] in blocks && siblings[0].parentId == PathParent(path)
    ensures forall i :: 0 <= i < |SubRows(blocks, expanded, siblings[0], depth, path)| ==>
      PlacedUnder(blocks, expanded, path, siblings, SubRows(blocks, expanded, siblings[0], depth, path)[i])
    decreases |blocks| - |path|, 0, 0
  {
    var b := siblings[0];
    if IsExpanded(expanded, b.id) {
      SubRowsOpen(blocks, expanded, b, depth, path);
      WalkSound(blocks, expanded, Some(b.id), depth + 1, path + [b]);
      PlacedFromSubAll(blocks, expanded, path, siblings, Walk(blocks, expanded, Some(b.id), depth + 1, path + [b]));
    }
  }

  lemma PlacedConcat(blocks: seq<Block>, expanded: map<string, bool>, path: seq<Block>, siblings: seq<Block>,
                     x: seq<FlatEntry>, y: seq<FlatEntry>, z: seq<FlatEntry>)
    requires forall i :: 0 <= i < |x| ==> PlacedUnder(blocks, expanded, path, siblings, x[i])
    requires forall i :: 0 <= i < |y| ==> PlacedUnder(blocks, expanded, path, siblings, y[i])
    requires forall i :: 0 <= i < |z| ==> PlacedUnder(blocks, expanded, path, siblings, z[i])
    ensures forall i :: 0 <= i < |x + y + z| ==> PlacedUnder(blocks, expanded, path, siblings, (x + y + z)[i])
  {
    forall i | 0 <= i < |x + y + z| ensures PlacedUnder(blocks, expanded, path, siblings, (x + y + z)[i]) {
      if i < |x| {
        assert (x + y + z)[i] == x[i];
      } else if i < |x| + |y| {
        assert (x + y + z)[i] == y[i - |x|];
      } else {
        assert (x + y + z)[i] == z[i - |x| - |y|];
      }
    }
  }

  lemma PlacedFromSubAll(blocks: seq<Block>, expanded: map<string, bool>, path: seq<Block>, siblings: seq<Block>, sub: seq<FlatEntry>)
    requires |siblings| > 0
    requires forall i :: 0 <= i < |sub| ==> PlacedUnder(blocks, expanded, path + [siblings[0]], ChildrenOf(blocks, Some(siblings[0].id)), sub[i])
    ensures forall i :: 0 <= i < |sub| ==> PlacedUnder(blocks, expanded, path, siblings, sub[i])
  {
    forall i | 0 <= i < |sub| ensures PlacedUnder(blocks, expanded, path, siblings, sub[i]) {
      PlacedFromSub(blocks, expanded, path, siblings, sub[i]);
    }
  }

  lemma PlacedFromRestAll(blocks: seq<Block>, expanded: map<string, bool>, path: seq<Block>, siblings: seq<Block>, rest: seq<FlatEntry>)
    requires |siblings| > 0
    requires forall i :: 0 <= i < |rest| ==> PlacedUnder(blocks, expanded, path, siblings[1..], rest[i])
    ensures forall i :: 0 <= i < |rest| ==> PlacedUnder(blocks, expanded, path, siblings, rest[i])
  {
    forall i | 0 <= i < |rest| ensures PlacedUnder(blocks, expanded, path, siblings, rest[i]) {
      PlacedFromRest(blocks, expanded, path, siblings, rest[i]);
    }
  }

  lemma PlacedHead(blocks: seq<Block>, expanded: map<string, bool>, path: seq<Block>, siblings: seq<Block>)
    requires OpenPath(blocks, expanded, path) && |siblings| > 0
    requires siblings[0] in blocks && siblings[0].parentId == PathParent(path)
    ensures PlacedUnder(blocks, expanded, path, siblings, FlatEntry(siblings[0], |path|))
  {
    ExtendChain(blocks, expanded, path, siblings[0]);
    var c := path + [siblings[0]];
    assert c[|c| - 1] == siblings[0];
  }

  lemma PlacedFromSub(blocks: seq<Block>, expanded: map<string, bool>, path: seq<Block>, siblings: seq<Block>, e: FlatEntry)
    requires |siblings| > 0
    requires PlacedUnder(blocks, expanded, path + [siblings[0]], ChildrenOf(blocks, Some(siblings[0].id)), e)
    ensures PlacedUnder(blocks, expanded, path, siblings, e)
  {
    var p := path + [siblings[0]];
    var c :| IsChain(blocks, expanded, c) && |c| == e.depth + 1 && |p| < |c|
      && c[|c| - 1] == e.block && c[..|p|] == p && c[|p|] in ChildrenOf(blocks, Some(siblings[0].id));
    assert c[..|path|] == p[..|path|] == path;
    assert c[|path|] == p[|path|] == siblings[0];
  }

  lemma PlacedFromRest(blocks: seq<Block>, expanded: map<string, bool>, path: seq<Block>, siblings: seq<Block>, e: FlatEntry)
    requires |siblings| > 0
    requires PlacedUnder(blocks, expanded, path, siblings[1..], e)
    ensures PlacedUnder(blocks, expanded, path, siblings, e)
  {
    var c :| IsChain(blocks, expanded, c) && |c| == e.depth + 1 && |path| < |c|
      && c[|c| - 1] == e.block && c[..|path|] == path && c[|path|] in siblings[1..];
    assert c[|path|] in siblings;
  }

  /** Soundness of `walk(parentId, depth)`. */
  lemma {:induction false} WalkSound(blocks: seq<Block>, expanded: map<string, bool>, parentId: Option<string>, depth: nat, path: seq<Block>)
    requires UniqueIds(blocks) && OpenPath(blocks, expanded, path) && |path| <= |blocks|
    requires parentId == PathParent(path) && depth == |path|
    ensures forall i :: 0 <= i < |Walk(blocks, expanded, parentId, depth, path)| ==>
      PlacedUnder(blocks, expanded, path, ChildrenOf(blocks, parentId), Walk(blocks, expanded, parentId, depth, path)[i])
    decreases |blocks| - |path|, 1, 0
  {
    ChildrenOfMembers(blocks, parentId);
    assert Walk(blocks, expanded, parentId, depth, path)
        == WalkSiblings(blocks, expanded, ChildrenOf(blocks, parentId), depth, path);
    WalkSiblingsSound(blocks, expanded, ChildrenOf(blocks, parentId), depth, path);
  }

  /** Completeness of the walk over one list of siblings: every chain through `path` and one of them is listed. */
  lemma {:induction false} WalkSiblingsComplete(blocks: seq<Block>, expanded: map<string, bool>, siblings: seq<Block>, depth: nat,
                                                path: seq<Block>, c: seq<Block>)
    requires UniqueIds(blocks) && OpenPath(blocks, expanded, path) && |path| <= |blocks| && depth == |path|
    requires forall k :: 0 <= k < |siblings| ==> siblings[k] in blocks && siblings[k].parentId == PathParent(path)
    requires IsChain(blocks, expanded, c) && |path| < |c| && c[..|path|] == path && c[|path|] in siblings
    ensures FlatEntry(c[|c| - 1], |c| - 1) in WalkSiblings(blocks, expanded, siblings, depth, path)
    decreases |blocks| - |path|, 0, |siblings|
  {
    var b := siblings[0];
    WalkSiblingsCons(blocks, expanded, siblings, depth, path);
    if c[|path|] == b {
      if |c| == |path| + 1 {
        assert c[|c| - 1] == b;
      } else {
        SubRowsComplete(blocks, expanded, b, depth, path, c);
      }
    } else {
      assert c[|path|] in siblings[1..];
      WalkSiblingsComplete(blocks, expanded, siblings[1..], depth, path, c);
    }
  }

  lemma {:induction false} SubRowsComplete(blocks: seq<Block>, expanded: map<string, bool>, b: Block, depth: nat,
                                           path: seq<Block>, c: seq<Block>)
    requires UniqueIds(blocks) && OpenPath(blocks, expanded, path) && |path| <= |blocks| && depth == |path|
    requires b in blocks && b.parentId == PathParent(path)
    requires IsChain(blocks, expanded, c) && |path| + 1 < |c| && c[..|path|] == path && c[|path|] == b
    ensures FlatEntry(c[|c| - 1], |c| - 1) in SubRows(blocks, expanded, b, depth, path)
    decreases |blocks| - |path|, 0, 0
  {
    assert c[|path| + 1].parentId == Some(c[|path|].id) && IsExpanded(expanded, c[|path|].id);
    SubRowsOpen(blocks, expanded, b, depth, path);
    assert c[..|path| + 1] == c[..|path|] + [c[|path|]];
    ChildrenOfMembers(blocks, Some(b.id));
    WalkComplete(blocks, expanded, Some(b.id), depth + 1, path + [b], c);
  }

  /** Completeness of `walk(parentId, depth)`. */
  lemma {:induction false} WalkComplete(blocks: seq<Block>, expanded: map<string, bool>, parentId: Option<string>, depth: nat,
                                        path: seq<Block>, c: seq<Block>)
    requires UniqueIds(blocks) && OpenPath(blocks, expanded, path) && |path| <= |blocks|
    requires parentId == PathParent(path) && depth == |path|
    requires IsChain(blocks, expanded, c) && |path| < |c| && c[..|path|] == path && c[|path|] in ChildrenOf(blocks, parentId)
    ensures FlatEntry(c[|c| - 1], |c| - 1) in Walk(blocks, expanded, parentId, depth, path)
    decreases |blocks| - |path|, 1, 0
  {
    ChildrenOfMembers(blocks, parentId);
    assert Walk(blocks, expanded, parentId, depth, path)
        == WalkSiblings(blocks, expanded, ChildrenOf(blocks, parentId), depth, path);
    WalkSiblingsComplete(blocks, expanded, ChildrenOf(blocks, parentId), depth, path, c);
  }

  /**
   * Block `b` is visible at depth `d`: a chain of `d + 1` blocks leads from
   * a root down to it through expanded blocks only.
   */
  ghost predicate Visible(blocks: seq<Block>, expanded: map<string, bool>, b: Block, d: nat) {
    exists c :: IsChain(blocks, expanded, c) && |c| == d + 1 && c[|c| - 1] == b
  }

  /**
   * The rows are exactly the visible blocks at their depths: a block whose
   * way up to a root passes a collapsed block, or never reaches a root, is
   * not listed.
   */
  lemma FlattenVisibleExact(blocks: seq<Block>, expanded: map<string, bool>)
    requires UniqueIds(blocks)
    ensures forall e: FlatEntry :: e in FlattenVisible(blocks, expanded) <==> Visible(blocks, expanded, e.block, e.depth)
  {
    var r := FlattenVisible(blocks, expanded);
    WalkSound(blocks, expanded, None, 0, []);
    forall e | e in r ensures Visible(blocks, expanded, e.block, e.depth) {
      var i :| 0 <= i < |r| && r[i] == e;
      assert PlacedUnder(blocks, expanded, [], ChildrenOf(blocks, None), r[i]);
    }
    forall e: FlatEntry | Visible(blocks, expanded, e.block, e.depth) ensures e in r {
      var c :| IsChain(blocks, expanded, c) && |c| == e.depth + 1 && c[|c| - 1] == e.block;
      ChildrenOfMembers(blocks, None);
      assert c[0] in ChildrenOf(blocks, None);
      assert c[..0] == [];
      WalkComplete(blocks, expanded, None, 0, [], c);
    }
  }

  /** Every row deeper than `depth` has its parent's row earlier, one level up and expanded. */
  ghost predicate ParentsFirst(r: seq<FlatEntry>, expanded: map<string, bool>, depth: nat) {
    forall i :: 0 <= i < |r| && r[i].depth > depth ==> ParentRowBefore(r, expanded, i)
  }

  ghost predicate ParentRowBefore(r: seq<FlatEntry>, expanded: map<string, bool>, i: nat)
    requires i < |r|
  {
    exists j :: 0 <= j < i && r[i].block.parentId == Some(r[j].block.id)
      && r[j].depth + 1 == r[i].depth && IsExpanded(expanded, r[j].block.id)
  }

  lemma ParentRowShift(x: seq<FlatEntry>, y: seq<FlatEntry>, expanded: map<string, bool>, i: nat)
    requires i < |y| && ParentRowBefore(y, expanded, i)
    ensures ParentRowBefore(x + y, expanded, |x| + i)
  {
    var j :| 0 <= j < i && y[i].block.parentId == Some(y[j].block.id)
      && y[j].depth + 1 == y[i].depth && IsExpanded(expanded, y[j].block.id);
    assert (x + y)[|x| + j] == y[j] && (x + y)[|x| + i] == y[i];
  }

  lemma ParentRowExtend(x: seq<FlatEntry>, y: seq<FlatEntry>, expanded: map<string, bool>, i: nat)
    requires i < |x| && ParentRowBefore(x, expanded, i)
    ensures ParentRowBefore(x + y, expanded, i)
  {
    var j :| 0 <= j < i && x[i].block.parentId == Some(x[j].block.id)
      && x[j].depth + 1 == x[i].depth && IsExpanded(expanded, x[j].block.id);
    assert (x + y)[j] == x[j] && (x + y)[i] == x[i];
  }

  /** Parents first over one list of siblings: a row below the walk's level follows its parent's row. */
  lemma {:induction false} WalkSiblingsParentsFirst(blocks: seq<Block>, expanded: map<string, bool>, siblings: seq<Block>, depth: nat,
                                                    path: seq<Block>)
    requires UniqueIds(blocks) && OpenPath(blocks, expanded, path) && |path| <= |blocks| && depth == |path|
    requires forall k :: 0 <= k < |siblings| ==> siblings[k] in blocks && siblings[k].parentId == PathParent(path)
    ensures ParentsFirst(WalkSiblings(blocks, expanded, siblings, depth, path), expanded, depth)
    decreases |blocks| - |path|, 0, |siblings|
  {
    if |siblings| > 0 {
      var b := siblings[0];
      WalkSiblingsCons(blocks, expanded, siblings, depth, path);
      WalkSiblingsParentsFirst(blocks, expanded, siblings[1..], depth, path);
      SubRowsParentsFirst(blocks, expanded, b, depth, path);
      ParentsFirstJoin(expanded, b, depth, SubRows(blocks, expanded, b, depth, path),
                       WalkSiblings(blocks, expanded, siblings[1..], depth, path));
    }
  }

  lemma {:induction false} SubRowsParentsFirst(blocks: seq<Block>, expanded: map<string, bool>, b: Block, depth: nat, path: seq<Block>)
    requires UniqueIds(blocks) && OpenPath(blocks, expanded, path) && |path| <= |blocks| && depth == |path|
    requires b in blocks && b.parentId == PathParent(path)
    ensures ParentsFirst(SubRows(blocks, expanded, b, depth, path), expanded, depth + 1)
    decreases |blocks| - |path|, 0, 0
  {
    if IsExpanded(expanded, b.id) {
      SubRowsOpen(blocks, expanded, b, depth, path);
      WalkParentsFirst(blocks, expanded, Some(b.id), depth + 1, path + [b]);
    }
  }

  /** A row, the rows of its subtree (if any), then the rows of its later siblings. */
  lemma ParentsFirstJoin(expanded: map<string, bool>, b: Block, depth: nat, sub: seq<FlatEntry>, rest: seq<FlatEntry>)
    requires ParentsFirst(sub, expanded, depth + 1) && ParentsFirst(rest, expanded, depth)
    requires forall i :: 0 <= i < |sub| ==> sub[i].depth >= depth + 1
    requires forall i :: 0 <= i < |sub| && sub[i].depth == depth + 1 ==> sub[i].block.parentId == Some(b.id)
    requires |sub| > 0 ==> IsExpanded(expanded, b.id)
    ensures ParentsFirst([FlatEntry(b, depth)] + sub + rest, expanded, depth)
  {
    var head := [FlatEntry(b, depth)];
    var r := head + sub + rest;
    forall i | 0 <= i < |r| && r[i].depth > depth ensures ParentRowBefore(r, expanded, i) {
      if i < 1 + |sub| {
        assert i > 0 by {
          assert r[0] == FlatEntry(b, depth);
        }
        SubRowParent(expanded, b, depth, sub, i);
        ParentRowExtend(head + sub, rest, expanded, i);
      } else {
        RestRowParent(head + sub, rest, expanded, depth, i);
      }
    }
  }

  /** A deeper row among the later siblings' rows finds its parent among them. */
  lemma RestRowParent(x: seq<FlatEntry>, rest: seq<FlatEntry>, expanded: map<string, bool>, depth: nat, i: nat)
    requires ParentsFirst(rest, expanded, depth)
    requires |x| <= i < |x| + |rest| && (x + rest)[i].depth > depth
    ensures ParentRowBefore(x + rest, expanded, i)
  {
    var k := i - |x|;
    assert (x + rest)[i] == rest[k];
    assert ParentRowBefore(rest, expanded, k);
    ParentRowShift(x, rest, expanded, k);
  }

  lemma SubRowParent(expanded: map<string, bool>, b: Block, depth: nat, sub: seq<FlatEntry>, i: nat)
    requires ParentsFirst(sub, expanded, depth + 1)
    requires forall i :: 0 <= i < |sub| ==> sub[i].depth >= depth + 1
    requires forall i :: 0 <= i < |sub| && sub[i].depth == depth + 1 ==> sub[i].block.parentId == Some(b.id)
    requires |sub| > 0 ==> IsExpanded(expanded, b.id)
    requires 0 < i < 1 + |sub|
    ensures ParentRowBefore([FlatEntry(b, depth)] + sub, expanded, i)
  {
    if sub[i - 1].depth == depth + 1 {
      ParentRowHead(expanded, b, depth, sub, i);
    } else {
      ParentRowDeeper(expanded, b, depth, sub, i);
    }
  }

  /** A row two or more levels below the head finds its parent inside the sub-rows. */
  lemma ParentRowDeeper(expanded: map<string, bool>, b: Block, depth: nat, sub: seq<FlatEntry>, i: nat)
    requires ParentsFirst(sub, expanded, depth + 1)
    requires 0 < i < 1 + |sub| && sub[i - 1].depth > depth + 1
    ensures ParentRowBefore([FlatEntry(b, depth)] + sub, expanded, i)
  {
    var head := [FlatEntry(b, depth)];
    assert ParentRowBefore(sub, expanded, i - 1);
    ParentRowShift(head, sub, expanded, i - 1);
    assert |head| + (i - 1) == i;
  }

  /** A row one level below the head is a child of the head. */
  lemma ParentRowHead(expanded: map<string, bool>, b: Block, depth: nat, sub: seq<FlatEntry>, i: nat)
    requires 0 < i < 1 + |sub| && sub[i - 1].depth == depth + 1
    requires sub[i - 1].block.parentId == Some(b.id) && IsExpanded(expanded, b.id)
    ensures ParentRowBefore([FlatEntry(b, depth)] + sub, expanded, i)
  {
    var r := [FlatEntry(b, depth)] + sub;
    assert r[0] == FlatEntry(b, depth) && r[i] == sub[i - 1];
  }


  lemma {:induction false} WalkParentsFirst(blocks: seq<Block>, expanded: map<string, bool>, parentId: Option<string>, depth: nat,
                                            path: seq<Block>)
    requires UniqueIds(blocks) && OpenPath(blocks, expanded, path) && |path| <= |blocks|
    requires parentId == PathParent(path) && depth == |path|
    ensures ParentsFirst(Walk(blocks, expanded, parentId, depth, path), expanded, depth)
    decreases |blocks| - |path|, 1, 0
  {
    ChildrenOfMembers(blocks, parentId);
    assert Walk(blocks, expanded, parentId, depth, path)
        == WalkSiblings(blocks, expanded, ChildrenOf(blocks, parentId), depth, path);
    WalkSiblingsParentsFirst(blocks, expanded, ChildrenOf(blocks, parentId), depth, path);
  }

  /**
   * Parents first: every row below depth 0 comes after the row of its
   * parent, which is one level up and expanded.
   */
  lemma FlattenVisibleParentsFirst(blocks: seq<Block>, expanded: map<string, bool>)
    requires UniqueIds(blocks)
    ensures ParentsFirst(FlattenVisible(blocks, expanded), expanded, 0)
  {
    WalkParentsFirst(blocks, expanded, None, 0, []);
  }

  /** The blocks the walk lists one level below `b`: its children if it is expanded, none otherwise. */
  function Kids(blocks: seq<Block>, expanded: map<string, bool>, b: Block): seq<Block> {
    if IsExpanded(expanded, b.id) then ChildrenOf(blocks, Some(b.id)) else []
  }

  /**
   * Where the subtree of row `i` ends: the first later row that is not
   * deeper than row `i`, or the end of the list.
   */
  function SubtreeEnd(r: seq<FlatEntry>, i: nat): (n: nat)
    requires i < |r|
    ensures i < n <= |r|
    ensures forall j :: i < j < n ==> r[j].depth > r[i].depth
    ensures n < |r| ==> r[n].depth <= r[i].depth
  {
    ScanEnd(r, r[i].depth, i + 1)
  }

  function ScanEnd(r: seq<FlatEntry>, d: nat, j: nat): (n: nat)
    requires j <= |r|
    ensures j <= n <= |r|
    ensures forall k :: j <= k < n ==> r[k].depth > d
    ensures n < |r| ==> r[n].depth <= d
    decreases |r| - j
  {
    if j == |r| || r[j].depth <= d then j else ScanEnd(r, d, j + 1)
  }

  /** The end of a subtree is the one position its contract describes. */
  lemma EndIs(r: seq<FlatEntry>, i: nat, n: nat)
    requires i < n <= |r|
    requires forall j :: i < j < n ==> r[j].depth > r[i].depth
    requires n < |r| ==> r[n].depth <= r[i].depth
    ensures SubtreeEnd(r, i) == n
  {
  }

  /** The rows of the subtree of row `i`. */
  function Subtree(r: seq<FlatEntry>, i: nat): seq<FlatEntry>
    requires i < |r|
  {
    r[i + 1..SubtreeEnd(r, i)]
  }

  /** The rows of the subtree of row `i` list, one level down, the children of its block when it is expanded. */
  ghost predicate SubtreeOk(blocks: seq<Block>, expanded: map<string, bool>, r: seq<FlatEntry>, i: nat)
    requires i < |r|
  {
    RowsAt(Subtree(r, i), r[i].depth + 1) == Kids(blocks, expanded, r[i].block)
  }

  /** The depth rises by at most one from a row to the next. */
  ghost predicate DepthSteps(r: seq<FlatEntry>) {
    forall i :: 0 <= i < |r| - 1 ==> r[i + 1].depth <= r[i].depth + 1
  }

  /**
   * Pre-order: the depth rises by at most one from a row to the next, and
   * for every row the rows of its subtree (those after it and deeper than
   * it, up to the next row that is not) list, one level below it, exactly
   * the children of its block in list order when the block is expanded,
   * and nothing when it is not. So each block is followed by its whole
   * visible subtree before its next sibling, and siblings keep their list
   * order at every depth. A breadth-first listing does not qualify
   * (`ExampleBreadthFirst`).
   */
  ghost predicate PreOrder(blocks: seq<Block>, expanded: map<string, bool>, r: seq<FlatEntry>) {
    DepthSteps(r) && forall i :: 0 <= i < |r| ==> SubtreeOk(blocks, expanded, r, i)
  }

  /** A row of `y` keeps its subtree inside `p + y + q` when what follows `y` is not deeper than it. */
  lemma SubtreeOkInside(blocks: seq<Block>, expanded: map<string, bool>, p: seq<FlatEntry>, y: seq<FlatEntry>,
                        q: seq<FlatEntry>, k: nat)
    requires k < |y| && SubtreeOk(blocks, expanded, y, k)
    requires |q| > 0 ==> q[0].depth <= y[k].depth
    ensures SubtreeOk(blocks, expanded, p + y + q, |p| + k)
  {
    InsideSubtree(p, y, q, k);
  }

  /** The subtree of a row of `y` is the same inside `p + y + q` when what follows `y` is not deeper than it. */
  lemma InsideSubtree(p: seq<FlatEntry>, y: seq<FlatEntry>, q: seq<FlatEntry>, k: nat)
    requires k < |y|
    requires |q| > 0 ==> q[0].depth <= y[k].depth
    ensures (p + y + q)[|p| + k] == y[k]
    ensures Subtree(p + y + q, |p| + k) == Subtree(y, k)
  {
    var x := p + y + q;
    var m := SubtreeEnd(y, k);
    InsideEnd(p, y, q, k);
    assert x[|p| + k + 1..|p| + m] == y[k + 1..m];
  }

  lemma InsideEnd(p: seq<FlatEntry>, y: seq<FlatEntry>, q: seq<FlatEntry>, k: nat)
    requires k < |y|
    requires |q| > 0 ==> q[0].depth <= y[k].depth
    ensures (p + y + q)[|p| + k] == y[k]
    ensures SubtreeEnd(p + y + q, |p| + k) == |p| + SubtreeEnd(y, k)
  {
    var x := p + y + q;
    var m := SubtreeEnd(y, k);
    assert x[|p| + k] == y[k];
    forall j | |p| + k < j < |p| + m
      ensures x[j].depth > x[|p| + k].depth
    {
      assert x[j] == y[j - |p|];
    }
    if |p| + m < |x| {
      if m < |y| {
        assert x[|p| + m] == y[m];
      } else {
        assert x[|p| + m] == q[0];
      }
    }
    EndIs(x, |p| + k, |p| + m);
  }

  /** The head row of `[b] + sub + rest` has `sub` as its subtree. */
  lemma SubtreeOkHead(blocks: seq<Block>, expanded: map<string, bool>, b: Block, depth: nat,
                      sub: seq<FlatEntry>, rest: seq<FlatEntry>)
    requires forall i :: 0 <= i < |sub| ==> sub[i].depth > depth
    requires |rest| > 0 ==> rest[0].depth == depth
    requires RowsAt(sub, depth + 1) == Kids(blocks, expanded, b)
    ensures SubtreeOk(blocks, expanded, [FlatEntry(b, depth)] + sub + rest, 0)
  {
    var x := [FlatEntry(b, depth)] + sub + rest;
    HeadSubtree(b, depth, sub, rest);
    assert x[0].block == b && x[0].depth + 1 == depth + 1;
    assert RowsAt(Subtree(x, 0), x[0].depth + 1) == RowsAt(sub, depth + 1);
  }

  /** The subtree of the head row of `[b] + sub + rest` is `sub`. */
  lemma HeadSubtree(b: Block, depth: nat, sub: seq<FlatEntry>, rest: seq<FlatEntry>)
    requires forall i :: 0 <= i < |sub| ==> sub[i].depth > depth
    requires |rest| > 0 ==> rest[0].depth == depth
    ensures var x := [FlatEntry(b, depth)] + sub + rest;
      x[0] == FlatEntry(b, depth) && Subtree(x, 0) == sub
  {
    var x := [FlatEntry(b, depth)] + sub + rest;
    forall j | 0 < j < 1 + |sub| ensures x[j].depth > depth {
      assert x[j] == sub[j - 1];
    }
    if |rest| > 0 {
      assert x[1 + |sub|] == rest[0];
    }
    EndIs(x, 0, 1 + |sub|);
    assert x[1..1 + |sub|] == sub;
  }

  lemma DepthStepsJoin(b: Block, depth: nat, sub: seq<FlatEntry>, rest: seq<FlatEntry>)
    requires DepthSteps(sub) && DepthSteps(rest)
    requires forall i :: 0 <= i < |sub| ==> sub[i].depth > depth
    requires |sub| > 0 ==> sub[0].depth == depth + 1
    requires |rest| > 0 ==> rest[0].depth == depth
    ensures DepthSteps([FlatEntry(b, depth)] + sub + rest)
  {
    var x := [FlatEntry(b, depth)] + sub + rest;
    forall i | 0 <= i < |x| - 1 ensures x[i + 1].depth <= x[i].depth + 1 {
      if i < |sub| {
        if i == 0 {
          assert x[0].depth == depth && x[1] == sub[0];
        } else {
          assert x[i] == sub[i - 1] && x[i + 1] == sub[i];
        }
      } else if i == |sub| {
        assert x[i + 1] == rest[0];
        if i > 0 {
          assert x[i] == sub[i - 1];
        }
      } else {
        assert x[i] == rest[i - 1 - |sub|] && x[i + 1] == rest[i - |sub|];
      }
    }
  }

  /** A row, its subtree rows, then the rows of its later siblings. */
  lemma PreOrderJoin(blocks: seq<Block>, expanded: map<string, bool>, b: Block, depth: nat,
                     sub: seq<FlatEntry>, rest: seq<FlatEntry>)
    requires PreOrder(blocks, expanded, sub) && PreOrder(blocks, expanded, rest)
    requires forall i :: 0 <= i < |sub| ==> sub[i].depth > depth
    requires |sub| > 0 ==> sub[0].depth == depth + 1
    requires |rest| > 0 ==> rest[0].depth == depth
    requires RowsAt(sub, depth + 1) == Kids(blocks, expanded, b)
    ensures PreOrder(blocks, expanded, [FlatEntry(b, depth)] + sub + rest)
  {
    var x := [FlatEntry(b, depth)] + sub + rest;
    DepthStepsJoin(b, depth, sub, rest);
    forall i | 0 <= i < |x| ensures SubtreeOk(blocks, expanded, x, i) {
      JoinRow(blocks, expanded, b, depth, sub, rest, i);
    }
  }

  lemma JoinRow(blocks: seq<Block>, expanded: map<string, bool>, b: Block, depth: nat,
                sub: seq<FlatEntry>, rest: seq<FlatEntry>, i: nat)
    requires forall i :: 0 <= i < |sub| ==> SubtreeOk(blocks, expanded, sub, i)
    requires forall i :: 0 <= i < |rest| ==> SubtreeOk(blocks, expanded, rest, i)
    requires forall i :: 0 <= i < |sub| ==> sub[i].depth > depth
    requires |rest| > 0 ==> rest[0].depth == depth
    requires RowsAt(sub, depth + 1) == Kids(blocks, expanded, b)
    requires i < 1 + |sub| + |rest|
    ensures SubtreeOk(blocks, expanded, [FlatEntry(b, depth)] + sub + rest, i)
  {
    if i == 0 {
      SubtreeOkHead(blocks, expanded, b, depth, sub, rest);
    } else if i <= |sub| {
      JoinSubRow(blocks, expanded, b, depth, sub, rest, i);
    } else {
      JoinRestRow(blocks, expanded, b, depth, sub, rest, i);
    }
  }

  /** A row of the subtree keeps its own subtree, which ends before the next sibling's row. */
  lemma JoinSubRow(blocks: seq<Block>, expanded: map<string, bool>, b: Block, depth: nat,
                   sub: seq<FlatEntry>, rest: seq<FlatEntry>, i: nat)
    requires forall i :: 0 <= i < |sub| ==> SubtreeOk(blocks, expanded, sub, i)
    requires forall i :: 0 <= i < |sub| ==> sub[i].depth > depth
    requires |rest| > 0 ==> rest[0].depth == depth
    requires 0 < i <= |sub|
    ensures SubtreeOk(blocks, expanded, [FlatEntry(b, depth)] + sub + rest, i)
  {
    var h := [FlatEntry(b, depth)];
    SubtreeOkInside(blocks, expanded, h, sub, rest, i - 1);
    assert |h| + (i - 1) == i;
  }

  /** A row of a later sibling's rows keeps its subtree. */
  lemma JoinRestRow(blocks: seq<Block>, expanded: map<string, bool>, b: Block, depth: nat,
                    sub: seq<FlatEntry>, rest: seq<FlatEntry>, i: nat)
    requires forall i :: 0 <= i < |rest| ==> SubtreeOk(blocks, expanded, rest, i)
    requires |sub| < i < 1 + |sub| + |rest|
    ensures SubtreeOk(blocks, expanded, [FlatEntry(b, depth)] + sub + rest, i)
  {
    var h := [FlatEntry(b, depth)];
    var k := i - 1 - |sub|;
    SubtreeOkSuffix(blocks, expanded, h + sub, rest, k);
    assert |h + sub| + k == i;
  }

  /** A row of `y` keeps its subtree inside `p + y`. */
  lemma SubtreeOkSuffix(blocks: seq<Block>, expanded: map<string, bool>, p: seq<FlatEntry>, y: seq<FlatEntry>, k: nat)
    requires k < |y| && SubtreeOk(blocks, expanded, y, k)
    ensures SubtreeOk(blocks, expanded, p + y, |p| + k)
  {
    SubtreeOkInside(blocks, expanded, p, y, [], k);
    assert p + y + [] == p + y;
  }

  lemma {:induction false} WalkSiblingsPreOrder(blocks: seq<Block>, expanded: map<string, bool>, siblings: seq<Block>, depth: nat,
                                                path: seq<Block>)
    requires UniqueIds(blocks) && OpenPath(blocks, expanded, path) && |path| <= |blocks| && depth == |path|
    requires forall k :: 0 <= k < |siblings| ==> siblings[k] in blocks && siblings[k].parentId == PathParent(path)
    ensures var r := WalkSiblings(blocks, expanded, siblings, depth, path);
      PreOrder(blocks, expanded, r) && (|r| > 0 ==> r[0].depth == depth)
    decreases |blocks| - |path|, 0, |siblings|
  {
    if |siblings| > 0 {
      var b := siblings[0];
      WalkSiblingsCons(blocks, expanded, siblings, depth, path);
      WalkSiblingsPreOrder(blocks, expanded, siblings[1..], depth, path);
      SubRowsPreOrder(blocks, expanded, b, depth, path);
      PreOrderJoin(blocks, expanded, b, depth, SubRows(blocks, expanded, b, depth, path),
                   WalkSiblings(blocks, expanded, siblings[1..], depth, path));
    }
  }

  lemma {:induction false} SubRowsPreOrder(blocks: seq<Block>, expanded: map<string, bool>, b: Block, depth: nat, path: seq<Block>)
    requires UniqueIds(blocks) && OpenPath(blocks, expanded, path) && |path| <= |blocks| && depth == |path|
    requires b in blocks && b.parentId == PathParent(path)
    ensures var s := SubRows(blocks, expanded, b, depth, path);
      && PreOrder(blocks, expanded, s) && (|s| > 0 ==> s[0].depth == depth + 1)
      && RowsAt(s, depth + 1) == Kids(blocks, expanded, b)
    decreases |blocks| - |path|, 0, 0
  {
    if IsExpanded(expanded, b.id) {
      SubRowsOpen(blocks, expanded, b, depth, path);
      var q := path + [b];
      var kids := ChildrenOf(blocks, Some(b.id));
      ChildrenOfMembers(blocks, Some(b.id));
      assert Walk(blocks, expanded, Some(b.id), depth + 1, q) == WalkSiblings(blocks, expanded, kids, depth + 1, q);
      WalkSiblingsPreOrder(blocks, expanded, kids, depth + 1, q);
      WalkSiblingsTopRows(blocks, expanded, kids, depth + 1, q);
    }
  }

  /** The walk lists its rows in pre-order (`PreOrder`), starting at depth 0. */
  lemma FlattenVisiblePreOrder(blocks: seq<Block>, expanded: map<string, bool>)
    requires UniqueIds(blocks)
    ensures var r := FlattenVisible(blocks, expanded);
      (|r| > 0 ==> r[0].depth == 0) && PreOrder(blocks, expanded, r)
  {
    WalkPreOrder(blocks, expanded, None, 0, []);
  }

  lemma WalkPreOrder(blocks: seq<Block>, expanded: map<string, bool>, parentId: Option<string>, depth: nat,
                     path: seq<Block>)
    requires UniqueIds(blocks) && OpenPath(blocks, expanded, path) && |path| <= |blocks|
    requires parentId == PathParent(path) && depth == |path|
    ensures var r := Walk(blocks, expanded, parentId, depth, path);
      PreOrder(blocks, expanded, r) && (|r| > 0 ==> r[0].depth == depth)
  {
    ChildrenOfMembers(blocks, parentId);
    assert Walk(blocks, expanded, parentId, depth, path)
        == WalkSiblings(blocks, expanded, ChildrenOf(blocks, parentId), depth, path);
    WalkSiblingsPreOrder(blocks, expanded, ChildrenOf(blocks, parentId), depth, path);
  }

  /** Two expanded sections, `a` and `b`, each with one topic. */
  const ExA := Block("a", Section, None, 0, "x")
  const ExB := Block("b", Section, None, 1, "y")
  const ExA1 := Block("a1", Topic, Some("a"), 0, "z")
  const ExB1 := Block("b1", Topic, Some("b"), 0, "w")
  const ExBlocks := [ExA, ExB, ExA1, ExB1]
  const ExExpanded := map["a" := true, "b" := true]

  lemma ExampleChildren()
    ensures UniqueIds(ExBlocks)
    ensures ChildrenOf(ExBlocks, None) == [ExA, ExB]
    ensures ChildrenOf(ExBlocks, Some("a")) == [ExA1] && ChildrenOf(ExBlocks, Some("b")) == [ExB1]
  {
    ExampleChildrenOf(None);
    ExampleChildrenOf(Some("a"));
    ExampleChildrenOf(Some("b"));
  }

  /** `ExBlocks` read from the back: each step puts one block in front. */
  lemma ExampleChildrenOf(p: Option<string>)
    ensures ChildrenOf(ExBlocks, p)
      == (if p == None then [ExA, ExB] else if p == Some("a") then [ExA1] else if p == Some("b") then [ExB1] else [])
  {
    var t1, t2, t3 := [ExB1], [ExA1, ExB1], [ExB, ExA1, ExB1];
    assert t1 == [ExB1] + [] && t2 == [ExA1] + t1 && t3 == [ExB] + t2 && ExBlocks == [ExA] + t3;
    ChildrenOfCons(ExB1, [], p);
    assert ChildrenOf(t1, p) == if p == Some("b") then [ExB1] else [];
    ChildrenOfCons(ExA1, t1, p);
    assert ChildrenOf(t2, p) == if p == Some("a") then [ExA1] else if p == Some("b") then [ExB1] else [];
    ChildrenOfCons(ExB, t2, p);
    ChildrenOfCons(ExA, t3, p);
  }

  /** Below an expanded root with one collapsed child, the walk lists that child alone. */
  lemma OneCollapsedChild(blocks: seq<Block>, expanded: map<string, bool>, s: Block, t: Block)
    requires UniqueIds(blocks) && s in blocks && s.parentId == None && IsExpanded(expanded, s.id)
    requires ChildrenOf(blocks, Some(s.id)) == [t] && !IsExpanded(expanded, t.id)
    ensures SubRows(blocks, expanded, s, 0, []) == [FlatEntry(t, 1)]
  {
    ChildrenOfMembers(blocks, Some(s.id));
    assert t in ChildrenOf(blocks, Some(s.id));
    SubRowsOpen(blocks, expanded, s, 0, []);
    assert [] + [s] == [s];
    assert Walk(blocks, expanded, Some(s.id), 1, [s]) == WalkSiblings(blocks, expanded, [t], 1, [s]);
    WalkSiblingsCons(blocks, expanded, [t], 1, [s]);
    assert SubRows(blocks, expanded, t, 1, [s]) == [];
    assert [t][1..] == [];
    assert WalkSiblings(blocks, expanded, [], 1, [s]) == [];
  }

  /** The walk lists each section followed by its topic. */
  lemma ExampleWalk()
    ensures UniqueIds(ExBlocks)
    ensures FlattenVisible(ExBlocks, ExExpanded) == [FlatEntry(ExA, 0), FlatEntry(ExA1, 1), FlatEntry(ExB, 0), FlatEntry(ExB1, 1)]
  {
    ExampleChildren();
    OneCollapsedChild(ExBlocks, ExExpanded, ExA, ExA1);
    OneCollapsedChild(ExBlocks, ExExpanded, ExB, ExB1);
    assert WalkSiblings(ExBlocks, ExExpanded, [], 0, []) == [];
    assert WalkSiblings(ExBlocks, ExExpanded, [ExB], 0, []) == [FlatEntry(ExB, 0), FlatEntry(ExB1, 1)];
    assert [ExA, ExB][1..] == [ExB];
    assert FlattenVisible(ExBlocks, ExExpanded) == WalkSiblings(ExBlocks, ExExpanded, [ExA, ExB], 0, []);
  }

  const ExProto := Block("toString", Section, None, 0, "x")
  const ExProtoChild := Block("t", Topic, Some("toString"), 0, "y")

  /**
   * With no flags at all, a block whose id is `toString` still reads as
   * expanded (the inherited method is truthy), so its child is listed.
   */
  lemma ExampleInheritedFlag()
    ensures FlattenVisible([ExProto, ExProtoChild], map[]) == [FlatEntry(ExProto, 0), FlatEntry(ExProtoChild, 1)]
  {
    var blocks := [ExProto, ExProtoChild];
    ChildrenOfCons(ExProto, [ExProtoChild], None);
    ChildrenOfCons(ExProto, [ExProtoChild], Some("toString"));
    ChildrenOfCons(ExProtoChild, [], None);
    ChildrenOfCons(ExProtoChild, [], Some("toString"));
    assert [ExProtoChild] + [] == [ExProtoChild];
    assert ChildrenOf(blocks, None) == [ExProto];
    assert ChildrenOf(blocks, Some("toString")) == [ExProtoChild];
    assert UniqueIds(blocks);
    OneCollapsedChild(blocks, map[], ExProto, ExProtoChild);
    assert [ExProto][1..] == [];
    assert WalkSiblings(blocks, map[], [], 0, []) == [];
    assert FlattenVisible(blocks, map[]) == WalkSiblings(blocks, map[], [ExProto], 0, []);
  }

  /** Listing both sections before either topic (breadth first) is not pre-order. */
  lemma ExampleBreadthFirst()
    ensures !PreOrder(ExBlocks, ExExpanded, [FlatEntry(ExA, 0), FlatEntry(ExB, 0), FlatEntry(ExA1, 1), FlatEntry(ExB1, 1)])
  {
    var bf := [FlatEntry(ExA, 0), FlatEntry(ExB, 0), FlatEntry(ExA1, 1), FlatEntry(ExB1, 1)];
    ExampleChildren();
    EndIs(bf, 0, 1);
    assert Subtree(bf, 0) == [];
    assert !SubtreeOk(ExBlocks, ExExpanded, bf, 0);
  }

  lemma ChildrenOfCons(h: Block, t: seq<Block>, p: Option<string>)
    ensures ChildrenOf([h] + t, p) == (if h.parentId == p then [h] else []) + ChildrenOf(t, p)
  {
    assert ([h] + t)[1..] == t;
  }

  /** No block is listed in two rows. */
  ghost predicate RowsDistinct(r: seq<FlatEntry>) {
    forall i, j :: 0 <= i < j < |r| ==> r[i].block != r[j].block
  }

  ghost predicate AllPlaced(blocks: seq<Block>, expanded: map<string, bool>, path: seq<Block>, siblings: seq<Block>, r: seq<FlatEntry>) {
    forall i :: 0 <= i < |r| ==> PlacedUnder(blocks, expanded, path, siblings, r[i])
  }

  /** Rows under the first sibling never repeat the sibling itself: their chains are longer. */
  lemma HeadNotInSub(blocks: seq<Block>, expanded: map<string, bool>, path: seq<Block>, b: Block, sub: seq<FlatEntry>)
    requires UniqueIds(blocks) && OpenPath(blocks, expanded, path) && b in blocks && b.parentId == PathParent(path)
    requires AllPlaced(blocks, expanded, path + [b], ChildrenOf(blocks, Some(b.id)), sub)
    ensures forall j :: 0 <= j < |sub| ==> sub[j].block != b
  {
    ExtendChain(blocks, expanded, path, b);
    var h := path + [b];
    forall j | 0 <= j < |sub| ensures sub[j].block != b {
      assert PlacedUnder(blocks, expanded, h, ChildrenOf(blocks, Some(b.id)), sub[j]);
      var c :| IsChain(blocks, expanded, c) && |c| == sub[j].depth + 1 && |h| < |c|
        && c[|c| - 1] == sub[j].block && c[..|h|] == h && c[|h|] in ChildrenOf(blocks, Some(b.id));
      ChainUnique(blocks, expanded, h, c);
    }
  }

  /** Rows under later siblings never repeat the first sibling. */
  lemma HeadNotInRest(blocks: seq<Block>, expanded: map<string, bool>, path: seq<Block>, siblings: seq<Block>, rest: seq<FlatEntry>)
    requires UniqueIds(blocks) && OpenPath(blocks, expanded, path) && |siblings| > 0 && UniqueIds(siblings)
    requires siblings[0] in blocks && siblings[0].parentId == PathParent(path)
    requires AllPlaced(blocks, expanded, path, siblings[1..], rest)
    ensures forall j :: 0 <= j < |rest| ==> rest[j].block != siblings[0]
  {
    var b := siblings[0];
    ExtendChain(blocks, expanded, path, b);
    var h := path + [b];
    UniqueIdsTail(siblings);
    forall j | 0 <= j < |rest| ensures rest[j].block != b {
      assert PlacedUnder(blocks, expanded, path, siblings[1..], rest[j]);
      var c :| IsChain(blocks, expanded, c) && |c| == rest[j].depth + 1 && |path| < |c|
        && c[|c| - 1] == rest[j].block && c[..|path|] == path && c[|path|] in siblings[1..];
      assert c[|path|] != h[|path|];
      ChainUnique(blocks, expanded, h, c);
    }
  }

  /** Rows under the first sibling and rows under later siblings are different blocks. */
  lemma SubNotInRest(blocks: seq<Block>, expanded: map<string, bool>, path: seq<Block>, siblings: seq<Block>,
                     sub: seq<FlatEntry>, rest: seq<FlatEntry>)
    requires UniqueIds(blocks) && |siblings| > 0 && UniqueIds(siblings)
    requires AllPlaced(blocks, expanded, path + [siblings[0]], ChildrenOf(blocks, Some(siblings[0].id)), sub)
    requires AllPlaced(blocks, expanded, path, siblings[1..], rest)
    ensures forall i, j :: 0 <= i < |sub| && 0 <= j < |rest| ==> sub[i].block != rest[j].block
  {
    var b := siblings[0];
    var h := path + [b];
    UniqueIdsTail(siblings);
    forall i, j | 0 <= i < |sub| && 0 <= j < |rest| ensures sub[i].block != rest[j].block {
      assert PlacedUnder(blocks, expanded, h, ChildrenOf(blocks, Some(b.id)), sub[i]);
      var c1 :| IsChain(blocks, expanded, c1) && |c1| == sub[i].depth + 1 && |h| < |c1|
        && c1[|c1| - 1] == sub[i].block && c1[..|h|] == h && c1[|h|] in ChildrenOf(blocks, Some(b.id));
      assert PlacedUnder(blocks, expanded, path, siblings[1..], rest[j]);
      var c2 :| IsChain(blocks, expanded, c2) && |c2| == rest[j].depth + 1 && |path| < |c2|
        && c2[|c2| - 1] == rest[j].block && c2[..|path|] == path && c2[|path|] in siblings[1..];
      assert c1[|path|] == h[|path|] == b;
      assert c1[|path|] != c2[|path|];
      ChainUnique(blocks, expanded, c1, c2);
    }
  }

  lemma RowsDistinctJoin(b: Block, depth: nat, sub: seq<FlatEntry>, rest: seq<FlatEntry>)
    requires RowsDistinct(sub) && RowsDistinct(rest)
    requires forall j :: 0 <= j < |sub| ==> sub[j].block != b
    requires forall j :: 0 <= j < |rest| ==> rest[j].block != b
    requires forall i, j :: 0 <= i < |sub| && 0 <= j < |rest| ==> sub[i].block != rest[j].block
    ensures RowsDistinct([FlatEntry(b, depth)] + sub + rest)
  {
    var r := [FlatEntry(b, depth)] + sub + rest;
    forall i, j | 0 <= i < j < |r| ensures r[i].block != r[j].block {
      if i == 0 {
        if j < 1 + |sub| {
          assert r[j] == sub[j - 1];
        } else {
          assert r[j] == rest[j - 1 - |sub|];
        }
      } else if i < 1 + |sub| {
        assert r[i] == sub[i - 1];
        if j < 1 + |sub| {
          assert r[j] == sub[j - 1];
        } else {
          assert r[j] == rest[j - 1 - |sub|];
        }
      } else {
        assert r[i] == rest[i - 1 - |sub|] && r[j] == rest[j - 1 - |sub|];
      }
    }
  }

  /** Within one list of distinct siblings, no block is listed twice. */
  lemma {:induction false} WalkSiblingsDistinct(blocks: seq<Block>, expanded: map<string, bool>, siblings: seq<Block>, depth: nat,
                                                path: seq<Block>)
    requires UniqueIds(blocks) && OpenPath(blocks, expanded, path) && |path| <= |blocks| && depth == |path|
    requires forall k :: 0 <= k < |siblings| ==> siblings[k] in blocks && siblings[k].parentId == PathParent(path)
    requires UniqueIds(siblings)
    ensures RowsDistinct(WalkSiblings(blocks, expanded, siblings, depth, path))
    decreases |blocks| - |path|, 0, |siblings|
  {
    if |siblings| > 0 {
      var b := siblings[0];
      var sub := SubRows(blocks, expanded, b, depth, path);
      var rest := WalkSiblings(blocks, expanded, siblings[1..], depth, path);
      WalkSiblingsCons(blocks, expanded, siblings, depth, path);
      UniqueIdsTail(siblings);
      WalkSiblingsDistinct(blocks, expanded, siblings[1..], depth, path);
      WalkSiblingsSound(blocks, expanded, siblings[1..], depth, path);
      assert AllPlaced(blocks, expanded, path, siblings[1..], rest);
      HeadNotInRest(blocks, expanded, path, siblings, rest);
      SubRowsDistinct(blocks, expanded, b, depth, path);
      HeadNotInSub(blocks, expanded, path, b, sub);
      SubNotInRest(blocks, expanded, path, siblings, sub, rest);
      RowsDistinctJoin(b, depth, sub, rest);
    }
  }

  /** The rows below one sibling repeat no block, and each sits under that sibling. */
  lemma {:induction false} SubRowsDistinct(blocks: seq<Block>, expanded: map<string, bool>, b: Block, depth: nat, path: seq<Block>)
    requires UniqueIds(blocks) && OpenPath(blocks, expanded, path) && |path| <= |blocks| && depth == |path|
    requires b in blocks && b.parentId == PathParent(path)
    ensures RowsDistinct(SubRows(blocks, expanded, b, depth, path))
    ensures AllPlaced(blocks, expanded, path + [b], ChildrenOf(blocks, Some(b.id)), SubRows(blocks, expanded, b, depth, path))
    decreases |blocks| - |path|, 0, 0
  {
    if IsExpanded(expanded, b.id) {
      SubRowsOpen(blocks, expanded, b, depth, path);
      WalkDistinct(blocks, expanded, Some(b.id), depth + 1, path + [b]);
      WalkSound(blocks, expanded, Some(b.id), depth + 1, path + [b]);
    }
  }

  lemma {:induction false} WalkDistinct(blocks: seq<Block>, expanded: map<string, bool>, parentId: Option<string>, depth: nat,
                                        path: seq<Block>)
    requires UniqueIds(blocks) && OpenPath(blocks, expanded, path) && |path| <= |blocks|
    requires parentId == PathParent(path) && depth == |path|
    ensures RowsDistinct(Walk(blocks, expanded, parentId, depth, path))
    decreases |blocks| - |path|, 1, 0
  {
    ChildrenOfMembers(blocks, parentId);
    ChildrenOfUnique(blocks, parentId);
    assert Walk(blocks, expanded, parentId, depth, path)
        == WalkSiblings(blocks, expanded, ChildrenOf(blocks, parentId), depth, path);
    WalkSiblingsDistinct(blocks, expanded, ChildrenOf(blocks, parentId), depth, path);
  }

  /** With unique ids each block is listed at most once, so there are never more rows than blocks. */
  lemma FlattenVisibleDistinct(blocks: seq<Block>, expanded: map<string, bool>)
    requires UniqueIds(blocks)
    ensures RowsDistinct(FlattenVisible(blocks, expanded))
    ensures |FlattenVisible(blocks, expanded)| <= |blocks|
  {
    var r := FlattenVisible(blocks, expanded);
    WalkDistinct(blocks, expanded, None, 0, []);
    var bs := RowBlocks(r);
    assert Distinct(bs);
    DistinctLength(bs, blocks);
  }
}
