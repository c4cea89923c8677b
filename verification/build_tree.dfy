/**
 * `buildTree` of app/utils/serializer.ts. The TypeScript builds a graph of
 * mutable node objects; the model returns it flat: the node table in the
 * `Map`'s insertion order, each node naming its children by id, and the
 * sorted root nodes.
 */
module BuildTree {
  import opened Wrappers
  import opened BlockModel
  import opened Sorting

  /** `find` on a list extended at the end. */
  lemma {:induction false} FindSnoc(p: seq<Block>, x: Block, id: string)
    ensures Find(p + [x], id) == if Find(p, id).Some? then Find(p, id) else if x.id == id then Some(x) else None
  {
    if |p| > 0 {
      assert (p + [x])[1..] == p[1..] + [x];
      FindSnoc(p[1..], x, id);
    }
  }

  /**
   * The table built by the first loop, which skips an id already in the
   * table: each id keeps its first block, and ids appear in first-seen
   * order (`FirstWinsOrder`). Lookups in the table agree with `find` on the
   * input.
   */
  function FirstWins(s: seq<Block>): (r: seq<Block>)
    ensures UniqueIds(r)
    ensures |r| <= |s|
    ensures forall id :: Find(r, id) == Find(s, id)
  {
    if |s| == 0 then []
    else
      var p := s[..|s| - 1];
      var x := s[|s| - 1];
      var t := FirstWins(p);
      assert s == p + [x];
      forall id ensures Find(s, id) == if Find(t, id).Some? then Find(t, id) else if x.id == id then Some(x) else None {
        FindSnoc(p, x, id);
      }
      if Find(t, x.id).Some? then t
      else
        forall id ensures Find(t + [x], id) == if Find(t, id).Some? then Find(t, id) else if x.id == id then Some(x) else None {
          FindSnoc(t, x, id);
        }
        t + [x]
  }

  /** The blocks of `r` come in the order their ids first appear in `s`. */
  ghost predicate FirstSeenOrder(s: seq<Block>, r: seq<Block>) {
    forall i, j :: 0 <= i < j < |r| ==> 0 <= FindIndex(s, r[i].id) < FindIndex(s, r[j].id)
  }

  /** The kept blocks come in the order their ids first appear in the input. */
  lemma {:induction false} FirstWinsOrder(s: seq<Block>)
    ensures FirstSeenOrder(s, FirstWins(s))
  {
    if |s| > 0 {
      var n := |s| - 1;
      var p, x := s[..n], s[n];
      var t := FirstWins(p);
      FirstWinsOrder(p);
      assert s == p + [x];
      OrderSnoc(p, x, t);
      if Find(t, x.id).None? {
        FindIndexAgreesWithFind(p, x.id);
        FindIndexSnoc(p, x, x.id);
        OrderAppend(p + [x], t, x);
      }
    }
  }

  /** Appending a block to the input keeps the order of what was kept before it. */
  lemma OrderSnoc(p: seq<Block>, x: Block, t: seq<Block>)
    requires t == FirstWins(p) && FirstSeenOrder(p, t)
    ensures FirstSeenOrder(p + [x], t)
    ensures forall i :: 0 <= i < |t| ==> 0 <= FindIndex(p + [x], t[i].id) < |p|
  {
    forall i | 0 <= i < |t| ensures 0 <= FindIndex(p + [x], t[i].id) == FindIndex(p, t[i].id) < |p| {
      KeptSnoc(p, x, i);
    }
    forall i, j | 0 <= i < j < |t| ensures 0 <= FindIndex(p + [x], t[i].id) < FindIndex(p + [x], t[j].id) {
      assert FindIndex(p, t[i].id) < FindIndex(p, t[j].id);
    }
  }

  lemma KeptSnoc(p: seq<Block>, x: Block, i: nat)
    requires i < |FirstWins(p)|
    ensures var id := FirstWins(p)[i].id;
      0 <= FindIndex(p + [x], id) == FindIndex(p, id) < |p|
  {
    KeptIsFound(p, i);
    FindIndexSnoc(p, x, FirstWins(p)[i].id);
  }

  /** A block whose id is first seen after every kept id may go last. */
  lemma OrderAppend(s: seq<Block>, t: seq<Block>, x: Block)
    requires FirstSeenOrder(s, t)
    requires forall i :: 0 <= i < |t| ==> 0 <= FindIndex(s, t[i].id) < FindIndex(s, x.id)
    ensures FirstSeenOrder(s, t + [x])
  {
    var r := t + [x];
    forall i, j | 0 <= i < j < |r| ensures 0 <= FindIndex(s, r[i].id) < FindIndex(s, r[j].id) {
      assert r[i] == t[i];
      if j < |t| {
        assert r[j] == t[j];
      } else {
        assert r[j] == x;
      }
    }
  }

  /** An id kept by `FirstWins` occurs in its input. */
  lemma KeptIsFound(s: seq<Block>, i: nat)
    requires i < |FirstWins(s)|
    ensures FindIndex(s, FirstWins(s)[i].id) >= 0
  {
    var t := FirstWins(s);
    FindIndexAgreesWithFind(t, t[i].id);
    FindIndexAgreesWithFind(s, t[i].id);
  }

  /** Appending a block moves no first occurrence; its own id is found there only if it is new. */
  lemma FindIndexSnoc(p: seq<Block>, x: Block, id: string)
    ensures FindIndex(p + [x], id)
      == if FindIndex(p, id) >= 0 then FindIndex(p, id) else if x.id == id then |p| else -1
  {
    var q := p + [x];
    assert forall k :: 0 <= k < |p| ==> q[k] == p[k];
    assert q[|p|] == x;
  }

  /** `node.parentId && map.has(node.parentId)`: the node hangs below a node of the table. */
  predicate Linked(nodes: seq<Block>, j: nat)
    requires j < |nodes|
  {
    HasParent(nodes[j]) && Find(nodes, nodes[j].parentId.value).Some?
  }

  /**
   * The depth the second loop gives node `j`: one more than its parent's
   * depth at that moment. The parent's depth is final only if the parent
   * came earlier in the table; otherwise it is still the initial 0.
   */
  function Depth(nodes: seq<Block>, j: nat): (d: nat)
    requires j < |nodes|
    ensures d == 0 <==> !Linked(nodes, j)
    decreases j
  {
    if !Linked(nodes, j) then 0
    else
      var p := FindIndex(nodes, nodes[j].parentId.value);
      (if p < j then Depth(nodes, p) else 0) + 1
  }

  /** The ids pushed onto the `children` of the node with this id, in table order. */
  function ChildIds(nodes: seq<Block>, id: string): (r: seq<string>)
    ensures forall c :: c in r <==> exists k :: 0 <= k < |nodes| && nodes[k].id == c && HasParent(nodes[k]) && nodes[k].parentId.value == id
  {
    if |nodes| == 0 then []
    else
      var rest := ChildIds(nodes[1..], id);
      assert forall k :: 0 <= k < |nodes| - 1 ==> nodes[1..][k] == nodes[k + 1];
      (if HasParent(nodes[0]) && nodes[0].parentId.value == id then [nodes[0].id] else []) + rest
  }

  /** The nodes the second loop pushes onto `roots`, in table order, from position `i` on. */
  function Unlinked(nodes: seq<Block>, i: nat): (r: seq<Block>)
    requires i <= |nodes|
    ensures forall b :: b in r <==> exists j :: i <= j < |nodes| && nodes[j] == b && !Linked(nodes, j)
    decreases |nodes| - i
  {
    if i == |nodes| then []
    else (if !Linked(nodes, i) then [nodes[i]] else []) + Unlinked(nodes, i + 1)
  }

  /** A node of the result: the block's fields, the children's ids, the depth. */
  datatype TreeNode = TreeNode(block: Block, children: seq<string>, depth: nat)

  /** Every node in table order, and the root nodes `buildTree` returns. */
  datatype Forest = Forest(table: seq<TreeNode>, roots: seq<TreeNode>)

  function Node(nodes: seq<Block>, j: nat): TreeNode
    requires j < |nodes|
  {
    TreeNode(nodes[j], ChildIds(nodes, nodes[j].id), Depth(nodes, j))
  }

  /** `buildTree(blocks, extraBlocks)`: the roots come out depth 0 and sorted by `order`. */
  function Build(blocks: seq<Block>, extra: seq<Block>): (f: Forest)
    ensures forall j :: 0 <= j < |f.roots| ==> f.roots[j].depth == 0
    ensures forall i, j :: 0 <= i < j < |f.roots| ==> f.roots[i].block.order <= f.roots[j].block.order
  {
    var nodes := FirstWins(blocks + extra);
    var table := seq(|nodes|, j requires 0 <= j < |nodes| => Node(nodes, j));
    var rootBlocks := Sort(ByOrder, Unlinked(nodes, 0));
    SortSorted(ByOrder, Unlinked(nodes, 0));
    var roots := seq(|rootBlocks|, i requires 0 <= i < |rootBlocks| => TreeNode(rootBlocks[i], ChildIds(nodes, rootBlocks[i].id), 0));
    assert forall i, j :: 0 <= i < j < |roots| ==> Cmp(ByOrder, rootBlocks[i], rootBlocks[j]) <= 0;
    Forest(table, roots)
  }

  /**
   * The table: one node per distinct id of `blocks ++ extraBlocks`, each
   * holding the first block with that id.
   */
  lemma BuildTable(blocks: seq<Block>, extra: seq<Block>)
    ensures var f := Build(blocks, extra);
      && |f.table| <= |blocks| + |extra|
      && (forall i, j :: 0 <= i < j < |f.table| ==> f.table[i].block.id != f.table[j].block.id)
      && (forall j :: 0 <= j < |f.table| ==> Some(f.table[j].block) == Find(blocks + extra, f.table[j].block.id))
      && (forall k :: 0 <= k < |blocks + extra| ==> (blocks + extra)[k].id in TableIds(f))
  {
    BuildTableFirst(blocks, extra);
    BuildTableCovers(blocks, extra);
  }

  lemma BuildTableFirst(blocks: seq<Block>, extra: seq<Block>)
    ensures var f := Build(blocks, extra);
      && |f.table| <= |blocks| + |extra|
      && (forall i, j :: 0 <= i < j < |f.table| ==> f.table[i].block.id != f.table[j].block.id)
      && (forall j :: 0 <= j < |f.table| ==> Some(f.table[j].block) == Find(blocks + extra, f.table[j].block.id))
  {
    BuildTableBlocks(blocks, extra);
    FirstWinsFirst(blocks + extra);
  }

  lemma BuildTableCovers(blocks: seq<Block>, extra: seq<Block>)
    ensures forall k :: 0 <= k < |blocks + extra| ==> (blocks + extra)[k].id in TableIds(Build(blocks, extra))
  {
    BuildTableBlocks(blocks, extra);
    var all, f := blocks + extra, Build(blocks, extra);
    forall k | 0 <= k < |all| ensures all[k].id in TableIds(f) {
      FirstWinsCovers(all, k);
      var j := FindIndex(FirstWins(all), all[k].id);
      assert f.table[j].block.id == all[k].id;
    }
  }

  /** The ids of the table's nodes. */
  ghost function TableIds(f: Forest): set<string> {
    set j | 0 <= j < |f.table| :: f.table[j].block.id
  }

  lemma BuildTableBlocks(blocks: seq<Block>, extra: seq<Block>)
    ensures var nodes := FirstWins(blocks + extra);
      var f := Build(blocks, extra);
      |f.table| == |nodes| && forall j :: 0 <= j < |nodes| ==> f.table[j].block == nodes[j]
  {
  }

  /** Every entry of the table is the first block of the input with its id. */
  lemma FirstWinsFirst(all: seq<Block>)
    ensures var nodes := FirstWins(all);
      forall j :: 0 <= j < |nodes| ==> Some(nodes[j]) == Find(all, nodes[j].id)
  {
    var nodes := FirstWins(all);
    forall j | 0 <= j < |nodes| ensures Some(nodes[j]) == Find(all, nodes[j].id) {
      UniqueFind(nodes, j);
    }
  }

  /** Every id of the input has an entry in the table. */
  lemma FirstWinsCovers(all: seq<Block>, k: nat)
    requires k < |all|
    ensures 0 <= FindIndex(FirstWins(all), all[k].id)
  {
    var nodes := FirstWins(all);
    var id := all[k].id;
    assert Find(all, id).Some?;
    assert Find(nodes, id).Some?;
    FindIndexAgreesWithFind(nodes, id);
  }

  /**
   * A node is a root exactly when its parent is null, empty or not in the
   * table; the roots are those nodes, each once, reordered by `order`.
   */
  lemma BuildRoots(blocks: seq<Block>, extra: seq<Block>)
    ensures var nodes := FirstWins(blocks + extra);
      var f := Build(blocks, extra);
      && multiset(seq(|f.roots|, i requires 0 <= i < |f.roots| => f.roots[i].block)) == multiset(Unlinked(nodes, 0))
      && (forall b :: b in Unlinked(nodes, 0) <==> exists j :: 0 <= j < |nodes| && nodes[j] == b && !Linked(nodes, j))
  {
    var nodes := FirstWins(blocks + extra);
    var f := Build(blocks, extra);
    var rootBlocks := Sort(ByOrder, Unlinked(nodes, 0));
    assert seq(|f.roots|, i requires 0 <= i < |f.roots| => f.roots[i].block) == rootBlocks;
  }

  /**
   * Depths: a node without a parent in the table has depth 0, any other at
   * least 1, and a child of a root has depth exactly 1. A node whose parent
   * comes earlier in the table is one deeper than its parent.
   */
  lemma BuildDepths(blocks: seq<Block>, extra: seq<Block>, j: nat)
    requires j < |FirstWins(blocks + extra)|
    ensures var nodes := FirstWins(blocks + extra);
      var f := Build(blocks, extra);
      && f.table[j].block == nodes[j]
      && (f.table[j].depth == 0 <==> !Linked(nodes, j))
      && (Linked(nodes, j) ==>
            var p := FindIndex(nodes, nodes[j].parentId.value);
            && 0 <= p < |nodes|
            && nodes[p].id == nodes[j].parentId.value
            && (!Linked(nodes, p) ==> f.table[j].depth == 1)
            && (p < j ==> f.table[j].depth == f.table[p].depth + 1))
  {
    var nodes := FirstWins(blocks + extra);
    BuildTableAt(blocks, extra, j);
    if Linked(nodes, j) {
      DepthStep(nodes, j);
      var p := FindIndex(nodes, nodes[j].parentId.value);
      BuildTableAt(blocks, extra, p);
    }
  }

  lemma BuildTableAt(blocks: seq<Block>, extra: seq<Block>, j: nat)
    requires j < |FirstWins(blocks + extra)|
    ensures |Build(blocks, extra).table| == |FirstWins(blocks + extra)|
    ensures Build(blocks, extra).table[j] == Node(FirstWins(blocks + extra), j)
  {
  }

  /** One step of the depth computation: the parent's position and the depth it hands down. */
  lemma DepthStep(nodes: seq<Block>, j: nat)
    requires j < |nodes| && Linked(nodes, j)
    ensures var p := FindIndex(nodes, nodes[j].parentId.value);
      && 0 <= p < |nodes|
      && nodes[p].id == nodes[j].parentId.value
      && (!Linked(nodes, p) ==> Depth(nodes, j) == 1)
      && (p < j ==> Depth(nodes, j) == Depth(nodes, p) + 1)
  {
    FindIndexAgreesWithFind(nodes, nodes[j].parentId.value);
  }

  /**
   * Children: the node at position `j` lists, in table order, exactly the
   * ids of the nodes whose truthy parent is that node's id.
   */
  lemma BuildChildren(blocks: seq<Block>, extra: seq<Block>, j: nat)
    requires j < |FirstWins(blocks + extra)|
    ensures var nodes := FirstWins(blocks + extra);
      var f := Build(blocks, extra);
      forall k :: 0 <= k < |nodes| ==>
        (nodes[k].id in f.table[j].children <==> Linked(nodes, k) && nodes[k].parentId.value == nodes[j].id)
  {
    var nodes := FirstWins(blocks + extra);
    var f := Build(blocks, extra);
    assert f.table[j] == Node(nodes, j);
    ChildIdsAt(nodes, nodes[j].id);
  }

  lemma ChildIdsAt(nodes: seq<Block>, id: string)
    requires UniqueIds(nodes) && exists i :: 0 <= i < |nodes| && nodes[i].id == id
    ensures forall k :: 0 <= k < |nodes| ==>
      (nodes[k].id in ChildIds(nodes, id) <==> Linked(nodes, k) && nodes[k].parentId.value == id)
  {
    var ch := ChildIds(nodes, id);
    forall k | 0 <= k < |nodes|
      ensures nodes[k].id in ch <==> Linked(nodes, k) && nodes[k].parentId.value == id
    {
      if nodes[k].id in ch {
        var k' :| 0 <= k' < |nodes| && nodes[k'].id == nodes[k].id && HasParent(nodes[k']) && nodes[k'].parentId.value == id;
        assert k' == k;
      }
    }
  }
}
