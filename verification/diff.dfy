/**
 * `diffBlocks` of app/utils/serializer.ts: both lists are turned into
 * JavaScript `Map`s keyed by id, then every key of the new map yields an
 * `added` or `changed` entry where due, and every key of the old map that
 * is gone yields a `removed` entry after them.
 */
module Diff {
  import opened Wrappers
  import opened BlockModel

  /** A JavaScript `Map` from id to block: keys in insertion order, one value per key. */
  datatype IdMap = IdMap(keys: seq<string>, vals: map<string, Block>)

  predicate Valid(m: IdMap) {
    && Distinct(m.keys)
    && (forall k :: 0 <= k < |m.keys| ==> m.keys[k] in m.vals)
    && (forall id :: id in m.vals ==> id in m.keys && m.vals[id].id == id)
  }

  /** The last block of the list with this id, if any. */
  function Last(s: seq<Block>, id: string): (r: Option<Block>)
    ensures r.None? <==> forall k :: 0 <= k < |s| ==> s[k].id != id
    ensures r.Some? ==>
      (exists k :: 0 <= k < |s| && s[k] == r.value && r.value.id == id && (forall j :: k < j < |s| ==> s[j].id != id))
  {
    if |s| == 0 then None
    else if s[|s| - 1].id == id then Some(s[|s| - 1])
    else
      var r := Last(s[..|s| - 1], id);
      assert forall k :: 0 <= k < |s| - 1 ==> s[..|s| - 1][k] == s[k];
      r
  }

  /** `m.set(b.id, b)`: a new key goes last; a known key keeps its place and takes the new value. */
  function Put(m: IdMap, b: Block): IdMap {
    if b.id in m.vals then IdMap(m.keys, m.vals[b.id := b])
    else IdMap(m.keys + [b.id], m.vals[b.id := b])
  }

  /**
   * `new Map(s.map(b => [b.id, b]))`: the keys are the ids of the list,
   * and each maps to the last block carrying it.
   */
  function FromList(s: seq<Block>): (m: IdMap)
    ensures Valid(m)
  {
    if |s| == 0 then IdMap([], map[])
    else Put(FromList(s[..|s| - 1]), s[|s| - 1])
  }

  /** The map holds exactly the list's ids, each with the last block that carries it. */
  lemma {:induction false} FromListLast(s: seq<Block>, id: string)
    ensures id in FromList(s).vals <==> Last(s, id).Some?
    ensures id in FromList(s).vals ==> FromList(s).vals[id] == Last(s, id).value
  {
    if |s| > 0 {
      FromListLast(s[..|s| - 1], id);
    }
  }

  /** With unique ids the map keeps list order and the last block is the only one. */
  lemma {:induction false} FromListUnique(s: seq<Block>)
    requires UniqueIds(s)
    ensures |FromList(s).keys| == |s|
    ensures forall k :: 0 <= k < |s| ==> FromList(s).keys[k] == s[k].id
  {
    if |s| > 0 {
      var n := |s| - 1;
      var p := s[..n];
      assert UniqueIds(p);
      FromListUnique(p);
      var m := FromList(p);
      forall k | 0 <= k < n ensures p[k].id != s[n].id {
        assert p[k] == s[k];
      }
      FromListLast(p, s[n].id);
      assert FromList(s).keys == m.keys + [s[n].id];
    }
  }

  /** Under unique ids the map's value is what `find` returns. */
  lemma LastIsFind(s: seq<Block>, id: string)
    requires UniqueIds(s)
    ensures Last(s, id) == Find(s, id)
  {
    if Last(s, id).Some? {
      var k :| 0 <= k < |s| && s[k] == Last(s, id).value && s[k].id == id;
      UniqueFind(s, k);
    }
  }

  /** `BlockChange`. */
  datatype Change = Added(block: Block) | Removed(block: Block) | Changed(block: Block)

  /** `parentChanged || orderChanged || typeChanged`; `itemId` is not compared. */
  predicate Differs(p: Block, n: Block) {
    p.parentId != n.parentId || p.order != n.order || p.kind != n.kind
  }

  /** The first loop, over the new map's keys. */
  function Upserts(keys: seq<string>, next: map<string, Block>, prev: map<string, Block>): (r: seq<Change>)
    requires forall k :: 0 <= k < |keys| ==> keys[k] in next
    ensures forall k :: 0 <= k < |r| ==> !r[k].Removed?
  {
    if |keys| == 0 then []
    else
      var id := keys[0];
      var nb := next[id];
      (if id !in prev then [Added(nb)] else if Differs(prev[id], nb) then [Changed(nb)] else [])
        + Upserts(keys[1..], next, prev)
  }

  /** The second loop, over the old map's keys. */
  function Removals(keys: seq<string>, prev: map<string, Block>, next: map<string, Block>): (r: seq<Change>)
    requires forall k :: 0 <= k < |keys| ==> keys[k] in prev
    ensures forall k :: 0 <= k < |r| ==> r[k].Removed?
  {
    if |keys| == 0 then []
    else
      var id := keys[0];
      (if id !in next then [Removed(prev[id])] else []) + Removals(keys[1..], prev, next)
  }

  /** `diffBlocks(prev, next)`; every `removed` entry follows every other entry. */
  function DiffBlocks(prev: seq<Block>, next: seq<Block>): (r: seq<Change>)
    ensures forall i, j :: 0 <= i < j < |r| && r[i].Removed? ==> r[j].Removed?
  {
    var pm := FromList(prev);
    var nm := FromList(next);
    var up := Upserts(nm.keys, nm.vals, pm.vals);
    var rm := Removals(pm.keys, pm.vals, nm.vals);
    RemovedLast(up, rm);
    up + rm
  }

  lemma RemovedLast(up: seq<Change>, rm: seq<Change>)
    requires forall k :: 0 <= k < |up| ==> !up[k].Removed?
    requires forall k :: 0 <= k < |rm| ==> rm[k].Removed?
    ensures forall i, j :: 0 <= i < j < |up + rm| && (up + rm)[i].Removed? ==> (up + rm)[j].Removed?
  {
    forall i | 0 <= i < |up| ensures !(up + rm)[i].Removed? {
      assert (up + rm)[i] == up[i];
    }
    forall j | |up| <= j < |up + rm| ensures (up + rm)[j].Removed? {
      assert (up + rm)[j] == rm[j - |up|];
    }
  }

  /** The entries of a change list that concern one id, in order. */
  function About(cs: seq<Change>, id: string): seq<Change> {
    if |cs| == 0 then []
    else (if cs[0].block.id == id then [cs[0]] else []) + About(cs[1..], id)
  }

  lemma {:induction false} AboutConcat(a: seq<Change>, b: seq<Change>, id: string)
    ensures About(a + b, id) == About(a, id) + About(b, id)
  {
    if |a| == 0 {
      assert a + b == b;
    } else {
      ConsConcat(a, b);
      AboutConcat(a[1..], b, id);
      ConcatAssoc(About([a[0]], id), About(a[1..], id), About(b, id));
    }
  }

  lemma ConsConcat(a: seq<Change>, b: seq<Change>)
    requires |a| > 0
    ensures (a + b)[0] == a[0] && (a + b)[1..] == a[1..] + b
  {
  }

  lemma ConcatAssoc(x: seq<Change>, y: seq<Change>, z: seq<Change>)
    ensures (x + y) + z == x + (y + z)
  {
  }

  /** The reference: what the diff says about one id, from the last blocks carrying it. */
  function Expected(prev: seq<Block>, next: seq<Block>, id: string): seq<Change> {
    match (Last(prev, id), Last(next, id))
    case (None, None) => []
    case (None, Some(n)) => [Added(n)]
    case (Some(p), None) => [Removed(p)]
    case (Some(p), Some(n)) => if Differs(p, n) then [Changed(n)] else []
  }

  lemma {:induction false} UpsertsAbout(keys: seq<string>, next: map<string, Block>, prev: map<string, Block>, id: string)
    requires forall k :: 0 <= k < |keys| ==> keys[k] in next && next[keys[k]].id == keys[k]
    requires Distinct(keys)
    ensures About(Upserts(keys, next, prev), id)
      == if id !in keys then []
         else if id !in prev then [Added(next[id])]
         else if Differs(prev[id], next[id]) then [Changed(next[id])]
         else []
  {
    if |keys| > 0 {
      var k0 := keys[0];
      var h := if k0 !in prev then [Added(next[k0])] else if Differs(prev[k0], next[k0]) then [Changed(next[k0])] else [];
      assert Distinct(keys[1..]);
      UpsertsAbout(keys[1..], next, prev, id);
      AboutConcat(h, Upserts(keys[1..], next, prev), id);
      assert |h| == 1 ==> h[1..] == [];
      assert id in keys <==> id == k0 || id in keys[1..];
      assert id == k0 ==> id !in keys[1..];
    }
  }

  lemma {:induction false} RemovalsAbout(keys: seq<string>, prev: map<string, Block>, next: map<string, Block>, id: string)
    requires forall k :: 0 <= k < |keys| ==> keys[k] in prev && prev[keys[k]].id == keys[k]
    requires Distinct(keys)
    ensures About(Removals(keys, prev, next), id)
      == if id in keys && id !in next then [Removed(prev[id])] else []
  {
    if |keys| > 0 {
      var k0 := keys[0];
      var h := if k0 !in next then [Removed(prev[k0])] else [];
      assert Distinct(keys[1..]);
      RemovalsAbout(keys[1..], prev, next, id);
      AboutConcat(h, Removals(keys[1..], prev, next), id);
      assert |h| == 1 ==> h[1..] == [];
      assert id in keys <==> id == k0 || id in keys[1..];
      assert id == k0 ==> id !in keys[1..];
    }
  }

  /**
   * What the diff reports about each id: `added` with the new block when
   * only `next` has it, `removed` with the old block when only `prev` has
   * it, `changed` with the new block when both have it and parent, order or
   * type differ, and nothing otherwise. Never more than one entry per id.
   */
  lemma DiffPerId(prev: seq<Block>, next: seq<Block>, id: string)
    ensures About(DiffBlocks(prev, next), id) == Expected(prev, next, id)
  {
    var pm := FromList(prev);
    var nm := FromList(next);
    FromListLast(prev, id);
    FromListLast(next, id);
    UpsertsAbout(nm.keys, nm.vals, pm.vals, id);
    RemovalsAbout(pm.keys, pm.vals, nm.vals, id);
    AboutConcat(Upserts(nm.keys, nm.vals, pm.vals), Removals(pm.keys, pm.vals, nm.vals), id);
  }

  /** Minimality: a list diffed against itself gives no changes. */
  lemma DiffSelfEmpty(s: seq<Block>)
    ensures DiffBlocks(s, s) == []
  {
    var r := DiffBlocks(s, s);
    if |r| > 0 {
      AboutHas(r, 0);
      DiffPerId(s, s, r[0].block.id);
    }
  }

  /** A block present on both sides with the same parent, order and type never appears. */
  lemma UnchangedNotReported(prev: seq<Block>, next: seq<Block>, id: string)
    requires Last(prev, id).Some? && Last(next, id).Some?
    requires !Differs(Last(prev, id).value, Last(next, id).value)
    ensures forall k :: 0 <= k < |DiffBlocks(prev, next)| ==> DiffBlocks(prev, next)[k].block.id != id
  {
    DiffPerId(prev, next, id);
    var r := DiffBlocks(prev, next);
    forall k | 0 <= k < |r| ensures r[k].block.id != id {
      AboutHas(r, k);
    }
  }

  lemma {:induction false} AboutHas(cs: seq<Change>, k: nat)
    requires k < |cs|
    ensures About(cs, cs[k].block.id) != []
  {
    if k > 0 {
      AboutHas(cs[1..], k - 1);
      assert cs[1..][k - 1] == cs[k];
    }
  }
}
