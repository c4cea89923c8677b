/**
 * `reparentBlock` of app/utils/blocks.ts: moves the dragged block to the
 * position a drop zone names, giving it a new parent. The block is taken
 * out of the flat list, an insertion index is computed in what remains,
 * and the block is spliced back in. `order` is never renumbered.
 */
module Reparent {
  import opened Wrappers
  import opened BlockModel
  import Helper

  /** Where a drop zone places the dragged block relative to its target. */
  datatype Relation = Before | After | Into

  /** A parsed drop zone: relation and target id. */
  datatype Zone = Zone(relation: Relation, target: string)

  /**
   * Zone parsing: one leading `before-`, `after-` or `into-` is stripped to
   * get the target; the relation is "into" or "after" when the name starts
   * with that prefix, and "before" otherwise, including names without any
   * of the prefixes.
   */
  function ParseZone(hoverZone: string): (z: Zone)
    ensures z.relation == Into <==> "into-" <= hoverZone
    ensures z.relation == After <==> "after-" <= hoverZone
    ensures |z.target| <= |hoverZone| && z.target == hoverZone[|hoverZone| - |z.target|..]
  {
    var target :=
      if "before-" <= hoverZone then hoverZone[7..]
      else if "after-" <= hoverZone then hoverZone[6..]
      else if "into-" <= hoverZone then hoverZone[5..]
      else hoverZone;
    var relation :=
      if "into-" <= hoverZone then Into
      else if "after-" <= hoverZone then After
      else Before;
    assert "after-" <= hoverZone ==> hoverZone[0] == "after-"[0] != "into-"[0];
    Zone(relation, target)
  }

  /** The name the drop-zone components give a zone. */
  function ZoneName(z: Zone): string {
    match z.relation
    case Before => "before-" + z.target
    case After => "after-" + z.target
    case Into => "into-" + z.target
  }

  /**
   * The new parent: the target itself for "into", otherwise the target
   * block's parent (`target?.parentId ?? null`); the target is looked up in
   * the full list, so it may be the dragged block itself.
   */
  function InferredParent(blocks: seq<Block>, zone: Zone): Option<string> {
    if zone.relation == Into then Some(zone.target)
    else match Find(blocks, zone.target)
      case Some(t) => t.parentId
      case None => None
  }

  /**
   * The insertion index in the list without the dragged block. For "into":
   * one past the target's last remaining child, else one past the target
   * (0 when the target is absent too, since `findIndex` gives -1). For
   * "before"/"after": the target's index, plus one for "after"; a missing
   * target counts as index `remaining.length`.
   */
  function InsertIndex(remaining: seq<Block>, zone: Zone): (k: int)
    ensures 0 <= k <= |remaining| + 1
  {
    if zone.relation == Into then
      var siblings := ChildrenOf(remaining, Some(zone.target));
      if |siblings| > 0 then
        FindIndex(remaining, siblings[|siblings| - 1].id) + 1
      else
        FindIndex(remaining, zone.target) + 1
    else
      var found := FindIndex(remaining, zone.target);
      var idx := if found == -1 then |remaining| else found;
      if zone.relation == After then idx + 1 else idx
  }

  /** JavaScript `slice` clamps an index beyond the end to the length. */
  function Clamp(k: nat, len: nat): (c: nat)
    ensures c <= len && (k <= len ==> c == k)
  {
    if k <= len then k else len
  }

  /** `[...s.slice(0, k), x, ...s.slice(k)]`. */
  function Splice(s: seq<Block>, k: nat, x: Block): (r: seq<Block>)
    ensures |r| == |s| + 1
    ensures r[Clamp(k, |s|)] == x
  {
    var c := Clamp(k, |s|);
    s[..c] + [x] + s[c..]
  }

  /** Positions before the insertion point are unchanged; later ones shift by one. */
  lemma SpliceAt(s: seq<Block>, k: nat, x: Block, j: nat)
    requires j <= |s|
    ensures j < Clamp(k, |s|) ==> Splice(s, k, x)[j] == s[j]
    ensures Clamp(k, |s|) < j ==> Splice(s, k, x)[j] == s[j - 1]
  {
  }

  /** The drag is carried out: the block exists and is not a section being given a parent. */
  predicate Moves(blocks: seq<Block>, activeId: string, hoverZone: string) {
    match Find(blocks, activeId)
    case None => false
    case Some(dragged) => !(dragged.kind == Section && InferredParent(blocks, ParseZone(hoverZone)).Some?)
  }

  /** The dragged block as it is re-inserted: only its parent is replaced. */
  function MovedBlock(blocks: seq<Block>, activeId: string, hoverZone: string): Block
    requires Find(blocks, activeId).Some?
  {
    Find(blocks, activeId).value.(parentId := InferredParent(blocks, ParseZone(hoverZone)))
  }

  /** The position the moved block occupies in the result. */
  function LandingIndex(blocks: seq<Block>, activeId: string, hoverZone: string): nat {
    var remaining := Without(blocks, activeId);
    Clamp(InsertIndex(remaining, ParseZone(hoverZone)), |remaining|)
  }

  /** `reparentBlock(blocks, activeId, hoverZone)`. */
  function ReparentBlock(blocks: seq<Block>, activeId: string, hoverZone: string): (r: seq<Block>)
    ensures Find(blocks, activeId).None? ==> r == blocks
    ensures !Moves(blocks, activeId, hoverZone) ==> r == blocks
    ensures Without(r, activeId) == Without(blocks, activeId)
    ensures Moves(blocks, activeId, hoverZone) ==>
      && |r| == |Without(blocks, activeId)| + 1
      && LandingIndex(blocks, activeId, hoverZone) < |r|
      && r[LandingIndex(blocks, activeId, hoverZone)] == MovedBlock(blocks, activeId, hoverZone)
      && (forall k :: 0 <= k < |r| && k != LandingIndex(blocks, activeId, hoverZone) ==> r[k].id != activeId)
  {
    match Find(blocks, activeId)
    case None => blocks
    case Some(dragged) =>
      var remaining := Without(blocks, activeId);
      var zone := ParseZone(hoverZone);
      var newParentId := InferredParent(blocks, zone);
      if dragged.kind == Section && newParentId.Some? then blocks
      else
        var r := Splice(remaining, InsertIndex(remaining, zone), dragged.(parentId := newParentId));
        SpliceFacts(remaining, InsertIndex(remaining, zone), dragged.(parentId := newParentId), activeId);
        r
  }

  /** Splicing a block with id `a` into a list free of `a`. */
  lemma SpliceFacts(s: seq<Block>, k: nat, x: Block, a: string)
    requires x.id == a && forall j :: 0 <= j < |s| ==> s[j].id != a
    ensures Without(Splice(s, k, x), a) == s
    ensures forall j :: 0 <= j < |s| + 1 && j != Clamp(k, |s|) ==> Splice(s, k, x)[j].id != a
    ensures Find(Splice(s, k, x), a) == Some(x)
  {
    SpliceWithout(s, k, x, a);
    SpliceOthers(s, k, x, a);
    var c := Clamp(k, |s|);
    assert Splice(s, k, x) == s[..c] + ([x] + s[c..]);
    FindConcat(s[..c], [x] + s[c..], a);
    assert Find(s[..c], a).None? by {
      forall j | 0 <= j < c ensures s[..c][j].id != a {
        assert s[..c][j] == s[j];
      }
    }
  }

  lemma SpliceWithout(s: seq<Block>, k: nat, x: Block, a: string)
    requires x.id == a && forall j :: 0 <= j < |s| ==> s[j].id != a
    ensures Without(Splice(s, k, x), a) == s
  {
    var c := Clamp(k, |s|);
    forall j | 0 <= j < c ensures s[..c][j].id != a {
      assert s[..c][j] == s[j];
    }
    forall j | 0 <= j < |s| - c ensures s[c..][j].id != a {
      assert s[c..][j] == s[c + j];
    }
    WithoutAround(s[..c], x, s[c..], a);
    assert s[..c] + s[c..] == s;
  }

  lemma WithoutAround(u: seq<Block>, x: Block, v: seq<Block>, a: string)
    requires x.id == a
    requires forall j :: 0 <= j < |u| ==> u[j].id != a
    requires forall j :: 0 <= j < |v| ==> v[j].id != a
    ensures Without(u + [x] + v, a) == u + v
  {
    var ux := u + [x];
    assert Without(ux, a) == u by {
      WithoutAbsent(u, a);
      assert Without([x], a) == [] by {
        assert [x][1..] == [];
      }
      WithoutConcat(u, [x], a);
      assert u + [] == u;
    }
    WithoutAbsent(v, a);
    WithoutConcat(ux, v, a);
  }

  lemma SpliceOthers(s: seq<Block>, k: nat, x: Block, a: string)
    requires forall j :: 0 <= j < |s| ==> s[j].id != a
    ensures forall j :: 0 <= j < |s| + 1 && j != Clamp(k, |s|) ==> Splice(s, k, x)[j].id != a
  {
    var c := Clamp(k, |s|);
    var r := Splice(s, k, x);
    forall j | 0 <= j < |s| + 1 && j != c ensures r[j].id != a {
      SpliceAt(s, k, x, j);
    }
  }

  lemma FindConcat(x: seq<Block>, y: seq<Block>, id: string)
    ensures Find(x + y, id) == if Find(x, id).Some? then Find(x, id) else Find(y, id)
  {
    if |x| > 0 {
      assert (x + y)[1..] == x[1..] + y;
      FindConcat(x[1..], y, id);
    } else {
      assert x + y == y;
    }
  }

  /** Looking up an id other than `a` is the same with or without the blocks named `a`. */
  lemma {:induction false} FindWithout(s: seq<Block>, a: string, t: string)
    requires t != a
    ensures Find(Without(s, a), t) == Find(s, t)
  {
    if |s| > 0 {
      FindWithout(s[1..], a, t);
    }
  }

  lemma ParseZoneName(z: Zone)
    ensures ParseZone(ZoneName(z)) == z
  {
    var n := ZoneName(z);
    match z.relation
    case Before =>
      assert n[..7] == "before-" && n[7..] == z.target;
      assert n[0] != "after-"[0] && n[0] != "into-"[0];
    case After =>
      assert n[..6] == "after-" && n[6..] == z.target;
      assert n[0] != "before-"[0] && n[0] != "into-"[0];
    case Into =>
      assert n[..5] == "into-" && n[5..] == z.target;
      assert n[0] != "before-"[0] && n[0] != "after-"[0];
  }

  /** Zone parsing finds the same target as `extractUUID` with its default pattern. */
  lemma ParseZoneTargetIsExtractUUID(hoverZone: string)
    ensures ParseZone(hoverZone).target == Helper.ExtractUUID(hoverZone)
  {
    var hz := hoverZone;
    if "before-" <= hz {
      Helper.StripBefore(hz[7..]);
      assert hz == "before-" + hz[7..];
    } else if "after-" <= hz {
      Helper.StripAfter(hz[6..]);
      assert hz == "after-" + hz[6..];
    } else if "into-" <= hz {
      Helper.StripInto(hz[5..]);
      assert hz == "into-" + hz[5..];
    } else {
      Helper.ExtractUUIDUnprefixed(hz);
    }
  }

  /** A name with none of the prefixes is "before" a target named by the whole string. */
  lemma ParseZoneUnprefixed(hoverZone: string)
    requires !("before-" <= hoverZone) && !("after-" <= hoverZone) && !("into-" <= hoverZone)
    ensures ParseZone(hoverZone) == Zone(Before, hoverZone)
  {
  }

  /**
   * Permutation: with unique ids a carried-out move keeps every block but
   * the dragged one, which is replaced by its re-parented copy; length and
   * the set of ids are unchanged and ids stay unique.
   */
  lemma ReparentPermutation(blocks: seq<Block>, activeId: string, hoverZone: string)
    requires UniqueIds(blocks) && Moves(blocks, activeId, hoverZone)
    ensures var r := ReparentBlock(blocks, activeId, hoverZone);
      && |r| == |blocks|
      && multiset(r) == multiset(blocks) - multiset{Find(blocks, activeId).value} + multiset{MovedBlock(blocks, activeId, hoverZone)}
      && IdSet(r) == IdSet(blocks)
      && UniqueIds(r)
  {
    var rem := Without(blocks, activeId);
    var d := Find(blocks, activeId).value;
    var m := MovedBlock(blocks, activeId, hoverZone);
    var k := InsertIndex(rem, ParseZone(hoverZone));
    assert ReparentBlock(blocks, activeId, hoverZone) == Splice(rem, k, m);
    var i := FindIndex(blocks, activeId);
    FindIndexAgreesWithFind(blocks, activeId);
    WithoutMultiset(blocks, i);
    UniqueIdsWithout(blocks, activeId);
    SpliceReplaces(blocks, rem, k, d, m);
  }

  /** Splicing `m` into `blocks` minus `d`, where `m` and `d` share the one id missing from the rest. */
  lemma SpliceReplaces(blocks: seq<Block>, rem: seq<Block>, k: nat, d: Block, m: Block)
    requires multiset(blocks) == multiset(rem) + multiset{d}
    requires UniqueIds(rem) && m.id == d.id && forall j :: 0 <= j < |rem| ==> rem[j].id != m.id
    ensures var r := Splice(rem, k, m);
      && |r| == |blocks|
      && multiset(r) == multiset(blocks) - multiset{d} + multiset{m}
      && IdSet(r) == IdSet(blocks)
      && UniqueIds(r)
  {
    var r := Splice(rem, k, m);
    SpliceMultiset(rem, k, m);
    SpliceUnique(rem, k, m);
    assert |multiset(blocks)| == |multiset(rem)| + 1;
    assert multiset(r) == multiset(rem + [m]);
    assert multiset(blocks) == multiset(rem + [d]);
    IdSetOfMultiset(r, rem + [m]);
    IdSetOfMultiset(blocks, rem + [d]);
    IdSetAppend(rem, m);
    IdSetAppend(rem, d);
  }

  lemma IdSetAppend(s: seq<Block>, x: Block)
    ensures IdSet(s + [x]) == IdSet(s) + {x.id}
  {
    assert forall b :: b in s + [x] <==> b in s || b == x;
  }

  lemma IdSetOfMultiset(a: seq<Block>, b: seq<Block>)
    requires multiset(a) == multiset(b)
    ensures IdSet(a) == IdSet(b)
  {
    forall id | id in IdSet(a) ensures id in IdSet(b) {
      var x :| x in a && x.id == id;
      assert x in multiset(b);
    }
    forall id | id in IdSet(b) ensures id in IdSet(a) {
      var x :| x in b && x.id == id;
      assert x in multiset(a);
    }
  }

  lemma SpliceMultiset(s: seq<Block>, k: nat, x: Block)
    ensures multiset(Splice(s, k, x)) == multiset(s) + multiset{x}
  {
    var c := Clamp(k, |s|);
    assert Splice(s, k, x) == s[..c] + [x] + s[c..];
    assert s == s[..c] + s[c..];
  }

  lemma SpliceUnique(s: seq<Block>, k: nat, x: Block)
    requires UniqueIds(s) && forall j :: 0 <= j < |s| ==> s[j].id != x.id
    ensures UniqueIds(Splice(s, k, x))
  {
    var r := Splice(s, k, x);
    var c := Clamp(k, |s|);
    forall i, j | 0 <= i < j < |r| ensures r[i].id != r[j].id {
      var i' := if i < c then i else i - 1;
      var j' := if j < c then j else j - 1;
      SpliceAt(s, k, x, i);
      SpliceAt(s, k, x, j);
      if i == c {
        assert r[j] == s[j'];
      } else if j == c {
        assert r[i] == s[i'];
      } else {
        assert r[i] == s[i'] && r[j] == s[j'];
      }
    }
  }

  /**
   * Only the parent of the dragged block changes: it becomes the target for
   * "into", otherwise the target block's parent, or null when no block has
   * the target id. Kind, order and content key are kept.
   */
  lemma ReparentChangesOnlyParent(blocks: seq<Block>, activeId: string, hoverZone: string, i: nat)
    requires UniqueIds(blocks) && i < |blocks| && blocks[i].id == activeId
    requires Moves(blocks, activeId, hoverZone)
    ensures var r := ReparentBlock(blocks, activeId, hoverZone);
      var m := r[LandingIndex(blocks, activeId, hoverZone)];
      var z := ParseZone(hoverZone);
      && m.id == activeId && m.kind == blocks[i].kind && m.order == blocks[i].order && m.itemId == blocks[i].itemId
      && (z.relation == Into ==> m.parentId == Some(z.target))
      && (forall j :: z.relation != Into && 0 <= j < |blocks| && blocks[j].id == z.target ==> m.parentId == blocks[j].parentId)
      && ((forall j :: 0 <= j < |blocks| ==> blocks[j].id != z.target) && z.relation != Into ==> m.parentId == None)
  {
    UniqueFind(blocks, i);
    var z := ParseZone(hoverZone);
    forall j | z.relation != Into && 0 <= j < |blocks| && blocks[j].id == z.target
      ensures InferredParent(blocks, z) == blocks[j].parentId
    {
      UniqueFind(blocks, j);
    }
  }

  /** A section is never given a parent: such a drop returns the input unchanged. */
  lemma SectionNeverNested(blocks: seq<Block>, activeId: string, hoverZone: string, i: nat)
    requires i < |blocks| && blocks[i].id == activeId && blocks[i].kind == Section && UniqueIds(blocks)
    requires ParseZone(hoverZone).relation == Into
      || exists j :: 0 <= j < |blocks| && blocks[j].id == ParseZone(hoverZone).target && blocks[j].parentId.Some?
    ensures ReparentBlock(blocks, activeId, hoverZone) == blocks
  {
    UniqueFind(blocks, i);
    if ParseZone(hoverZone).relation != Into {
      var j :| 0 <= j < |blocks| && blocks[j].id == ParseZone(hoverZone).target && blocks[j].parentId.Some?;
      UniqueFind(blocks, j);
    }
  }

  /** The container invariant "no section has a parent" survives every move. */
  lemma ReparentKeepsSectionsAtRoot(blocks: seq<Block>, activeId: string, hoverZone: string)
    requires forall b :: b in blocks && b.kind == Section ==> b.parentId.None?
    ensures forall b :: b in ReparentBlock(blocks, activeId, hoverZone) && b.kind == Section ==> b.parentId.None?
  {
    var r := ReparentBlock(blocks, activeId, hoverZone);
    if Moves(blocks, activeId, hoverZone) {
      var k := LandingIndex(blocks, activeId, hoverZone);
      var rem := Without(blocks, activeId);
      WithoutMembers(blocks, activeId);
      forall b | b in r && b.kind == Section ensures b.parentId.None? {
        var j :| 0 <= j < |r| && r[j] == b;
        assert r == Splice(rem, InsertIndex(rem, ParseZone(hoverZone)), MovedBlock(blocks, activeId, hoverZone));
        SpliceAt(rem, InsertIndex(rem, ParseZone(hoverZone)), MovedBlock(blocks, activeId, hoverZone), j);
        if j < k {
          assert rem[j] in rem;
        } else if j > k {
          assert rem[j - 1] in rem;
        }
      }
    }
  }

  /** Some block of the list has `p` as its parent. */
  predicate HasChildOf(s: seq<Block>, p: string) {
    exists j :: 0 <= j < |s| && s[j].parentId == Some(p)
  }

  /** Some block of the list has this id. */
  predicate HasId(s: seq<Block>, id: string) {
    exists j :: 0 <= j < |s| && s[j].id == id
  }

  /**
   * "into-S": the block lands right after the last remaining child of S,
   * even when S itself is not in the list; with no such child, right after
   * S; and first when neither S nor any child of S remains.
   */
  lemma ReparentIntoPlacement(blocks: seq<Block>, activeId: string, hoverZone: string)
    requires UniqueIds(blocks) && Moves(blocks, activeId, hoverZone)
    requires ParseZone(hoverZone).relation == Into
    ensures var r := ReparentBlock(blocks, activeId, hoverZone);
      var k := LandingIndex(blocks, activeId, hoverZone);
      var s := ParseZone(hoverZone).target;
      var rem := Without(blocks, activeId);
      && (HasChildOf(rem, s) ==>
            0 < k && r[k - 1].parentId == Some(s) && forall j :: k < j < |r| ==> r[j].parentId != Some(s))
      && (!HasChildOf(rem, s) && HasId(rem, s) ==> 0 < k && r[k - 1].id == s)
      && (!HasChildOf(rem, s) && !HasId(rem, s) ==> k == 0)
  {
    var z := ParseZone(hoverZone);
    var rem := Without(blocks, activeId);
    var m := MovedBlock(blocks, activeId, hoverZone);
    ReparentIsSplice(blocks, activeId, hoverZone);
    UniqueIdsWithout(blocks, activeId);
    IntoPlacement(rem, z, m);
  }

  /** A carried-out move is a splice of the moved block into the list without it. */
  lemma ReparentIsSplice(blocks: seq<Block>, activeId: string, hoverZone: string)
    requires Moves(blocks, activeId, hoverZone)
    ensures var rem := Without(blocks, activeId);
      && ReparentBlock(blocks, activeId, hoverZone)
         == Splice(rem, InsertIndex(rem, ParseZone(hoverZone)), MovedBlock(blocks, activeId, hoverZone))
      && LandingIndex(blocks, activeId, hoverZone) == Clamp(InsertIndex(rem, ParseZone(hoverZone)), |rem|)
  {
  }

  /** The three "into" cases on the list without the dragged block. */
  lemma IntoPlacement(rem: seq<Block>, z: Zone, m: Block)
    requires UniqueIds(rem) && z.relation == Into
    ensures var k := InsertIndex(rem, z);
      var r := Splice(rem, k, m);
      var c := Clamp(k, |rem|);
      var s := z.target;
      && (HasChildOf(rem, s) ==>
            0 < c && r[c - 1].parentId == Some(s) && forall j :: c < j < |r| ==> r[j].parentId != Some(s))
      && (!HasChildOf(rem, s) && HasId(rem, s) ==> 0 < c && r[c - 1].id == s)
      && (!HasChildOf(rem, s) && !HasId(rem, s) ==> c == 0)
  {
    if HasChildOf(rem, z.target) {
      IntoAfterLastChild(rem, z, m);
    } else {
      IntoNoChildren(rem, z, m);
    }
  }

  lemma IntoAfterLastChild(rem: seq<Block>, z: Zone, m: Block)
    requires UniqueIds(rem) && z.relation == Into && HasChildOf(rem, z.target)
    ensures var k := InsertIndex(rem, z);
      var r := Splice(rem, k, m);
      && 0 < k <= |rem| && r[k - 1].parentId == Some(z.target)
      && forall j :: k < j < |r| ==> r[j].parentId != Some(z.target)
  {
    var p := IntoIndexAfterChild(rem, z);
    var k := p + 1;
    SpliceAt(rem, k, m, p);
    forall j | k < j < |rem| + 1 ensures Splice(rem, k, m)[j].parentId != Some(z.target) {
      SpliceAt(rem, k, m, j);
    }
  }

  /** With children of the target present, the index is one past the last of them. */
  lemma IntoIndexAfterChild(rem: seq<Block>, z: Zone) returns (p: nat)
    requires UniqueIds(rem) && z.relation == Into && HasChildOf(rem, z.target)
    ensures p < |rem| && InsertIndex(rem, z) == p + 1 && rem[p].parentId == Some(z.target)
    ensures forall j :: p < j < |rem| ==> rem[j].parentId != Some(z.target)
  {
    var j :| 0 <= j < |rem| && rem[j].parentId == Some(z.target);
    ChildrenOfSome(rem, Some(z.target), j);
    p := LastChildPosition(rem, Some(z.target));
    assert InsertIndex(rem, z) == FindIndex(rem, rem[p].id) + 1;
    UniqueFind(rem, p);
  }

  lemma {:induction false} ChildrenOfSome(s: seq<Block>, p: Option<string>, j: nat)
    requires j < |s| && s[j].parentId == p
    ensures |ChildrenOf(s, p)| > 0
  {
    if s[0].parentId != p {
      assert s[1..][j - 1] == s[j];
      ChildrenOfSome(s[1..], p, j - 1);
    }
  }

  lemma IntoNoChildren(rem: seq<Block>, z: Zone, m: Block)
    requires UniqueIds(rem) && z.relation == Into && !HasChildOf(rem, z.target)
    ensures var k := InsertIndex(rem, z);
      var r := Splice(rem, k, m);
      && (HasId(rem, z.target) ==> 0 < k <= |rem| && r[k - 1].id == z.target)
      && (!HasId(rem, z.target) ==> k == 0)
  {
    var k := InsertIndex(rem, z);
    assert k == FindIndex(rem, z.target) + 1 by {
      ChildrenOfNone(rem, Some(z.target));
    }
    if HasId(rem, z.target) {
      var j :| 0 <= j < |rem| && rem[j].id == z.target;
      UniqueFind(rem, j);
      SpliceAt(rem, k, m, j);
    }
  }

  lemma {:induction false} ChildrenOfNone(s: seq<Block>, p: Option<string>)
    requires forall j :: 0 <= j < |s| ==> s[j].parentId != p
    ensures ChildrenOf(s, p) == []
  {
    if |s| > 0 {
      assert forall j :: 0 <= j < |s| - 1 ==> s[1..][j] == s[j + 1];
      ChildrenOfNone(s[1..], p);
    }
  }

  /** The last block of `ChildrenOf(s, p)` sits at a position with no later child of `p`. */
  lemma LastChildPosition(s: seq<Block>, p: Option<string>) returns (i: nat)
    requires |ChildrenOf(s, p)| > 0
    ensures i < |s| && s[i] == ChildrenOf(s, p)[|ChildrenOf(s, p)| - 1]
    ensures forall j :: i < j < |s| ==> s[j].parentId != p
  {
    if |ChildrenOf(s[1..], p)| > 0 {
      var i' := LastChildPosition(s[1..], p);
      i := i' + 1;
    } else {
      i := 0;
      forall j | 0 < j < |s| ensures s[j].parentId != p {
        assert s[j] == s[1..][j - 1];
        assert s[j] in s[1..];
        ChildrenOfMembers(s[1..], p);
        assert s[j] !in ChildrenOf(s[1..], p);
      }
    }
  }

  /**
   * "before-T"/"after-T": the block lands immediately before or after T in
   * the remaining list; when T is not there (absent, or the dragged block
   * itself) it is appended at the end.
   */
  lemma ReparentSiblingPlacement(blocks: seq<Block>, activeId: string, hoverZone: string)
    requires Moves(blocks, activeId, hoverZone)
    requires ParseZone(hoverZone).relation != Into
    ensures var r := ReparentBlock(blocks, activeId, hoverZone);
      var k := LandingIndex(blocks, activeId, hoverZone);
      var z := ParseZone(hoverZone);
      var rem := Without(blocks, activeId);
      && (HasId(rem, z.target) ==>
            && (z.relation == Before ==> k + 1 < |r| && r[k + 1].id == z.target)
            && (z.relation == After ==> 0 < k && r[k - 1].id == z.target))
      && (!HasId(rem, z.target) ==> k == |r| - 1)
  {
    ReparentIsSplice(blocks, activeId, hoverZone);
    SiblingPlacement(Without(blocks, activeId), ParseZone(hoverZone), MovedBlock(blocks, activeId, hoverZone));
  }

  /** The "before"/"after" cases on the list without the dragged block. */
  lemma SiblingPlacement(rem: seq<Block>, z: Zone, m: Block)
    requires z.relation != Into
    ensures var k := InsertIndex(rem, z);
      var r := Splice(rem, k, m);
      var c := Clamp(k, |rem|);
      && (HasId(rem, z.target) ==>
            && (z.relation == Before ==> c + 1 < |r| && r[c + 1].id == z.target)
            && (z.relation == After ==> 0 < c && r[c - 1].id == z.target))
      && (!HasId(rem, z.target) ==> c == |r| - 1)
  {
    var k := InsertIndex(rem, z);
    var f := FindIndex(rem, z.target);
    if f >= 0 {
      if z.relation == Before {
        SpliceAt(rem, k, m, f + 1);
      } else {
        SpliceAt(rem, k, m, f);
      }
    }
  }

  /**
   * Idempotence: re-dispatching a move changes nothing, because the list
   * without the dragged block, the inferred parent and the insertion index
   * depend only on that list and the zone.
   */
  lemma ReparentIdempotent(blocks: seq<Block>, activeId: string, hoverZone: string)
    ensures ReparentBlock(ReparentBlock(blocks, activeId, hoverZone), activeId, hoverZone)
         == ReparentBlock(blocks, activeId, hoverZone)
  {
    if Moves(blocks, activeId, hoverZone) {
      var r := ReparentBlock(blocks, activeId, hoverZone);
      var rem := Without(blocks, activeId);
      var z := ParseZone(hoverZone);
      var m := MovedBlock(blocks, activeId, hoverZone);
      var k := InsertIndex(rem, z);
      assert r == Splice(rem, k, m);
      SpliceFacts(rem, k, m, activeId);
      assert Find(r, activeId) == Some(m);
      assert Without(r, activeId) == rem;
      assert InferredParent(r, z) == InferredParent(blocks, z) by {
        if z.relation != Into {
          if z.target == activeId {
            assert Find(blocks, activeId).value.parentId == InferredParent(blocks, z);
          } else {
            FindWithout(r, activeId, z.target);
            FindWithout(blocks, activeId, z.target);
          }
        }
      }
      assert m.(parentId := InferredParent(r, z)) == m;
    }
  }

  /** After a carried-out move, looking up the dragged id finds its re-parented copy. */
  lemma ReparentFindMoved(blocks: seq<Block>, activeId: string, hoverZone: string)
    requires Moves(blocks, activeId, hoverZone)
    ensures Find(ReparentBlock(blocks, activeId, hoverZone), activeId) == Some(MovedBlock(blocks, activeId, hoverZone))
  {
    var rem := Without(blocks, activeId);
    var k := InsertIndex(rem, ParseZone(hoverZone));
    var m := MovedBlock(blocks, activeId, hoverZone);
    assert ReparentBlock(blocks, activeId, hoverZone) == Splice(rem, k, m);
    SpliceFacts(rem, k, m, activeId);
  }

  /**
   * As written, "into-X" naming the dragged block itself is not refused: a
   * topic dropped into itself becomes its own parent.
   */
  lemma IntoSelfMakesOwnParent(t: Block)
    requires t.kind != Section
    ensures ReparentBlock([t], t.id, "into-" + t.id) == [t.(parentId := Some(t.id))]
  {
    assert ParseZone(ZoneName(Zone(Into, t.id))) == Zone(Into, t.id) by {
      ParseZoneName(Zone(Into, t.id));
    }
    assert Without([t], t.id) == [] by {
      assert [t][1..] == [];
    }
  }
}
