/**
 * The two `Array.prototype.sort` calls of app/utils/serializer.ts. The
 * sort is stable, so for a comparator that is a total preorder the result
 * is determined: it is the list sorted by the comparator, with tied
 * elements in input order. It is modelled as an insertion sort that adds
 * the input's elements in order, each after every element not greater
 * than it.
 */
module Sorting {
  import opened Wrappers
  import opened BlockModel

  /**
   * `x.localeCompare(y)` taken as lexicographic order on code points
   * (Unicode scalar values): negative, zero or positive as `x` sorts
   * before, equal to, or after `y`.
   */
  function StrCompare(x: string, y: string): (r: int)
    ensures -1 <= r <= 1
    ensures r == 0 <==> x == y
  {
    if |x| == 0 then (if |y| == 0 then 0 else -1)
    else if |y| == 0 then 1
    else if x[0] < y[0] then -1
    else if y[0] < x[0] then 1
    else
      assert x == [x[0]] + x[1..] && y == [y[0]] + y[1..];
      StrCompare(x[1..], y[1..])
  }

  lemma {:induction false} StrCompareFlip(x: string, y: string)
    ensures StrCompare(y, x) == -StrCompare(x, y)
  {
    if |x| > 0 && |y| > 0 && x[0] == y[0] {
      StrCompareFlip(x[1..], y[1..]);
    }
  }

  lemma {:induction false} StrCompareTrans(x: string, y: string, z: string)
    requires StrCompare(x, y) < 0 && StrCompare(y, z) < 0
    ensures StrCompare(x, z) < 0
  {
    if |x| > 0 && |y| > 0 && |z| > 0 && x[0] == y[0] && y[0] == z[0] {
      StrCompareTrans(x[1..], y[1..], z[1..]);
    }
  }

  /** `String(parentId)`: JavaScript renders `null` as the text "null". */
  function ParentText(p: Option<string>): string {
    match p
    case None => "null"
    case Some(s) => s
  }

  /** The comparators: lines 10-13 (parent text, then order) and line 101 (order only). */
  datatype Ordering = ByParentThenOrder | ByOrder

  function Cmp(o: Ordering, a: Block, b: Block): int {
    match o
    case ByOrder => a.order - b.order
    case ByParentThenOrder =>
      if a.parentId == b.parentId then a.order - b.order
      else StrCompare(ParentText(a.parentId), ParentText(b.parentId))
  }

  /**
   * The parent-then-order comparator is a total preorder only when no
   * parent is the literal text "null", which `String` cannot tell apart
   * from `null`; the order-only one always is.
   */
  predicate Fits(o: Ordering, b: Block) {
    o.ByOrder? || b.parentId != Some("null")
  }

  predicate Consistent(o: Ordering, s: seq<Block>) {
    forall k :: 0 <= k < |s| ==> Fits(o, s[k])
  }

  /** Every earlier element compares not greater than every later one. */
  predicate Sorted(o: Ordering, s: seq<Block>) {
    forall i, j :: 0 <= i < j < |s| ==> Cmp(o, s[i], s[j]) <= 0
  }

  /** Swapping the arguments negates the comparison, whatever the parents. */
  lemma CmpFlip(o: Ordering, a: Block, b: Block)
    ensures Cmp(o, b, a) == -Cmp(o, a, b)
  {
    StrCompareFlip(ParentText(a.parentId), ParentText(b.parentId));
  }

  /**
   * Transitivity of "not greater than". Without `Fits` it fails: with
   * `a.parentId == None`, `b.parentId == Some("null")`, `c.parentId == None`,
   * `a` and `b` tie, `b` and `c` tie, yet `a` may come after `c` by order.
   */
  lemma CmpTrans(o: Ordering, a: Block, b: Block, c: Block)
    requires Fits(o, a) && Fits(o, b) && Fits(o, c)
    requires Cmp(o, a, b) <= 0 && Cmp(o, b, c) <= 0
    ensures Cmp(o, a, c) <= 0
  {
    if o.ByParentThenOrder? {
      var ta, tb, tc := ParentText(a.parentId), ParentText(b.parentId), ParentText(c.parentId);
      assert a.parentId != b.parentId ==> ta != tb;
      assert b.parentId != c.parentId ==> tb != tc;
      assert a.parentId != c.parentId ==> ta != tc;
      if a.parentId != b.parentId && b.parentId != c.parentId {
        if a.parentId == c.parentId {
          StrCompareFlip(ta, tb);
        } else {
          StrCompareTrans(ta, tb, tc);
        }
      }
    }
  }

  /** `x` goes after every leading element that is not greater than it. */
  function Insert(o: Ordering, x: Block, s: seq<Block>): (r: seq<Block>)
    ensures |r| == |s| + 1
    ensures multiset(r) == multiset(s) + multiset{x}
  {
    if |s| == 0 then [x]
    else if Cmp(o, s[0], x) <= 0 then
      assert s == [s[0]] + s[1..];
      [s[0]] + Insert(o, x, s[1..])
    else [x] + s
  }

  /** `[...s].sort(cmp)`: a stable sort, adding the elements in input order. */
  function Sort(o: Ordering, s: seq<Block>): (r: seq<Block>)
    ensures |r| == |s|
    ensures multiset(r) == multiset(s)
  {
    if |s| == 0 then []
    else
      assert s == s[..|s| - 1] + [s[|s| - 1]];
      Insert(o, s[|s| - 1], Sort(o, s[..|s| - 1]))
  }

  lemma {:induction false} InsertSorted(o: Ordering, x: Block, s: seq<Block>)
    requires Sorted(o, s) && Consistent(o, s) && Fits(o, x)
    ensures Sorted(o, Insert(o, x, s))
  {
    if |s| > 0 {
      if Cmp(o, s[0], x) <= 0 {
        SortedTail(o, s);
        InsertSorted(o, x, s[1..]);
        HeadBelowInsert(o, x, s);
        InsertPast(o, x, s);
        SortedCons(o, s[0], Insert(o, x, s[1..]));
      } else {
        HeadBelowAll(o, x, s);
        InsertFront(o, x, s);
        SortedCons(o, x, s);
      }
    }
  }

  /** A list stays sorted when an element not above any of its members goes in front. */
  lemma SortedCons(o: Ordering, a: Block, t: seq<Block>)
    requires Sorted(o, t) && forall j :: 0 <= j < |t| ==> Cmp(o, a, t[j]) <= 0
    ensures Sorted(o, [a] + t)
  {
    var r := [a] + t;
    forall i, j | 0 <= i < j < |r| ensures Cmp(o, r[i], r[j]) <= 0 {
      assert r[j] == t[j - 1];
      if i > 0 {
        assert r[i] == t[i - 1];
      }
    }
  }

  lemma HeadBelowInsert(o: Ordering, x: Block, s: seq<Block>)
    requires |s| > 0 && Sorted(o, s) && Cmp(o, s[0], x) <= 0
    ensures forall j :: 0 <= j < |Insert(o, x, s[1..])| ==> Cmp(o, s[0], Insert(o, x, s[1..])[j]) <= 0
  {
    var t := Insert(o, x, s[1..]);
    forall j | 0 <= j < |t| ensures Cmp(o, s[0], t[j]) <= 0 {
      assert t[j] in multiset(t);
      if t[j] != x {
        assert t[j] in multiset(s[1..]);
        var k :| 0 <= k < |s[1..]| && s[1..][k] == t[j];
        assert s[k + 1] == t[j];
      }
    }
  }

  lemma HeadBelowAll(o: Ordering, x: Block, s: seq<Block>)
    requires |s| > 0 && Sorted(o, s) && Consistent(o, s) && Fits(o, x) && Cmp(o, s[0], x) > 0
    ensures forall j :: 0 <= j < |s| ==> Cmp(o, x, s[j]) <= 0
  {
    CmpFlip(o, s[0], x);
    forall j | 0 <= j < |s| ensures Cmp(o, x, s[j]) <= 0 {
      if j > 0 {
        CmpTrans(o, x, s[0], s[j]);
      }
    }
  }

  lemma InsertFront(o: Ordering, x: Block, s: seq<Block>)
    requires |s| > 0 && Cmp(o, s[0], x) > 0
    ensures Insert(o, x, s) == [x] + s
  {
  }

  /** When the comparator is a total preorder on the list, the result is sorted. */
  lemma {:induction false} SortSorted(o: Ordering, s: seq<Block>)
    requires Consistent(o, s)
    ensures Sorted(o, Sort(o, s))
  {
    if |s| > 0 {
      var p := s[..|s| - 1];
      SortSorted(o, p);
      var t := Sort(o, p);
      forall k | 0 <= k < |t| ensures Fits(o, t[k]) {
        assert t[k] in multiset(p);
      }
      InsertSorted(o, s[|s| - 1], t);
    }
  }

  /** An element added last, not smaller than anything before it, stays last. */
  lemma {:induction false} InsertAtEnd(o: Ordering, x: Block, s: seq<Block>)
    requires forall k :: 0 <= k < |s| ==> Cmp(o, s[k], x) <= 0
    ensures Insert(o, x, s) == s + [x]
  {
    if |s| > 0 {
      InsertAtEnd(o, x, s[1..]);
      assert [s[0]] + (s[1..] + [x]) == s + [x];
    }
  }

  /** Sorting an already sorted list returns it unchanged. */
  lemma {:induction false} SortKeepsSorted(o: Ordering, s: seq<Block>)
    requires Sorted(o, s)
    ensures Sort(o, s) == s
  {
    if |s| > 0 {
      var p := s[..|s| - 1];
      assert Sorted(o, p);
      SortKeepsSorted(o, p);
      InsertAtEnd(o, s[|s| - 1], p);
      assert p + [s[|s| - 1]] == s;
    }
  }

  /** The elements of `s` that tie with `x`, in list order. */
  function Ties(o: Ordering, s: seq<Block>, x: Block): (r: seq<Block>)
    ensures forall k :: 0 <= k < |r| ==> Cmp(o, r[k], x) == 0
  {
    if |s| == 0 then []
    else (if Cmp(o, s[0], x) == 0 then [s[0]] else []) + Ties(o, s[1..], x)
  }

  lemma {:induction false} TiesConcat(o: Ordering, a: seq<Block>, b: seq<Block>, x: Block)
    ensures Ties(o, a + b, x) == Ties(o, a, x) + Ties(o, b, x)
  {
    if |a| == 0 {
      assert a + b == b;
    } else {
      var h := if Cmp(o, a[0], x) == 0 then [a[0]] else [];
      HeadSplit(a, b);
      TiesCons(o, a[0], a[1..] + b, x);
      TiesCons(o, a[0], a[1..], x);
      TiesConcat(o, a[1..], b, x);
      ConcatAssoc(h, Ties(o, a[1..], x), Ties(o, b, x));
    }
  }

  lemma HeadSplit(a: seq<Block>, b: seq<Block>)
    requires |a| > 0
    ensures a == [a[0]] + a[1..] && a + b == [a[0]] + (a[1..] + b)
  {
  }

  /** Inserting into a sorted list puts the new element after every element it ties with. */
  lemma {:induction false} InsertStable(o: Ordering, y: Block, s: seq<Block>, x: Block)
    requires Sorted(o, s) && Consistent(o, s) && Fits(o, y) && Fits(o, x)
    ensures Ties(o, Insert(o, y, s), x) == Ties(o, s, x) + Ties(o, [y], x)
  {
    if |s| == 0 {
      assert Insert(o, y, s) == [y];
    } else if Cmp(o, s[0], y) <= 0 {
      SortedTail(o, s);
      InsertStable(o, y, s[1..], x);
      InsertStablePast(o, y, s, x);
    } else {
      if Cmp(o, y, x) == 0 {
        TiesNone(o, y, s, x);
      }
      InsertStableFront(o, y, s, x);
    }
  }

  /** The step where `y` goes past the head. */
  lemma InsertStablePast(o: Ordering, y: Block, s: seq<Block>, x: Block)
    requires |s| > 0 && Cmp(o, s[0], y) <= 0
    requires Ties(o, Insert(o, y, s[1..]), x) == Ties(o, s[1..], x) + Ties(o, [y], x)
    ensures Ties(o, Insert(o, y, s), x) == Ties(o, s, x) + Ties(o, [y], x)
  {
    InsertPast(o, y, s);
    TiesHead(o, Insert(o, y, s), x);
    TiesHead(o, s, x);
    ConcatAssoc(Ties(o, [s[0]], x), Ties(o, s[1..], x), Ties(o, [y], x));
  }

  lemma TiesHead(o: Ordering, s: seq<Block>, x: Block)
    requires |s| > 0
    ensures Ties(o, s, x) == Ties(o, [s[0]], x) + Ties(o, s[1..], x)
  {
    assert [s[0]] + s[1..] == s;
    TiesConcat(o, [s[0]], s[1..], x);
  }

  lemma ConcatAssoc<T>(a: seq<T>, b: seq<T>, c: seq<T>)
    ensures a + (b + c) == (a + b) + c
  {
  }

  lemma InsertPast(o: Ordering, y: Block, s: seq<Block>)
    requires |s| > 0 && Cmp(o, s[0], y) <= 0
    ensures Insert(o, y, s) == [s[0]] + Insert(o, y, s[1..])
  {
  }

  /** The step where `y` stops in front of the head. */
  lemma InsertStableFront(o: Ordering, y: Block, s: seq<Block>, x: Block)
    requires |s| > 0 && Cmp(o, s[0], y) > 0
    requires Cmp(o, y, x) == 0 ==> Ties(o, s, x) == []
    ensures Ties(o, Insert(o, y, s), x) == Ties(o, s, x) + Ties(o, [y], x)
  {
    InsertFront(o, y, s);
    TiesCons(o, y, s, x);
    assert Ties(o, [y], x) == if Cmp(o, y, x) == 0 then [y] else [] by {
      TiesCons(o, y, [], x);
      assert [y] + [] == [y];
    }
    if Cmp(o, y, x) == 0 {
      assert Ties(o, s, x) + [y] == [y] + Ties(o, s, x);
    } else {
      assert Ties(o, s, x) + [] == [] + Ties(o, s, x);
    }
  }

  lemma TiesCons(o: Ordering, a: Block, s: seq<Block>, x: Block)
    ensures Ties(o, [a] + s, x) == (if Cmp(o, a, x) == 0 then [a] else []) + Ties(o, s, x)
  {
    assert ([a] + s)[1..] == s;
  }

  lemma SortedTail(o: Ordering, s: seq<Block>)
    requires |s| > 0 && Sorted(o, s) && Consistent(o, s)
    ensures Sorted(o, s[1..]) && Consistent(o, s[1..])
  {
    assert forall i :: 0 <= i < |s[1..]| ==> s[1..][i] == s[i + 1];
  }

  /** Nothing in a sorted list that starts above `y` ties with anything `y` ties with. */
  lemma TiesNone(o: Ordering, y: Block, s: seq<Block>, x: Block)
    requires Sorted(o, s) && Consistent(o, s) && Fits(o, y) && Fits(o, x)
    requires |s| > 0 && Cmp(o, s[0], y) > 0 && Cmp(o, y, x) == 0
    ensures Ties(o, s, x) == []
  {
    forall k | 0 <= k < |s| ensures Cmp(o, s[k], x) != 0 {
      if Cmp(o, s[k], x) == 0 {
        CmpFlip(o, y, x);
        CmpTrans(o, s[k], x, y);
        if k > 0 {
          CmpTrans(o, s[0], s[k], y);
        }
        assert false;
      }
    }
    TiesEmpty(o, s, x);
  }

  lemma {:induction false} TiesEmpty(o: Ordering, s: seq<Block>, x: Block)
    requires forall k :: 0 <= k < |s| ==> Cmp(o, s[k], x) != 0
    ensures Ties(o, s, x) == []
  {
    if |s| > 0 {
      TiesEmpty(o, s[1..], x);
    }
  }

  /**
   * Stability: the elements tied with any given block keep their input
   * order, so the sort is determined by the comparator and the input.
   */
  lemma {:induction false} SortStable(o: Ordering, s: seq<Block>, x: Block)
    requires Consistent(o, s) && Fits(o, x)
    ensures Ties(o, Sort(o, s), x) == Ties(o, s, x)
  {
    if |s| > 0 {
      ConsistentPrefix(o, s);
      SortStable(o, s[..|s| - 1], x);
      SortTies(o, s, x);
      TiesSnoc(o, s, x);
    }
  }

  lemma ConsistentPrefix(o: Ordering, s: seq<Block>)
    requires |s| > 0 && Consistent(o, s)
    ensures Consistent(o, s[..|s| - 1]) && Fits(o, s[|s| - 1])
  {
    assert forall k :: 0 <= k < |s| - 1 ==> s[..|s| - 1][k] == s[k];
  }

  /** The last element is inserted into the sorted prefix after its ties. */
  lemma SortTies(o: Ordering, s: seq<Block>, x: Block)
    requires |s| > 0 && Consistent(o, s) && Fits(o, x)
    ensures Ties(o, Sort(o, s), x) == Ties(o, Sort(o, s[..|s| - 1]), x) + Ties(o, [s[|s| - 1]], x)
  {
    var p := s[..|s| - 1];
    ConsistentPrefix(o, s);
    SortSnoc(o, s);
    SortSorted(o, p);
    SortFits(o, p);
    InsertStable(o, s[|s| - 1], Sort(o, p), x);
  }

  lemma TiesSnoc(o: Ordering, s: seq<Block>, x: Block)
    requires |s| > 0
    ensures Ties(o, s, x) == Ties(o, s[..|s| - 1], x) + Ties(o, [s[|s| - 1]], x)
  {
    assert s[..|s| - 1] + [s[|s| - 1]] == s;
    TiesConcat(o, s[..|s| - 1], [s[|s| - 1]], x);
  }

  lemma SortSnoc(o: Ordering, s: seq<Block>)
    requires |s| > 0
    ensures Sort(o, s) == Insert(o, s[|s| - 1], Sort(o, s[..|s| - 1]))
  {
  }

  lemma SortFits(o: Ordering, s: seq<Block>)
    requires Consistent(o, s)
    ensures Consistent(o, Sort(o, s))
  {
    var t := Sort(o, s);
    forall k | 0 <= k < |t| ensures Fits(o, t[k]) {
      assert t[k] in multiset(s);
    }
  }
}
