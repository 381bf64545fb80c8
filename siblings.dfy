/** The algorithms the tree model runs on one directory's ordered child list:
    the full re-sort behind `thunar_tree_view_model_sort` (whose library
    sort, `g_qsort_with_data`, is modelled here as a stable insertion sort),
    unlinking a child, relinking it at its sorted position, and the
    `new_order` permutation announced after a single child moved.

    A sibling list is a sequence; `cmp` is the model's node comparator,
    negative when its first argument sorts first. */
module Siblings {
  import opened Seqs

  /** The sign of `cmp` flips when its arguments are swapped (so a zero
      result is symmetric too). */
  ghost predicate Antisymmetric<T(!new)>(cmp: (T, T) -> int)
  {
    forall a, b :: cmp(a, b) < 0 <==> cmp(b, a) > 0
  }

  /** No sibling compares greater than the one after it. */
  ghost predicate SortedBy<T>(s: seq<T>, cmp: (T, T) -> int)
  {
    forall i, j {:trigger cmp(s[i], s[j])} | 0 <= i && j == i + 1 < |s| :: cmp(s[i], s[j]) <= 0
  }

  // ---------------------------------------------------------------------
  // Full re-sort (the library sort behind thunar_tree_view_model_sort)
  // ---------------------------------------------------------------------

  /** Links `x` in before the first entry it compares strictly less than,
      so entries that compare equal keep their order. */
  function InsertStable<T>(x: T, s: seq<T>, cmp: (T, T) -> int): seq<T>
  {
    if |s| == 0 then [x]
    else if cmp(x, s[0]) < 0 then [x] + s
    else [s[0]] + InsertStable(x, s[1..], cmp)
  }

  /** The stable sort `g_qsort_with_data` performs on the array of
      (offset, node) tuples. */
  function StableSort<T>(s: seq<T>, cmp: (T, T) -> int): seq<T>
  {
    if |s| == 0 then [] else InsertStable(s[|s| - 1], StableSort(s[..|s| - 1], cmp), cmp)
  }

  lemma {:induction false} InsertStablePermutes<T>(x: T, s: seq<T>, cmp: (T, T) -> int)
    ensures multiset(InsertStable(x, s, cmp)) == multiset(s) + multiset{x}
  {
    if |s| > 0 && cmp(x, s[0]) >= 0 {
      InsertStablePermutes(x, s[1..], cmp);
      assert s == [s[0]] + s[1..];
    }
  }

  lemma {:induction false} InsertStableSorted<T(!new)>(x: T, s: seq<T>, cmp: (T, T) -> int)
    requires Antisymmetric(cmp) && SortedBy(s, cmp)
    ensures SortedBy(InsertStable(x, s, cmp), cmp)
    ensures |s| > 0 ==> InsertStable(x, s, cmp)[0] in {x, s[0]}
  {
    var r := InsertStable(x, s, cmp);
    if |s| > 0 && cmp(x, s[0]) >= 0 {
      var tail := InsertStable(x, s[1..], cmp);
      assert SortedBy(s[1..], cmp) by {
        forall i | 0 <= i < |s| - 2
          ensures cmp(s[1..][i], s[1..][i + 1]) <= 0
        {
          assert cmp(s[i + 1], s[i + 2]) <= 0;
        }
      }
      InsertStableSorted(x, s[1..], cmp);
      assert cmp(s[0], x) <= 0;
      forall i | 0 <= i < |r| - 1
        ensures cmp(r[i], r[i + 1]) <= 0
      {
        if i == 0 {
          if |s| > 1 {
            assert cmp(s[0], s[1]) <= 0;
          } else {
            assert tail == [x];
          }
        } else {
          assert cmp(tail[i - 1], tail[i]) <= 0;
        }
      }
    } else {
      forall i | 0 <= i < |r| - 1
        ensures cmp(r[i], r[i + 1]) <= 0
      {
        if i > 0 {
          assert cmp(s[i - 1], s[i]) <= 0;
        }
      }
    }
  }

  /** The sort rearranges the entries and nothing else. */
  lemma {:induction false} StableSortPermutes<T>(s: seq<T>, cmp: (T, T) -> int)
    ensures multiset(StableSort(s, cmp)) == multiset(s)
  {
    if |s| > 0 {
      StableSortPermutes(s[..|s| - 1], cmp);
      InsertStablePermutes(s[|s| - 1], StableSort(s[..|s| - 1], cmp), cmp);
      assert s == s[..|s| - 1] + [s[|s| - 1]];
    }
  }

  /** Under an antisymmetric comparator the result is in comparator order. */
  lemma {:induction false} StableSortSorted<T(!new)>(s: seq<T>, cmp: (T, T) -> int)
    requires Antisymmetric(cmp)
    ensures SortedBy(StableSort(s, cmp), cmp)
  {
    if |s| > 0 {
      StableSortSorted(s[..|s| - 1], cmp);
      InsertStableSorted(s[|s| - 1], StableSort(s[..|s| - 1], cmp), cmp);
    }
  }

  // ---------------------------------------------------------------------
  // Repositioning one child (unlink_child, insert_child_node_sorted)
  // ---------------------------------------------------------------------

  /** `thunar_tree_view_model_unlink_child`: takes `child` out of the sibling
      list and reports the offset it had. */
  function UnlinkChild<T(==)>(siblings: seq<T>, child: T): (res: (seq<T>, nat))
    requires child in siblings
    ensures res.1 < |siblings| && siblings[res.1] == child
    ensures forall k | 0 <= k < res.1 :: siblings[k] != child
    ensures res.0 == RemoveAt(siblings, res.1)
  {
    var pos := IndexOf(siblings, child);
    (RemoveAt(siblings, pos), pos)
  }

  /** The loop of `get_path` that counts the siblings in front of `x`. */
  method ChildPosition<T(==)>(s: seq<T>, x: T) returns (i: nat)
    requires x in s
    ensures i < |s| && s[i] == x && i == IndexOf(s, x)
  {
    i := 0;
    while s[i] != x
      invariant i < |s| && IndexOf(s, x) >= i
      decreases |s| - i
    {
      i := i + 1;
    }
  }

  /** Relinking an unlinked child at its former offset restores the list. */
  lemma UnlinkRelink<T>(siblings: seq<T>, child: T)
    requires child in siblings
    ensures InsertAt(UnlinkChild(siblings, child).0, UnlinkChild(siblings, child).1, child) == siblings
  {
    var (rest, pos) := UnlinkChild(siblings, child);
    assert siblings == siblings[..pos] + [child] + siblings[pos + 1..];
  }

  /** The offset at which `insert_child_node_sorted` links `x` into `s`, as
      written: before the first sibling, other than the last one, that `x`
      does not compare greater than; otherwise after the last sibling, which
      is never compared with `x`. */
  function InsertPosAsWritten<T>(s: seq<T>, x: T, cmp: (T, T) -> int): (pos: nat)
    ensures pos <= |s|
    ensures forall i | 0 <= i < pos && i < |s| - 1 :: cmp(x, s[i]) > 0
    ensures pos < |s| ==> pos < |s| - 1 && cmp(x, s[pos]) <= 0
  {
    if |s| <= 1 then |s|
    else if cmp(x, s[0]) <= 0 then 0
    else 1 + InsertPosAsWritten(s[1..], x, cmp)
  }

  /** `thunar_tree_view_model_insert_child_node_sorted`, as written: walks the
      siblings and links `child` in, returning the offset it now has. */
  method InsertChildNodeSorted<T>(siblings: seq<T>, child: T, cmp: (T, T) -> int)
    returns (r: seq<T>, pos: nat)
    ensures pos == InsertPosAsWritten(siblings, child, cmp)
    ensures r == InsertAt(siblings, pos, child)
  {
    if |siblings| == 0 {
      return [child], 0;
    }
    pos := 0;
    while true
      invariant pos < |siblings|
      invariant forall i | 0 <= i < pos :: cmp(child, siblings[i]) > 0
      decreases |siblings| - pos
    {
      if pos == |siblings| - 1 {
        // the last sibling: link after it
        pos := pos + 1;
        break;
      }
      if cmp(child, siblings[pos]) <= 0 {
        break;
      }
      pos := pos + 1;
    }
    r := InsertAt(siblings, pos, child);
  }

  /** Linking a child in as written can leave a sorted list unsorted: with
      integer siblings [1, 3] and child 2, the child is compared with 1 only
      and lands after 3. */
  lemma AsWrittenMisplacesBeforeLast()
    ensures var cmp := (a: int, b: int) => a - b;
            && SortedBy([1, 3], cmp)
            && InsertPosAsWritten([1, 3], 2, cmp) == 2
            && InsertAt([1, 3], InsertPosAsWritten([1, 3], 2, cmp), 2) == [1, 3, 2]
            && !SortedBy([1, 3, 2], cmp)
  {
    var cmp := (a: int, b: int) => a - b;
    assert [1, 3][1..] == [3];
    assert InsertPosAsWritten([3], 2, cmp) == 1;
    assert cmp([1, 3, 2][1], [1, 3, 2][2]) > 0;
  }

  /** The offset the sorted insertion evidently intends: before the first
      sibling `x` does not compare greater than, the last one included;
      after all of them otherwise. */
  function InsertPos<T>(s: seq<T>, x: T, cmp: (T, T) -> int): (pos: nat)
    ensures pos <= |s|
    ensures forall i | 0 <= i < pos :: cmp(x, s[i]) > 0
    ensures pos < |s| ==> cmp(x, s[pos]) <= 0
  {
    if |s| == 0 then 0
    else if cmp(x, s[0]) <= 0 then 0
    else 1 + InsertPos(s[1..], x, cmp)
  }

  /** The sorted insertion with the last sibling compared too; this is the
      version the tree model uses to reposition a child. */
  method InsertChildNodeSortedFixed<T>(siblings: seq<T>, child: T, cmp: (T, T) -> int)
    returns (r: seq<T>, pos: nat)
    ensures pos == InsertPos(siblings, child, cmp)
    ensures r == InsertAt(siblings, pos, child)
  {
    pos := 0;
    while pos < |siblings|
      invariant pos <= |siblings|
      invariant forall i | 0 <= i < pos :: cmp(child, siblings[i]) > 0
    {
      if cmp(child, siblings[pos]) <= 0 {
        break;
      }
      pos := pos + 1;
    }
    r := InsertAt(siblings, pos, child);
  }

  /** Linking a child in at `InsertPos` keeps a sorted sibling list sorted. */
  lemma {:induction false} InsertPosKeepsOrder<T(!new)>(s: seq<T>, x: T, cmp: (T, T) -> int)
    requires Antisymmetric(cmp) && SortedBy(s, cmp)
    ensures SortedBy(InsertAt(s, InsertPos(s, x, cmp), x), cmp)
  {
    var pos := InsertPos(s, x, cmp);
    var r := InsertAt(s, pos, x);
    forall i | 0 <= i < |r| - 1
      ensures cmp(r[i], r[i + 1]) <= 0
    {
      if i + 1 == pos {
        assert r[i] == s[i] && cmp(x, s[i]) > 0;
      } else if i == pos {
        assert r[i + 1] == s[i];
      } else if i < pos {
        assert r[i] == s[i] && r[i + 1] == s[i + 1];
      } else {
        assert r[i] == s[i - 1] && r[i + 1] == s[i];
      }
    }
  }

  // ---------------------------------------------------------------------
  // The reorder notification after one child moved (reorder_if_req)
  // ---------------------------------------------------------------------

  /** The permutation announced when the child at old offset `before` now
      sits at offset `after`: entry `after` is `before`, and the other
      entries list the remaining old offsets in increasing order. */
  function MoveOrder(length: nat, before: nat, after: nat): (order: seq<int>)
    requires before < length && after < length
    ensures |order| == length && order[after] == before
    ensures forall i | 0 <= i < length :: 0 <= order[i] < length
  {
    seq(length, i requires 0 <= i < length =>
      if i == after then before
      else
        var k := if i < after then i else i - 1;
        if k < before then k else k + 1)
  }

  /** The `new_order` loop of `thunar_tree_view_model_reorder_if_req`. */
  method ComputeNewOrder(length: nat, posBefore: nat, posAfter: nat) returns (newOrder: seq<int>)
    requires posBefore < length && posAfter < length
    ensures newOrder == MoveOrder(length, posBefore, posAfter)
  {
    newOrder := [];
    var i, j := 0, 0;
    while i < length
      invariant 0 <= i <= length
      invariant j == var c := if i > posAfter then i - 1 else i; if c <= posBefore then c else c + 1
      invariant newOrder == MoveOrder(length, posBefore, posAfter)[..i]
    {
      if i == posAfter {
        newOrder := newOrder + [posBefore];
      } else {
        if j == posBefore {
          j := j + 1;
        }
        newOrder := newOrder + [j];
        j := j + 1;
      }
      i := i + 1;
    }
  }

  /** The announced order is a permutation of 0..length-1, and apart from
      the moved entry it lists old offsets in increasing order without
      `before`. */
  lemma MoveOrderIsPermutation(length: nat, before: nat, after: nat)
    requires before < length && after < length
    ensures IsPermutation(MoveOrder(length, before, after), length)
    ensures forall i | 0 <= i < length && i != after :: MoveOrder(length, before, after)[i] != before
    ensures forall i, j | 0 <= i < j < length && i != after && j != after ::
              MoveOrder(length, before, after)[i] < MoveOrder(length, before, after)[j]
  {
  }

  /** `new_order[i]` is the old offset of the child now at offset `i`, when
      the child at `before` was unlinked and relinked at `after`. */
  lemma MoveOrderTracksChildren<T>(s: seq<T>, before: nat, after: nat)
    requires before < |s| && after < |s|
    ensures var moved := InsertAt(RemoveAt(s, before), after, s[before]);
            forall i | 0 <= i < |s| :: moved[i] == s[MoveOrder(|s|, before, after)[i]]
  {
  }
}
