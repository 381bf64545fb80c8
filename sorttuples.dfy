/** The array of `SortTuple`s that `thunar_tree_view_model_sort` builds: each
    child node tagged with its offset before the sort. Sorting the tuples by
    their nodes and reading them back gives the new child order and the
    `new_order` array of old offsets. */
module SortTuples {
  import opened Seqs
  import opened Siblings

  datatype SortTuple<T> = SortTuple(offset: int, node: T)

  /** `sort_array[n] = (n, n-th child)`. */
  function Tag<T>(ch: seq<T>): (t: seq<SortTuple<T>>)
    ensures |t| == |ch|
    ensures forall k | 0 <= k < |ch| :: t[k] == SortTuple(k, ch[k])
  {
    seq(|ch|, k requires 0 <= k < |ch| => SortTuple(k, ch[k]))
  }

  /** `thunar_tree_view_model_cmp_func`: compares the tuples' nodes. */
  function TupleCmp<T>(cmp: (T, T) -> int): (SortTuple<T>, SortTuple<T>) -> int
  {
    (a: SortTuple<T>, b: SortTuple<T>) => cmp(a.node, b.node)
  }

  function Offsets<T>(t: seq<SortTuple<T>>): (r: seq<int>)
    ensures |r| == |t|
    ensures forall k | 0 <= k < |t| :: r[k] == t[k].offset
  {
    seq(|t|, k requires 0 <= k < |t| => t[k].offset)
  }

  function NodesOf<T>(t: seq<SortTuple<T>>): (r: seq<T>)
    ensures |r| == |t|
    ensures forall k | 0 <= k < |t| :: r[k] == t[k].node
  {
    seq(|t|, k requires 0 <= k < |t| => t[k].node)
  }

  /** Every sorted tuple is one of the tagged tuples. */
  lemma SortedTupleFromTag<T>(ch: seq<T>, cmp: (T, T) -> int, i: int)
    requires 0 <= i < |StableSort(Tag(ch), TupleCmp(cmp))|
    ensures |StableSort(Tag(ch), TupleCmp(cmp))| == |ch|
    ensures var t := StableSort(Tag(ch), TupleCmp(cmp))[i];
            0 <= t.offset < |ch| && t.node == ch[t.offset]
  {
    var sorted := StableSort(Tag(ch), TupleCmp(cmp));
    StableSortPermutes(Tag(ch), TupleCmp(cmp));
    assert |sorted| == |multiset(sorted)| == |multiset(Tag(ch))| == |ch|;
    assert sorted[i] in multiset(Tag(ch));
  }

  /** The sorted tuples name every child once, their offsets form a
      permutation of 0..n-1, the node at position `i` is the child that was
      at offset `new_order[i]`, and with an antisymmetric comparator the
      nodes come out in comparator order. */
  lemma SortedTuples<T>(ch: seq<T>, cmp: (T, T) -> int)
    requires NoDup(ch)
    ensures var sorted := StableSort(Tag(ch), TupleCmp(cmp));
      && |sorted| == |ch|
      && IsPermutation(Offsets(sorted), |ch|)
      && (forall i | 0 <= i < |ch| :: NodesOf(sorted)[i] == ch[Offsets(sorted)[i]])
      && NoDup(NodesOf(sorted))
      && multiset(NodesOf(sorted)) == multiset(ch)
  {
    var tc := TupleCmp(cmp);
    var tagged := Tag(ch);
    var sorted := StableSort(tagged, tc);
    StableSortPermutes(tagged, tc);
    forall i | 0 <= i < |sorted|
      ensures 0 <= sorted[i].offset < |ch| && sorted[i].node == ch[sorted[i].offset]
    {
      SortedTupleFromTag(ch, cmp, i);
    }
    assert NoDup(tagged);
    NoDupPermutation(tagged, sorted);
    var nodes := NodesOf(sorted);
    forall i, j | 0 <= i < j < |nodes|
      ensures nodes[i] != nodes[j]
    {
      assert sorted[i] != sorted[j];
      assert sorted[i].offset != sorted[j].offset;
    }
    forall x | x in ch
      ensures x in nodes
    {
      var j :| 0 <= j < |ch| && ch[j] == x;
      assert tagged[j] in multiset(sorted);
      var i :| 0 <= i < |sorted| && sorted[i] == tagged[j];
      assert nodes[i] == x;
    }
    NoDupSameElements(nodes, ch);
  }

  /** Sorting the tuples by nodes puts the nodes in comparator order. */
  lemma SortedTuplesInOrder<T(!new)>(ch: seq<T>, cmp: (T, T) -> int)
    requires Antisymmetric(cmp)
    ensures SortedBy(NodesOf(StableSort(Tag(ch), TupleCmp(cmp))), cmp)
  {
    var tc := TupleCmp(cmp);
    assert Antisymmetric(tc) by {
      forall a: SortTuple<T>, b: SortTuple<T>
        ensures tc(a, b) < 0 <==> tc(b, a) > 0
      {
        assert tc(a, b) == cmp(a.node, b.node) && tc(b, a) == cmp(b.node, a.node);
      }
    }
    StableSortSorted(Tag(ch), tc);
    var sorted := StableSort(Tag(ch), tc);
    var nodes := NodesOf(sorted);
    forall i, j | 0 <= i && j == i + 1 < |nodes|
      ensures cmp(nodes[i], nodes[j]) <= 0
    {
      assert tc(sorted[i], sorted[j]) <= 0;
    }
  }

  /** The array work of `thunar_tree_view_model_sort` for a child list `ch`:
      fills the tuple array, sorts it, and rebuilds the list by prepending
      each sorted node and reversing, collecting the old offsets as
      `new_order`. */
  method SortChildren<T(!new)>(ch: seq<T>, cmp: (T, T) -> int) returns (relinked: seq<T>, newOrder: seq<int>)
    requires NoDup(ch)
    ensures |relinked| == |ch| && IsPermutation(newOrder, |ch|)
    ensures forall i | 0 <= i < |ch| :: relinked[i] == ch[newOrder[i]]
    ensures NoDup(relinked) && multiset(relinked) == multiset(ch)
    ensures Antisymmetric(cmp) ==> SortedBy(relinked, cmp)
  {
    var tuples: seq<SortTuple<T>> := [];
    var k := 0;
    while k < |ch|
      invariant 0 <= k <= |ch|
      invariant tuples == Tag(ch)[..k]
    {
      tuples := tuples + [SortTuple(k, ch[k])];
      k := k + 1;
    }
    assert tuples == Tag(ch);
    var sorted := StableSort(tuples, TupleCmp(cmp));
    SortedTuples(ch, cmp);
    if Antisymmetric(cmp) {
      SortedTuplesInOrder(ch, cmp);
    }
    var rev: seq<T> := [];
    newOrder := [];
    k := 0;
    while k < |sorted|
      invariant 0 <= k <= |sorted|
      invariant newOrder == Offsets(sorted)[..k]
      invariant |rev| == k && forall i | 0 <= i < k :: rev[i] == sorted[k - 1 - i].node
    {
      newOrder := newOrder + [sorted[k].offset];
      rev := [sorted[k].node] + rev;
      k := k + 1;
    }
    relinked := Reverse(rev);
    assert relinked == NodesOf(sorted);
    assert newOrder == Offsets(sorted);
  }
}
