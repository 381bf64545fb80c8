/** `ThunarTreeViewModel`: the GtkTreeModel behind Thunar's tree view.

    The model owns a node tree whose root is invisible. Every other node
    holds an item for one file, except the placeholder "dummy" child that an
    unloaded folder carries so that the view draws an expander. The model
    keeps each folder's children in the order its comparator gives, tells
    the view how rows moved, counts view references per item, counts the
    folders still loading, and stashes hidden files in a side list.

    `Model` holds that state. The node tree is the arena of `TreeNodes`; the
    view notifications the model emits are appended to `events` (only the
    reorder permutations and the "loading" notifications are recorded). */
module TreeViewModel {
  import opened Seqs
  import opened Siblings
  import opened FileCompare
  import opened TreeNodes
  import opened SortTuples
  import opened Counters
  import opened HiddenFiles

  datatype Event =
    | Reordered(parent: NodeId, path: seq<int>, newOrder: seq<int>)  // gtk_tree_model_rows_reordered
    | LoadScheduled(node: NodeId)       // the load idle source of the node's item was added
    | LoadingNotified(loading: bool)    // notify::loading with the new value of get_loading

  /** Every node has the same file in both arenas. */
  ghost predicate SameFiles(n1: Nodes, n2: Nodes)
  {
    forall x :: FileOf(n1, x) == FileOf(n2, x)
  }

  /** The two arenas hold the same nodes with the same parents, items and
      files; only the order of children may differ. */
  ghost predicate SameUpToOrder(n1: Nodes, n2: Nodes)
  {
    && n1.Keys == n2.Keys && SameFiles(n1, n2)
    && forall m | m in n1 ::
         && n2[m].item == n1[m].item && n2[m].parent == n1[m].parent
         && multiset(n2[m].children) == multiset(n1[m].children)
  }

  lemma SameUpToOrderTrans(n1: Nodes, n2: Nodes, n3: Nodes)
    requires SameUpToOrder(n1, n2) && SameUpToOrder(n2, n3)
    ensures SameUpToOrder(n1, n3)
  {
    assert SameFiles(n1, n3) by {
      forall x
        ensures FileOf(n1, x) == FileOf(n3, x)
      {
        assert FileOf(n1, x) == FileOf(n2, x);
      }
    }
  }

  /** The node comparator only looks at files, so an order survives edits
      that leave every node's file alone. */
  lemma SortedAcrossSameFiles(fo: FileOracle, s: SortSettings, n1: Nodes, n2: Nodes, ch: seq<NodeId>)
    requires SameFiles(n1, n2) && SortedBy(ch, NodeCmp(fo, s, n1))
    ensures SortedBy(ch, NodeCmp(fo, s, n2))
  {
    forall i | 0 <= i < |ch| - 1
      ensures NodeCmp(fo, s, n2)(ch[i], ch[i + 1]) <= 0
    {
      assert NodeCmp(fo, s, n1)(ch[i], ch[i + 1]) <= 0;
      assert FileOf(n1, ch[i]) == FileOf(n2, ch[i]) && FileOf(n1, ch[i + 1]) == FileOf(n2, ch[i + 1]);
    }
  }

  /** `cmp_nodes_func` inherits antisymmetry from `cmp_files`. */
  lemma NodeCmpAntisymmetric(fo: FileOracle, s: SortSettings, nodes: Nodes)
    requires OracleAntisymmetric(fo) && (s.sign == 1 || s.sign == -1)
    ensures Antisymmetric(NodeCmp(fo, s, nodes))
  {
    forall a: NodeId, b: NodeId
      ensures NodeCmp(fo, s, nodes)(a, b) < 0 <==> NodeCmp(fo, s, nodes)(b, a) > 0
    {
      CmpFilesAntisymmetric(fo, s, FileOf(nodes, a), FileOf(nodes, b));
    }
  }

  /** `after` is `before` with the children of `n` rearranged: the same
      nodes, the one now at position `i` being the one that was at offset
      `newOrder[i]`, in the order of the comparator `fo`/`s` gives; no other
      node changes. */
  ghost predicate Resorted(fo: FileOracle, s: SortSettings, before: Nodes, after: Nodes, n: NodeId, newOrder: seq<int>)
    requires n in before
  {
    var ch := before[n].children;
    && n in after && after == ReplaceChildren(before, n, after[n].children)
    && IsPermutation(newOrder, |ch|) && |after[n].children| == |ch|
    && (forall i | 0 <= i < |ch| :: after[n].children[i] == ch[newOrder[i]])
    && multiset(after[n].children) == multiset(ch)
    && SortedBy(after[n].children, NodeCmp(fo, s, after))
  }

  /** Relinking a node's children as a rearrangement of themselves keeps
      the arena well formed. */
  lemma RelinkWellFormed(nodes: Nodes, depth: map<NodeId, nat>, root: NodeId, n: NodeId, relinked: seq<NodeId>)
    requires WellFormed(nodes, depth, root) && n in nodes
    requires multiset(relinked) == multiset(nodes[n].children)
    ensures WellFormed(ReplaceChildren(nodes, n, relinked), depth, root)
  {
    var ch := nodes[n].children;
    assert ChildrenLinked(nodes, n);
    NoDupPermutation(ch, relinked);
    forall x
      ensures x in relinked <==> x in ch
    {
      assert x in relinked <==> x in multiset(relinked);
      assert x in ch <==> x in multiset(ch);
    }
    assert |relinked| == |multiset(relinked)| == |multiset(ch)| == |ch|;
    ReplaceChildrenWellFormed(nodes, depth, root, n, relinked);
  }

  /** Relinking children changes no node's file. */
  /** Relinking the same children in another order changes nothing but
      that order. */
  lemma RelinkSameUpToOrder(nodes: Nodes, n: NodeId, relinked: seq<NodeId>)
    requires n in nodes && multiset(relinked) == multiset(nodes[n].children)
    ensures SameUpToOrder(nodes, ReplaceChildren(nodes, n, relinked))
  {
    RelinkSameFiles(nodes, n, relinked);
  }

  lemma RelinkSameFiles(nodes: Nodes, n: NodeId, relinked: seq<NodeId>)
    requires n in nodes
    ensures SameFiles(nodes, ReplaceChildren(nodes, n, relinked))
  {
    var r := ReplaceChildren(nodes, n, relinked);
    forall x
      ensures FileOf(nodes, x) == FileOf(r, x)
    {
    }
  }

  /** Relinking a node's children as a rearrangement of themselves keeps
      the files below it. */
  lemma RelinkFileBag(nodes: Nodes, n: NodeId, relinked: seq<NodeId>)
    requires n in nodes && multiset(relinked) == multiset(nodes[n].children)
    ensures FileBag(ReplaceChildren(nodes, n, relinked), relinked) == FileBag(nodes, nodes[n].children)
  {
    var r := ReplaceChildren(nodes, n, relinked);
    forall c | c in relinked
      ensures OwnFile(r, c) == OwnFile(nodes, c)
    {
    }
    FileBagFrame(nodes, r, relinked);
    FileBagPermutation(nodes, nodes[n].children, relinked);
  }

  /** A re-sort keeps the arena well formed, every node, parent, item and
      file, and the files below the re-sorted node. */
  lemma ResortedKeeps(fo: FileOracle, s: SortSettings, before: Nodes, after: Nodes, depth: map<NodeId, nat>,
                      root: NodeId, n: NodeId, newOrder: seq<int>)
    requires WellFormed(before, depth, root) && n in before
    requires Resorted(fo, s, before, after, n, newOrder)
    ensures WellFormed(after, depth, root) && SameUpToOrder(before, after)
    ensures FileBag(after, after[n].children) == FileBag(before, before[n].children)
  {
    RelinkWellFormed(before, depth, root, n, after[n].children);
    RelinkSameFiles(before, n, after[n].children);
    RelinkFileBag(before, n, after[n].children);
  }

  /** Reordering children keeps the files below every node. */
  lemma SameUpToOrderFileBag(a: Nodes, b: Nodes, n: NodeId)
    requires SameUpToOrder(a, b) && n in a
    ensures FileBag(b, b[n].children) == FileBag(a, a[n].children)
  {
    forall c | c in b[n].children
      ensures OwnFile(b, c) == OwnFile(a, c)
    {
    }
    FileBagFrame(a, b, b[n].children);
    FileBagPermutation(a, a[n].children, b[n].children);
  }

  /** `b` is `a` with its children perhaps in another order. */
  ghost predicate SameRowUpToOrder(a: Node, b: Node)
  {
    b.item == a.item && b.parent == a.parent && multiset(b.children) == multiset(a.children)
  }

  /** Switching hidden files on: the root gained a row for each file of
      `hidden`. Every other node of `before` other than a dummy of the
      root is there with its parent, item and children, the latter perhaps
      reordered; every former child of the root is still one, and any
      other child of the root is a fresh row. Every node's children are in
      order. */
  ghost predicate HiddenRowsShown(fo: FileOracle, s: SortSettings, root: NodeId, before: Nodes, after: Nodes, hidden: seq<FileId>)
    requires root in before
  {
    && before.Keys <= after.Keys && root in after && after[root].item == before[root].item
    && FileBag(after, after[root].children) == FileBag(before, before[root].children) + multiset(hidden)
    && (forall m | m in before && m != root && m !in DummyOf(before, root) :: m in after && SameRowUpToOrder(before[m], after[m]))
    && (forall c | c in before[root].children && c !in DummyOf(before, root) :: c in after[root].children)
    && (forall c | c in after[root].children && (c !in before[root].children || (c in DummyOf(before, root) && after[c].item.Some?)) ::
          FreshRow(fo, after, c))
    && (forall m | m in after :: SortedBy(after[m].children, NodeCmp(fo, s, after)))
  }

  /** Reordering children keeps a fresh row fresh. */
  lemma FreshRowUpToOrder(fo: FileOracle, a: Nodes, b: Nodes, x: NodeId)
    requires SameUpToOrder(a, b) && FreshRow(fo, a, x)
    ensures FreshRow(fo, b, x)
  {
    if fo.isDirectory(a[x].item.value.file) {
      assert multiset(b[x].children) == multiset{a[x].children[0]};
      assert b[x].children[0] in multiset(b[x].children);
    } else {
      assert |multiset(b[x].children)| == 0;
    }
  }

  /** Adding the hidden files below the root and then sorting everything
      shows them. */
  lemma ShowHiddenShows(fo: FileOracle, s: SortSettings, root: NodeId, before: Nodes, mid: Nodes, after: Nodes, hidden: seq<FileId>)
    requires root in before && Grown(fo, before, mid, root, multiset(hidden))
    requires SameUpToOrder(mid, after)
    requires forall m | m in after :: SortedBy(after[m].children, NodeCmp(fo, s, after))
    ensures HiddenRowsShown(fo, s, root, before, after, hidden)
  {
    SameUpToOrderFileBag(mid, after, root);
    forall c | c in after[root].children && (c !in before[root].children || (c in DummyOf(before, root) && after[c].item.Some?))
      ensures FreshRow(fo, after, c)
    {
      assert c in multiset(mid[root].children);
      FreshRowUpToOrder(fo, mid, after, c);
    }
    forall c | c in mid[root].children
      ensures c in after[root].children
    {
      assert c in multiset(after[root].children);
    }
  }

  /** The outcome of the array work of the sort, linked back into the
      arena, is a re-sort. */
  lemma RelinkSorted(fo: FileOracle, s: SortSettings, nodes: Nodes, n: NodeId,
                     relinked: seq<NodeId>, newOrder: seq<int>)
    requires n in nodes
    requires IsPermutation(newOrder, |nodes[n].children|) && |relinked| == |nodes[n].children|
    requires forall i | 0 <= i < |relinked| :: relinked[i] == nodes[n].children[newOrder[i]]
    requires multiset(relinked) == multiset(nodes[n].children)
    requires SortedBy(relinked, NodeCmp(fo, s, nodes))
    ensures Resorted(fo, s, nodes, ReplaceChildren(nodes, n, relinked), n, newOrder)
  {
    RelinkSameFiles(nodes, n, relinked);
    SortedAcrossSameFiles(fo, s, nodes, ReplaceChildren(nodes, n, relinked), relinked);
  }

  /** `after` extends `before` with row-reordered notifications only. */
  ghost predicate ReorderedSince(before: seq<Event>, after: seq<Event>)
  {
    before <= after && forall i | |before| <= i < |after| :: after[i].Reordered?
  }

  /** Every node outside `todo` has its children in comparator order. */
  ghost predicate SortedExcept(fo: FileOracle, s: SortSettings, nodes: Nodes, todo: set<NodeId>)
  {
    forall m | m in nodes && m !in todo :: SortedBy(nodes[m].children, NodeCmp(fo, s, nodes))
  }

  /** One step of sorting every node: re-sorting `m` keeps the tree the same up to
      sibling order and leaves the nodes already done sorted. */
  lemma SortStep(fo: FileOracle, s: SortSettings, orig: Nodes, before: Nodes, after: Nodes,
                 m: NodeId, newOrder: seq<int>, todo: set<NodeId>)
    requires m in before && SameUpToOrder(orig, before) && SortedExcept(fo, s, before, todo)
    requires if |before[m].children| <= 1 then after == before else Resorted(fo, s, before, after, m, newOrder)
    ensures SameUpToOrder(orig, after) && SortedExcept(fo, s, after, todo - {m})
  {
    if |before[m].children| > 1 {
      RelinkSameFiles(before, m, after[m].children);
      assert SameUpToOrder(before, after);
      SameUpToOrderTrans(orig, before, after);
      forall x | x in after && x !in todo - {m}
        ensures SortedBy(after[x].children, NodeCmp(fo, s, after))
      {
        if x != m {
          SortedAcrossSameFiles(fo, s, before, after, after[x].children);
        }
      }
    }
  }

  /** The children of a node in a well-formed arena are distinct. */
  lemma ChildrenDistinct(nodes: Nodes, depth: map<NodeId, nat>, root: NodeId, n: NodeId)
    requires WellFormed(nodes, depth, root) && n in nodes
    ensures NoDup(nodes[n].children)
  {
    assert ChildrenLinked(nodes, n);
  }

  /** A re-sort keeps the arena valid. */
  lemma ResortedArenaValid(fo: FileOracle, s: SortSettings, before: Nodes, after: Nodes, depth: map<NodeId, nat>,
                           root: NodeId, nextId: NodeId, n: NodeId, newOrder: seq<int>)
    requires ArenaValid(before, depth, root, nextId) && n in before
    requires Resorted(fo, s, before, after, n, newOrder)
    ensures ArenaValid(after, depth, root, nextId)
  {
    ResortedKeeps(fo, s, before, after, depth, root, n, newOrder);
  }

  /** The array work of `thunar_tree_view_model_sort` for node `n`, linked
      back into the arena: a re-sort under the comparator `fo`/`s`. */
  method SortNode(fo: FileOracle, s: SortSettings, nodes: Nodes, n: NodeId) returns (after: Nodes, newOrder: seq<int>)
    requires n in nodes && NoDup(nodes[n].children)
    requires OracleAntisymmetric(fo) && (s.sign == 1 || s.sign == -1)
    ensures Resorted(fo, s, nodes, after, n, newOrder)
  {
    var relinked;
    relinked, newOrder := SortChildren(nodes[n].children, NodeCmp(fo, s, nodes));
    NodeCmpAntisymmetric(fo, s, nodes);
    RelinkSorted(fo, s, nodes, n, relinked, newOrder);
    after := ReplaceChildren(nodes, n, relinked);
  }

  /** `after` is `before` with `n` unlinked from the children of `p` and
      linked back in at the offset the sorted insertion picks under `cmp`. */
  ghost predicate Repositioned(cmp: (NodeId, NodeId) -> int, before: Nodes, after: Nodes, p: NodeId, n: NodeId,
                               posBefore: nat, posAfter: nat)
    requires p in before
  {
    var ch := before[p].children;
    && n in ch && posBefore == IndexOf(ch, n)
    && posAfter == InsertPos(RemoveAt(ch, posBefore), n, cmp)
    && after == ReplaceChildren(before, p, InsertAt(RemoveAt(ch, posBefore), posAfter, n))
  }

  /** `unlink_child` followed by the sorted insertion, on the arena. */
  method RepositionNode(fo: FileOracle, s: SortSettings, nodes: Nodes, p: NodeId, n: NodeId)
    returns (after: Nodes, posBefore: nat, posAfter: nat)
    requires p in nodes && n in nodes[p].children
    ensures Repositioned(NodeCmp(fo, s, nodes), nodes, after, p, n, posBefore, posAfter)
  {
    var unlinked := UnlinkChild(nodes[p].children, n);
    var rest;
    rest, posBefore := unlinked.0, unlinked.1;
    var relinked;
    relinked, posAfter := InsertChildNodeSortedFixed(rest, n, NodeCmp(fo, s, nodes));
    after := ReplaceChildren(nodes, p, relinked);
  }

  /** Repositioning a child keeps the arena valid and the tree the same up
      to sibling order; the announced order maps each new offset to the
      old offset of the child found there; and if the other siblings were
      in order, all of them are afterwards. */
  lemma RepositionedKeeps(fo: FileOracle, s: SortSettings, before: Nodes, after: Nodes, depth: map<NodeId, nat>,
                          root: NodeId, p: NodeId, n: NodeId, posBefore: nat, posAfter: nat)
    requires WellFormed(before, depth, root) && OracleAntisymmetric(fo) && (s.sign == 1 || s.sign == -1)
    requires p in before && |before[p].children| >= 2
    requires Repositioned(NodeCmp(fo, s, before), before, after, p, n, posBefore, posAfter)
    ensures posBefore < |before[p].children| && posAfter < |before[p].children|
    ensures p in after && |after[p].children| == |before[p].children|
    ensures forall i | 0 <= i < |before[p].children| ::
              after[p].children[i] == before[p].children[MoveOrder(|before[p].children|, posBefore, posAfter)[i]]
    ensures WellFormed(after, depth, root) && SameUpToOrder(before, after) && after.Keys == before.Keys
    ensures SortedBy(RemoveAt(before[p].children, posBefore), NodeCmp(fo, s, before)) ==>
              SortedBy(after[p].children, NodeCmp(fo, s, after))
  {
    var cmp := NodeCmp(fo, s, before);
    var ch := before[p].children;
    var rest := RemoveAt(ch, posBefore);
    var relinked := InsertAt(rest, posAfter, n);
    assert after == ReplaceChildren(before, p, relinked);
    assert multiset(relinked) == multiset(ch) by {
      RemoveAtMultiset(ch, posBefore);
      InsertAtMultiset(rest, posAfter, n);
    }
    MoveOrderTracksChildren(ch, posBefore, posAfter);
    RelinkWellFormed(before, depth, root, p, relinked);
    RelinkSameUpToOrder(before, p, relinked);
    if SortedBy(rest, cmp) {
      NodeCmpAntisymmetric(fo, s, before);
      InsertPosKeepsOrder(rest, n, cmp);
      SortedAcrossSameFiles(fo, s, before, after, relinked);
    }
  }

  /** `n` was handed out before `nextId`. */
  predicate IdBelow(n: NodeId, nextId: NodeId)
  {
    n < nextId
  }

  /** The arena is well formed and every id in it is below `nextId`. */
  ghost predicate ArenaValid(nodes: Nodes, depth: map<NodeId, nat>, root: NodeId, nextId: NodeId)
  {
    WellFormed(nodes, depth, root) && forall n {:trigger IdBelow(n, nextId)} | n in nodes :: IdBelow(n, nextId)
  }

  /** The next id is free. */
  lemma NextIdFresh(nodes: Nodes, depth: map<NodeId, nat>, root: NodeId, nextId: NodeId)
    requires ArenaValid(nodes, depth, root, nextId)
    ensures nextId !in nodes
  {
    assert nextId in nodes ==> IdBelow(nextId, nextId);
  }

  /** The next id is not yet anybody's child. */
  lemma NextIdNotChild(nodes: Nodes, depth: map<NodeId, nat>, root: NodeId, nextId: NodeId, p: NodeId)
    requires ArenaValid(nodes, depth, root, nextId) && p in nodes
    ensures nextId !in nodes[p].children
  {
    NextIdFresh(nodes, depth, root, nextId);
    assert ChildrenLinked(nodes, p);
  }

  /** Ids below the bound stay below a larger one. */
  lemma IdsBelowGrow(nodes: Nodes, after: Nodes, nextId: NodeId, nextId': NodeId, added: set<NodeId>)
    requires forall n {:trigger IdBelow(n, nextId)} | n in nodes :: IdBelow(n, nextId)
    requires after.Keys <= nodes.Keys + added && nextId <= nextId'
    requires forall n | n in added :: n < nextId'
    ensures forall n {:trigger IdBelow(n, nextId')} | n in after :: IdBelow(n, nextId')
  {
    forall n | n in after
      ensures IdBelow(n, nextId')
    {
      if n in nodes {
        assert IdBelow(n, nextId);
      }
    }
  }

  lemma SetItemArenaValid(nodes: Nodes, depth: map<NodeId, nat>, root: NodeId, nextId: NodeId, n: NodeId, it: Item)
    requires ArenaValid(nodes, depth, root, nextId) && n in nodes && n != root
    ensures ArenaValid(SetItem(nodes, n, it), depth, root, nextId)
  {
    SetItemWellFormed(nodes, depth, root, n, it);
    IdsBelowGrow(nodes, SetItem(nodes, n, it), nextId, nextId, {});
  }

  lemma PrependChildArenaValid(nodes: Nodes, depth: map<NodeId, nat>, root: NodeId, nextId: NodeId, p: NodeId, it: Item)
    requires ArenaValid(nodes, depth, root, nextId) && p in nodes
    requires p == root || nodes[p].item.Some?
    requires !HasDummy(nodes, p)
    ensures nextId !in nodes
    ensures ArenaValid(PrependChild(nodes, p, nextId, it), depth[nextId := depth[p] + 1], root, nextId + 1)
  {
    NextIdFresh(nodes, depth, root, nextId);
    PrependChildWellFormed(nodes, depth, root, p, nextId, it);
    IdsBelowGrow(nodes, PrependChild(nodes, p, nextId, it), nextId, nextId + 1, {nextId});
  }

  lemma InsertDummyArenaValid(nodes: Nodes, depth: map<NodeId, nat>, root: NodeId, nextId: NodeId, p: NodeId)
    requires ArenaValid(nodes, depth, root, nextId) && p in nodes
    requires nodes[p].children == [] && nodes[p].item.Some?
    ensures nextId !in nodes
    ensures ArenaValid(InsertDummy(nodes, p, nextId), depth[nextId := depth[p] + 1], root, nextId + 1)
  {
    NextIdFresh(nodes, depth, root, nextId);
    InsertDummyWellFormed(nodes, depth, root, p, nextId);
    IdsBelowGrow(nodes, InsertDummy(nodes, p, nextId), nextId, nextId + 1, {nextId});
  }

  lemma DropDummyArenaValid(nodes: Nodes, depth: map<NodeId, nat>, root: NodeId, nextId: NodeId, p: NodeId)
    requires ArenaValid(nodes, depth, root, nextId) && p in nodes && HasDummy(nodes, p)
    ensures ArenaValid(DropDummy(nodes, p), depth, root, nextId)
  {
    DropDummyWellFormed(nodes, depth, root, p);
    IdsBelowGrow(nodes, DropDummy(nodes, p), nextId, nextId, {});
  }

  /** The relinking half of `reorder_if_req`: `n` is unlinked from the
      children of its parent `p` and linked back in at its sorted
      position, provided `p` has at least two children. */
  method RepositionInArena(fo: FileOracle, s: SortSettings, nodes: Nodes, ghost depth: map<NodeId, nat>,
                           ghost root: NodeId, ghost nextId: NodeId, n: NodeId)
    returns (after: Nodes, p: NodeId, posBefore: nat, posAfter: nat)
    requires ArenaValid(nodes, depth, root, nextId) && OracleAntisymmetric(fo) && (s.sign == 1 || s.sign == -1)
    requires n in nodes && n != root
    ensures ArenaValid(after, depth, root, nextId) && SameUpToOrder(nodes, after)
    ensures p in nodes && nodes[n].parent == Some(p) && n in nodes[p].children
    ensures |nodes[p].children| < 2 ==> after == nodes && posBefore == posAfter
    ensures |nodes[p].children| >= 2 ==>
              && posBefore < |nodes[p].children| && posAfter < |nodes[p].children|
              && Repositioned(NodeCmp(fo, s, nodes), nodes, after, p, n, posBefore, posAfter)
  {
    HasParent(nodes, depth, root, n);
    p, posBefore, posAfter := nodes[n].parent.value, 0, 0;
    after := nodes;
    if |nodes[p].children| < 2 {
      return;
    }
    after, posBefore, posAfter := RepositionNode(fo, s, nodes, p, n);
    RepositionedKeeps(fo, s, nodes, after, depth, root, p, n, posBefore, posAfter);
  }

  /** What `add_child` does to the arena: the new child `c` of `p` holds a
      fresh item for `file`. It is the former dummy of `p`, now the only
      child, or else the fresh id `nextId`, now the first child. A folder's
      child has a dummy, any other child no children. Other nodes stay as
      they were and the files below `p` gain `file`. */
  ghost predicate ChildAdded(fo: FileOracle, before: Nodes, after: Nodes, nextId: NodeId, p: NodeId, c: NodeId, file: FileId)
  {
    && p in before && p in after && c in after && before.Keys <= after.Keys
    && after[c].parent == Some(p) && after[c].item == Some(NewItem(file))
    && (HasDummy(before, p) ==> c == before[p].children[0] && after[p].children == [c])
    && (!HasDummy(before, p) ==> c == nextId && c !in before && after[p].children == [c] + before[p].children)
    && (fo.isDirectory(file) ==> HasDummy(after, c))
    && (!fo.isDirectory(file) ==> after[c].children == [])
    && after[p].item == before[p].item
    && (forall m | m in before && m != p && m != c :: after[m] == before[m])
    && FileBag(after, after[p].children) == FileBag(before, before[p].children) + multiset{file}
  }

  /** What the first half of `add_child` does to the arena: the new child
      `c` of `p` is a leaf holding a fresh item for `file`. It is the former
      dummy of `p`, now its only child, or else the fresh id `nextId`, now
      its first child. Other nodes stay as they were and the files below
      `p` gain `file`. */
  ghost predicate ItemAttached(before: Nodes, after: Nodes, nextId: NodeId, p: NodeId, c: NodeId, file: FileId)
  {
    && p in before && p in after && c in after && before.Keys <= after.Keys && c != p
    && after[c].parent == Some(p) && after[c].item == Some(NewItem(file)) && after[c].children == []
    && (HasDummy(before, p) ==> c == before[p].children[0] && after[p].children == [c])
    && (!HasDummy(before, p) ==> c == nextId && c !in before && after[p].children == [c] + before[p].children)
    && after[p].item == before[p].item
    && (forall m | m in before && m != p && m != c :: after[m] == before[m])
    && FileBag(after, after[p].children) == FileBag(before, before[p].children) + multiset{file}
  }

  /** Filling the dummy of `p` attaches the item in its place. */
  lemma FillDummyAttaches(nodes: Nodes, depth: map<NodeId, nat>, root: NodeId, nextId: NodeId, p: NodeId, file: FileId)
    requires ArenaValid(nodes, depth, root, nextId) && p in nodes && HasDummy(nodes, p)
    ensures var c := nodes[p].children[0];
            c in nodes && c != root &&
            ArenaValid(SetItem(nodes, c, NewItem(file)), depth, root, nextId) &&
            ItemAttached(nodes, SetItem(nodes, c, NewItem(file)), nextId, p, c, file)
  {
    var c := nodes[p].children[0];
    DummyChild(nodes, depth, root, p);
    FillDummyFileBag(nodes, p, NewItem(file));
    SetItemArenaValid(nodes, depth, root, nextId, c, NewItem(file));
  }

  /** Without a dummy, the item is attached as a new first child. */
  lemma PrependAttaches(nodes: Nodes, depth: map<NodeId, nat>, root: NodeId, nextId: NodeId, p: NodeId, file: FileId)
    requires ArenaValid(nodes, depth, root, nextId) && p in nodes && (p == root || nodes[p].item.Some?)
    requires !HasDummy(nodes, p)
    ensures ArenaValid(PrependChild(nodes, p, nextId, NewItem(file)), depth[nextId := depth[p] + 1], root, nextId + 1)
    ensures ItemAttached(nodes, PrependChild(nodes, p, nextId, NewItem(file)), nextId, p, nextId, file)
  {
    PrependChildArenaValid(nodes, depth, root, nextId, p, NewItem(file));
    NextIdNotChild(nodes, depth, root, nextId, p);
    PrependChildFileBag(nodes, p, nextId, NewItem(file));
  }

  /** A folder's new child then gets its dummy; that changes no file below `p`. */
  lemma DummyAfterAttach(fo: FileOracle, before: Nodes, mid: Nodes, depth: map<NodeId, nat>, root: NodeId,
                         nextId: NodeId, mid': NodeId, p: NodeId, c: NodeId, file: FileId)
    requires ArenaValid(mid, depth, root, mid') && nextId <= mid'
    requires ItemAttached(before, mid, nextId, p, c, file)
    ensures fo.isDirectory(file) ==>
              ArenaValid(InsertDummy(mid, c, mid'), depth[mid' := depth[c] + 1], root, mid' + 1) &&
              ChildAdded(fo, before, InsertDummy(mid, c, mid'), nextId, p, c, file)
    ensures !fo.isDirectory(file) ==> ChildAdded(fo, before, mid, nextId, p, c, file)
  {
    if fo.isDirectory(file) {
      InsertDummyArenaValid(mid, depth, root, mid', c);
      NextIdNotChild(mid, depth, root, mid', p);
      DummyKeepsAdded(fo, before, mid, nextId, p, c, file, mid');
    }
  }

  /** Giving the new folder child its dummy `d` changes nothing the
      attachment promised and adds no file below `p`. */
  lemma DummyKeepsAdded(fo: FileOracle, before: Nodes, mid: Nodes, nextId: NodeId, p: NodeId, c: NodeId,
                        file: FileId, d: NodeId)
    requires ItemAttached(before, mid, nextId, p, c, file) && fo.isDirectory(file)
    requires d !in mid && d !in mid[p].children
    ensures ChildAdded(fo, before, InsertDummy(mid, c, d), nextId, p, c, file)
  {
    var after := InsertDummy(mid, c, d);
    assert after[p] == mid[p] && after[c].item == mid[c].item;
    assert after[c].children == [d] && after[d].item.None?;
    assert forall m | m in before && m != p && m != c :: after[m] == before[m] by {
      assert forall m | m in before && m != p && m != c :: mid[m] == before[m];
    }
    assert FileBag(after, after[p].children) == FileBag(before, before[p].children) + multiset{file} by {
      InsertDummyFileBag(mid, c, d, mid[p].children);
    }
  }

  /** `add_child` on the arena, with the dummy a folder's child gets. */
  method AddChildInArena(fo: FileOracle, nodes: Nodes, ghost depth: map<NodeId, nat>, ghost root: NodeId,
                         nextId: NodeId, p: NodeId, file: FileId)
    returns (after: Nodes, ghost depth': map<NodeId, nat>, nextId': NodeId, c: NodeId)
    requires ArenaValid(nodes, depth, root, nextId) && p in nodes && (p == root || nodes[p].item.Some?)
    ensures ArenaValid(after, depth', root, nextId') && nextId <= nextId'
    ensures ChildAdded(fo, nodes, after, nextId, p, c, file)
  {
    var mid;
    if HasDummy(nodes, p) {
      c := nodes[p].children[0];
      FillDummyAttaches(nodes, depth, root, nextId, p, file);
      mid, depth', nextId' := SetItem(nodes, c, NewItem(file)), depth, nextId;
    } else {
      c := nextId;
      PrependAttaches(nodes, depth, root, nextId, p, file);
      mid, depth', nextId' := PrependChild(nodes, p, c, NewItem(file)), depth[c := depth[p] + 1], nextId + 1;
    }
    DummyAfterAttach(fo, nodes, mid, depth', root, nextId, nextId', p, c, file);
    after := mid;
    if fo.isDirectory(file) {
      after, depth', nextId' := InsertDummy(mid, c, nextId'), depth'[nextId' := depth'[c] + 1], nextId' + 1;
    }
  }

  /** The dummy of `p`, if it has one. */
  ghost function DummyOf(nodes: Nodes, p: NodeId): (r: set<NodeId>)
    requires p in nodes
    ensures r <= nodes.Keys && |r| <= 1
  {
    if HasDummy(nodes, p) then {nodes[p].children[0]} else {}
  }

  /** `c` is a row as `add_child` makes it: it holds a fresh item for its
      file, and has a dummy if that file is a folder and no children
      otherwise. */
  ghost predicate FreshRow(fo: FileOracle, nodes: Nodes, c: NodeId)
  {
    && c in nodes && nodes[c].item.Some? && nodes[c].item.value == NewItem(nodes[c].item.value.file)
    && if fo.isDirectory(nodes[c].item.value.file) then HasDummy(nodes, c) else nodes[c].children == []
  }

  /** Below `p`, `after` has the files of `before` and `added`. Every
      node of `before` other than `p` and its former dummy is as it was,
      every former child of `p` other than that dummy is still a child of
      `p`, and every other child of `p`, the dummy too once it holds an
      item, is a fresh row. */
  ghost predicate Grown(fo: FileOracle, before: Nodes, after: Nodes, p: NodeId, added: multiset<FileId>)
    requires p in before
  {
    && p in after && before.Keys <= after.Keys && after[p].item == before[p].item
    && FileBag(after, after[p].children) == FileBag(before, before[p].children) + added
    && (forall m | m in before && m != p && m !in DummyOf(before, p) :: m in after && after[m] == before[m])
    && (forall c | c in before[p].children && c !in DummyOf(before, p) :: c in after[p].children)
    && (forall c | c in after[p].children && (c !in before[p].children || (c in DummyOf(before, p) && after[c].item.Some?)) :: FreshRow(fo, after, c))
  }

  /** Adding nothing keeps every row. */
  lemma GrownNothing(fo: FileOracle, nodes: Nodes, p: NodeId)
    requires p in nodes
    ensures Grown(fo, nodes, nodes, p, multiset{})
  {
  }

  /** A fresh row that did not change is still one. */
  lemma FreshRowKept(fo: FileOracle, a: Nodes, b: Nodes, x: NodeId)
    requires FreshRow(fo, a, x) && x in b && b[x] == a[x]
    requires fo.isDirectory(a[x].item.value.file) ==> a[x].children[0] in b && b[a[x].children[0]].item == a[a[x].children[0]].item
    ensures FreshRow(fo, b, x)
  {
  }

  /** After one `add_child`, every child of `p` that the loop added is
      still a fresh row: the one just added is, and the earlier ones did
      not change. */
  lemma AddStepFresh(fo: FileOracle, nodes: Nodes, before: Nodes, after: Nodes, p: NodeId, c: NodeId)
    requires p in nodes && p in before && p in after && nodes.Keys <= before.Keys && before.Keys <= after.Keys
    requires p !in before[p].children && after[p].item == before[p].item
    requires HasDummy(before, p) ==> before == nodes && after[p].children == [c]
    requires !HasDummy(before, p) ==> c !in before && after[p].children == [c] + before[p].children
    requires FreshRow(fo, after, c) && forall m | m in before && m != p && m != c :: after[m] == before[m]
    requires forall x | x in before[p].children && (x !in nodes[p].children || (x in DummyOf(nodes, p) && before[x].item.Some?)) ::
               FreshRow(fo, before, x)
    ensures forall x | x in after[p].children && (x !in nodes[p].children || (x in DummyOf(nodes, p) && after[x].item.Some?)) ::
              FreshRow(fo, after, x)
  {
    forall x | x in after[p].children && (x !in nodes[p].children || (x in DummyOf(nodes, p) && after[x].item.Some?))
      ensures FreshRow(fo, after, x)
    {
      if x != c {
        assert x in before[p].children && x != p;
        if x in nodes[p].children {
          assert x in nodes && after[x] == before[x];
        }
        assert FreshRow(fo, before, x);
        FreshRowKept(fo, before, after, x);
      }
    }
  }

  /** One step of the loop of `add_children` keeps what the loop promises
      about the nodes it started from: the child it adds is the former
      dummy of `p` (only on the first step) or a fresh node. */
  lemma AddStepKeeps(fo: FileOracle, nodes: Nodes, before: Nodes, after: Nodes, nextId: NodeId, bound: NodeId,
                     p: NodeId, c: NodeId, file: FileId, added: multiset<FileId>)
    requires ChildAdded(fo, before, after, bound, p, c, file)
    requires p in nodes && Grown(fo, nodes, before, p, added) && p !in before[p].children
    requires HasDummy(before, p) ==> before == nodes
    requires nextId <= bound && forall n {:trigger IdBelow(n, nextId)} | n in nodes :: IdBelow(n, nextId)
    ensures Grown(fo, nodes, after, p, added + multiset{file}) && !HasDummy(after, p)
  {
    assert c in nodes ==> IdBelow(c, nextId);
    assert FreshRow(fo, after, c);
    AddStepFresh(fo, nodes, before, after, p, c);
  }

  /** What the loop of `add_children` has done after the first `i` files. */
  ghost predicate AddedSoFar(fo: FileOracle, nodes: Nodes, after: Nodes, p: NodeId, files: seq<FileId>, i: nat)
    requires p in nodes && i <= |files|
  {
    Grown(fo, nodes, after, p, multiset(files[..i]))
  }

  /** One turn of the loop of `add_children`: `add_child` for `files[i]`. */
  method AddOneInArena(fo: FileOracle, nodes: Nodes, ghost depth: map<NodeId, nat>, ghost root: NodeId, nextId: NodeId,
                       cur: Nodes, ghost curDepth: map<NodeId, nat>, curNext: NodeId,
                       p: NodeId, files: seq<FileId>, i: nat)
    returns (after: Nodes, ghost depth': map<NodeId, nat>, nextId': NodeId)
    requires ArenaValid(nodes, depth, root, nextId) && p in nodes && (p == root || nodes[p].item.Some?)
    requires ArenaValid(cur, curDepth, root, curNext) && nextId <= curNext && i < |files|
    requires AddedSoFar(fo, nodes, cur, p, files, i) && (HasDummy(cur, p) ==> cur == nodes)
    ensures ArenaValid(after, depth', root, nextId') && nextId <= nextId'
    ensures AddedSoFar(fo, nodes, after, p, files, i + 1) && !HasDummy(after, p)
  {
    var c;
    NotOwnChild(cur, curDepth, root, p);
    after, depth', nextId', c := AddChildInArena(fo, cur, curDepth, root, curNext, p, files[i]);
    AddStepKeeps(fo, nodes, cur, after, nextId, curNext, p, c, files[i], multiset(files[..i]));
    TakeOneMore(files, i);
  }

  /** The loop of `add_children`: `add_child` for each of `files`. */
  method AddEachInArena(fo: FileOracle, nodes: Nodes, ghost depth: map<NodeId, nat>, ghost root: NodeId,
                        nextId: NodeId, p: NodeId, files: seq<FileId>)
    returns (after: Nodes, ghost depth': map<NodeId, nat>, nextId': NodeId)
    requires ArenaValid(nodes, depth, root, nextId) && p in nodes && (p == root || nodes[p].item.Some?)
    ensures ArenaValid(after, depth', root, nextId') && nextId <= nextId'
    ensures Grown(fo, nodes, after, p, multiset(files))
  {
    after, depth', nextId' := nodes, depth, nextId;
    assert files[..0] == [];
    GrownNothing(fo, nodes, p);
    var i := 0;
    while i < |files|
      invariant ArenaValid(after, depth', root, nextId') && nextId <= nextId' && 0 <= i <= |files|
      invariant AddedSoFar(fo, nodes, after, p, files, i) && (HasDummy(after, p) ==> after == nodes)
    {
      after, depth', nextId' := AddOneInArena(fo, nodes, depth, root, nextId, after, depth', nextId', p, files, i);
      i := i + 1;
    }
    assert files[..i] == files;
  }

  /** Sorting the children of `p` after adding to them keeps what was
      added, and puts the children in order. */
  lemma SortKeepsAdded(fo: FileOracle, s: SortSettings, nodes: Nodes, unsorted: Nodes, sorted: Nodes,
                       depth: map<NodeId, nat>, root: NodeId, p: NodeId, newOrder: seq<int>, added: multiset<FileId>)
    requires WellFormed(unsorted, depth, root) && p in nodes && Grown(fo, nodes, unsorted, p, added)
    requires if |unsorted[p].children| <= 1 then sorted == unsorted else Resorted(fo, s, unsorted, sorted, p, newOrder)
    ensures Grown(fo, nodes, sorted, p, added)
    ensures SortedBy(sorted[p].children, NodeCmp(fo, s, sorted))
  {
    if |unsorted[p].children| > 1 {
      ResortedKeeps(fo, s, unsorted, sorted, depth, root, p, newOrder);
      NotOwnChild(unsorted, depth, root, p);
      GrownReordered(fo, nodes, unsorted, sorted, p, added);
    }
  }

  /** Reordering the children of `p` keeps what adding to them promised. */
  lemma GrownReordered(fo: FileOracle, nodes: Nodes, unsorted: Nodes, sorted: Nodes, p: NodeId, added: multiset<FileId>)
    requires p in nodes && Grown(fo, nodes, unsorted, p, added) && p !in unsorted[p].children
    requires p in sorted && sorted == ReplaceChildren(unsorted, p, sorted[p].children)
    requires multiset(sorted[p].children) == multiset(unsorted[p].children)
    requires FileBag(sorted, sorted[p].children) == FileBag(unsorted, unsorted[p].children)
    ensures Grown(fo, nodes, sorted, p, added)
  {
    SameMembers(unsorted[p].children, sorted[p].children);
    FreshRowsReordered(fo, nodes, unsorted, sorted, p);
  }

  /** Sequences with the same elements counted have the same members. */
  lemma SameMembers(a: seq<NodeId>, b: seq<NodeId>)
    requires multiset(a) == multiset(b)
    ensures forall x :: x in a <==> x in b
  {
    forall x
      ensures x in a <==> x in b
    {
      assert x in a <==> x in multiset(a);
      assert x in b <==> x in multiset(b);
    }
  }

  /** Reordering the children of `p` keeps the rows added below it fresh. */
  lemma FreshRowsReordered(fo: FileOracle, nodes: Nodes, unsorted: Nodes, sorted: Nodes, p: NodeId)
    requires p in nodes && nodes.Keys <= unsorted.Keys && p !in unsorted[p].children
    requires p in sorted && sorted == ReplaceChildren(unsorted, p, sorted[p].children)
    requires forall x :: x in unsorted[p].children <==> x in sorted[p].children
    requires forall c | c in unsorted[p].children && (c !in nodes[p].children || (c in DummyOf(nodes, p) && unsorted[c].item.Some?)) ::
               FreshRow(fo, unsorted, c)
    ensures forall c | c in sorted[p].children && (c !in nodes[p].children || (c in DummyOf(nodes, p) && sorted[c].item.Some?)) ::
              FreshRow(fo, sorted, c)
  {
    forall c | c in sorted[p].children && (c !in nodes[p].children || (c in DummyOf(nodes, p) && sorted[c].item.Some?))
      ensures FreshRow(fo, sorted, c)
    {
      FreshRowKept(fo, unsorted, sorted, c);
    }
  }

  /** `traverse_remove` run on the first child of `n` until `n` has none
      left: every subtree below `n` is released and destroyed. */
  method RemoveAllChildren(nodes: Nodes, ghost depth: map<NodeId, nat>, ghost root: NodeId, ghost nextId: NodeId, n: NodeId)
    returns (after: Nodes)
    requires ArenaValid(nodes, depth, root, nextId) && n in nodes
    ensures ArenaValid(after, depth, root, nextId) && n in after && after.Keys <= nodes.Keys
    ensures after[n] == nodes[n].(children := [])
    ensures forall m | m in after && m != n :: after[m] == nodes[m]
  {
    after := nodes;
    while after[n].children != []
      invariant ArenaValid(after, depth, root, nextId) && n in after && after.Keys <= nodes.Keys
      invariant after[n] == nodes[n].(children := after[n].children)
      invariant forall m | m in after && m != n :: after[m] == nodes[m]
      decreases |after[n].children|
    {
      var x := after[n].children[0];
      assert ChildrenLinked(after, n);
      var S := CollectSubtree(after, depth, root, x);
      RemoveSubtreeWellFormed(after, depth, root, x, S);
      IdsBelowGrow(after, RemoveSubtree(after, x, S), nextId, nextId, {});
      after := RemoveSubtree(after, x, S);
    }
  }

  /** An item with an open folder that the view holds no reference to. */
  predicate Collapsible(nodes: Nodes, n: NodeId)
  {
    n in nodes && nodes[n].item.Some? && nodes[n].item.value.folderOpen && nodes[n].item.value.refCount == 0
  }

  /** `n` was collapsed: its item closed its folder and it holds only a
      dummy, below the same parent. */
  ghost predicate CollapsedNode(before: Nodes, after: Nodes, n: NodeId)
    requires Collapsible(before, n)
  {
    && n in after && after[n].parent == before[n].parent
    && after[n].item == Some(before[n].item.value.(folderOpen := false))
    && HasDummy(after, n)
  }

  /** `thunar_tree_view_model_node_traverse_cleanup` on the arena: a
      collapsible node closes its folder, loses all its children and gets
      a dummy; any other node is left alone. */
  method CollapseInArena(nodes: Nodes, ghost depth: map<NodeId, nat>, ghost root: NodeId, nextId: NodeId, n: NodeId)
    returns (after: Nodes, ghost depth': map<NodeId, nat>, nextId': NodeId)
    requires ArenaValid(nodes, depth, root, nextId) && n in nodes
    ensures ArenaValid(after, depth', root, nextId') && nextId <= nextId'
    ensures !Collapsible(nodes, n) ==> after == nodes && nextId' == nextId
    ensures Collapsible(nodes, n) ==>
              && CollapsedNode(nodes, after, n)
              && after.Keys <= nodes.Keys + {nextId} && after[n].children == [nextId]
    ensures forall m | m in after && m != n ::
              (m in nodes && after[m] == nodes[m]) || (m == nextId && after[m] == Node(Some(n), [], None))
    ensures !Collapsible(after, n)
  {
    after, depth', nextId' := nodes, depth, nextId;
    if Collapsible(nodes, n) {
      var it := nodes[n].item.value.(folderOpen := false);
      var emptied := RemoveAllChildren(nodes, depth, root, nextId, n);
      assert n != root;
      SetItemArenaValid(emptied, depth, root, nextId, n, it);
      var closed := SetItem(emptied, n, it);
      InsertDummyArenaValid(closed, depth, root, nextId, n);
      after, depth', nextId' := InsertDummy(closed, n, nextId), depth[nextId := depth[n] + 1], nextId + 1;
    }
  }

  /** What the cleanup has made of the node `m` of `before`: collapsed if
      it was collapsible and has been visited (is no longer in `todo`),
      otherwise as it was. */
  ghost predicate CleanedUp(before: Nodes, after: Nodes, m: NodeId, todo: set<NodeId>)
    requires m in before && m in after
  {
    if m !in todo && Collapsible(before, m) then CollapsedNode(before, after, m) else after[m] == before[m]
  }

  /** The cleanup so far: every surviving node is cleaned up as far as it
      has been visited, every new node is a dummy, and no visited node nor
      any new one is collapsible. */
  ghost predicate CleanupSoFar(orig: Nodes, nodes: Nodes, todo: set<NodeId>)
  {
    && (forall m | m in orig && m in nodes :: CleanedUp(orig, nodes, m, todo))
    && (forall m | m in nodes && m !in orig :: nodes[m].item.None?)
    && (forall m | m in nodes && m !in todo :: !Collapsible(nodes, m))
  }

  /** Visiting `m` carries the cleanup one node further. */
  lemma CleanupStep(orig: Nodes, nodes: Nodes, after: Nodes, depth: map<NodeId, nat>, depth': map<NodeId, nat>,
                    root: NodeId, nextId: NodeId, nextId': NodeId, m: NodeId, todo: set<NodeId>)
    requires ArenaValid(nodes, depth, root, nextId) && ArenaValid(after, depth', root, nextId')
    requires m in todo && todo <= orig.Keys && CleanupSoFar(orig, nodes, todo)
    requires forall k {:trigger IdBelow(k, nextId)} | k in orig :: IdBelow(k, nextId)
    requires m in nodes
    requires !Collapsible(nodes, m) ==> after == nodes
    requires Collapsible(nodes, m) ==> CollapsedNode(nodes, after, m) && after[m].children == [nextId]
    requires forall k | k in after && k != m ::
               (k in nodes && after[k] == nodes[k]) || (k == nextId && after[k] == Node(Some(m), [], None))
    requires !Collapsible(after, m)
    ensures CleanupSoFar(orig, after, todo - {m})
  {
    assert nextId in orig ==> IdBelow(nextId, nextId);
    forall k | k in orig && k in after
      ensures CleanedUp(orig, after, k, todo - {m})
    {
      assert k in nodes;
      if k != m && k !in todo && Collapsible(orig, k) && Collapsible(nodes, m) {
        var d := after[k].children[0];
        assert ChildrenLinked(after, k);
        assert nodes[d].item.None?;
        assert after[d] == nodes[d];
      }
    }
  }

  /** No node is left that the cleanup would collapse, and the
      notifications have not changed. */
  lemma NoneCollapsible(orig: Nodes, nodes: Nodes)
    requires CleanupSoFar(orig, nodes, {})
    ensures forall m | m in nodes :: !Collapsible(nodes, m)
    ensures forall m | m in orig && m in nodes :: CleanedUp(orig, nodes, m, {})
  {
  }

  /** Adding a child below the root adds its file and a fresh row. */
  lemma GrowStep(fo: FileOracle, nodes: Nodes, before: Nodes, depth: map<NodeId, nat>, after: Nodes, nextId: NodeId, bound: NodeId,
                 root: NodeId, c: NodeId, f: FileId, added: multiset<FileId>)
    requires root in nodes && Grown(fo, nodes, before, root, added)
    requires WellFormed(before, depth, root)
    requires ChildAdded(fo, before, after, bound, root, c, f)
    requires nextId <= bound && forall n {:trigger IdBelow(n, nextId)} | n in nodes :: IdBelow(n, nextId)
    ensures Grown(fo, nodes, after, root, added + multiset{f})
  {
    assert DummyRule(before, root, root);
    assert |before[root].children| == 1 ==> before[root].children[0] in before[root].children;
    NotOwnChild(before, depth, root, root);
    AddStepKeeps(fo, nodes, before, after, nextId, bound, root, c, f, added);
  }

  /** `insert_files` after the first `i` of `files`: the arena holds the
      shown ones below the root, and the hidden list the hidden ones. */
  ghost predicate InsertedSoFar(fo: FileOracle, showHidden: bool, root: NodeId, nodes: Nodes, nextId: NodeId,
                                hidden: seq<FileId>, files: seq<FileId>, i: nat,
                                after: Nodes, depth': map<NodeId, nat>, nextId': NodeId, hidden': seq<FileId>)
  {
    && root in nodes && i <= |files|
    && ArenaValid(after, depth', root, nextId') && nextId <= nextId'
    && Grown(fo, nodes, after, root, multiset(ShownOf(fo, showHidden, files[..i])))
    && HiddenSoFar(fo, files, i, hidden, hidden')
  }

  /** One turn of the loop of `insert_files`: a hidden file is prepended
      to the hidden list, and a shown one is added below the root. */
  method InsertOneInArena(fo: FileOracle, showHidden: bool, root: NodeId, ghost nodes: Nodes, ghost depth: map<NodeId, nat>,
                          ghost nextId: NodeId, ghost hidden: seq<FileId>, files: seq<FileId>, i: nat,
                          after: Nodes, ghost depth': map<NodeId, nat>, nextId': NodeId, hidden': seq<FileId>)
    returns (after'': Nodes, ghost depth'': map<NodeId, nat>, nextId'': NodeId, hidden'': seq<FileId>)
    requires ArenaValid(nodes, depth, root, nextId) && i < |files|
    requires InsertedSoFar(fo, showHidden, root, nodes, nextId, hidden, files, i, after, depth', nextId', hidden')
    ensures InsertedSoFar(fo, showHidden, root, nodes, nextId, hidden, files, i + 1, after'', depth'', nextId'', hidden'')
  {
    var f := files[i];
    HiddenStep(fo, files, i, hidden, hidden');
    ShownStep(fo, showHidden, files, i);
    after'', depth'', nextId'', hidden'' := after, depth', nextId', hidden';
    if fo.isHidden(f) {
      hidden'' := [f] + hidden';
    }
    if !fo.isHidden(f) || showHidden {
      var c;
      after'', depth'', nextId'', c := AddChildInArena(fo, after, depth', root, nextId', root, f);
      GrowStep(fo, nodes, after, depth', after'', nextId, nextId', root, c, f, multiset(ShownOf(fo, showHidden, files[..i])));
    }
  }

  /** The loop of `insert_files`: every hidden file is prepended to the
      hidden list, and every file that is shown is added below the root. */
  method InsertEachInArena(fo: FileOracle, showHidden: bool, nodes: Nodes, ghost depth: map<NodeId, nat>,
                           root: NodeId, nextId: NodeId, hidden: seq<FileId>, files: seq<FileId>)
    returns (after: Nodes, ghost depth': map<NodeId, nat>, nextId': NodeId, hidden': seq<FileId>)
    requires ArenaValid(nodes, depth, root, nextId)
    ensures ArenaValid(after, depth', root, nextId') && nextId <= nextId'
    ensures root in nodes && Grown(fo, nodes, after, root, multiset(ShownOf(fo, showHidden, files)))
    ensures hidden' == Reverse(HiddenOf(fo, files)) + hidden
  {
    after, depth', nextId', hidden' := nodes, depth, nextId, hidden;
    assert files[..0] == [];
    GrownNothing(fo, nodes, root);
    var i := 0;
    while i < |files|
      invariant 0 <= i <= |files|
      invariant InsertedSoFar(fo, showHidden, root, nodes, nextId, hidden, files, i, after, depth', nextId', hidden')
    {
      after, depth', nextId', hidden' :=
        InsertOneInArena(fo, showHidden, root, nodes, depth, nextId, hidden, files, i, after, depth', nextId', hidden');
      i := i + 1;
    }
    assert files[..i] == files;
  }

  /** `ch` without its first node that holds `f`; all of `ch` when none
      does. */
  function DropFirstHolder(nodes: Nodes, ch: seq<NodeId>, f: FileId): seq<NodeId>
  {
    if ch == [] then []
    else if HoldsFile(nodes, ch[0], f) then ch[1..]
    else [ch[0]] + DropFirstHolder(nodes, ch[1..], f)
  }

  /** `ch` after dropping the first holder of each of `files`, in turn. */
  function DropHolders(nodes: Nodes, ch: seq<NodeId>, files: seq<FileId>): seq<NodeId>
    decreases |files|
  {
    if files == [] then ch
    else DropFirstHolder(nodes, DropHolders(nodes, ch, files[..|files| - 1]), files[|files| - 1])
  }

  /** Dropping the first holder of `f` unlinks the child at the first
      offset whose node holds `f` and keeps the others in order. */
  lemma {:induction false} DropFirstHolderAt(nodes: Nodes, ch: seq<NodeId>, f: FileId, k: nat)
    requires k < |ch| && HoldsFile(nodes, ch[k], f)
    requires forall j | 0 <= j < k :: !HoldsFile(nodes, ch[j], f)
    ensures DropFirstHolder(nodes, ch, f) == RemoveAt(ch, k)
    decreases k
  {
    if k > 0 {
      DropFirstHolderAt(nodes, ch[1..], f, k - 1);
      assert RemoveAt(ch, k) == [ch[0]] + RemoveAt(ch[1..], k - 1);
    }
  }

  /** When no child holds `f`, nothing is dropped. */
  lemma {:induction false} DropFirstHolderNone(nodes: Nodes, ch: seq<NodeId>, f: FileId)
    requires forall j | 0 <= j < |ch| :: !HoldsFile(nodes, ch[j], f)
    ensures DropFirstHolder(nodes, ch, f) == ch
    decreases |ch|
  {
    if ch != [] {
      DropFirstHolderNone(nodes, ch[1..], f);
    }
  }

  /** Dropping looks at nothing but which children hold `f`. */
  lemma {:induction false} DropFirstHolderFrame(a: Nodes, b: Nodes, ch: seq<NodeId>, f: FileId)
    requires forall c | c in ch :: HoldsFile(a, c, f) == HoldsFile(b, c, f)
    ensures DropFirstHolder(a, ch, f) == DropFirstHolder(b, ch, f)
    decreases |ch|
  {
    if ch != [] && !HoldsFile(a, ch[0], f) {
      DropFirstHolderFrame(a, b, ch[1..], f);
    }
  }

  /** The search loop of `files_removed`: the first child of `p` that
      holds `f`, if there is one. */
  method FindChildWithFile(nodes: Nodes, p: NodeId, f: FileId) returns (k: Option<nat>)
    requires p in nodes
    ensures k.Some? ==> k.value < |nodes[p].children| && HoldsFile(nodes, nodes[p].children[k.value], f)
    ensures k.Some? ==> forall j | 0 <= j < k.value :: !HoldsFile(nodes, nodes[p].children[j], f)
    ensures k.None? ==> forall j | 0 <= j < |nodes[p].children| :: !HoldsFile(nodes, nodes[p].children[j], f)
  {
    var ch := nodes[p].children;
    var i := 0;
    while i < |ch|
      invariant 0 <= i <= |ch|
      invariant forall j | 0 <= j < i :: !HoldsFile(nodes, ch[j], f)
    {
      if HoldsFile(nodes, ch[i], f) {
        return Some(i);
      }
      i := i + 1;
    }
    return None;
  }

  /** The root's children in `after` are those of `nodes` with the first
      holder of each file of `removed` dropped, in turn, and the files
      below the root lost `removed`. No node was added and no node but the
      root changed. */
  ghost predicate RootShrunk(root: NodeId, nodes: Nodes, after: Nodes, removed: seq<FileId>)
    requires root in nodes
  {
    && root in after && after.Keys <= nodes.Keys && after[root].item == nodes[root].item
    && (forall m | m in after && m != root :: after[m] == nodes[m])
    && after[root].children == DropHolders(nodes, nodes[root].children, removed)
    && FileBag(after, after[root].children) == FileBag(nodes, nodes[root].children) - multiset(removed)
  }

  /** Removing `removed` and then `f` removes `removed + [f]`. */
  lemma ShrinkTrans(root: NodeId, nodes: Nodes, mid: Nodes, after: Nodes, removed: seq<FileId>, f: FileId)
    requires root in nodes && RootShrunk(root, nodes, mid, removed) && RootShrunk(root, mid, after, [f])
    requires forall c | c in mid[root].children :: c in mid && c != root
    ensures RootShrunk(root, nodes, after, removed + [f])
  {
    var b0, b2 := FileBag(nodes, nodes[root].children), FileBag(after, after[root].children);
    forall x
      ensures b2[x] == (b0 - multiset(removed + [f]))[x]
    {
    }
    forall c | c in mid[root].children
      ensures HoldsFile(mid, c, f) == HoldsFile(nodes, c, f)
    {
      assert mid[c] == nodes[c];
    }
    var all := removed + [f];
    assert all[..|all| - 1] == removed && all[|all| - 1] == f && [f][..0] == [];
    calc {
      after[root].children;
      DropHolders(mid, mid[root].children, [f]);
      DropFirstHolder(mid, DropHolders(mid, mid[root].children, []), f);
      DropFirstHolder(mid, mid[root].children, f);
      { DropFirstHolderFrame(mid, nodes, mid[root].children, f); }
      DropFirstHolder(nodes, DropHolders(nodes, nodes[root].children, removed), f);
      DropHolders(nodes, nodes[root].children, all);
    }
  }

  /** The children of the root are nodes, and the root is not one of them. */
  lemma RootChildren(nodes: Nodes, depth: map<NodeId, nat>, root: NodeId)
    requires WellFormed(nodes, depth, root)
    ensures root in nodes && forall c | c in nodes[root].children :: c in nodes && c != root
  {
    assert ChildrenLinked(nodes, root);
    NotOwnChild(nodes, depth, root, root);
  }

  /** Destroying the subtree of the first child of the root that holds
      `f` drops that child from the root's children and its file from
      their files. */
  lemma FirstHolderRemoved(nodes: Nodes, depth: map<NodeId, nat>, root: NodeId, f: FileId, k: nat, S: set<NodeId>)
    requires WellFormed(nodes, depth, root) && root in nodes && k < |nodes[root].children|
    requires HoldsFile(nodes, nodes[root].children[k], f)
    requires forall j | 0 <= j < k :: !HoldsFile(nodes, nodes[root].children[j], f)
    requires nodes[root].children[k] != root && SubtreeSet(nodes, nodes[root].children[k], S)
    ensures nodes[nodes[root].children[k]].parent == Some(root)
    ensures RootShrunk(root, nodes, RemoveSubtree(nodes, nodes[root].children[k], S), [f])
  {
    var x := nodes[root].children[k];
    assert ChildrenLinked(nodes, root);
    RemoveSubtreeFileBag(nodes, depth, root, x, S);
    RemovedShapeHolds(nodes, depth, root, x, S);
    assert IndexOf(nodes[root].children, x) == k;
    DropFirstHolderAt(nodes, nodes[root].children, f, k);
    assert [f][..0] == [];
  }

  /** One file of `files_removed` on the arena: the first row below the
      root that shows `f` is destroyed with everything below it. The files
      below the root lose one copy of `f`, if they had one. */
  method RemoveFileInArena(nodes: Nodes, ghost depth: map<NodeId, nat>, root: NodeId, ghost nextId: NodeId, f: FileId)
    returns (after: Nodes)
    requires ArenaValid(nodes, depth, root, nextId)
    ensures ArenaValid(after, depth, root, nextId)
    ensures RootShrunk(root, nodes, after, [f])
  {
    var k := FindChildWithFile(nodes, root, f);
    after := nodes;
    if k.None? {
      FileBagHas(nodes, nodes[root].children, f);
      assert [f][..0] == [];
      DropFirstHolderNone(nodes, nodes[root].children, f);
    } else {
      var x := nodes[root].children[k.value];
      RootChildren(nodes, depth, root);
      var S := CollectSubtree(nodes, depth, root, x);
      FirstHolderRemoved(nodes, depth, root, f, k.value, S);
      RemoveSubtreeWellFormed(nodes, depth, root, x, S);
      IdsBelowGrow(nodes, RemoveSubtree(nodes, x, S), nextId, nextId, {});
      after := RemoveSubtree(nodes, x, S);
    }
  }

  /** `files_removed` after the first `i` of `files`: their rows are gone
      and their hidden ones unlinked from the hidden list. */
  ghost predicate RemovedSoFar(fo: FileOracle, root: NodeId, nodes: Nodes, depth: map<NodeId, nat>, nextId: NodeId,
                               hidden: seq<FileId>, files: seq<FileId>, i: nat, after: Nodes, hidden': seq<FileId>)
  {
    && root in nodes && i <= |files|
    && ArenaValid(after, depth, root, nextId)
    && RootShrunk(root, nodes, after, files[..i])
    && hidden' == RemoveEach(hidden, HiddenOf(fo, files[..i]))
  }

  /** One turn of the loop of `files_removed`. */
  method RemoveOneInArena(fo: FileOracle, root: NodeId, ghost nodes: Nodes, ghost depth: map<NodeId, nat>, ghost nextId: NodeId,
                          ghost hidden: seq<FileId>, files: seq<FileId>, i: nat, after: Nodes, hidden': seq<FileId>)
    returns (after'': Nodes, hidden'': seq<FileId>)
    requires i < |files| && RemovedSoFar(fo, root, nodes, depth, nextId, hidden, files, i, after, hidden')
    ensures RemovedSoFar(fo, root, nodes, depth, nextId, hidden, files, i + 1, after'', hidden'')
  {
    var f := files[i];
    TakeOneMore(files, i);
    RemoveOneMore(fo, hidden, files[..i], f);
    after'' := RemoveFileInArena(after, depth, root, nextId, f);
    RootChildren(after, depth, root);
    ShrinkTrans(root, nodes, after, after'', files[..i], f);
    hidden'' := hidden';
    if fo.isHidden(f) {
      hidden'' := RemoveFirst(hidden', f);
    }
  }

  /** The loop of `files_removed`: each file's row goes, and a hidden file
      is unlinked from the hidden list. */
  method RemoveEachInArena(fo: FileOracle, nodes: Nodes, ghost depth: map<NodeId, nat>, root: NodeId,
                           ghost nextId: NodeId, hidden: seq<FileId>, files: seq<FileId>)
    returns (after: Nodes, hidden': seq<FileId>)
    requires ArenaValid(nodes, depth, root, nextId)
    ensures ArenaValid(after, depth, root, nextId)
    ensures RootShrunk(root, nodes, after, files)
    ensures hidden' == RemoveEach(hidden, HiddenOf(fo, files))
  {
    after, hidden' := nodes, hidden;
    assert files[..0] == [];
    var i := 0;
    while i < |files|
      invariant 0 <= i <= |files|
      invariant RemovedSoFar(fo, root, nodes, depth, nextId, hidden, files, i, after, hidden')
    {
      after, hidden' := RemoveOneInArena(fo, root, nodes, depth, nextId, hidden, files, i, after, hidden');
      i := i + 1;
    }
    assert files[..i] == files;
  }

  /** `thunar_tree_view_model_get_path` on the arena: the path of the
      parent, the empty path for the root, followed by the node's offset
      among its siblings. */
  method PathIn(nodes: Nodes, ghost depth: map<NodeId, nat>, root: NodeId, n: NodeId) returns (path: seq<int>)
    requires WellFormed(nodes, depth, root) && n in nodes
    ensures path == PathOf(nodes, depth, root, n)
    decreases depth[n]
  {
    if n == root {
      return [];
    }
    HasParent(nodes, depth, root, n);
    var p := nodes[n].parent.value;
    path := PathIn(nodes, depth, root, p);
    var k := ChildPosition(nodes[p].children, n);
    path := path + [k];
  }

  /** `thunar_tree_view_model_sort` on the arena: a node with at most one
      child is left alone; otherwise its children are re-sorted and the
      view is told the permutation of old offsets, naming the node by its
      path. */
  method SortInArena(fo: FileOracle, s: SortSettings, nodes: Nodes, ghost depth: map<NodeId, nat>, root: NodeId,
                     ghost nextId: NodeId, n: NodeId)
    returns (after: Nodes, newOrder: seq<int>, emitted: seq<Event>)
    requires ArenaValid(nodes, depth, root, nextId) && OracleAntisymmetric(fo) && (s.sign == 1 || s.sign == -1)
    requires n in nodes
    ensures ArenaValid(after, depth, root, nextId)
    ensures |nodes[n].children| <= 1 ==> after == nodes && newOrder == [] && emitted == []
    ensures |nodes[n].children| > 1 ==>
              && Resorted(fo, s, nodes, after, n, newOrder)
              && emitted == [Reordered(n, PathOf(nodes, depth, root, n), newOrder)]
  {
    if |nodes[n].children| <= 1 {
      return nodes, [], [];
    }
    var path := PathIn(nodes, depth, root, n);
    ChildrenDistinct(nodes, depth, root, n);
    after, newOrder := SortNode(fo, s, nodes, n);
    ResortedArenaValid(fo, s, nodes, after, depth, root, nextId, n, newOrder);
    emitted := [Reordered(n, path, newOrder)];
  }

  /** Reorder notifications appended to a log leave it extended by
      reorder notifications only. */
  lemma ReorderedAppend(log: seq<Event>, more: seq<Event>)
    requires ReorderedSince([], more)
    ensures ReorderedSince(log, log + more)
  {
    forall i | |log| <= i < |log + more|
      ensures (log + more)[i].Reordered?
    {
      assert (log + more)[i] == more[i - |log|];
    }
  }

  /** `g_node_traverse (root, G_POST_ORDER, G_TRAVERSE_NON_LEAVES, -1,
      traverse_sort)` on the arena: sorts the children of every node. Each
      node's sort only permutes its own children, so the visiting order
      shows only in the order of the reorder notifications. */
  method SortAllInArena(fo: FileOracle, s: SortSettings, nodes: Nodes, ghost depth: map<NodeId, nat>, root: NodeId,
                        ghost nextId: NodeId)
    returns (after: Nodes, emitted: seq<Event>)
    requires ArenaValid(nodes, depth, root, nextId) && OracleAntisymmetric(fo) && (s.sign == 1 || s.sign == -1)
    ensures ArenaValid(after, depth, root, nextId) && SameUpToOrder(nodes, after)
    ensures forall m | m in after :: SortedBy(after[m].children, NodeCmp(fo, s, after))
    ensures ReorderedSince([], emitted)
  {
    after, emitted := nodes, [];
    var todo := nodes.Keys;
    while todo != {}
      invariant SortAllSoFar(fo, s, nodes, after, depth, root, nextId, todo, emitted)
      decreases todo
    {
      after, todo, emitted := SortOneInArena(fo, s, nodes, after, depth, root, nextId, todo, emitted);
    }
  }

  /** The state of the traversal that sorts every node: the arena is valid,
      only sibling orders changed, every node already visited is sorted,
      and only reorder notifications went out. */
  ghost predicate SortAllSoFar(fo: FileOracle, s: SortSettings, nodes: Nodes, after: Nodes, depth: map<NodeId, nat>,
                               root: NodeId, nextId: NodeId, todo: set<NodeId>, emitted: seq<Event>)
  {
    && ArenaValid(after, depth, root, nextId) && todo <= nodes.Keys
    && SameUpToOrder(nodes, after) && SortedExcept(fo, s, after, todo)
    && ReorderedSince([], emitted)
  }

  /** One visit of the traversal: sorts the children of some node still to
      be visited. */
  method SortOneInArena(fo: FileOracle, s: SortSettings, nodes: Nodes, after: Nodes, ghost depth: map<NodeId, nat>,
                        root: NodeId, ghost nextId: NodeId, todo: set<NodeId>, emitted: seq<Event>)
    returns (after': Nodes, todo': set<NodeId>, emitted': seq<Event>)
    requires OracleAntisymmetric(fo) && (s.sign == 1 || s.sign == -1) && todo != {}
    requires SortAllSoFar(fo, s, nodes, after, depth, root, nextId, todo, emitted)
    ensures SortAllSoFar(fo, s, nodes, after', depth, root, nextId, todo', emitted') && todo' < todo
  {
    var m :| m in todo;
    var order, more;
    after', order, more := SortInArena(fo, s, after, depth, root, nextId, m);
    SortStep(fo, s, nodes, after, after', m, order, todo);
    ReorderedAppend(emitted, more);
    emitted', todo' := emitted + more, todo - {m};
  }

  /** What `reorder_if_req` promises about `n` and its parent `p`: with
      fewer than two siblings nothing happens; otherwise `n` was moved from
      `posBefore` to its sorted offset `posAfter`, only sibling order
      changed, and the view was told the move exactly when `n` moved and
      somebody listens. */
  ghost predicate ReorderDone(fo: FileOracle, s: SortSettings, before: Nodes, after: Nodes, depth: map<NodeId, nat>,
                              root: NodeId, n: NodeId, hasHandler: bool, p: NodeId, posBefore: nat, posAfter: nat,
                              log: seq<Event>, log': seq<Event>)
    requires n in before && WellFormed(after, depth, root)
  {
    && SameUpToOrder(before, after)
    && p in before && before[n].parent == Some(p) && n in before[p].children
    && (|before[p].children| < 2 ==> after == before && log' == log)
    && (|before[p].children| >= 2 ==>
          && Repositioned(NodeCmp(fo, s, before), before, after, p, n, posBefore, posAfter)
          && log' == log + if posBefore != posAfter && hasHandler
                        then [Reordered(p, PathOf(after, depth, root, p), MoveOrder(|before[p].children|, posBefore, posAfter))]
                        else [])
  }

  /** `thunar_tree_view_model_reorder_if_req` on the arena: after the file
      of `n` changed, `n` is unlinked from its siblings and linked back in
      at its sorted position; if it moved and the view listens, the view is
      told the permutation, naming the parent by its own path. */
  method ReorderInArena(fo: FileOracle, s: SortSettings, nodes: Nodes, ghost depth: map<NodeId, nat>, root: NodeId,
                        ghost nextId: NodeId, n: NodeId, hasHandler: bool, log: seq<Event>)
    returns (after: Nodes, log': seq<Event>, ghost p: NodeId, ghost posBefore: nat, ghost posAfter: nat)
    requires ArenaValid(nodes, depth, root, nextId) && OracleAntisymmetric(fo) && (s.sign == 1 || s.sign == -1)
    requires n in nodes && n != root
    ensures ArenaValid(after, depth, root, nextId)
    ensures ReorderDone(fo, s, nodes, after, depth, root, n, hasHandler, p, posBefore, posAfter, log, log')
  {
    var parent, before, moved;
    after, parent, before, moved := RepositionInArena(fo, s, nodes, depth, root, nextId, n);
    p, posBefore, posAfter := parent, before, moved;
    log' := log;
    if before != moved && hasHandler {
      var newOrder := ComputeNewOrder(|nodes[parent].children|, before, moved);
      var path := PathIn(after, depth, root, parent);
      log' := log + [Reordered(parent, path, newOrder)];
    }
  }

  /** What `add_children` promises: the files below `p` gained exactly
      `files`, each in a fresh row, no other row changed but the dummy of
      `p` (which now holds a file), and the children of `p` are in
      comparator order. */
  ghost predicate ChildrenAdded(fo: FileOracle, s: SortSettings, before: Nodes, after: Nodes, p: NodeId, files: seq<FileId>)
    requires p in before
  {
    && Grown(fo, before, after, p, multiset(files))
    && SortedBy(after[p].children, NodeCmp(fo, s, after))
  }

  /** `thunar_tree_view_model_add_children` on the arena: `add_child` for
      each file in turn, then a sort of the children of `p`. */
  method AddChildrenInArena(fo: FileOracle, s: SortSettings, nodes: Nodes, ghost depth: map<NodeId, nat>, root: NodeId,
                            nextId: NodeId, p: NodeId, files: seq<FileId>)
    returns (after: Nodes, ghost depth': map<NodeId, nat>, nextId': NodeId, emitted: seq<Event>)
    requires ArenaValid(nodes, depth, root, nextId) && OracleAntisymmetric(fo) && (s.sign == 1 || s.sign == -1)
    requires p in nodes && (p == root || nodes[p].item.Some?)
    ensures ArenaValid(after, depth', root, nextId') && ChildrenAdded(fo, s, nodes, after, p, files)
  {
    var grown, order;
    grown, depth', nextId' := AddEachInArena(fo, nodes, depth, root, nextId, p, files);
    after, order, emitted := SortInArena(fo, s, grown, depth', root, nextId', p);
    SortKeepsAdded(fo, s, nodes, grown, after, depth', root, p, order, multiset(files));
  }

  /** `thunar_tree_view_model_insert_files` on the arena: every hidden file
      goes on the front of the hidden list, every file that is shown
      becomes a row below the root, and the root's children are sorted. */
  method InsertFilesInArena(fo: FileOracle, s: SortSettings, showHidden: bool, nodes: Nodes, ghost depth: map<NodeId, nat>,
                            root: NodeId, nextId: NodeId, hidden: seq<FileId>, files: seq<FileId>)
    returns (after: Nodes, ghost depth': map<NodeId, nat>, nextId': NodeId, hidden': seq<FileId>, emitted: seq<Event>)
    requires ArenaValid(nodes, depth, root, nextId) && OracleAntisymmetric(fo) && (s.sign == 1 || s.sign == -1)
    ensures ArenaValid(after, depth', root, nextId') && root in nodes
    ensures Grown(fo, nodes, after, root, multiset(ShownOf(fo, showHidden, files)))
    ensures SortedBy(after[root].children, NodeCmp(fo, s, after))
    ensures hidden' == Reverse(HiddenOf(fo, files)) + hidden
  {
    var grown, order;
    grown, depth', nextId', hidden' := InsertEachInArena(fo, showHidden, nodes, depth, root, nextId, hidden, files);
    after, order, emitted := SortInArena(fo, s, grown, depth', root, nextId', root);
    SortKeepsAdded(fo, s, nodes, grown, after, depth', root, root, order, multiset(ShownOf(fo, showHidden, files)));
  }

  /** Switching hidden files on, on the arena: a row below the root for
      every file on the hidden list, then a sort of every node. */
  method ShowHiddenInArena(fo: FileOracle, s: SortSettings, nodes: Nodes, ghost depth: map<NodeId, nat>,
                           root: NodeId, nextId: NodeId, hidden: seq<FileId>)
    returns (after: Nodes, ghost depth': map<NodeId, nat>, nextId': NodeId, emitted: seq<Event>)
    requires ArenaValid(nodes, depth, root, nextId) && OracleAntisymmetric(fo) && (s.sign == 1 || s.sign == -1)
    ensures ArenaValid(after, depth', root, nextId') && root in nodes
    ensures HiddenRowsShown(fo, s, root, nodes, after, hidden) && ReorderedSince([], emitted)
  {
    var grown;
    grown, depth', nextId' := AddEachInArena(fo, nodes, depth, root, nextId, root, hidden);
    after, emitted := SortAllInArena(fo, s, grown, depth', root, nextId');
    ShowHiddenShows(fo, s, root, nodes, grown, after, hidden);
  }

  /** The invariant of a model's state: a valid arena, an antisymmetric
      comparator with sign 1 or -1, and a loading count that is not negative. */
  ghost predicate ModelInvariant(fo: FileOracle, sort: SortSettings, loading: int, nodes: Nodes,
                                 depth: map<NodeId, nat>, root: NodeId, nextId: NodeId)
  {
    && ArenaValid(nodes, depth, root, nextId)
    && OracleAntisymmetric(fo)
    && (sort.sign == 1 || sort.sign == -1)
    && loading >= 0
  }

  class Model {
    const root: NodeId
    const fo: FileOracle
    var nodes: Nodes
    ghost var depth: map<NodeId, nat>
    /** Ids at or above this one are unused, so `new` nodes take it. */
    var nextId: NodeId
    /** `store->hidden`: every hidden file the folder reported. */
    var hidden: seq<FileId>
    var showHidden: bool
    /** `sort_case_sensitive`, `sort_folders_first`, `sort_sign` and
        `sort_func` together. */
    var sort: SortSettings
    var folderItemCount: FolderItemCount
    /** `store->loading`: folders whose loading has not finished. */
    var loading: int
    var events: seq<Event>

    ghost predicate Valid()
      reads this`nodes, this`depth, this`nextId, this`sort, this`loading
    {
      ModelInvariant(fo, sort, loading, nodes, depth, root, nextId)
    }

    /** `thunar_tree_view_model_init`: the virtual root alone, sorted by
        name, case-sensitively, folders first, ascending, nothing loading.
        The flags the struct does not set start out zero. */
    constructor (fo: FileOracle)
      requires OracleAntisymmetric(fo)
      ensures Valid()
      ensures this.fo == fo && root == 0 && nodes == map[0 := Node(None, [], None)]
      ensures sort == SortSettings(true, true, 1, ByName)
      ensures folderItemCount == Never && !showHidden && hidden == [] && loading == 0 && events == []
    {
      this.fo := fo;
      root := 0;
      nodes := map[0 := Node(None, [], None)];
      depth := map[0 := 0];
      nextId := 1;
      hidden := [];
      showHidden := false;
      sort := SortSettings(true, true, 1, ByName);
      folderItemCount := Never;
      loading := 0;
      events := [];
    }

    // -------------------------------------------------------------------
    // Sorting

    /** `thunar_tree_view_model_sort`: a node with at most one child is left
        alone; otherwise its children are tagged with their offsets, sorted,
        and relinked (prepended one by one, then reversed), and the view is
        told the permutation of old offsets. */
    method Sort(n: NodeId) returns (newOrder: seq<int>)
      requires Valid() && n in nodes
      modifies this`nodes, this`events
      ensures Valid()
      ensures |old(nodes[n].children)| <= 1 ==> nodes == old(nodes) && newOrder == [] && events == old(events)
      ensures |old(nodes[n].children)| > 1 ==>
                && Resorted(fo, sort, old(nodes), nodes, n, newOrder)
                && events == old(events) + [Reordered(n, old(PathOf(nodes, depth, root, n)), newOrder)]
    {
      var after, emitted;
      after, newOrder, emitted := SortInArena(fo, sort, nodes, depth, root, nextId, n);
      nodes, events := after, events + emitted;
    }

    /** `g_node_traverse (root, G_POST_ORDER, G_TRAVERSE_NON_LEAVES, -1,
        traverse_sort)`: sorts the children of every node. Each node's sort
        only permutes its own children, so the visiting order shows only in
        the order of the reorder events. */
    method SortAll()
      requires Valid()
      modifies this`nodes, this`events
      ensures Valid()
      ensures SameUpToOrder(old(nodes), nodes)
      ensures forall m | m in nodes :: SortedBy(nodes[m].children, NodeCmp(fo, sort, nodes))
      ensures ReorderedSince(old(events), events)
    {
      var sorted, emitted := SortAllInArena(fo, sort, nodes, depth, root, nextId);
      ReorderedAppend(events, emitted);
      nodes, events := sorted, events + emitted;
    }

    /** `thunar_tree_view_model_set_sort_column_id`: installs the column's
        comparator and the order's sign, then re-sorts every node. */
    method SetSortColumnId(column: Column, order: SortOrder)
      requires Valid()
      modifies this`sort, this`nodes, this`events
      ensures Valid()
      ensures sort == old(sort).(sign := SignFor(order), func := SortFuncFor(column, folderItemCount))
      ensures SameUpToOrder(old(nodes), nodes)
      ensures forall m | m in nodes :: SortedBy(nodes[m].children, NodeCmp(fo, sort, nodes))
      ensures ReorderedSince(old(events), events)
    {
      var s := sort.(sign := SignFor(order), func := SortFuncFor(column, folderItemCount));
      var sorted, emitted := SortAllInArena(fo, s, nodes, depth, root, nextId);
      ReorderedAppend(events, emitted);
      sort, nodes, events := s, sorted, events + emitted;
    }

    /** `thunar_tree_view_model_get_sort_column_id`: the column of the
        active comparator and the order of the sign. */
    method GetSortColumnId() returns (column: Column, order: SortOrder)
      ensures column == ColumnFor(sort.func)
      ensures order == (if sort.sign > 0 then Ascending else Descending)
    {
      column := ColumnFor(sort.func);
      order := OrderFor(sort.sign);
    }

    // -------------------------------------------------------------------
    // Paths

    /** `thunar_tree_view_model_get_path`: the path of the parent (the
        empty path for the invisible root) followed by the node's offset
        among its siblings. */
    method GetPath(n: NodeId) returns (path: seq<int>)
      requires Valid() && n in nodes
      ensures path == PathOf(nodes, depth, root, n)
    {
      path := PathIn(nodes, depth, root, n);
    }

    // -------------------------------------------------------------------
    // Repositioning one child

    /** `thunar_tree_view_model_reorder_if_req`: after the file of `n`
        changed, `n` is unlinked from its siblings and linked back in at
        its sorted position; if it moved and the view listens, the view is
        told the permutation. Two parts differ from the code as written
        (see the findings in the README): the sorted insertion compares
        the last sibling too, and the notification names the parent by
        its own path, the empty path for the root. */
    method ReorderIfReq(n: NodeId, hasHandler: bool) returns (ghost p: NodeId, ghost posBefore: nat, ghost posAfter: nat)
      requires Valid() && n in nodes && n != root
      modifies this`nodes, this`events
      ensures Valid()
      ensures ReorderDone(fo, sort, old(nodes), nodes, depth, root, n, hasHandler, p, posBefore, posAfter, old(events), events)
    {
      var after, log;
      after, log, p, posBefore, posAfter := ReorderInArena(fo, sort, nodes, depth, root, nextId, n, hasHandler, events);
      assert ModelInvariant(fo, sort, loading, after, depth, root, nextId);
      nodes, events := after, log;
    }

    // -------------------------------------------------------------------
    // The dummy placeholder and new children

    /** `thunar_tree_view_model_node_insert_dummy`: a childless node gets a
        fresh item-less child. (Only nodes with an item get one: the root
        never does.) */
    method NodeInsertDummy(p: NodeId) returns (d: NodeId)
      requires Valid() && p in nodes && nodes[p].children == [] && nodes[p].item.Some?
      modifies this`nodes, this`depth, this`nextId
      ensures Valid() && d == old(nextId) && d !in old(nodes) && nextId == old(nextId) + 1
      ensures nodes == InsertDummy(old(nodes), p, d)
      ensures HasDummy(nodes, p) && nodes[p].children == [d]
    {
      d := nextId;
      InsertDummyArenaValid(nodes, depth, root, nextId, p);
      nodes := InsertDummy(nodes, p, d);
      depth := depth[d := depth[p] + 1];
      nextId := nextId + 1;
    }

    /** `thunar_tree_view_model_node_drop_dummy`: the dummy of `p` is
        destroyed and `p` is left childless. */
    method NodeDropDummy(p: NodeId)
      requires Valid() && p in nodes && HasDummy(nodes, p)
      modifies this`nodes
      ensures Valid() && nodes == DropDummy(old(nodes), p)
      ensures nodes[p].children == [] && nodes.Keys == old(nodes).Keys - {old(nodes)[p].children[0]}
    {
      NotOwnChild(nodes, depth, root, p);
      DropDummyArenaValid(nodes, depth, root, nextId, p);
      nodes := DropDummy(nodes, p);
    }

    /** `thunar_tree_view_model_add_child`: a new item for `file` takes the
        place of the dummy of `p` if there is one, and otherwise becomes the
        first child of `p`; a folder gets a dummy of its own. */
    method AddChild(p: NodeId, file: FileId) returns (c: NodeId)
      requires Valid() && p in nodes && (p == root || nodes[p].item.Some?)
      modifies this`nodes, this`depth, this`nextId
      ensures Valid() && old(nextId) <= nextId
      ensures ChildAdded(fo, old(nodes), nodes, old(nextId), p, c, file)
    {
      nodes, depth, nextId, c := AddChildInArena(fo, nodes, depth, root, nextId, p, file);
    }

    /** `thunar_tree_view_model_add_children`: `add_child` for each file
        in turn, then a sort of the children of `p`. */
    method AddChildren(p: NodeId, files: seq<FileId>)
      requires Valid() && p in nodes && (p == root || nodes[p].item.Some?) && files != []
      modifies this`nodes, this`depth, this`nextId, this`events
      ensures Valid() && ChildrenAdded(fo, sort, old(nodes), nodes, p, files)
    {
      var after, nid, emitted;
      ghost var d;
      after, d, nid, emitted := AddChildrenInArena(fo, sort, nodes, depth, root, nextId, p, files);
      nodes, depth, nextId, events := after, d, nid, events + emitted;
    }

    // -------------------------------------------------------------------
    // Files of the root folder coming and going

    /** `thunar_tree_view_model_insert_files`: every hidden file goes on
        the hidden list, every file that is shown becomes a row below the
        root, and the root's children are sorted again. */
    method InsertFiles(files: seq<FileId>)
      requires Valid()
      modifies this`nodes, this`depth, this`nextId, this`hidden, this`events
      ensures Valid() && root in old(nodes) && Grown(fo, old(nodes), nodes, root, multiset(ShownOf(fo, old(showHidden), files)))
      ensures SortedBy(nodes[root].children, NodeCmp(fo, sort, nodes))
      ensures hidden == Reverse(HiddenOf(fo, files)) + old(hidden)
    {
      var after, nid, h, emitted;
      ghost var d;
      after, d, nid, h, emitted := InsertFilesInArena(fo, sort, showHidden, nodes, depth, root, nextId, hidden, files);
      assert ModelInvariant(fo, sort, loading, after, d, root, nid);
      nodes, depth, nextId, hidden, events := after, d, nid, h, events + emitted;
    }

    /** `thunar_tree_view_model_files_removed`: the row of each file below
        the root goes with everything below it, and each hidden file is
        unlinked from the hidden list once. */
    method FilesRemoved(files: seq<FileId>)
      requires Valid()
      modifies this`nodes, this`hidden
      ensures Valid() && RootShrunk(root, old(nodes), nodes, files)
      ensures hidden == RemoveEach(old(hidden), HiddenOf(fo, files))
    {
      nodes, hidden := RemoveEachInArena(fo, nodes, depth, root, nextId, hidden, files);
    }

    /** `thunar_tree_view_model_set_show_hidden`, without its refilter
        pass: switching hidden files on adds a row below the root for every
        file on the hidden list and re-sorts every node; switching them off,
        or setting the value the model already has, changes no row. */
    method SetShowHidden(show: bool)
      requires Valid()
      modifies this`showHidden, this`nodes, this`depth, this`nextId, this`events
      ensures Valid() && showHidden == show
      ensures old(showHidden) == show || !show ==> nodes == old(nodes) && events == old(events)
      ensures old(showHidden) != show && show ==>
                HiddenRowsShown(fo, sort, root, old(nodes), nodes, hidden) && ReorderedSince(old(events), events)
    {
      if showHidden == show || !show {
        showHidden := show;
        return;
      }
      var after, nid, emitted;
      ghost var d;
      after, d, nid, emitted := ShowHiddenInArena(fo, sort, nodes, depth, root, nextId, hidden);
      ReorderedAppend(events, emitted);
      assert ModelInvariant(fo, sort, loading, after, d, root, nid);
      assert HiddenRowsShown(fo, sort, root, nodes, after, hidden);
      showHidden, nodes, depth, nextId, events := show, after, d, nid, events + emitted;
    }

    // -------------------------------------------------------------------
    // Releasing unused folders

    /** `thunar_tree_view_model_node_traverse_cleanup` for one node. */
    method NodeTraverseCleanup(n: NodeId)
      requires Valid() && n in nodes
      modifies this`nodes, this`depth, this`nextId
      ensures Valid() && old(nextId) <= nextId && !Collapsible(nodes, n)
      ensures !Collapsible(old(nodes), n) ==> nodes == old(nodes)
      ensures Collapsible(old(nodes), n) ==>
                && CollapsedNode(old(nodes), nodes, n)
                && nodes.Keys <= old(nodes).Keys + {old(nextId)} && nodes[n].children == [old(nextId)]
      ensures forall m | m in nodes && m != n ::
                (m in old(nodes) && nodes[m] == old(nodes)[m]) || (m == old(nextId) && nodes[m] == Node(Some(n), [], None))
    {
      nodes, depth, nextId := CollapseInArena(nodes, depth, root, nextId, n);
    }

    /** `thunar_tree_view_model_cleanup_idle`: the cleanup visits every
        node of the tree. Every collapsible node that survives is
        collapsed, every other survivor is unchanged, the only new nodes
        are dummies, and no collapsible node is left. */
    method CleanupIdle()
      requires Valid()
      modifies this`nodes, this`depth, this`nextId
      ensures Valid() && root in nodes
      ensures forall m | m in old(nodes) && m in nodes :: CleanedUp(old(nodes), nodes, m, {})
      ensures forall m | m in nodes && m !in old(nodes) :: nodes[m].item.None?
      ensures forall m | m in nodes :: !Collapsible(nodes, m)
    {
      var todo := nodes.Keys;
      while todo != {}
        invariant Valid() && root in nodes && todo <= old(nodes).Keys && old(nextId) <= nextId
        invariant CleanupSoFar(old(nodes), nodes, todo)
        decreases todo
      {
        var m :| m in todo;
        if m in nodes {
          ghost var before, bound, depthBefore := nodes, nextId, depth;
          NodeTraverseCleanup(m);
          assert forall k {:trigger IdBelow(k, bound)} | k in old(nodes) :: IdBelow(k, bound) by {
            IdsBelowGrow(old(nodes), old(nodes), old(nextId), bound, {});
          }
          CleanupStep(old(nodes), before, nodes, depthBefore, depth, root, bound, nextId, m, todo);
        }
        todo := todo - {m};
      }
      NoneCollapsible(old(nodes), nodes);
    }

    // -------------------------------------------------------------------
    // Reference counts

    /** `thunar_tree_view_model_ref_node`: nothing for the root; for a
        dummy, the parent's folder is asked to load; for an item, the first
        reference asks its folder to load, and the count goes up. */
    method RefNode(n: NodeId)
      requires Valid() && n in nodes
      modifies this`nodes, this`events
      ensures Valid() && nodes.Keys == old(nodes).Keys
      ensures n != root ==> old(nodes)[n].parent.Some? && old(nodes)[n].parent.value in old(nodes)
      ensures n == root ==> nodes == old(nodes) && events == old(events)
      ensures n != root && old(nodes)[n].item.Some? ==>
                var it := old(nodes)[n].item.value;
                && nodes == SetItem(old(nodes), n, RefItem(it))
                && events == old(events) + if it.refCount == 0 && SchedulesLoad(it) then [LoadScheduled(n)] else []
      ensures n != root && old(nodes)[n].item.None? ==>
                var p := old(nodes)[n].parent.value;
                && old(nodes)[p].item.Some?
                && nodes == SetItem(old(nodes), p, LoadFolder(old(nodes)[p].item.value))
                && events == old(events) + if SchedulesLoad(old(nodes)[p].item.value) then [LoadScheduled(p)] else []
    {
      if n == root {
        return;
      }
      HasParent(nodes, depth, root, n);
      match nodes[n].item
      case None =>
        DummyParent(nodes, depth, root, n);
        var p := nodes[n].parent.value;
        var it := nodes[p].item.value;
        SetItemArenaValid(nodes, depth, root, nextId, p, LoadFolder(it));
        nodes := SetItem(nodes, p, LoadFolder(it));
        if SchedulesLoad(it) {
          events := events + [LoadScheduled(p)];
        }
      case Some(it) =>
        SetItemArenaValid(nodes, depth, root, nextId, n, RefItem(it));
        nodes := SetItem(nodes, n, RefItem(it));
        if it.refCount == 0 && SchedulesLoad(it) {
          events := events + [LoadScheduled(n)];
        }
    }

    /** `thunar_tree_view_model_unref_node`: nothing for the root or a
        dummy; an item's count goes down. No node is released, whatever
        the count. */
    method UnrefNode(n: NodeId)
      requires Valid() && n in nodes
      modifies this`nodes
      ensures Valid() && nodes.Keys == old(nodes).Keys
      ensures n == root || old(nodes)[n].item.None? ==> nodes == old(nodes)
      ensures n != root && old(nodes)[n].item.Some? ==>
                nodes == SetItem(old(nodes), n, UnrefItem(old(nodes)[n].item.value))
    {
      if n == root {
        return;
      }
      match nodes[n].item
      case None =>
      case Some(it) =>
        SetItemArenaValid(nodes, depth, root, nextId, n, UnrefItem(it));
        nodes := SetItem(nodes, n, UnrefItem(it));
    }

    // -------------------------------------------------------------------
    // The loading counter

    /** `thunar_tree_view_model_inc_loading`. */
    method IncLoading()
      requires Valid()
      modifies this`loading, this`events
      ensures Valid() && loading == IncCount(old(loading))
      ensures events == old(events) + if IncNotifies(old(loading)) then [LoadingNotified(Loading(loading))] else []
    {
      loading := loading + 1;
      if loading == 1 {
        var busy := GetLoading();
        events := events + [LoadingNotified(busy)];
      }
    }

    /** `thunar_tree_view_model_dec_loading`. */
    method DecLoading()
      requires Valid()
      modifies this`loading, this`events
      ensures Valid() && loading == DecCount(old(loading))
      ensures events == old(events) + if DecNotifies(old(loading)) then [LoadingNotified(Loading(loading))] else []
    {
      if loading > 0 {
        loading := loading - 1;
      }
      if loading == 0 {
        var busy := GetLoading();
        events := events + [LoadingNotified(busy)];
      }
    }

    /** `thunar_tree_view_model_get_loading`: some folder is still loading. */
    method GetLoading() returns (busy: bool)
      ensures busy == Loading(loading) && (busy <==> loading > 0)
    {
      busy := loading > 0;
    }
  }

  /** The path `reorder_if_req` hands to the view, as written: the path
      of the parent, except that for the invisible root it is the path of
      the first top-level row. */
  function ReorderPathAsWritten(parentIsRoot: bool, parentPath: seq<int>): seq<int>
  {
    if parentIsRoot then [0] else parentPath
  }

  /** As written, a reorder among the top-level rows names the first row
      (whose children did not move) instead of the root, whose path is
      empty and which `sort` names correctly. */
  lemma ReorderPathAsWrittenNamesFirstRow(nodes: Nodes, depth: map<NodeId, nat>, root: NodeId)
    requires WellFormed(nodes, depth, root) && nodes[root].children != []
    ensures PathOf(nodes, depth, root, root) == []
    ensures Follow(nodes, root, PathOf(nodes, depth, root, root)) == Some(root)
    ensures Follow(nodes, root, ReorderPathAsWritten(true, PathOf(nodes, depth, root, root))) == Some(nodes[root].children[0])
    ensures nodes[root].children[0] != root
  {
    assert ChildrenLinked(nodes, root);
    var c := nodes[root].children[0];
    assert Step(nodes, root, 0) == Some(c);
    assert [0][1..] == [];
  }
}
