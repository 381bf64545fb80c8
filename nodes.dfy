/** The node tree behind the tree view model, as an arena of values.

    Each node of the source's `GNode` tree becomes an entry of a map from
    node ids to `Node` values. Each entry holds:
    - the parent link;
    - the ordered list of children (the `children`/`next` chain);
    - the item, which is absent for the placeholder "dummy" child of a
      folder that has not been loaded yet, and for the invisible root.

    `WellFormed` states what the source keeps true between calls. The
    functions below are the edits the model makes to the arena, each with a
    lemma that it keeps the arena well formed. `depth` is a ghost labelling
    that shows the parent links have no cycle; it is not part of the source. */
module TreeNodes {
  import opened Seqs
  import opened FileCompare

  type NodeId = nat

  /** `ThunarTreeViewModelItem`. `folderOpen` stands for `item->folder !=
      NULL`, `loadPending` for a scheduled load idle source
      (`item->load_idle_id != 0`). */
  datatype Item = Item(
    file: FileId,
    refCount: int,
    folderOpen: bool,
    loadPending: bool,
    invisibleChildren: seq<FileId>)

  /** `thunar_tree_view_model_item_new_with_file`: no references, no folder. */
  function NewItem(file: FileId): Item
  {
    Item(file, 0, false, false, [])
  }

  datatype Node = Node(parent: Option<NodeId>, children: seq<NodeId>, item: Option<Item>)

  type Nodes = map<NodeId, Node>

  /** `n` has a parent that lists it among its children, one level up. */
  ghost predicate ParentLink(nodes: Nodes, depth: map<NodeId, nat>, n: NodeId)
    requires n in nodes
  {
    && nodes[n].parent.Some?
    && var p := nodes[n].parent.value;
       p in nodes && n in nodes[p].children && p in depth && n in depth && depth[n] == depth[p] + 1
  }

  /** The children of `n` are distinct nodes that name `n` as their parent. */
  ghost predicate ChildrenLinked(nodes: Nodes, n: NodeId)
    requires n in nodes
  {
    && NoDup(nodes[n].children)
    && forall c | c in nodes[n].children :: c in nodes && nodes[c].parent == Some(n)
  }

  /** A dummy is a leaf, and it is the only child of a node with an item. */
  ghost predicate DummyRule(nodes: Nodes, root: NodeId, n: NodeId)
    requires n in nodes
  {
    && (n != root && nodes[n].item.None? ==> nodes[n].children == [])
    && forall c | c in nodes[n].children && c in nodes && nodes[c].item.None? ::
         nodes[n].children == [c] && nodes[n].item.Some?
  }

  ghost predicate WellFormed(nodes: Nodes, depth: map<NodeId, nat>, root: NodeId)
  {
    && root in nodes && nodes.Keys <= depth.Keys
    && nodes[root].parent.None? && nodes[root].item.None?
    && (forall n {:trigger ParentLink(nodes, depth, n)} | n in nodes && n != root :: ParentLink(nodes, depth, n))
    && (forall n {:trigger ChildrenLinked(nodes, n)} | n in nodes :: ChildrenLinked(nodes, n))
    && (forall n {:trigger DummyRule(nodes, root, n)} | n in nodes :: DummyRule(nodes, root, n))
  }

  /** Every node but the root hangs below a parent in the arena that lists it. */
  lemma HasParent(nodes: Nodes, depth: map<NodeId, nat>, root: NodeId, n: NodeId)
    requires WellFormed(nodes, depth, root) && n in nodes && n != root
    ensures ParentLink(nodes, depth, n)
    ensures nodes[n].parent.value in nodes && n in nodes[nodes[n].parent.value].children
  {
    assert ParentLink(nodes, depth, n);
  }

  /** A dummy is the only child of a node that has an item. */
  lemma DummyParent(nodes: Nodes, depth: map<NodeId, nat>, root: NodeId, n: NodeId)
    requires WellFormed(nodes, depth, root) && n in nodes && n != root && nodes[n].item.None?
    ensures ParentLink(nodes, depth, n)
    ensures var p := nodes[n].parent.value;
            p in nodes && p != root && nodes[p].item.Some? && nodes[p].children == [n]
  {
    HasParent(nodes, depth, root, n);
    assert DummyRule(nodes, root, nodes[n].parent.value);
  }

  /** `G_NODE_HAS_DUMMY`: the only child is a node without an item. */
  predicate HasDummy(nodes: Nodes, n: NodeId)
    requires n in nodes
  {
    |nodes[n].children| == 1 && nodes[n].children[0] in nodes && nodes[nodes[n].children[0]].item.None?
  }

  /** The dummy of `p` is a leaf below `p`, and not the root. */
  lemma DummyChild(nodes: Nodes, depth: map<NodeId, nat>, root: NodeId, p: NodeId)
    requires WellFormed(nodes, depth, root) && p in nodes && HasDummy(nodes, p)
    ensures var d := nodes[p].children[0];
            d in nodes && d != root && d != p && nodes[d].parent == Some(p) && nodes[d].children == []
  {
    var d := nodes[p].children[0];
    assert ChildrenLinked(nodes, p);
    assert DummyRule(nodes, root, d);
    if p != root {
      assert ParentLink(nodes, depth, p);
    }
  }

  /** The file of a node with an item (a dummy has none; 0 stands in). */
  function FileOf(nodes: Nodes, n: NodeId): FileId
  {
    if n in nodes && nodes[n].item.Some? then nodes[n].item.value.file else 0
  }

  /** `thunar_tree_view_model_cmp_nodes_func`: compares the nodes' files. */
  function NodeCmp(fo: FileOracle, s: SortSettings, nodes: Nodes): (NodeId, NodeId) -> int
  {
    (a: NodeId, b: NodeId) => CmpFiles(fo, s, FileOf(nodes, a), FileOf(nodes, b))
  }

  /** The file of `c` as a bag: empty for a dummy. */
  ghost function OwnFile(nodes: Nodes, c: NodeId): multiset<FileId>
  {
    if c in nodes && nodes[c].item.Some? then multiset{nodes[c].item.value.file} else multiset{}
  }

  /** The files of the nodes in `ch` that have an item, as a bag. */
  ghost function FileBag(nodes: Nodes, ch: seq<NodeId>): multiset<FileId>
  {
    if ch == [] then multiset{} else FileBag(nodes, ch[..|ch| - 1]) + OwnFile(nodes, ch[|ch| - 1])
  }

  // ---------------------------------------------------------------------
  // Edits of the arena

  /** `p` gets `ch` as its list of children. */
  function ReplaceChildren(nodes: Nodes, p: NodeId, ch: seq<NodeId>): Nodes
    requires p in nodes
  {
    nodes[p := nodes[p].(children := ch)]
  }

  /** `n` gets the item `it`. */
  function SetItem(nodes: Nodes, n: NodeId, it: Item): Nodes
    requires n in nodes
  {
    nodes[n := nodes[n].(item := Some(it))]
  }

  /** `g_node_prepend_data`: a new node `c` holding `it` becomes the first child of `p`. */
  function PrependChild(nodes: Nodes, p: NodeId, c: NodeId, it: Item): Nodes
    requires p in nodes
  {
    nodes[c := Node(Some(p), [], Some(it))][p := nodes[p].(children := [c] + nodes[p].children)]
  }

  /** `g_node_append_data (parent, NULL)` on a childless node: the dummy `d`. */
  function InsertDummy(nodes: Nodes, p: NodeId, d: NodeId): Nodes
    requires p in nodes
  {
    nodes[d := Node(Some(p), [], None)][p := nodes[p].(children := nodes[p].children + [d])]
  }

  /** `g_node_destroy (node->children)` on a node holding only its dummy. */
  function DropDummy(nodes: Nodes, p: NodeId): Nodes
    requires p in nodes && HasDummy(nodes, p)
  {
    (nodes - {nodes[p].children[0]})[p := nodes[p].(children := [])]
  }

  /** `S` is the subtree below and including `x`: it holds `x`, it holds
      the children of everything in it, and everything else in it hangs
      below another member. */
  ghost predicate SubtreeSet(nodes: Nodes, x: NodeId, S: set<NodeId>)
  {
    && x in S && S <= nodes.Keys
    && (forall m, c | m in S && m in nodes && c in nodes[m].children :: c in S)
    && (forall m | m in S && m != x :: m in nodes && nodes[m].parent.Some? && nodes[m].parent.value in S)
  }

  /** `g_node_destroy` on `x` after its subtree `S` has been released: the
      members of `S` disappear and `x` is unlinked from its parent. */
  function RemoveSubtree(nodes: Nodes, x: NodeId, S: set<NodeId>): Nodes
    requires x in nodes && nodes[x].parent.Some? && nodes[x].parent.value in nodes
    requires x in nodes[nodes[x].parent.value].children
  {
    var p := nodes[x].parent.value;
    var ch := nodes[p].children;
    map m | m in nodes && m !in S :: if m == p then nodes[m].(children := RemoveAt(ch, IndexOf(ch, x))) else nodes[m]
  }

  // ---------------------------------------------------------------------
  // The edits keep the arena well formed

  lemma ReplaceChildrenWellFormed(nodes: Nodes, depth: map<NodeId, nat>, root: NodeId, p: NodeId, ch: seq<NodeId>)
    requires WellFormed(nodes, depth, root) && p in nodes
    requires NoDup(ch) && |ch| == |nodes[p].children|
    requires forall x :: x in ch <==> x in nodes[p].children
    ensures WellFormed(ReplaceChildren(nodes, p, ch), depth, root)
  {
    var r := ReplaceChildren(nodes, p, ch);
    forall n | n in r && n != root
      ensures ParentLink(r, depth, n)
    {
      assert ParentLink(nodes, depth, n);
    }
    forall n | n in r
      ensures ChildrenLinked(r, n)
    {
      assert ChildrenLinked(nodes, n);
    }
    forall n | n in r
      ensures DummyRule(r, root, n)
    {
      assert DummyRule(nodes, root, n);
      if n == p {
        forall c | c in ch && c in r && r[c].item.None?
          ensures ch == [c]
        {
          assert nodes[p].children == [c];
          assert ch[0] in nodes[p].children;
        }
      }
    }
  }

  lemma SetItemWellFormed(nodes: Nodes, depth: map<NodeId, nat>, root: NodeId, n: NodeId, it: Item)
    requires WellFormed(nodes, depth, root) && n in nodes && n != root
    ensures WellFormed(SetItem(nodes, n, it), depth, root)
  {
    var r := SetItem(nodes, n, it);
    forall m | m in r && m != root
      ensures ParentLink(r, depth, m)
    {
      assert ParentLink(nodes, depth, m);
    }
    forall m | m in r
      ensures ChildrenLinked(r, m)
    {
      assert ChildrenLinked(nodes, m);
    }
    forall m | m in r
      ensures DummyRule(r, root, m)
    {
      assert DummyRule(nodes, root, m);
    }
  }

  /** `r` is `nodes` with a new leaf `c` linked under `p`, whose children become `ch`. */
  ghost predicate AddedLeaf(nodes: Nodes, r: Nodes, p: NodeId, c: NodeId, ch: seq<NodeId>)
    requires p in nodes
  {
    && c !in nodes && r.Keys == nodes.Keys + {c}
    && r[p] == nodes[p].(children := ch) && r[c].parent == Some(p) && r[c].children == []
    && (forall m | m in nodes && m != p :: r[m] == nodes[m])
    && NoDup(ch) && (forall k :: k in ch <==> k == c || k in nodes[p].children)
  }

  lemma AddedLeafParentLinks(nodes: Nodes, depth: map<NodeId, nat>, root: NodeId, p: NodeId, c: NodeId, ch: seq<NodeId>, r: Nodes)
    requires WellFormed(nodes, depth, root) && p in nodes && AddedLeaf(nodes, r, p, c, ch)
    ensures forall m | m in r && m != root :: ParentLink(r, depth[c := depth[p] + 1], m)
  {
    var d := depth[c := depth[p] + 1];
    assert p == root || ParentLink(nodes, depth, p);
    forall m | m in r && m != root
      ensures ParentLink(r, d, m)
    {
      if m != c {
        assert ParentLink(nodes, depth, m);
      }
    }
  }

  lemma AddedLeafChildrenLinked(nodes: Nodes, depth: map<NodeId, nat>, root: NodeId, p: NodeId, c: NodeId, ch: seq<NodeId>, r: Nodes)
    requires WellFormed(nodes, depth, root) && p in nodes && AddedLeaf(nodes, r, p, c, ch)
    ensures forall m | m in r :: ChildrenLinked(r, m)
  {
    assert ChildrenLinked(nodes, p);
    forall m | m in r
      ensures ChildrenLinked(r, m)
    {
      if m != c && m != p {
        assert ChildrenLinked(nodes, m);
        assert c !in nodes[m].children;
      }
    }
  }

  /** Without a dummy, every child of a node has an item. */
  lemma ChildOfNoDummy(nodes: Nodes, root: NodeId, p: NodeId, k: NodeId)
    requires p in nodes && DummyRule(nodes, root, p) && ChildrenLinked(nodes, p)
    requires k in nodes[p].children && !HasDummy(nodes, p)
    ensures k in nodes && nodes[k].item.Some?
  {
  }

  lemma AddedLeafDummyRule(nodes: Nodes, depth: map<NodeId, nat>, root: NodeId, p: NodeId, c: NodeId, ch: seq<NodeId>, r: Nodes)
    requires WellFormed(nodes, depth, root) && p in nodes && AddedLeaf(nodes, r, p, c, ch)
    requires p == root || nodes[p].item.Some?
    requires r[c].item.None? ==> ch == [c] && nodes[p].item.Some?
    requires r[c].item.Some? ==> !HasDummy(nodes, p)
    ensures forall m | m in r :: DummyRule(r, root, m)
  {
    assert c != root;
    assert forall k | k in nodes :: r[k].item == nodes[k].item;
    forall m | m in r && m != c && m != p
      ensures DummyRule(r, root, m)
    {
      assert DummyRule(nodes, root, m);
      assert r[m] == nodes[m];
      assert ChildrenLinked(nodes, m);
      assert c !in nodes[m].children;
    }
    assert DummyRule(nodes, root, p);
    assert ChildrenLinked(nodes, p);
    if r[c].item.Some? {
      forall k | k in ch && k in r && k != c
        ensures r[k].item.Some?
      {
        ChildOfNoDummy(nodes, root, p, k);
      }
    }
    assert DummyRule(r, root, p);
    assert DummyRule(r, root, c);
  }

  lemma PrependChildWellFormed(nodes: Nodes, depth: map<NodeId, nat>, root: NodeId, p: NodeId, c: NodeId, it: Item)
    requires WellFormed(nodes, depth, root) && p in nodes && c !in nodes
    requires p == root || nodes[p].item.Some?
    requires !HasDummy(nodes, p)
    ensures WellFormed(PrependChild(nodes, p, c, it), depth[c := depth[p] + 1], root)
  {
    var r := PrependChild(nodes, p, c, it);
    var ch := [c] + nodes[p].children;
    assert ChildrenLinked(nodes, p);
    assert AddedLeaf(nodes, r, p, c, ch);
    AddedLeafParentLinks(nodes, depth, root, p, c, ch, r);
    AddedLeafChildrenLinked(nodes, depth, root, p, c, ch, r);
    AddedLeafDummyRule(nodes, depth, root, p, c, ch, r);
  }

  lemma InsertDummyWellFormed(nodes: Nodes, depth: map<NodeId, nat>, root: NodeId, p: NodeId, d: NodeId)
    requires WellFormed(nodes, depth, root) && p in nodes && d !in nodes
    requires nodes[p].children == [] && nodes[p].item.Some?
    ensures WellFormed(InsertDummy(nodes, p, d), depth[d := depth[p] + 1], root)
    ensures HasDummy(InsertDummy(nodes, p, d), p)
  {
    var r := InsertDummy(nodes, p, d);
    InsertDummyAddsLeaf(nodes, p, d);
    AddedLeafParentLinks(nodes, depth, root, p, d, [d], r);
    AddedLeafChildrenLinked(nodes, depth, root, p, d, [d], r);
    AddedLeafDummyRule(nodes, depth, root, p, d, [d], r);
  }

  /** The dummy is a new leaf, the only child of `p`. */
  lemma InsertDummyAddsLeaf(nodes: Nodes, p: NodeId, d: NodeId)
    requires p in nodes && d !in nodes && nodes[p].children == []
    ensures AddedLeaf(nodes, InsertDummy(nodes, p, d), p, d, [d])
    ensures InsertDummy(nodes, p, d)[d].item.None?
  {
    assert nodes[p].children + [d] == [d];
  }

  lemma DropDummyWellFormed(nodes: Nodes, depth: map<NodeId, nat>, root: NodeId, p: NodeId)
    requires WellFormed(nodes, depth, root) && p in nodes && HasDummy(nodes, p)
    ensures WellFormed(DropDummy(nodes, p), depth, root)
  {
    var d := nodes[p].children[0];
    var r := DropDummy(nodes, p);
    assert ChildrenLinked(nodes, p);
    assert d != root && nodes[d].parent == Some(p);
    assert DummyRule(nodes, root, d);
    forall m | m in r && m != root
      ensures ParentLink(r, depth, m)
    {
      assert ParentLink(nodes, depth, m);
      assert m in nodes[p].children ==> m == d;
    }
    forall m | m in r
      ensures ChildrenLinked(r, m)
    {
      assert ChildrenLinked(nodes, m);
      if m != p {
        forall k | k in r[m].children
          ensures k in r
        {
          assert nodes[k].parent == Some(m);
        }
      }
    }
    forall m | m in r
      ensures DummyRule(r, root, m)
    {
      assert DummyRule(nodes, root, m);
    }
  }

  /** Every member of a subtree lies at least as deep as its top. */
  lemma {:induction false} SubtreeDepth(nodes: Nodes, depth: map<NodeId, nat>, root: NodeId, x: NodeId, S: set<NodeId>, m: NodeId)
    requires WellFormed(nodes, depth, root) && SubtreeSet(nodes, x, S)
    ensures m in S ==> x in depth && m in depth && depth[m] >= depth[x]
    decreases if m in depth then depth[m] else 0
  {
    if x == root {
      assert root in depth;
    } else {
      assert ParentLink(nodes, depth, x);
    }
    if m in S && m != x {
      var p := nodes[m].parent.value;
      assert m != root;
      assert ParentLink(nodes, depth, m);
      SubtreeDepth(nodes, depth, root, x, S, p);
    }
  }

  /** What `RemoveSubtree` leaves behind, in terms the lemmas below use. */
  ghost predicate RemovedShape(nodes: Nodes, r: Nodes, x: NodeId, p: NodeId, S: set<NodeId>)
    requires p in nodes && x in nodes[p].children
  {
    && r.Keys == nodes.Keys - S && p in r
    && r[p] == nodes[p].(children := RemoveAt(nodes[p].children, IndexOf(nodes[p].children, x)))
    && forall m | m in r && m != p :: r[m] == nodes[m]
  }

  lemma RemovedShapeHolds(nodes: Nodes, depth: map<NodeId, nat>, root: NodeId, x: NodeId, S: set<NodeId>)
    requires WellFormed(nodes, depth, root) && x in nodes && x != root && SubtreeSet(nodes, x, S)
    ensures ParentLink(nodes, depth, x)
    ensures nodes[x].parent.value !in S && root !in S
    ensures RemovedShape(nodes, RemoveSubtree(nodes, x, S), x, nodes[x].parent.value, S)
  {
    assert ParentLink(nodes, depth, x);
    var p := nodes[x].parent.value;
    SubtreeDepth(nodes, depth, root, x, S, p);
  }

  lemma RemovedParentLinks(nodes: Nodes, depth: map<NodeId, nat>, root: NodeId, x: NodeId, p: NodeId, S: set<NodeId>, r: Nodes)
    requires WellFormed(nodes, depth, root) && x in nodes && p in nodes && x in nodes[p].children
    requires nodes[x].parent == Some(p) && SubtreeSet(nodes, x, S) && p !in S
    requires RemovedShape(nodes, r, x, p, S)
    ensures forall m | m in r && m != root :: ParentLink(r, depth, m)
  {
    forall m | m in r && m != root
      ensures ParentLink(r, depth, m)
    {
      assert ParentLink(nodes, depth, m);
      RemovedParentLink(nodes, depth, x, p, S, r, m);
    }
  }

  /** A node that survives the removal keeps its link to its parent. */
  lemma RemovedParentLink(nodes: Nodes, depth: map<NodeId, nat>, x: NodeId, p: NodeId, S: set<NodeId>, r: Nodes, m: NodeId)
    requires x in nodes && p in nodes && x in nodes[p].children
    requires nodes[x].parent == Some(p) && SubtreeSet(nodes, x, S) && p !in S
    requires RemovedShape(nodes, r, x, p, S)
    requires m in r && m in nodes && ParentLink(nodes, depth, m)
    ensures ParentLink(r, depth, m)
  {
    var ch := nodes[p].children;
    var i := IndexOf(ch, x);
    var q := nodes[m].parent.value;
    assert q in S ==> m in S;
    if q == p {
      assert m != x;
      RemoveAtKeepsOthers(ch, i, m);
    }
  }

  /** A node other than the top whose parent lies outside a subtree lies outside it too. */
  lemma OutsideSubtree(nodes: Nodes, x: NodeId, S: set<NodeId>, k: NodeId, p: NodeId)
    requires SubtreeSet(nodes, x, S) && k in nodes && k != x && nodes[k].parent == Some(p) && p !in S
    ensures k !in S
  {
  }

  lemma RemovedChildrenLinked(nodes: Nodes, x: NodeId, p: NodeId, S: set<NodeId>, r: Nodes)
    requires forall m | m in nodes :: ChildrenLinked(nodes, m)
    requires x in nodes && p in nodes && x in nodes[p].children
    requires nodes[x].parent == Some(p) && SubtreeSet(nodes, x, S) && p !in S
    requires RemovedShape(nodes, r, x, p, S)
    ensures forall m | m in r :: ChildrenLinked(r, m)
  {
    var ch := nodes[p].children;
    var i := IndexOf(ch, x);
    var rc := RemoveAt(ch, i);
    assert ChildrenLinked(nodes, p);
    RemoveAtNoDup(ch, i);
    forall k | k in rc
      ensures k in r && r[k].parent == Some(p)
    {
      OutsideSubtree(nodes, x, S, k, p);
    }
    assert ChildrenLinked(r, p);
    forall m | m in r && m != p
      ensures ChildrenLinked(r, m)
    {
      assert ChildrenLinked(nodes, m);
      forall k | k in r[m].children
        ensures k in r
      {
        assert nodes[k].parent == Some(m);
      }
    }
  }

  lemma RemovedDummyRule(nodes: Nodes, depth: map<NodeId, nat>, root: NodeId, x: NodeId, p: NodeId, S: set<NodeId>, r: Nodes)
    requires WellFormed(nodes, depth, root) && x in nodes && p in nodes && x in nodes[p].children
    requires RemovedShape(nodes, r, x, p, S)
    ensures forall m | m in r :: DummyRule(r, root, m)
  {
    forall m | m in r
      ensures DummyRule(r, root, m)
    {
      assert DummyRule(nodes, root, m);
      if m == p {
        assert ChildrenLinked(nodes, p);
        RemovedParentDummyRule(nodes, root, x, p, S, r);
      }
    }
  }

  /** The parent keeps the dummy rule when it loses a child. */
  lemma RemovedParentDummyRule(nodes: Nodes, root: NodeId, x: NodeId, p: NodeId, S: set<NodeId>, r: Nodes)
    requires p in nodes && x in nodes[p].children && NoDup(nodes[p].children)
    requires DummyRule(nodes, root, p) && RemovedShape(nodes, r, x, p, S)
    ensures DummyRule(r, root, p)
  {
    var ch := nodes[p].children;
    var i := IndexOf(ch, x);
    var rc := RemoveAt(ch, i);
    RemoveAtNoDup(ch, i);
    forall k | k in rc && k in r
      ensures r[k].item.Some?
    {
      assert k in ch && k != x;
      assert nodes[k].item.None? ==> ch == [k];
    }
  }

  lemma RemoveSubtreeWellFormed(nodes: Nodes, depth: map<NodeId, nat>, root: NodeId, x: NodeId, S: set<NodeId>)
    requires WellFormed(nodes, depth, root) && x in nodes && x != root && SubtreeSet(nodes, x, S)
    ensures ParentLink(nodes, depth, x)
    ensures nodes[x].parent.value !in S && root !in S
    ensures WellFormed(RemoveSubtree(nodes, x, S), depth, root)
    ensures RemoveSubtree(nodes, x, S).Keys == nodes.Keys - S
  {
    RemovedShapeHolds(nodes, depth, root, x, S);
    var p := nodes[x].parent.value;
    var r := RemoveSubtree(nodes, x, S);
    RemovedParentLinks(nodes, depth, root, x, p, S, r);
    RemovedChildrenLinked(nodes, x, p, S, r);
    RemovedDummyRule(nodes, depth, root, x, p, S, r);
  }

  // ---------------------------------------------------------------------
  // Dummy round trip

  /** Dropping the dummy that was just inserted restores the arena. */
  lemma DropUndoesInsertDummy(nodes: Nodes, p: NodeId, d: NodeId)
    requires p in nodes && d !in nodes && nodes[p].children == []
    ensures HasDummy(InsertDummy(nodes, p, d), p)
    ensures DropDummy(InsertDummy(nodes, p, d), p) == nodes
  {
    var r := InsertDummy(nodes, p, d);
    assert r[p].children == [d];
    assert DropDummy(r, p) == (r - {d})[p := r[p].(children := [])];
  }

  // ---------------------------------------------------------------------
  // The files below a node, as a bag

  lemma {:induction false} FileBagPrepend(nodes: Nodes, c: NodeId, ch: seq<NodeId>)
    ensures FileBag(nodes, [c] + ch) == OwnFile(nodes, c) + FileBag(nodes, ch)
    decreases |ch|
  {
    if ch != [] {
      var init := ch[..|ch| - 1];
      var last := ch[|ch| - 1];
      assert ch == init + [last];
      assert [c] + ch == ([c] + init) + [last];
      FileBagPrepend(nodes, c, init);
      FileBagSnoc(nodes, [c] + init, last);
      FileBagSnoc(nodes, init, last);
    } else {
      assert [c][..0] == [];
    }
  }

  /** The bag only looks at the items of the listed nodes. */
  lemma {:induction false} FileBagFrame(nodes: Nodes, r: Nodes, ch: seq<NodeId>)
    requires forall c | c in ch :: OwnFile(r, c) == OwnFile(nodes, c)
    ensures FileBag(r, ch) == FileBag(nodes, ch)
    decreases |ch|
  {
    if ch != [] {
      FileBagFrame(nodes, r, ch[..|ch| - 1]);
    }
  }

  /** Appending one node adds its file. */
  lemma FileBagSnoc(nodes: Nodes, a: seq<NodeId>, z: NodeId)
    ensures FileBag(nodes, a + [z]) == FileBag(nodes, a) + OwnFile(nodes, z)
  {
    assert (a + [z])[..|a|] == a;
  }

  lemma {:induction false} FileBagRemoveAt(nodes: Nodes, ch: seq<NodeId>, k: nat)
    requires k < |ch|
    ensures FileBag(nodes, ch) == FileBag(nodes, RemoveAt(ch, k)) + OwnFile(nodes, ch[k])
    decreases |ch|
  {
    var last := |ch| - 1;
    var init := ch[..last];
    if k == last {
      assert RemoveAt(ch, k) == init;
    } else {
      var r0 := RemoveAt(init, k);
      FileBagRemoveAt(nodes, init, k);
      RemoveAtKeepsLast(ch, k);
      FileBagSnoc(nodes, r0, ch[last]);
    }
  }

  /** Reordering the nodes does not change their files. */
  lemma {:induction false} FileBagPermutation(nodes: Nodes, a: seq<NodeId>, b: seq<NodeId>)
    requires multiset(a) == multiset(b)
    ensures FileBag(nodes, a) == FileBag(nodes, b)
    decreases |a|
  {
    if a != [] {
      var z := a[|a| - 1];
      var a0 := a[..|a| - 1];
      assert a == a0 + [z];
      FileBagSnoc(nodes, a0, z);
      assert multiset(a) == multiset(a0) + multiset{z};
      assert z in multiset(b);
      var k := IndexOf(b, z);
      var b0 := RemoveAt(b, k);
      RemoveAtMultiset(b, k);
      assert multiset(a0) == multiset(a) - multiset{z};
      assert multiset(b0) == multiset(b) - multiset{z};
      FileBagRemoveAt(nodes, b, k);
      FileBagPermutation(nodes, a0, b0);
    } else {
      assert |multiset(b)| == |b|;
    }
  }

  /** A node with an item holds `f` as its file. */
  predicate HoldsFile(nodes: Nodes, c: NodeId, f: FileId)
  {
    c in nodes && nodes[c].item.Some? && nodes[c].item.value.file == f
  }

  /** A file is in the bag exactly when some listed node holds it. */
  lemma {:induction false} FileBagHas(nodes: Nodes, ch: seq<NodeId>, f: FileId)
    ensures f in FileBag(nodes, ch) <==> exists i | 0 <= i < |ch| :: HoldsFile(nodes, ch[i], f)
    decreases |ch|
  {
    if ch != [] {
      var init := ch[..|ch| - 1];
      FileBagHas(nodes, init, f);
      FileBagSnoc(nodes, init, ch[|ch| - 1]);
      assert ch == init + [ch[|ch| - 1]];
      if exists i | 0 <= i < |init| :: HoldsFile(nodes, init[i], f) {
        var i :| 0 <= i < |init| && HoldsFile(nodes, init[i], f);
        assert HoldsFile(nodes, ch[i], f);
      }
      if exists i | 0 <= i < |ch| :: HoldsFile(nodes, ch[i], f) {
        var i :| 0 <= i < |ch| && HoldsFile(nodes, ch[i], f);
        if i < |init| {
          assert HoldsFile(nodes, init[i], f);
        }
      }
    }
  }

  /** Removing the subtree of `x` takes exactly the file of `x` out of
      its parent's bag. */
  lemma RemoveSubtreeFileBag(nodes: Nodes, depth: map<NodeId, nat>, root: NodeId, x: NodeId, S: set<NodeId>)
    requires WellFormed(nodes, depth, root) && x in nodes && x != root && SubtreeSet(nodes, x, S)
    ensures ParentLink(nodes, depth, x)
    ensures nodes[x].parent.value in RemoveSubtree(nodes, x, S)
    ensures var p := nodes[x].parent.value;
            FileBag(RemoveSubtree(nodes, x, S), RemoveSubtree(nodes, x, S)[p].children) + OwnFile(nodes, x) ==
            FileBag(nodes, nodes[p].children)
  {
    RemovedShapeHolds(nodes, depth, root, x, S);
    var p := nodes[x].parent.value;
    var r := RemoveSubtree(nodes, x, S);
    var ch := nodes[p].children;
    var k := IndexOf(ch, x);
    var rest := RemoveAt(ch, k);
    assert ChildrenLinked(nodes, p);
    forall c | c in rest
      ensures OwnFile(r, c) == OwnFile(nodes, c)
    {
      var j :| 0 <= j < |rest| && rest[j] == c;
      assert c == ch[if j < k then j else j + 1];
      OutsideSubtree(nodes, x, S, c, p);
    }
    FileBagRemoveAt(nodes, ch, k);
    FileBagFrame(nodes, r, rest);
  }

  /** Adding a dummy below any node leaves every other node's file alone. */
  lemma InsertDummyFileBag(nodes: Nodes, q: NodeId, d: NodeId, ch: seq<NodeId>)
    requires q in nodes && d !in nodes && d !in ch
    ensures FileBag(InsertDummy(nodes, q, d), ch) == FileBag(nodes, ch)
  {
    FileBagFrame(nodes, InsertDummy(nodes, q, d), ch);
  }

  /** No node is its own child. */
  lemma NotOwnChild(nodes: Nodes, depth: map<NodeId, nat>, root: NodeId, p: NodeId)
    requires WellFormed(nodes, depth, root) && p in nodes
    ensures p !in nodes[p].children
  {
    assert ChildrenLinked(nodes, p);
    if p != root {
      assert ParentLink(nodes, depth, p);
    }
  }

  /** A new first child adds its file to the bag of its parent's children. */
  lemma PrependChildFileBag(nodes: Nodes, p: NodeId, c: NodeId, it: Item)
    requires p in nodes && c !in nodes && c !in nodes[p].children
    ensures FileBag(PrependChild(nodes, p, c, it), PrependChild(nodes, p, c, it)[p].children) ==
            FileBag(nodes, nodes[p].children) + multiset{it.file}
  {
    var r := PrependChild(nodes, p, c, it);
    var ch := nodes[p].children;
    assert r[p].children == [c] + ch;
    assert OwnFile(r, c) == multiset{it.file};
    forall x | x in ch
      ensures OwnFile(r, x) == OwnFile(nodes, x)
    {
      assert x != c;
    }
    FileBagFrame(nodes, r, ch);
    FileBagPrepend(r, c, ch);
  }

  /** Giving the dummy an item adds that item's file to the bag of its
      parent's children. */
  lemma FillDummyFileBag(nodes: Nodes, p: NodeId, it: Item)
    requires p in nodes && HasDummy(nodes, p)
    ensures FileBag(SetItem(nodes, nodes[p].children[0], it), nodes[p].children) ==
            FileBag(nodes, nodes[p].children) + multiset{it.file}
  {
    var d := nodes[p].children[0];
    assert nodes[p].children == [d] && [d][..0] == [];
  }

  // ---------------------------------------------------------------------
  // Paths: `get_path` and `get_iter`

  /** `g_node_nth_child`, handed a `gint` index that it takes as a `guint`:
      it walks that many siblings from the first child. A negative index
      wraps round to a huge one and runs off the end of the list. */
  function NthChild(nodes: Nodes, p: NodeId, k: int): (r: Option<NodeId>)
    requires p in nodes
    ensures r.Some? ==> r.value in nodes[p].children
    ensures 0 <= k < |nodes[p].children| && k < 0x1_0000_0000 ==> r == Some(nodes[p].children[k])
    ensures -0x8000_0000 <= k < 0 && |nodes[p].children| <= 0x8000_0000 ==> r == None
  {
    var u := k % 0x1_0000_0000;
    if u < |nodes[p].children| then Some(nodes[p].children[u]) else None
  }

  /** `thunar_tree_view_model_iter_nth_child`: the `k`-th child of `parent`,
      or of the root when no parent iterator is given. */
  function IterNthChild(nodes: Nodes, root: NodeId, parent: Option<NodeId>, k: int): (r: Option<NodeId>)
    requires root in nodes && (parent.Some? ==> parent.value in nodes)
    ensures r.Some? ==> r.value in nodes[if parent.Some? then parent.value else root].children
  {
    NthChild(nodes, if parent.Some? then parent.value else root, k)
  }

  /** One step of `get_iter`: the `k`-th child of `p`, when it is a node. */
  function Step(nodes: Nodes, p: NodeId, k: int): (r: Option<NodeId>)
    requires p in nodes
    ensures r.Some? ==> r.value in nodes && r.value in nodes[p].children
  {
    match NthChild(nodes, p, k)
    case None => None
    case Some(c) => if c in nodes then Some(c) else None
  }

  /** The node a path of child indices leads to from `from`. */
  function Follow(nodes: Nodes, from: NodeId, path: seq<int>): (r: Option<NodeId>)
    requires from in nodes
    ensures r.Some? ==> r.value in nodes
    decreases |path|
  {
    if path == [] then Some(from)
    else match Step(nodes, from, path[0])
      case None => None
      case Some(c) => Follow(nodes, c, path[1..])
  }

  /** `get_path`: the indices of `n` and its ancestors among their siblings,
      from the top down; the root has the empty path. */
  ghost function PathOf(nodes: Nodes, depth: map<NodeId, nat>, root: NodeId, n: NodeId): seq<int>
    requires WellFormed(nodes, depth, root) && n in nodes
    decreases if n in depth then depth[n] else 0
  {
    if n == root then []
    else
      assert ParentLink(nodes, depth, n);
      var p := nodes[n].parent.value;
      PathOf(nodes, depth, root, p) + [IndexOf(nodes[p].children, n)]
  }

  /** Following a longer path takes one more step at the end. */
  lemma {:induction false} FollowAppend(nodes: Nodes, from: NodeId, a: seq<int>, k: int)
    requires from in nodes
    ensures Follow(nodes, from, a + [k]) ==
              match Follow(nodes, from, a) case None => None case Some(q) => Step(nodes, q, k)
    decreases |a|
  {
    if a == [] {
      assert a + [k] == [k] && [k][1..] == [];
    } else {
      assert (a + [k])[0] == a[0] && (a + [k])[1..] == a[1..] + [k];
      match Step(nodes, from, a[0])
      case None =>
      case Some(c) => FollowAppend(nodes, c, a[1..], k);
    }
  }

  /** No node has more children than a `gint` index can address. */
  ghost predicate GintIndexable(nodes: Nodes)
  {
    forall m | m in nodes :: |nodes[m].children| <= 0x8000_0000
  }

  /** Following the path of a node from the root leads back to that node. */
  lemma {:induction false} FollowPathOf(nodes: Nodes, depth: map<NodeId, nat>, root: NodeId, n: NodeId)
    requires WellFormed(nodes, depth, root) && n in nodes && GintIndexable(nodes)
    ensures Follow(nodes, root, PathOf(nodes, depth, root, n)) == Some(n)
    ensures |PathOf(nodes, depth, root, n)| == 0 <==> n == root
    ensures forall i | 0 <= i < |PathOf(nodes, depth, root, n)| :: PathOf(nodes, depth, root, n)[i] >= 0
    decreases if n in depth then depth[n] else 0
  {
    if n != root {
      assert ParentLink(nodes, depth, n);
      var p := nodes[n].parent.value;
      FollowPathOf(nodes, depth, root, p);
      var k := IndexOf(nodes[p].children, n);
      FollowAppend(nodes, root, PathOf(nodes, depth, root, p), k);
      assert ChildrenLinked(nodes, p);
      assert k < |nodes[p].children| <= 0x8000_0000;
    }
  }

  /** `thunar_tree_view_model_get_iter`: the empty path is refused; any
      other path is followed from the root one index at a time. */
  function GetIter(nodes: Nodes, root: NodeId, path: seq<int>): (r: Option<NodeId>)
    requires root in nodes
    ensures r.Some? ==> r.value in nodes
    ensures path == [] ==> r.None?
  {
    if path == [] then None else Follow(nodes, root, path)
  }

  /** `get_iter` inverts `get_path` on every node but the invisible root. */
  lemma GetIterOfPath(nodes: Nodes, depth: map<NodeId, nat>, root: NodeId, n: NodeId)
    requires WellFormed(nodes, depth, root) && n in nodes && n != root && GintIndexable(nodes)
    ensures GetIter(nodes, root, PathOf(nodes, depth, root, n)) == Some(n)
  {
    FollowPathOf(nodes, depth, root, n);
  }

  // ---------------------------------------------------------------------
  // The subtree `g_node_traverse` walks

  /** Adds the children of `m` that are not yet in `S` to `S` and to the
      end of the work list. */
  method PushUnseenChildren(nodes: Nodes, m: NodeId, S: set<NodeId>, work: seq<NodeId>) returns (S': set<NodeId>, work': seq<NodeId>)
    requires m in nodes && ChildrenLinked(nodes, m) && S <= nodes.Keys
    ensures S <= S' <= nodes.Keys
    ensures forall c | c in nodes[m].children :: c in S'
    ensures forall c | c in S' && c !in S :: c in work' && nodes[c].parent == Some(m)
    ensures forall w | w in work' :: w in work || w in S'
    ensures S' == S ==> work' == work
    ensures forall w | w in work :: w in work'
  {
    var ch := nodes[m].children;
    S', work' := S, work;
    var i := 0;
    while i < |ch|
      invariant 0 <= i <= |ch|
      invariant S <= S' <= nodes.Keys
      invariant forall k | 0 <= k < i :: ch[k] in S'
      invariant forall c | c in S' && c !in S :: c in work' && nodes[c].parent == Some(m)
      invariant forall w | w in work' :: w in work || w in S'
      invariant S' == S ==> work' == work
      invariant forall w | w in work :: w in work'
    {
      var c := ch[i];
      if c !in S' {
        S' := S' + {c};
        work' := work' + [c];
      }
      i := i + 1;
    }
  }

  /** The nodes `g_node_traverse` visits from `x`: `x` and everything below it. */
  method CollectSubtree(nodes: Nodes, ghost depth: map<NodeId, nat>, ghost root: NodeId, x: NodeId) returns (S: set<NodeId>)
    requires WellFormed(nodes, depth, root) && x in nodes
    ensures SubtreeSet(nodes, x, S)
  {
    S := {x};
    var work := [x];
    while work != []
      invariant S <= nodes.Keys && x in S
      invariant forall w | w in work :: w in S
      invariant forall m | m in S && m != x :: nodes[m].parent.Some? && nodes[m].parent.value in S
      invariant forall m | m in S && m !in work :: forall c | c in nodes[m].children :: c in S
      decreases nodes.Keys - S, |work|
    {
      var m := work[0];
      assert ChildrenLinked(nodes, m);
      ghost var S0 := S;
      ghost var rest := work[1..];
      S, work := PushUnseenChildren(nodes, m, S, work[1..]);
      assert S != S0 ==> nodes.Keys - S < nodes.Keys - S0;
    }
  }
}
