# Thunar's tree view model and undo log, in Dafny

This project models two pieces of the Thunar file manager and proves
properties about them.

**The tree view model** (`thunar/thunar-tree-view-model.c`). The model keeps
a GNode tree of folder items, and the side tree shows it. The model here
holds it as an arena: a map from node ids to nodes. Each node has a parent,
an ordered sequence of children and an optional item. An item carries its
file, its reference count, whether its folder is open, whether a load is
pending, and its invisible children. A ghost depth labelling proves that the
parent links have no cycle. The class `TreeViewModel.Model` carries the
model's own fields: the root, the sort settings, the show-hidden flag, the
hidden-file list and the loading counter. It also keeps an event log that
stands for the reorder and loading-changed signals and for the folder loads
the model schedules. The operations are:

- the re-sort of a node's children, with the reorder permutation it
  announces;
- the move of one child whose sort key changed (unlink, sorted relink and
  the `new_order` array);
- the dummy placeholder child of an unloaded folder;
- adding children;
- the idle cleanup that collapses unreferenced open folders;
- the per-item reference count and the model's loading counter;
- the hidden-file list kept by `insert_files` and `files_removed`;
- switching hidden files on;
- the sort-column mapping;
- `get_path` and `iter_nth_child`;
- the search-term match and the file comparator.

Files are opaque ids. `FileCompare.FileOracle` supplies
`thunar_file_is_directory`, `thunar_file_is_hidden` and the per-column
`thunar_cmp_files_by_*` comparators as parameters.

**The undo log** (`thunar/thunar-job-operation.c`). A job operation records a
kind and two lists: source files and target files. The module-level
`job_operation_list` holds at most one committed operation. Undo inverts a
copy into a delete of its targets, hands it to `execute` and empties the log.
`thunar_g_file_is_descendant` is a parameter. `execute` is recorded as an
effect without being modelled.

## Model

| member | source | states |
|---|---|---|
| Search.SearchTermsMatch | thunar/thunar-tree-view-model.c:2229-2236 | The loop answers true exactly when every term occurs as a substring of the name, so an empty term list matches every name. |
| Search.OccursIff | thunar/thunar-tree-view-model.c:2233 | The substring test `g_strrstr` used by the match holds exactly when the term occurs at some offset of the name. |
| Search.TermOrderIrrelevant | thunar/thunar-tree-view-model.c:2229-2236 | Whether a name matches depends only on the multiset of terms, not on their order. |
| Search.FirstCharMissing | thunar/thunar-tree-view-model.c:2233 | A term whose first character is absent from the name does not occur in it. |
| Search.FooBarMatches | thunar/thunar-tree-view-model.c:2229-2236 | The terms "foo" and "bar" both match "foobar.txt". |
| Search.FooAloneDoesNotMatch | thunar/thunar-tree-view-model.c:2229-2236 | The terms "foo" and "bar" together do not match "foo.txt", which lacks "bar". |
| Search.BarAloneDoesNotMatch | thunar/thunar-tree-view-model.c:2229-2236 | The terms "foo" and "bar" together do not match "bar.txt", which lacks "foo". |
| FileCompare.CmpFiles | thunar/thunar-tree-view-model.c:1658-1677 | With folders first, when exactly one of the two files is a folder, the folder compares first. |
| FileCompare.CmpFilesSign | thunar/thunar-tree-view-model.c:1658-1677 | Outside the folders-first case, the result is the column comparator's value, negated for a descending sort. |
| FileCompare.FoldersFirstIgnoresSign | thunar/thunar-tree-view-model.c:1665-1674 | A folder compares before a non-folder in both sort directions. |
| FileCompare.CmpFilesAntisymmetric | thunar/thunar-tree-view-model.c:1658-1691 | If the column comparators are antisymmetric, so is the node comparator: a < b exactly when b > a. |
| FileCompare.SignFor | thunar/thunar-tree-view-model.c:1543-1622 | The sort sign is 1 or -1, and it is positive exactly for an ascending order. |
| FileCompare.SortFuncFor | thunar/thunar-tree-view-model.c:1551-1614 | The name comparator is installed exactly for the name and file-name columns. A size comparator is installed exactly for the size column, and it counts folder items exactly when the item count is not switched off. |
| FileCompare.ColumnFor | thunar/thunar-tree-view-model.c:1490-1538 | The file-name column is never reported, and the size column is reported exactly for the two size comparators. |
| FileCompare.OrderFor | thunar/thunar-tree-view-model.c:1531-1534 | Ascending is reported exactly when the sign is positive. |
| FileCompare.ColumnForRoundTrip | thunar/thunar-tree-view-model.c:1490-1622 | Setting the reported column again installs the same comparator, under an item count setting that selects it. |
| FileCompare.SortColumnRoundTrip | thunar/thunar-tree-view-model.c:1490-1622 | Reading back the column after setting it gives the same column, except that the file-name column reads back as the name column. The order also reads back unchanged. |
| FileCompare.SizeColumnIgnoresItemCount | thunar/thunar-tree-view-model.c:1503-1599 | The size column reads back as size whatever the folder item-count setting. The comparator differs only between "never count" and the other settings. |
| TreeViewModel.Model.SetSortColumnId | thunar/thunar-tree-view-model.c:1543-1622 | Sets the sign and the comparator for the column. Afterwards every node's children are in order under the new comparator and the tree is unchanged up to sibling order. |
| TreeViewModel.Model.GetSortColumnId | thunar/thunar-tree-view-model.c:1490-1538 | Returns the column that the current comparator belongs to, and ascending exactly when the sign is positive. |
| Siblings.StableSortPermutes | thunar/thunar-tree-view-model.c:1744 | The insertion sort that stands in for `g_qsort_with_data` keeps the multiset of elements. |
| Siblings.StableSortSorted | thunar/thunar-tree-view-model.c:1744 | For an antisymmetric comparator, the sorted sequence is in comparator order. |
| SortTuples.SortChildren | thunar/thunar-tree-view-model.c:1709-1776 | The children are tagged with their offsets, sorted and relinked. The result has the same children in comparator order. `new_order` is a permutation of 0..n-1, and `new_order[i]` is the old offset of the child now at position i. |
| TreeViewModel.SortNode | thunar/thunar-tree-view-model.c:1709-1776 | The sort of one node, linked back into the arena, is a re-sort of that node's children. |
| TreeViewModel.ResortedKeeps | thunar/thunar-tree-view-model.c:1709-1776 | A re-sort keeps the arena well formed and the tree the same up to sibling order. The children's files are unchanged as a multiset. |
| TreeViewModel.SortInArena | thunar/thunar-tree-view-model.c:1709-1776 | `sort` on the arena: a node with at most one child is left alone; otherwise its children are re-sorted and one reorder event carries the node's path and `new_order`. |
| TreeViewModel.Model.Sort | thunar/thunar-tree-view-model.c:1709-1776 | A node with at most one child is left alone and nothing is emitted. Otherwise the children are re-sorted, and one reorder event carries the node's path and `new_order`. |
| TreeViewModel.SortStep | thunar/thunar-tree-view-model.c:3341-3349 | Re-sorting one more node keeps the nodes done so far sorted and the tree the same up to sibling order. |
| TreeViewModel.SortOneInArena | thunar/thunar-tree-view-model.c:3341-3349 | One visit of the sort traversal sorts a node still to be visited and keeps the traversal's invariant. |
| TreeViewModel.SortAllInArena | thunar/thunar-tree-view-model.c:3341-3349 | After the traversal every node's children are in comparator order, the tree is the same up to sibling order, and only reorder events went out. |
| TreeViewModel.Model.SortAll | thunar/thunar-tree-view-model.c:3341-3349 | After the sort traversal, every node's children are in comparator order, the tree is the same up to sibling order, and only reorder events were added. |
| Siblings.UnlinkChild | thunar/thunar-tree-view-model.c:4146-4174 | Returns the child's former index, which is its first occurrence, and the other siblings in the same order. |
| Siblings.ChildPosition | thunar/thunar-tree-view-model.c:4153 | `g_node_child_position` finds the child's first index. |
| Siblings.UnlinkRelink | thunar/thunar-tree-view-model.c:4146-4174 | Relinking the unlinked child at its former index restores the sibling list. |
| Siblings.InsertPosAsWritten | thunar/thunar-tree-view-model.c:4179-4227 | The position as the loop computes it: the child is greater than every sibling before it except possibly the last, and it stops at a sibling other than the last only when it does not compare greater. |
| Siblings.InsertChildNodeSorted | thunar/thunar-tree-view-model.c:4179-4227 | As written: the child goes before the first sibling, other than the last, that it does not compare greater than; otherwise it goes at the end. The last sibling is never compared. |
| Siblings.AsWrittenMisplacesBeforeLast | thunar/thunar-tree-view-model.c:4197-4205 | Inserting 2 into the siblings [1, 3] gives [1, 3, 2], which is out of order. |
| Siblings.InsertChildNodeSortedFixed | thunar/thunar-tree-view-model.c:4179-4227 | Corrected insertion: the child goes before the first sibling it does not compare greater than, the last one included, and at the end only if it is greater than all of them. |
| Siblings.InsertPosKeepsOrder | thunar/thunar-tree-view-model.c:4179-4227 | The corrected insertion into ordered siblings leaves them ordered. |
| Siblings.ComputeNewOrder | thunar/thunar-tree-view-model.c:4265-4277 | The loop fills `new_order` as `MoveOrder`: the moved child's old index at its new position, and the other old indices in increasing order. |
| Siblings.MoveOrder | thunar/thunar-tree-view-model.c:4265-4277 | `new_order` has one entry per child, each a valid old offset, and the moved child's old offset sits at its new position. |
| Siblings.MoveOrderIsPermutation | thunar/thunar-tree-view-model.c:4265-4277 | `new_order` is a permutation of 0..length-1 with `new_order[pos_after] == pos_before`. The other entries skip `pos_before` and increase. |
| Siblings.MoveOrderTracksChildren | thunar/thunar-tree-view-model.c:4232-4300 | After the move, position i holds the child that was at `new_order[i]`. |
| TreeViewModel.RepositionInArena | thunar/thunar-tree-view-model.c:4232-4260 | A parent with fewer than two children is left alone; otherwise the child is unlinked and relinked at its sorted position, keeping the arena valid. |
| TreeViewModel.RepositionNode | thunar/thunar-tree-view-model.c:4232-4260 | Unlinks the child and relinks it at its sorted position, using the corrected insertion. |
| TreeViewModel.RepositionedKeeps | thunar/thunar-tree-view-model.c:4232-4300 | The move keeps the arena well formed and the tree the same up to sibling order. `MoveOrder` describes the new sibling list. |
| TreeViewModel.Model.ReorderIfReq | thunar/thunar-tree-view-model.c:4232-4300 | A parent with fewer than two children is left alone. Otherwise the child is repositioned with the corrected insertion. A reorder event with `MoveOrder` is emitted only when the position changed and a handler is connected; it names the parent by its true path, which is empty for the root. |
| TreeViewModel.ReorderPathAsWrittenNamesFirstRow | thunar/thunar-tree-view-model.c:4279-4284 | As written, a reorder among top-level rows names the path [0]. That path leads to the first row, not to the root whose children moved. |
| TreeViewModel.ReorderInArena | thunar/thunar-tree-view-model.c:4232-4300 | `reorder_if_req` on the arena, with the contract of `ReorderIfReq`. The reorder event names the parent by its true path, which is empty for the root. |
| TreeNodes.NthChild | thunar/thunar-tree-view-model.c:1354-1373 | The k-th child for 0 <= k < number of children. A negative index wraps to a large unsigned one and finds nothing. |
| TreeNodes.IterNthChild | thunar/thunar-tree-view-model.c:1354-1373 | The k-th child of the given parent, or of the root when no parent is given. |
| TreeViewModel.PathIn | thunar/thunar-tree-view-model.c:908-967 | The recursion up the parent links computes the node's path: the parent's path followed by the node's index among its siblings, and the empty path for the root. |
| TreeViewModel.Model.GetPath | thunar/thunar-tree-view-model.c:908-967 | Returns the indices of the node and its ancestors among their siblings, from the top down. |
| TreeNodes.FollowPathOf | thunar/thunar-tree-view-model.c:871-967 | Following a node's path from the root leads back to the node. The path is empty only for the root, and every index is non-negative. |
| TreeNodes.GetIter | thunar/thunar-tree-view-model.c:871-903 | The empty path is refused, and any node found is in the tree. |
| TreeNodes.GetIterOfPath | thunar/thunar-tree-view-model.c:871-967 | `get_iter` inverts `get_path` on every node except the invisible root. |
| TreeViewModel.Model.NodeInsertDummy | thunar/thunar-tree-view-model.c:3161-3181 | A childless node with an item gets exactly one child, a fresh node without an item. |
| TreeViewModel.Model.NodeDropDummy | thunar/thunar-tree-view-model.c:3186-3220 | The node's only child, the dummy, is destroyed and the node is left childless. |
| TreeNodes.DropUndoesInsertDummy | thunar/thunar-tree-view-model.c:3161-3220 | Dropping a dummy just inserted gives back the arena as it was. |
| TreeViewModel.AddChildInArena | thunar/thunar-tree-view-model.c:4006-4067 | Adds a child for the file. If the parent holds only a dummy, the dummy's slot is filled instead of adding a sibling. A folder child gets its own dummy. |
| TreeViewModel.Model.AddChild | thunar/thunar-tree-view-model.c:4006-4067 | `add_child` on the model, with the same contract, keeping the model valid. |
| TreeViewModel.AddEachInArena | thunar/thunar-tree-view-model.c:4082-4095 | The parent's child files grow by exactly the files added. Every old node other than the parent and its dummy is unchanged, and every old child other than the dummy is still a child. Every new child, including a filled dummy slot, holds a fresh item for its file, with a dummy exactly when the file is a folder. |
| TreeViewModel.AddStepKeeps | thunar/thunar-tree-view-model.c:4006-4095 | One more `add_child` extends that growth by one file and leaves the parent without a dummy. |
| TreeViewModel.GrownReordered | thunar/thunar-tree-view-model.c:4094 | Re-sorting the parent's children keeps everything the additions promised. |
| TreeViewModel.AddChildrenInArena | thunar/thunar-tree-view-model.c:4082-4095 | `add_children` on the arena: the growth stated for `AddEachInArena`, with the parent's children then in comparator order. |
| TreeViewModel.Model.AddChildren | thunar/thunar-tree-view-model.c:4082-4095 | The parent's child files grow by exactly the files added. Every other old node except the parent's dummy is unchanged, and every former child stays. Each new row holds a fresh item, with a dummy exactly when its file is a folder. The children end up in comparator order. |
| TreeNodes.CollectSubtree | thunar/thunar-tree-view-model.c:1961 | The nodes the removal traversal visits are exactly the node's subtree: the node, the children of every member, and only nodes hanging below the node. |
| TreeViewModel.RemoveAllChildren | thunar/thunar-tree-view-model.c:3301-3336 | Releasing every subtree below a node leaves it childless and every other surviving node unchanged. |
| TreeViewModel.CollapseInArena | thunar/thunar-tree-view-model.c:3225-3253 | A node whose item has an open folder and no references loses its folder and all its children, and gets a fresh dummy. Any other node is left alone. |
| TreeViewModel.Model.NodeTraverseCleanup | thunar/thunar-tree-view-model.c:3225-3253 | `node_traverse_cleanup` on one node, with the contract above. Afterwards the node cannot be collapsed. |
| TreeViewModel.Model.CleanupIdle | thunar/thunar-tree-view-model.c:1781-1794 | After the cleanup traversal, no node can be collapsed. Every surviving node either was collapsed or is unchanged, and every new node is a dummy. |
| Counters.RefItem | thunar/thunar-tree-view-model.c:1406-1437 | The count goes up by one. A load is scheduled only when the count was zero and the folder is not open. |
| Counters.UnrefItem | thunar/thunar-tree-view-model.c:1442-1465 | The count goes down by one, and nothing else about the item changes. |
| Counters.LoadFolder | thunar/thunar-tree-view-model.c:2926-2936 | A load becomes pending unless one already is or the folder is open. |
| Counters.UnrefUndoesRef | thunar/thunar-tree-view-model.c:1406-1465 | Taking and then dropping a reference gives back the item, except for a load the first reference scheduled. |
| Counters.RefUndoesUnref | thunar/thunar-tree-view-model.c:1406-1465 | Dropping and then retaking a reference gives back the item, except that retaking from zero asks for the folder. |
| TreeViewModel.Model.RefNode | thunar/thunar-tree-view-model.c:1406-1437 | The root is ignored. A real item is referenced, with a load event on its first reference. A dummy asks its parent's folder to load. |
| TreeViewModel.Model.UnrefNode | thunar/thunar-tree-view-model.c:1442-1465 | The root and dummies are ignored. A real item's count goes down, and no node is ever removed. |
| Counters.IncCount | thunar/thunar-tree-view-model.c:2635-2645 | The count goes up by one and is then positive. |
| Counters.DecCount | thunar/thunar-tree-view-model.c:2650-2660 | The count goes down by one, but never below zero. |
| Counters.DecUndoesInc | thunar/thunar-tree-view-model.c:2626-2660 | Decrementing undoes incrementing. Notifications go out exactly on the step from idle to loading and back. |
| Counters.DecAtZero | thunar/thunar-tree-view-model.c:2650-2660 | A surplus decrement leaves the count at zero and notifies again. |
| TreeViewModel.Model.IncLoading | thunar/thunar-tree-view-model.c:2635-2645 | Increments the counter and notifies only when it becomes one. |
| TreeViewModel.Model.DecLoading | thunar/thunar-tree-view-model.c:2650-2660 | Decrements the counter, but not below zero, and notifies whenever it ends at zero. |
| TreeViewModel.Model.GetLoading | thunar/thunar-tree-view-model.c:2626-2630 | True exactly when the counter is positive. |
| HiddenFiles.Filter | thunar/thunar-tree-view-model.c:1927-1931 | Every file kept is one of the input files and passes the test. |
| HiddenFiles.FilterMembers | thunar/thunar-tree-view-model.c:1927-1931 | A file passes the filter exactly when it is one of the files and satisfies the test. |
| HiddenFiles.ShownOrHidden | thunar/thunar-tree-view-model.c:1927-1931 | Every inserted file becomes a row or joins the hidden list. While hidden files are not shown, no file does both. |
| HiddenFiles.ShownAllWhenShowingHidden | thunar/thunar-tree-view-model.c:1930-1931 | While hidden files are shown, every inserted file becomes a row. |
| HiddenFiles.RemoveFirst | thunar/thunar-tree-view-model.c:1968 | A file not on the list leaves it unchanged. Otherwise its first occurrence is taken out and the other entries keep their order. |
| HiddenFiles.RemoveFirstMultiset | thunar/thunar-tree-view-model.c:1968 | `g_slist_remove` takes one copy of the file out of the hidden list, if it has one. |
| HiddenFiles.RemoveFirstUndoesPrepend | thunar/thunar-tree-view-model.c:1927-1968 | Removing a file just prepended gives back the list. |
| HiddenFiles.RemoveEachMultiset | thunar/thunar-tree-view-model.c:1944-1974 | Removing each file in turn takes exactly the multiset of those files out of the list. |
| HiddenFiles.RemovedAfterInserted | thunar/thunar-tree-view-model.c:1909-1974 | Removing the files that were inserted gives back the old hidden list, as a multiset. |
| TreeViewModel.InsertEachInArena | thunar/thunar-tree-view-model.c:1909-1939 | The root's child files grow by exactly the shown files. Every old node other than the root and its dummy is unchanged, and every old top-level row stays. Each new row holds a fresh item, with a dummy exactly for a folder. Every hidden file is prepended to the hidden list, shown or not. |
| TreeViewModel.InsertFilesInArena | thunar/thunar-tree-view-model.c:1909-1939 | `insert_files` on the arena: the growth and hidden list stated for `InsertEachInArena`, with the root's children then in comparator order. |
| TreeViewModel.Model.InsertFiles | thunar/thunar-tree-view-model.c:1909-1939 | The root's child files grow by exactly the files that are not hidden, or by all of them while hidden files are shown. Old rows and every other old node except the root's dummy are unchanged, and each new row holds a fresh item, with a dummy exactly for a folder. The root's children are then sorted, and every hidden file is prepended to the hidden list. |
| TreeViewModel.FindChildWithFile | thunar/thunar-tree-view-model.c:1954-1957 | Finds the first root child that holds the file, or reports that none does. |
| TreeViewModel.RemoveFileInArena | thunar/thunar-tree-view-model.c:1954-1961 | The first root child holding the file, if any, is unlinked and the other rows keep their order. No node is added, no remaining node but the root changes, and the root's child files lose one copy of the file if they had one. |
| TreeViewModel.DropFirstHolderAt | thunar/thunar-tree-view-model.c:1954-1961 | Dropping the file's row removes exactly the child at the first offset holding the file. |
| TreeViewModel.DropFirstHolderNone | thunar/thunar-tree-view-model.c:1954-1957 | When no child holds the file, the children are left as they are. |
| TreeViewModel.RemoveEachInArena | thunar/thunar-tree-view-model.c:1944-1974 | The root's children are what remains after dropping, file by file, the first child holding each removed file, in their old order. No remaining node but the root changes, and the root's child files lose exactly the removed files. Each removed hidden file is unlinked from the hidden list. |
| TreeViewModel.ShrinkTrans | thunar/thunar-tree-view-model.c:1944-1974 | Removing some files and then one more is removing all of them in that order. |
| TreeViewModel.Model.FilesRemoved | thunar/thunar-tree-view-model.c:1944-1974 | The first row holding each removed file goes, in turn, and the other rows keep their order. No remaining node but the root changes, the root's child files lose exactly the removed files, and each removed hidden file leaves the hidden list once. |
| TreeViewModel.ShowHiddenShows | thunar/thunar-tree-view-model.c:2720-2757 | Adding the hidden files under the root and re-sorting grows the root's child files by the hidden list. Every old node other than the root and its dummy keeps its item, its parent and its children up to order. Every former row stays, every new row is a fresh item with a dummy exactly for a folder, and every node is sorted. |
| TreeViewModel.ShowHiddenInArena | thunar/thunar-tree-view-model.c:2720-2757 | Switching hidden files on, on the arena: the rows and frame stated for `ShowHiddenShows`, emitting only reorder events. |
| TreeViewModel.Model.SetShowHidden | thunar/thunar-tree-view-model.c:2720-2757 | Setting the flag to its current value changes nothing. Switching it on adds a fresh row under the root for every hidden file and re-sorts every node, keeping every other old node's item, parent and children up to order and emitting only reorder events. |
| TreeViewModel.Model.constructor | thunar/thunar-tree-view-model.c:589-627 | A new model has only the root, sorts by name ascending with folders first and case sensitivity, hides hidden files, and is not loading. |
| JobOperations.JobOperation.Init | thunar/thunar-job-operation.c:75-80 | A new operation is a copy with empty source and target lists. |
| JobOperations.JobOperation.New | thunar/thunar-job-operation.c:116-124 | A new operation has the requested kind and empty lists. |
| JobOperations.JobOperation.Add | thunar/thunar-job-operation.c:137-158 | If some recorded source is an ancestor of the new source, nothing changes. Otherwise the pair is appended to both lists in step, and the lists stay the same length. |
| JobOperations.UndoLog.constructor | thunar/thunar-job-operation.c:58 | The log starts empty. |
| JobOperations.UndoLog.Commit | thunar/thunar-job-operation.c:170-182 | An operation with empty lists is ignored. Any other operation becomes the log's only entry, replacing the previous one. |
| JobOperations.UndoLog.Execute | thunar/thunar-job-operation.c:258-308 | Records the operation as executed and leaves the log alone. |
| JobOperations.Invert | thunar/thunar-job-operation.c:228-248 | Only a copy can be inverted. Its inverse is a delete whose sources are the copy's targets. |
| JobOperations.InverseDeletesEveryTarget | thunar/thunar-job-operation.c:228-248 | The inverse of a copy deletes every target, in order. |
| JobOperations.NewInvert | thunar/thunar-job-operation.c:228-248 | Builds a fresh operation holding the inverse, exactly when there is one. |
| JobOperations.UndoLog.Undo | thunar/thunar-job-operation.c:194-215 | An empty log is left alone. Otherwise the stored operation's inverse is executed and the log is emptied. |
| JobOperations.UndoTwice | thunar/thunar-job-operation.c:194-215 | After one undo of a copy the log is empty, and a second undo does nothing. |

## Left out

- TreeViewModel.Model.SetShowHidden: the refilter step (`node_traverse_visible`) is not modelled. Switching hidden files off leaves the rows as they are, and the invisible children of other nodes are not re-added when hidden files are switched on.
- TreeViewModel.Model.CleanupIdle: the cleanup traversal is modelled as visiting the nodes in any order. The contract does not say which nodes disappear, namely those below a collapsed node.
- TreeViewModel.Model.SortAll: the post-order of the traversal is modelled as any order; the result does not depend on it.
- TreeViewModel.Model.UnrefNode: a count that goes below zero is allowed, as in the source. The item is never freed here, and nothing else in the model releases it.
- TreeViewModel.Model.NodeInsertDummy: it requires the node to have an item. The root never gets a dummy in the source's own call paths, and the well-formedness invariant relies on that.
- TreeViewModel.Model.AddChildren: no hidden-file filter is applied. The source's `add_children` does not filter, and the model follows the code.
- Row signals: `row_inserted`, `row_deleted`, `row_changed` and `row_has_child_toggled` are not recorded. Only reorders, scheduled loads and loading notifications go into the event log.
- SortTuples.SortChildren: children that compare equal keep their old relative order. `g_qsort_with_data` is documented as a stable sort since GLib 2.32, so the result should match the source on ties as well; the model does not depend on GLib's implementation to state that.
- TreeViewModel.RemoveFileInArena: the contract does not list the nodes of the destroyed subtree. That they are gone follows from the arena staying well formed, since no remaining node may hang below an unlinked one.
- TreeViewModel.Model.ReorderIfReq: it uses the corrected insertion, which compares the child with the last sibling too (the code at thunar/thunar-tree-view-model.c:4197-4205 does not), and for the root its reorder event names the empty path, not `gtk_tree_path_new_first` as at 4279-4284. Both are in the Findings table.
- `has_handler` is only a parameter of `ReorderIfReq`; `sort` always emits its reorder event.
- Folder loading: `item_load_idle`, `item_add_files`, folder monitors and timers are I/O and main-loop sources. A scheduled load is only an event.
- Search: the search job, the file-adding timer, query splitting and Unicode normalisation are I/O, concurrency and GRegex.
- `get_value`, statusbar text and pattern matching are string formatting over preferences.
- The per-column `thunar_cmp_files_by_*` comparators and the `thunar_file_*` accessors are functions outside this model; they are the `FileOracle` parameter.
- JobOperations.UndoLog.Undo: the source asserts that the stored operation can be inverted. The model returns `NotInvertible` there and leaves the log and the executed operations unchanged; the source aborts.
- JobOperations.UndoLog.Execute: the deletion through `thunar_application_unlink_files` is recorded as executed, not performed.
- `GObject` reference counting of operations and files, and the memory they own, are not modelled.

## Findings

| source | as written | input that shows it | evidently intended | confidence | as-written member | corrected member |
|---|---|---|---|---|---|---|
| thunar/thunar-tree-view-model.c:4197-4205 | `insert_child_node_sorted` appends the child as soon as it reaches the last sibling, without comparing the two | siblings [1, 3] and child 2 under numeric order give [1, 3, 2] | the child goes before the last sibling when it is not greater than it, so the siblings stay ordered | not executed | Siblings.AsWrittenMisplacesBeforeLast | Siblings.InsertPosKeepsOrder |
| thunar/thunar-tree-view-model.c:4279-4284 | `reorder_if_req` names the path of the first row (`gtk_tree_path_new_first`) when the parent is the root | a reorder among top-level rows names path [0], which leads to the first row, whose own children did not move | the root's path is the empty path, as `sort` passes it | not executed | TreeViewModel.ReorderPathAsWrittenNamesFirstRow | TreeViewModel.ReorderInArena |
