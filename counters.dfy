/** The two counters of the tree view model: the view's reference count on
    each item, with the folder load it triggers, and the model's count of
    folders still loading. */
module Counters {
  import opened TreeNodes

  /** `item_load_folder` adds the load idle source: no load is pending and
      the item's folder is not open. */
  predicate SchedulesLoad(it: Item)
  {
    !it.loadPending && !it.folderOpen
  }

  /** `thunar_tree_view_model_item_load_folder`: a load becomes pending
      unless one already is or the folder is open; nothing else changes. */
  function LoadFolder(it: Item): (r: Item)
    ensures r.(loadPending := it.loadPending) == it
    ensures r.loadPending <==> it.loadPending || !it.folderOpen
    ensures r != it <==> SchedulesLoad(it)
  {
    if SchedulesLoad(it) then it.(loadPending := true) else it
  }

  /** The item half of `ref_node`: the first reference asks for the folder,
      then the count goes up by one. */
  function RefItem(it: Item): (r: Item)
    ensures r.refCount == it.refCount + 1
    ensures r.file == it.file && r.folderOpen == it.folderOpen && r.invisibleChildren == it.invisibleChildren
    ensures r.loadPending <==> it.loadPending || (it.refCount == 0 && !it.folderOpen)
  {
    var asked := if it.refCount == 0 then LoadFolder(it) else it;
    asked.(refCount := asked.refCount + 1)
  }

  /** The item half of `unref_node`: the count goes down by one, even below
      zero; nothing is released. */
  function UnrefItem(it: Item): (r: Item)
    ensures r.refCount == it.refCount - 1
    ensures r.(refCount := it.refCount) == it
  {
    it.(refCount := it.refCount - 1)
  }

  /** Dropping a reference undoes taking it, except that a folder load the
      first reference scheduled stays scheduled. */
  lemma UnrefUndoesRef(it: Item)
    ensures UnrefItem(RefItem(it)) == it.(loadPending := RefItem(it).loadPending)
    ensures it.refCount != 0 || !SchedulesLoad(it) ==> UnrefItem(RefItem(it)) == it
  {
  }

  /** Taking back a reference that was dropped restores the item exactly,
      unless the count fell to zero, where taking it asks for the folder. */
  lemma RefUndoesUnref(it: Item)
    ensures it.refCount != 1 ==> RefItem(UnrefItem(it)) == it
    ensures it.refCount == 1 ==> RefItem(UnrefItem(it)) == LoadFolder(it)
  {
  }

  // -----------------------------------------------------------------------
  // The loading counter

  /** `thunar_tree_view_model_inc_loading` on a count that is not negative. */
  function IncCount(loading: int): (r: int)
    requires loading >= 0
    ensures r > 0 && r - 1 == loading
  {
    loading + 1
  }

  /** `inc_loading` notifies only on the step up from zero. */
  predicate IncNotifies(loading: int)
  {
    loading + 1 == 1
  }

  /** `thunar_tree_view_model_dec_loading`: counts down, but not below zero. */
  function DecCount(loading: int): (r: int)
    ensures loading > 0 ==> r == loading - 1
    ensures loading <= 0 ==> r == loading
    ensures loading >= 0 ==> r >= 0
  {
    if loading > 0 then loading - 1 else loading
  }

  /** `dec_loading` notifies whenever the count ends at zero, also when it
      already was zero. */
  predicate DecNotifies(loading: int)
  {
    DecCount(loading) == 0
  }

  /** `thunar_tree_view_model_get_loading`. */
  predicate Loading(loading: int)
  {
    loading > 0
  }

  /** Each finished load undoes one started load; a notification goes out
      exactly when the model starts and when it stops loading. */
  lemma DecUndoesInc(loading: int)
    requires loading >= 0
    ensures DecCount(IncCount(loading)) == loading
    ensures IncNotifies(loading) <==> !Loading(loading)
    ensures DecNotifies(IncCount(loading)) <==> !Loading(loading)
    ensures Loading(IncCount(loading))
  {
  }

  /** A surplus `dec_loading` leaves the count at zero and notifies again. */
  lemma DecAtZero()
    ensures DecCount(0) == 0 && DecNotifies(0) && !Loading(DecCount(0))
  {
  }
}
