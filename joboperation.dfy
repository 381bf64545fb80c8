/** The undo log of file operations (`thunar-job-operation.c`).

    A `JobOperation` records pairs of source and target files of one
    operation, such as a copy. The module keeps at most one committed
    operation in its `job_operation_list`. Undoing it builds the inverse
    operation, runs it, and empties the list.

    Files are opaque ids. `thunar_g_file_is_descendant` is a relation that
    callers supply, and running an operation (`thunar_job_operation_execute`,
    which hands the files to the application's unlink code) is recorded as
    an effect without being modelled. */
module JobOperations {
  import opened Seqs

  type GFile = nat

  datatype Kind = Copy | Delete

  /** The contents of an operation at one moment. */
  datatype OpValue = OpValue(kind: Kind, sources: seq<GFile>, targets: seq<GFile>)

  /** `g_list_find_custom (sources, file, is_ancestor)` finds an entry: some
      recorded source is an ancestor of `file`. `isDescendant(d, a)` stands
      for `thunar_g_file_is_descendant (d, a)`. */
  predicate HasAncestorIn(sources: seq<GFile>, file: GFile, isDescendant: (GFile, GFile) -> bool)
  {
    exists i | 0 <= i < |sources| :: isDescendant(file, sources[i])
  }

  /** No recorded source lies below a source recorded before it, so running
      the operation never reaches a file twice through a folder. */
  ghost predicate NoNestedSources(sources: seq<GFile>, isDescendant: (GFile, GFile) -> bool)
  {
    forall i, j | 0 <= i < j < |sources| :: !isDescendant(sources[j], sources[i])
  }

  /** `thunar_job_operation_new_invert`: a copy is undone by deleting the
      copies; no other kind can be inverted (the source asserts). */
  function Invert(op: OpValue): (r: Option<OpValue>)
    ensures r.Some? <==> op.kind == Copy
    ensures r.Some? ==> r.value.kind == Delete && r.value.sources == op.targets && r.value.targets == []
  {
    match op.kind
    case Copy => Some(OpValue(Delete, op.targets, []))
    case Delete => None
  }

  /** A pair sequence built only through `Add` keeps both lists in step, so
      every file the inverse deletes is the target of a recorded pair. */
  lemma InverseDeletesEveryTarget(op: OpValue)
    requires op.kind == Copy && |op.sources| == |op.targets|
    ensures Invert(op).Some?
    ensures |Invert(op).value.sources| == |op.sources|
    ensures forall i | 0 <= i < |op.sources| :: Invert(op).value.sources[i] == op.targets[i]
  {
  }

  class JobOperation {
    var kind: Kind
    var sourceFileList: seq<GFile>
    var targetFileList: seq<GFile>

    function Value(): OpValue
      reads this
    {
      OpValue(kind, sourceFileList, targetFileList)
    }

    /** Source and target lists have the same length. */
    ghost predicate Valid()
      reads this
    {
      |sourceFileList| == |targetFileList|
    }

    /** `g_object_new` with `thunar_job_operation_init`: a copy with no files. */
    constructor Init()
      ensures Valid()
      ensures kind == Copy && sourceFileList == [] && targetFileList == []
    {
      kind := Copy;
      sourceFileList := [];
      targetFileList := [];
    }

    /** `thunar_job_operation_new`: an operation of the requested kind with no files. */
    constructor New(kind: Kind)
      ensures Valid()
      ensures this.kind == kind && sourceFileList == [] && targetFileList == []
    {
      this.kind := kind;
      sourceFileList := [];
      targetFileList := [];
    }

    /** `thunar_job_operation_add`: records a source/target pair unless some
        source already recorded is an ancestor of `source` (the operation
        on that ancestor covers it). */
    method Add(source: GFile, target: GFile, isDescendant: (GFile, GFile) -> bool)
      requires Valid()
      modifies this
      ensures Valid() && kind == old(kind)
      ensures NoNestedSources(old(sourceFileList), isDescendant) ==> NoNestedSources(sourceFileList, isDescendant)
      ensures HasAncestorIn(old(sourceFileList), source, isDescendant) ==>
                sourceFileList == old(sourceFileList) && targetFileList == old(targetFileList)
      ensures !HasAncestorIn(old(sourceFileList), source, isDescendant) ==>
                sourceFileList == old(sourceFileList) + [source] &&
                targetFileList == old(targetFileList) + [target]
    {
      if HasAncestorIn(sourceFileList, source, isDescendant) {
        return;
      }
      sourceFileList := sourceFileList + [source];
      targetFileList := targetFileList + [target];
    }
  }

  /** `thunar_job_operation_new_invert` on an object: a fresh operation
      holding the inverse, or null when the kind has no inverse. */
  method NewInvert(op: JobOperation) returns (inverted: JobOperation?)
    ensures inverted != null <==> Invert(op.Value()).Some?
    ensures inverted != null ==> fresh(inverted) && inverted.Value() == Invert(op.Value()).value
  {
    if op.kind == Copy {
      inverted := new JobOperation.Init();
      inverted.kind := Delete;
      inverted.sourceFileList := op.targetFileList;
    } else {
      inverted := null;
    }
  }

  datatype UndoOutcome =
    | NothingToUndo   // the log was empty
    | Undone          // the inverse ran and the log was emptied
    | NotInvertible   // the committed kind has no inverse: the source asserts here

  /** The module-level state: `job_operation_list`, which holds at most one
      committed operation, and the effects `thunar_job_operation_execute`
      has produced so far. */
  class UndoLog {
    var jobOperationList: seq<JobOperation>
    var executed: seq<OpValue>

    ghost predicate Valid()
      reads this
    {
      |jobOperationList| <= 1
    }

    constructor ()
      ensures Valid() && jobOperationList == [] && executed == []
    {
      jobOperationList := [];
      executed := [];
    }

    /** `thunar_job_operation_commit`: an empty operation is ignored;
        otherwise it replaces whatever was committed before. The list holds
        the operation itself, so later additions to it show up there. */
    method Commit(op: JobOperation)
      requires Valid()
      modifies this
      ensures Valid() && executed == old(executed)
      ensures op.sourceFileList == [] && op.targetFileList == [] ==> jobOperationList == old(jobOperationList)
      ensures !(op.sourceFileList == [] && op.targetFileList == []) ==> jobOperationList == [op]
    {
      if op.sourceFileList == [] && op.targetFileList == [] {
        return;
      }
      jobOperationList := [op];
    }

    /** `thunar_job_operation_execute`: hands the operation's files to the
        application; the effect is recorded, not modelled. */
    method Execute(op: JobOperation)
      modifies this
      ensures jobOperationList == old(jobOperationList)
      ensures executed == old(executed) + [op.Value()]
    {
      executed := executed + [op.Value()];
    }

    /** `thunar_job_operation_undo`: runs the inverse of the committed
        operation once and forgets it, so a second undo does nothing. */
    method Undo() returns (outcome: UndoOutcome)
      requires Valid()
      modifies this
      ensures Valid()
      ensures old(jobOperationList) == [] ==>
                outcome == NothingToUndo && jobOperationList == [] && executed == old(executed)
      ensures old(jobOperationList) != [] && Invert(old(jobOperationList[0].Value())).Some? ==>
                outcome == Undone && jobOperationList == [] &&
                executed == old(executed) + [Invert(old(jobOperationList[0].Value())).value]
      ensures old(jobOperationList) != [] && Invert(old(jobOperationList[0].Value())).None? ==>
                outcome == NotInvertible && jobOperationList == old(jobOperationList) && executed == old(executed)
    {
      if jobOperationList == [] {
        return NothingToUndo;
      }
      var marker := jobOperationList[0];
      var inverted := NewInvert(marker);
      if inverted == null {
        return NotInvertible;
      }
      Execute(inverted);
      jobOperationList := [];
      return Undone;
    }
  }

  /** Committing a copy and undoing twice deletes the copies exactly once. */
  method UndoTwice(log: UndoLog, op: JobOperation) returns (first: UndoOutcome, second: UndoOutcome)
    requires log.Valid() && op.Valid() && op.kind == Copy && op.targetFileList != []
    modifies log
    ensures first == Undone && second == NothingToUndo
    ensures log.jobOperationList == []
    ensures log.executed == old(log.executed) + [OpValue(Delete, op.targetFileList, [])]
  {
    log.Commit(op);
    first := log.Undo();
    second := log.Undo();
  }
}
