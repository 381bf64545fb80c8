/** How the tree model orders files: the sort functions a column selects,
    the column reported back for the active sort function, and
    `thunar_tree_view_model_cmp_files`, which applies "folders first" and the
    ascending/descending sign around the active sort function.

    Files are opaque ids. The accessors the model consults
    (`thunar_file_is_directory`, `thunar_file_is_hidden`) and the per-column
    comparators (`thunar_cmp_files_by_*`, `thunar_file_compare_by_name`) are
    not part of this model; they are gathered in a `FileOracle` value. */
module FileCompare {

  type FileId = nat

  /** The comparators the model can install as its `sort_func`. */
  datatype SortFunc =
    | ByName | BySize | BySizeAndItemsCount | BySizeInBytes | ByType
    | ByOwner | ByGroup | ByPermissions | ByMimeType
    | ByDateCreated | ByDateAccessed | ByDateModified | ByDateDeleted
    | ByRecency | ByLocation

  /** The sortable columns of the view (FILE_NAME sorts like NAME). */
  datatype Column =
    | DateCreated | DateAccessed | DateModified | DateDeleted | Recency
    | Location | Group | MimeType | FileName | Name | Owner | Permissions
    | Size | SizeInBytes | Type

  /** When folder sizes are shown as item counts. */
  datatype FolderItemCount = Never | OnlyLocal | Always

  datatype SortOrder = Ascending | Descending

  /** What the model knows about files without owning them. */
  datatype FileOracle = FileOracle(
    isDirectory: FileId -> bool,
    isHidden: FileId -> bool,
    compareBy: (SortFunc, FileId, FileId, bool) -> int)

  /** The model's sort state: `sort_case_sensitive`, `sort_folders_first`,
      `sort_sign` (1 ascending, -1 descending) and `sort_func`. */
  datatype SortSettings = SortSettings(caseSensitive: bool, foldersFirst: bool, sign: int, func: SortFunc)

  /** Every per-column comparator flips sign when its arguments are swapped. */
  ghost predicate OracleAntisymmetric(fo: FileOracle)
  {
    forall f, a, b, cs :: fo.compareBy(f, a, b, cs) < 0 <==> fo.compareBy(f, b, a, cs) > 0
  }

  /** The sort function `set_sort_column_id` installs for a column; the size
      column counts folder items unless the item count is switched off. */
  function SortFuncFor(column: Column, itemCount: FolderItemCount): (r: SortFunc)
    ensures r == ByName <==> column == Name || column == FileName
    ensures r == BySize || r == BySizeAndItemsCount <==> column == Size
    ensures r == BySizeAndItemsCount <==> column == Size && itemCount != Never
  {
    match column
    case DateCreated => ByDateCreated
    case DateAccessed => ByDateAccessed
    case DateModified => ByDateModified
    case DateDeleted => ByDateDeleted
    case Recency => ByRecency
    case Location => ByLocation
    case Group => ByGroup
    case MimeType => ByMimeType
    case FileName => ByName
    case Name => ByName
    case Owner => ByOwner
    case Permissions => ByPermissions
    case Size => if itemCount != Never then BySizeAndItemsCount else BySize
    case SizeInBytes => BySizeInBytes
    case Type => ByType
  }

  /** The column `get_sort_column_id` reports for the active sort function. */
  function ColumnFor(func: SortFunc): (c: Column)
    ensures c != FileName
    ensures c == Size <==> func == BySize || func == BySizeAndItemsCount
  {
    match func
    case ByMimeType => MimeType
    case ByName => Name
    case ByPermissions => Permissions
    case BySize => Size
    case BySizeAndItemsCount => Size
    case BySizeInBytes => SizeInBytes
    case ByDateCreated => DateCreated
    case ByDateAccessed => DateAccessed
    case ByDateModified => DateModified
    case ByDateDeleted => DateDeleted
    case ByRecency => Recency
    case ByLocation => Location
    case ByType => Type
    case ByOwner => Owner
    case ByGroup => Group
  }

  /** `sort_sign` for a requested order. */
  function SignFor(order: SortOrder): (sign: int)
    ensures sign == 1 || sign == -1
    ensures sign > 0 <==> order == Ascending
  {
    if order == Ascending then 1 else -1
  }

  /** The order `get_sort_column_id` reports for a sign. */
  function OrderFor(sign: int): (order: SortOrder)
    ensures order == Ascending <==> sign > 0
  {
    if sign > 0 then Ascending else Descending
  }

  /** Setting a column and reading it back gives the same column (FILE_NAME
      reads back as NAME, the column it shares a comparator with) and the
      same order, whatever the folder item count setting. */
  lemma SortColumnRoundTrip(column: Column, order: SortOrder, itemCount: FolderItemCount)
    ensures ColumnFor(SortFuncFor(column, itemCount)) == if column == FileName then Name else column
    ensures OrderFor(SignFor(order)) == order
  {
  }

  /** Reading a comparator's column and setting that column again installs
      the same comparator, given an item count setting that picks it. */
  lemma ColumnForRoundTrip(func: SortFunc)
    ensures SortFuncFor(ColumnFor(func), if func == BySizeAndItemsCount then Always else Never) == func
  {
  }

  /** The folder item count setting changes the size comparator but not the
      column it belongs to. */
  lemma SizeColumnIgnoresItemCount(c1: FolderItemCount, c2: FolderItemCount)
    ensures ColumnFor(SortFuncFor(Size, c1)) == ColumnFor(SortFuncFor(Size, c2)) == Size
    ensures (SortFuncFor(Size, c1) == SortFuncFor(Size, c2)) <==> ((c1 == Never) == (c2 == Never))
  {
  }

  /** `thunar_tree_view_model_cmp_files`: negative when `a` sorts before `b`.
      With folders first on and exactly one of them a directory, the
      directory sorts first whatever the sign. */
  function CmpFiles(fo: FileOracle, s: SortSettings, a: FileId, b: FileId): (r: int)
    ensures s.foldersFirst && fo.isDirectory(a) != fo.isDirectory(b) ==> (r < 0 <==> fo.isDirectory(a))
  {
    if s.foldersFirst && fo.isDirectory(a) != fo.isDirectory(b) then
      (if fo.isDirectory(a) then -1 else 1)
    else
      fo.compareBy(s.func, a, b, s.caseSensitive) * s.sign
  }

  /** Between two directories or two non-directories (or with folders first
      off), ascending and descending give opposite results and ascending is
      the sort function itself. */
  lemma CmpFilesSign(fo: FileOracle, s: SortSettings, a: FileId, b: FileId)
    requires !s.foldersFirst || fo.isDirectory(a) == fo.isDirectory(b)
    ensures CmpFiles(fo, s.(sign := 1), a, b) == fo.compareBy(s.func, a, b, s.caseSensitive)
    ensures CmpFiles(fo, s.(sign := -1), a, b) == -CmpFiles(fo, s.(sign := 1), a, b)
  {
  }

  /** Flipping the order never moves a directory behind a file when folders
      come first. */
  lemma FoldersFirstIgnoresSign(fo: FileOracle, s: SortSettings, a: FileId, b: FileId)
    requires s.foldersFirst && fo.isDirectory(a) && !fo.isDirectory(b)
    ensures CmpFiles(fo, s.(sign := 1), a, b) < 0 && CmpFiles(fo, s.(sign := -1), a, b) < 0
    ensures CmpFiles(fo, s.(sign := 1), b, a) > 0 && CmpFiles(fo, s.(sign := -1), b, a) > 0
  {
  }

  /** With an antisymmetric oracle and a sign of +1 or -1, `cmp_files` is
      antisymmetric too, which is what the sorting code relies on. */
  lemma CmpFilesAntisymmetric(fo: FileOracle, s: SortSettings, a: FileId, b: FileId)
    requires OracleAntisymmetric(fo) && (s.sign == 1 || s.sign == -1)
    ensures CmpFiles(fo, s, a, b) < 0 <==> CmpFiles(fo, s, b, a) > 0
  {
    if !(s.foldersFirst && fo.isDirectory(a) != fo.isDirectory(b)) {
      var x, y := fo.compareBy(s.func, a, b, s.caseSensitive), fo.compareBy(s.func, b, a, s.caseSensitive);
      assert x < 0 <==> y > 0;
      if s.sign == -1 {
        assert x * s.sign == -x && y * s.sign == -y;
      }
    }
  }
}
