/** The side list of hidden files (`store->hidden`).

    `insert_files` prepends every hidden file it is handed to the list,
    whether or not it shows it; `files_removed` unlinks the first
    occurrence of each removed hidden file again. */
module HiddenFiles {
  import opened Seqs
  import opened FileCompare

  /** The files of `files` that pass `keep`, in their order. */
  function Filter(keep: FileId -> bool, files: seq<FileId>): (r: seq<FileId>)
    ensures forall k | 0 <= k < |r| :: r[k] in files && keep(r[k])
  {
    if files == [] then []
    else
      var last := files[|files| - 1];
      Filter(keep, files[..|files| - 1]) + if keep(last) then [last] else []
  }

  /** A file is kept exactly when it is one of `files` and passes `keep`. */
  lemma {:induction false} FilterMembers(keep: FileId -> bool, files: seq<FileId>, f: FileId)
    ensures f in Filter(keep, files) <==> f in files && keep(f)
    decreases |files|
  {
    if files != [] {
      var init := files[..|files| - 1];
      FilterMembers(keep, init, f);
      assert files == init + [files[|files| - 1]];
    }
  }

  /** The files `thunar_file_is_hidden` reports. */
  function HiddenOf(fo: FileOracle, files: seq<FileId>): seq<FileId>
  {
    Filter(fo.isHidden, files)
  }

  /** The files `insert_files` adds as rows: those that are not hidden, and
      all of them while hidden files are shown. */
  function ShownOf(fo: FileOracle, showHidden: bool, files: seq<FileId>): seq<FileId>
  {
    Filter((f: FileId) => showHidden || !fo.isHidden(f), files)
  }

  /** Filtering one more file appends it if it passes. */
  lemma FilterSnoc(keep: FileId -> bool, files: seq<FileId>, f: FileId)
    ensures Filter(keep, files + [f]) == Filter(keep, files) + if keep(f) then [f] else []
  {
    assert (files + [f])[..|files|] == files;
  }

  /** One more file joins the rows exactly when it is shown. */
  lemma ShownOfSnoc(fo: FileOracle, showHidden: bool, files: seq<FileId>, f: FileId)
    ensures ShownOf(fo, showHidden, files + [f]) ==
            ShownOf(fo, showHidden, files) + if showHidden || !fo.isHidden(f) then [f] else []
  {
    assert (files + [f])[..|files|] == files;
  }

  /** One more file joins the hidden ones exactly when it is hidden. */
  lemma HiddenOfSnoc(fo: FileOracle, files: seq<FileId>, f: FileId)
    ensures HiddenOf(fo, files + [f]) == HiddenOf(fo, files) + if fo.isHidden(f) then [f] else []
  {
    assert (files + [f])[..|files|] == files;
  }

  /** One more file for `insert_files`: it joins the rows if it is shown,
      and the front of the hidden list if it is hidden. */
  lemma InsertOneMore(fo: FileOracle, showHidden: bool, files: seq<FileId>, f: FileId)
    ensures multiset(ShownOf(fo, showHidden, files + [f])) ==
            multiset(ShownOf(fo, showHidden, files)) + if showHidden || !fo.isHidden(f) then multiset{f} else multiset{}
    ensures Reverse(HiddenOf(fo, files + [f])) == (if fo.isHidden(f) then [f] else []) + Reverse(HiddenOf(fo, files))
  {
    ShownOfSnoc(fo, showHidden, files, f);
    HiddenOfSnoc(fo, files, f);
    ReverseSnoc(HiddenOf(fo, files), f);
  }

  /** The hidden list after `insert_files` has looked at the first `i`
      of `files`: their hidden ones, last first, in front of `hidden`. */
  ghost predicate HiddenSoFar(fo: FileOracle, files: seq<FileId>, i: nat, hidden: seq<FileId>, hidden': seq<FileId>)
    requires i <= |files|
  {
    hidden' == Reverse(HiddenOf(fo, files[..i])) + hidden
  }

  /** Looking at one more file prepends it if it is hidden. */
  lemma HiddenStep(fo: FileOracle, files: seq<FileId>, i: nat, hidden: seq<FileId>, hidden': seq<FileId>)
    requires i < |files| && HiddenSoFar(fo, files, i, hidden, hidden')
    ensures HiddenSoFar(fo, files, i + 1, hidden, (if fo.isHidden(files[i]) then [files[i]] else []) + hidden')
  {
    TakeOneMore(files, i);
    InsertOneMore(fo, false, files[..i], files[i]);
  }

  /** Looking at one more file adds it to the rows if it is shown. */
  lemma ShownStep(fo: FileOracle, showHidden: bool, files: seq<FileId>, i: nat)
    requires i < |files|
    ensures multiset(ShownOf(fo, showHidden, files[..i + 1])) ==
            multiset(ShownOf(fo, showHidden, files[..i])) + if showHidden || !fo.isHidden(files[i]) then multiset{files[i]} else multiset{}
  {
    TakeOneMore(files, i);
    InsertOneMore(fo, showHidden, files[..i], files[i]);
  }

  /** With hidden files shown every file becomes a row. */
  lemma {:induction false} ShownAllWhenShowingHidden(fo: FileOracle, files: seq<FileId>)
    ensures ShownOf(fo, true, files) == files
    decreases |files|
  {
    if files != [] {
      var init := files[..|files| - 1];
      ShownAllWhenShowingHidden(fo, init);
      assert files == init + [files[|files| - 1]];
    }
  }

  /** Every file is a row or in the hidden list, and with hidden files
      not shown no file is both. */
  lemma ShownOrHidden(fo: FileOracle, showHidden: bool, files: seq<FileId>, f: FileId)
    requires f in files
    ensures f in ShownOf(fo, showHidden, files) || f in HiddenOf(fo, files)
    ensures !showHidden ==> !(f in ShownOf(fo, showHidden, files) && f in HiddenOf(fo, files))
  {
    FilterMembers((g: FileId) => showHidden || !fo.isHidden(g), files, f);
    FilterMembers(fo.isHidden, files, f);
  }

  /** `g_slist_remove`: unlinks the first occurrence of `x`, if any. */
  function RemoveFirst<T(==)>(s: seq<T>, x: T): (r: seq<T>)
    ensures x !in s ==> r == s
    ensures x in s ==> exists i | 0 <= i < |s| && s[i] == x && x !in s[..i] :: r == s[..i] + s[i + 1..]
  {
    if x in s then RemoveAt(s, IndexOf(s, x)) else s
  }

  /** Unlinking takes one copy of `x` out of the bag, if there is one. */
  lemma RemoveFirstMultiset<T>(s: seq<T>, x: T)
    ensures multiset(RemoveFirst(s, x)) == multiset(s) - multiset{x}
  {
    if x in s {
      RemoveAtMultiset(s, IndexOf(s, x));
    } else {
      assert multiset(s)[x] == 0;
    }
  }

  /** Unlinking a file that was just prepended gives the list back. */
  lemma RemoveFirstUndoesPrepend<T>(s: seq<T>, x: T)
    ensures RemoveFirst([x] + s, x) == s
  {
  }

  /** `RemoveFirst` of each of `xs` in turn. */
  function RemoveEach<T(==)>(s: seq<T>, xs: seq<T>): seq<T>
  {
    if xs == [] then s else RemoveFirst(RemoveEach(s, xs[..|xs| - 1]), xs[|xs| - 1])
  }

  lemma RemoveEachSnoc<T>(s: seq<T>, xs: seq<T>, x: T)
    ensures RemoveEach(s, xs + [x]) == RemoveFirst(RemoveEach(s, xs), x)
  {
    assert (xs + [x])[..|xs|] == xs;
  }

  /** Removing each of `xs` takes exactly the bag of `xs` out of the list. */
  lemma {:induction false} RemoveEachMultiset<T>(s: seq<T>, xs: seq<T>)
    ensures multiset(RemoveEach(s, xs)) == multiset(s) - multiset(xs)
    decreases |xs|
  {
    if xs != [] {
      var init := xs[..|xs| - 1];
      var last := xs[|xs| - 1];
      RemoveEachMultiset(s, init);
      assert xs == init + [last];
      assert multiset(xs) == multiset(init) + multiset{last};
      var before := RemoveEach(s, init);
      assert RemoveEach(s, xs) == RemoveFirst(before, last);
      RemoveFirstMultiset(before, last);
      forall y
        ensures multiset(RemoveEach(s, xs))[y] == (multiset(s) - multiset(xs))[y]
      {
      }
    }
  }

  /** `files_removed` on one more file unlinks it if it is hidden. */
  lemma RemoveOneMore(fo: FileOracle, hidden: seq<FileId>, files: seq<FileId>, f: FileId)
    ensures RemoveEach(hidden, HiddenOf(fo, files + [f])) ==
            if fo.isHidden(f) then RemoveFirst(RemoveEach(hidden, HiddenOf(fo, files)), f)
            else RemoveEach(hidden, HiddenOf(fo, files))
  {
    HiddenOfSnoc(fo, files, f);
    if fo.isHidden(f) {
      RemoveEachSnoc(hidden, HiddenOf(fo, files), f);
    } else {
      assert HiddenOf(fo, files + [f]) == HiddenOf(fo, files);
    }
  }

  /** Reversing one more element puts it in front. */
  lemma ReverseSnoc<T>(s: seq<T>, x: T)
    ensures Reverse(s + [x]) == [x] + Reverse(s)
  {
  }

  /** Removing the files that were inserted gives back the hidden list
      that was there before, as a bag: what `insert_files` prepends,
      `files_removed` unlinks. */
  lemma RemovedAfterInserted(fo: FileOracle, files: seq<FileId>, hidden: seq<FileId>)
    ensures multiset(RemoveEach(Reverse(HiddenOf(fo, files)) + hidden, HiddenOf(fo, files))) == multiset(hidden)
  {
    var h := HiddenOf(fo, files);
    RemoveEachMultiset(Reverse(h) + hidden, h);
    ReverseMultiset(h);
  }

  lemma {:induction false} ReverseMultiset<T>(s: seq<T>)
    ensures multiset(Reverse(s)) == multiset(s)
    decreases |s|
  {
    if s != [] {
      ReverseMultiset(s[1..]);
      assert s == [s[0]] + s[1..];
    }
  }
}
