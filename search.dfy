/** Matching a (normalised) file name against the terms of a search query:
    `thunar_tree_view_model_search_terms_match`. Every term must occur in the
    name as a plain substring; the order of the terms does not matter and
    an empty term list matches every name. Splitting the query and Unicode
    normalisation happen before this and are not part of this model. */
module Search {

  /** `s` starts with `prefix`. */
  predicate StartsWith(s: string, prefix: string)
  {
    |prefix| <= |s| && s[..|prefix|] == prefix
  }

  /** Whether `needle` occurs in `haystack` (`g_strrstr` does not return
      NULL); the empty needle occurs everywhere. */
  predicate Occurs(needle: string, haystack: string)
    decreases |haystack|
  {
    StartsWith(haystack, needle) || (|haystack| > 0 && Occurs(needle, haystack[1..]))
  }

  /** `needle` sits in `haystack` at offset `i`. */
  ghost predicate OccursAt(needle: string, haystack: string, i: int)
  {
    0 <= i <= |haystack| - |needle| && haystack[i..i + |needle|] == needle
  }

  /** `Occurs` finds exactly the needles that sit at some offset. */
  lemma {:induction false} OccursIff(needle: string, haystack: string)
    ensures Occurs(needle, haystack) <==> exists i :: OccursAt(needle, haystack, i)
  {
    if StartsWith(haystack, needle) {
      assert OccursAt(needle, haystack, 0);
    }
    if |haystack| > 0 {
      OccursIff(needle, haystack[1..]);
      if Occurs(needle, haystack[1..]) {
        var i :| OccursAt(needle, haystack[1..], i);
        assert haystack[1..][i..i + |needle|] == haystack[i + 1..i + 1 + |needle|];
        assert OccursAt(needle, haystack, i + 1);
      }
      if exists i :: OccursAt(needle, haystack, i) {
        var i :| OccursAt(needle, haystack, i);
        if i > 0 {
          assert haystack[1..][i - 1..i - 1 + |needle|] == haystack[i..i + |needle|];
          assert OccursAt(needle, haystack[1..], i - 1);
        } else {
          assert StartsWith(haystack, needle);
        }
      }
    } else if exists i :: OccursAt(needle, haystack, i) {
      var i :| OccursAt(needle, haystack, i);
      assert StartsWith(haystack, needle);
    }
  }

  /** Every term occurs in `name`. */
  ghost predicate AllTermsOccur(terms: seq<string>, name: string)
  {
    forall i | 0 <= i < |terms| :: Occurs(terms[i], name)
  }

  /** `thunar_tree_view_model_search_terms_match`: stops at the first term
      that does not occur. */
  method SearchTermsMatch(terms: seq<string>, name: string) returns (matched: bool)
    ensures matched <==> AllTermsOccur(terms, name)
  {
    var i := 0;
    while i < |terms|
      invariant 0 <= i <= |terms|
      invariant forall k | 0 <= k < i :: Occurs(terms[k], name)
    {
      if !Occurs(terms[i], name) {
        return false;
      }
      i := i + 1;
    }
    return true;
  }

  /** The order of the terms does not matter. */
  lemma TermOrderIrrelevant(terms: seq<string>, shuffled: seq<string>, name: string)
    requires multiset(terms) == multiset(shuffled)
    ensures AllTermsOccur(terms, name) <==> AllTermsOccur(shuffled, name)
  {
    forall i | 0 <= i < |shuffled|
      ensures shuffled[i] in multiset(terms)
    {
      assert shuffled[i] in multiset(shuffled);
    }
    forall i | 0 <= i < |terms|
      ensures terms[i] in multiset(shuffled)
    {
      assert terms[i] in multiset(terms);
    }
  }

  /** With the terms "foo" and "bar", "foobar.txt" matches ... */
  lemma FooBarMatches()
    ensures AllTermsOccur(["foo", "bar"], "foobar.txt")
  {
    assert StartsWith("foobar.txt", "foo");
    assert StartsWith("foobar.txt"[3..], "bar");
    assert Occurs("bar", "foobar.txt"[2..]);
  }

  /** A needle whose first character is nowhere in the haystack does not occur. */
  lemma FirstCharMissing(needle: string, haystack: string)
    requires |needle| > 0 && needle[0] !in haystack
    ensures !Occurs(needle, haystack)
  {
    OccursIff(needle, haystack);
    forall i | 0 <= i <= |haystack| - |needle|
      ensures !OccursAt(needle, haystack, i)
    {
      assert haystack[i..i + |needle|][0] == haystack[i] != needle[0];
    }
  }

  /** ... while "foo.txt" misses "bar" ... */
  lemma FooAloneDoesNotMatch()
    ensures !AllTermsOccur(["foo", "bar"], "foo.txt")
  {
    assert 'b' !in "foo.txt";
    FirstCharMissing("bar", "foo.txt");
    assert ["foo", "bar"][1] == "bar";
  }

  /** ... and "bar.txt" misses "foo". */
  lemma BarAloneDoesNotMatch()
    ensures !AllTermsOccur(["foo", "bar"], "bar.txt")
  {
    assert 'f' !in "bar.txt";
    FirstCharMissing("foo", "bar.txt");
    assert ["foo", "bar"][0] == "foo";
  }
}
