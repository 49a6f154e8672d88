/**
 * The ordering scenarios of the autocomplete tests: each test method sorts
 * the test's array with the comparator and is proved to return exactly the
 * order the test expects.
 */
module HackAutocompleteSpec {
  import opened Strings
  import opened HackAutocomplete

  /** Builds an array holding `s`, sorts it in place and reads it back, as each test does. */
  method SortList(token: string, s: seq<Suggestion>) returns (r: seq<Suggestion>)
    ensures Sorted(token, r) && multiset(r) == multiset(s)
  {
    var a := new Suggestion[|s|](i requires 0 <= i < |s| => s[i]);
    assert a[..] == s;
    SortCompletions(token, a);
    r := a[..];
  }

  // The suggestions the pairwise tests share.
  const C1: Suggestion := CreateCompletion("GetAaa")
  const C2: Suggestion := CreateCompletion("getAzzz")
  const C3: Suggestion := CreateCompletion("aa_getaaa")
  const C4: Suggestion := CreateCompletion("zz_getAaa")
  const C5: Suggestion := CreateCompletion("aa_getAaa")
  const C6: Suggestion := CreateCompletion("_aa_getAaa")
  const C7: Suggestion := CreateCompletion("zz_getaaaa")

  // The tiers of their names for the token "getA".

  lemma TierGetAzzz()
    ensures Tier("getA", "getAzzz") == PrefixCaseSensitive
  {
    assert ToLower("getAzzz") == "getazzz" && ToLower("getA") == "geta";
    assert FindFrom("getAzzz", "getA", 0) == 0;
    assert FindFrom("getazzz", "geta", 0) == 0;
  }

  lemma TierGetAaa()
    ensures Tier("getA", "GetAaa") == PrefixCaseInsensitive
  {
    assert ToLower("GetAaa") == "getaaa" && ToLower("getA") == "geta";
    assert FindFrom("GetAaa", "getA", 3) == FindFrom("GetAaa", "getA", 2) == FindFrom("GetAaa", "getA", 1) == FindFrom("GetAaa", "getA", 0) == -1;
    assert FindFrom("getaaa", "geta", 0) == 0;
  }

  lemma TierAaGetaaa()
    ensures Tier("getA", "aa_getaaa") == SubstringCaseInsensitive
  {
    assert ToLower("aa_getaaa") == "aa_getaaa" && ToLower("getA") == "geta";
    assert FindFrom("aa_getaaa", "getA", 6) == FindFrom("aa_getaaa", "getA", 5) == FindFrom("aa_getaaa", "getA", 4) == FindFrom("aa_getaaa", "getA", 3) == FindFrom("aa_getaaa", "getA", 2) == FindFrom("aa_getaaa", "getA", 1) == FindFrom("aa_getaaa", "getA", 0) == -1;
    assert FindFrom("aa_getaaa", "geta", 3) == FindFrom("aa_getaaa", "geta", 2) == FindFrom("aa_getaaa", "geta", 1) == FindFrom("aa_getaaa", "geta", 0) == 3;
  }

  lemma TierZzGetAaa()
    ensures Tier("getA", "zz_getAaa") == SubstringCaseSensitive
  {
    assert ToLower("zz_getAaa") == "zz_getaaa" && ToLower("getA") == "geta";
    assert FindFrom("zz_getAaa", "getA", 3) == FindFrom("zz_getAaa", "getA", 2) == FindFrom("zz_getAaa", "getA", 1) == FindFrom("zz_getAaa", "getA", 0) == 3;
    assert FindFrom("zz_getaaa", "geta", 3) == FindFrom("zz_getaaa", "geta", 2) == FindFrom("zz_getaaa", "geta", 1) == FindFrom("zz_getaaa", "geta", 0) == 3;
  }

  lemma TierAaGetAaa()
    ensures Tier("getA", "aa_getAaa") == SubstringCaseSensitive
  {
    assert ToLower("aa_getAaa") == "aa_getaaa" && ToLower("getA") == "geta";
    assert FindFrom("aa_getAaa", "getA", 3) == FindFrom("aa_getAaa", "getA", 2) == FindFrom("aa_getAaa", "getA", 1) == FindFrom("aa_getAaa", "getA", 0) == 3;
    assert FindFrom("aa_getaaa", "geta", 3) == FindFrom("aa_getaaa", "geta", 2) == FindFrom("aa_getaaa", "geta", 1) == FindFrom("aa_getaaa", "geta", 0) == 3;
  }

  // The pairs of the tests, each compared both ways round.

  lemma ComparePrefixCaseSensitiveFirst()
    ensures Compare("getA", C2, C1) == -1 && Compare("getA", C1, C2) == 1
  {
    TierGetAzzz();
    TierGetAaa();
    BetterTierFirst("getA", C2, C1);
  }

  lemma ComparePrefixBeforeSubstring()
    ensures Compare("getA", C2, C3) == -1 && Compare("getA", C3, C2) == 1
  {
    TierGetAzzz();
    TierAaGetaaa();
    BetterTierFirst("getA", C2, C3);
  }

  lemma CompareSubstringCaseSensitiveFirst()
    ensures Compare("getA", C4, C3) == -1 && Compare("getA", C3, C4) == 1
  {
    TierZzGetAaa();
    TierAaGetaaa();
    BetterTierFirst("getA", C4, C3);
  }

  lemma CompareSameTierAlphabetical()
    ensures Compare("getA", C5, C4) == -1 && Compare("getA", C4, C5) == 1
  {
    TierZzGetAaa();
    TierAaGetAaa();
    FirstDifferenceDecides("aa_getAaa", "zz_getAaa", 0);
    AlphabeticalTieBreak("getA", C5, C4);
    CompareAntisymmetric("getA", C5, C4);
  }

  lemma ComparePublicBeforePrivate()
    ensures Compare("getA", C7, C6) == -1 && Compare("getA", C6, C7) == 1
  {
    PublicBeforePrivate("getA", C7, C6);
  }

  lemma CompareLongerPrefixFirst()
    ensures Compare("f", CreateCompletion(":foo", ":f"), CreateCompletion("foo", "f")) == -1
    ensures Compare("f", CreateCompletion("foo", "f"), CreateCompletion(":foo", ":f")) == 1
  {
    LongerReplacementPrefixFirst("f", CreateCompletion(":foo", ":f"), CreateCompletion("foo", "f"));
  }

  // The six names of the composite test, with their tiers for "getA".

  lemma TierGetAddendum()
    ensures Tier("getA", "getAddendum()") == PrefixCaseSensitive
  {
    assert ToLower("getAddendum()") == "getaddendum()" && ToLower("getA") == "geta";
    assert FindFrom("getAddendum()", "getA", 0) == 0;
    assert FindFrom("getaddendum()", "geta", 0) == 0;
  }

  lemma TierGetAppend()
    ensures Tier("getA", "getAppend()") == PrefixCaseSensitive
  {
    assert ToLower("getAppend()") == "getappend()" && ToLower("getA") == "geta";
    assert FindFrom("getAppend()", "getA", 0) == 0;
    assert FindFrom("getappend()", "geta", 0) == 0;
  }

  lemma TierDoOrGetACup()
    ensures Tier("getA", "doOrGetACup()") == SubstringCaseInsensitive
  {
    assert ToLower("doOrGetACup()") == "doorgetacup()" && ToLower("getA") == "geta";
    assert FindFrom("doOrGetACup()", "getA", 10) == FindFrom("doOrGetACup()", "getA", 9) == FindFrom("doOrGetACup()", "getA", 8) == FindFrom("doOrGetACup()", "getA", 7) == FindFrom("doOrGetACup()", "getA", 6) == FindFrom("doOrGetACup()", "getA", 5) == FindFrom("doOrGetACup()", "getA", 4) == FindFrom("doOrGetACup()", "getA", 3) == FindFrom("doOrGetACup()", "getA", 2) == FindFrom("doOrGetACup()", "getA", 1) == FindFrom("doOrGetACup()", "getA", 0) == -1;
    assert FindFrom("doorgetacup()", "geta", 4) == FindFrom("doorgetacup()", "geta", 3) == FindFrom("doorgetacup()", "geta", 2) == FindFrom("doorgetacup()", "geta", 1) == FindFrom("doorgetacup()", "geta", 0) == 4;
  }

  lemma TierPrivateGetAab()
    ensures Tier("getA", "_getAab()") == SubstringCaseSensitive
  {
    assert ToLower("_getAab()") == "_getaab()" && ToLower("getA") == "geta";
    assert FindFrom("_getAab()", "getA", 1) == FindFrom("_getAab()", "getA", 0) == 1;
    assert FindFrom("_getaab()", "geta", 1) == FindFrom("_getaab()", "geta", 0) == 1;
  }

  lemma TierPrivateGetAbc()
    ensures Tier("getA", "_getAbc()") == SubstringCaseSensitive
  {
    assert ToLower("_getAbc()") == "_getabc()" && ToLower("getA") == "geta";
    assert FindFrom("_getAbc()", "getA", 1) == FindFrom("_getAbc()", "getA", 0) == 1;
    assert FindFrom("_getabc()", "geta", 1) == FindFrom("_getabc()", "geta", 0) == 1;
  }

  lemma TierPrivateDoOrGetACup()
    ensures Tier("getA", "_doOrGetACup()") == SubstringCaseInsensitive
  {
    assert ToLower("_doOrGetACup()") == "_doorgetacup()" && ToLower("getA") == "geta";
    assert FindFrom("_doOrGetACup()", "getA", 11) == FindFrom("_doOrGetACup()", "getA", 10) == FindFrom("_doOrGetACup()", "getA", 9) == FindFrom("_doOrGetACup()", "getA", 8) == FindFrom("_doOrGetACup()", "getA", 7) == FindFrom("_doOrGetACup()", "getA", 6) == FindFrom("_doOrGetACup()", "getA", 5) == FindFrom("_doOrGetACup()", "getA", 4) == FindFrom("_doOrGetACup()", "getA", 3) == FindFrom("_doOrGetACup()", "getA", 2) == FindFrom("_doOrGetACup()", "getA", 1) == FindFrom("_doOrGetACup()", "getA", 0) == -1;
    assert FindFrom("_doorgetacup()", "geta", 5) == FindFrom("_doorgetacup()", "geta", 4) == FindFrom("_doorgetacup()", "geta", 3) == FindFrom("_doorgetacup()", "geta", 2) == FindFrom("_doorgetacup()", "geta", 1) == FindFrom("_doorgetacup()", "geta", 0) == 5;
  }

  /** The expected order of the composite test. */
  const MeaningfulOrder: seq<Suggestion> := [
    CreateCompletion("getAddendum()"),
    CreateCompletion("getAppend()"),
    CreateCompletion("doOrGetACup()"),
    CreateCompletion("_getAab()"),
    CreateCompletion("_getAbc()"),
    CreateCompletion("_doOrGetACup()")]

  /** The order the composite test hands to the sort. */
  const MeaningfulShuffled: seq<Suggestion> := [
    MeaningfulOrder[4], MeaningfulOrder[3], MeaningfulOrder[1],
    MeaningfulOrder[0], MeaningfulOrder[2], MeaningfulOrder[5]]

  lemma MeaningfulShuffledPermutation()
    ensures multiset(MeaningfulShuffled) == multiset(MeaningfulOrder)
  {
    var t := MeaningfulOrder;
    calc {
      multiset(MeaningfulShuffled);
      multiset{t[4], t[3], t[1], t[0], t[2], t[5]};
      multiset{t[0], t[1], t[2], t[3], t[4], t[5]};
      { assert t == [t[0], t[1], t[2], t[3], t[4], t[5]]; }
      multiset(t);
    }
  }

  lemma CompareGetAddendumGetAppend()
    ensures Compare("getA", MeaningfulOrder[0], MeaningfulOrder[1]) == -1
  {
    TierGetAddendum();
    TierGetAppend();
    FirstDifferenceDecides("getAddendum()", "getAppend()", 4);
    AlphabeticalTieBreak("getA", MeaningfulOrder[0], MeaningfulOrder[1]);
  }

  lemma CompareGetAppendDoOrGetACup()
    ensures Compare("getA", MeaningfulOrder[1], MeaningfulOrder[2]) == -1
  {
    TierGetAppend();
    TierDoOrGetACup();
    BetterTierFirst("getA", MeaningfulOrder[1], MeaningfulOrder[2]);
  }

  lemma CompareDoOrGetACupPrivateGetAab()
    ensures Compare("getA", MeaningfulOrder[2], MeaningfulOrder[3]) == -1
  {
    PublicBeforePrivate("getA", MeaningfulOrder[2], MeaningfulOrder[3]);
  }

  lemma ComparePrivateGetAabGetAbc()
    ensures Compare("getA", MeaningfulOrder[3], MeaningfulOrder[4]) == -1
  {
    TierPrivateGetAab();
    TierPrivateGetAbc();
    FirstDifferenceDecides("_getAab()", "_getAbc()", 5);
    AlphabeticalTieBreak("getA", MeaningfulOrder[3], MeaningfulOrder[4]);
  }

  lemma ComparePrivateGetAbcDoOrGetACup()
    ensures Compare("getA", MeaningfulOrder[4], MeaningfulOrder[5]) == -1
  {
    TierPrivateGetAbc();
    TierPrivateDoOrGetACup();
    BetterTierFirst("getA", MeaningfulOrder[4], MeaningfulOrder[5]);
  }

  /** The expected order of the composite test is strictly increasing. */
  lemma MeaningfulOrderStrict()
    ensures Sorted("getA", MeaningfulOrder) && DistinctRanks("getA", MeaningfulOrder)
  {
    CompareGetAddendumGetAppend();
    CompareGetAppendDoOrGetACup();
    CompareDoOrGetACupPrivateGetAab();
    ComparePrivateGetAabGetAbc();
    ComparePrivateGetAbcDoOrGetACup();
    StrictChainSorted("getA", MeaningfulOrder);
  }

  // The tests: each sorts its array and gets exactly the expected order.

  /** A case-sensitive prefix match comes before a case-insensitive prefix match. */
  method TestPrefixCaseSensitiveFirst() returns (r: seq<Suggestion>)
    ensures r == [C2, C1]
  {
    r := SortList("getA", [C1, C2]);
    ComparePrefixCaseSensitiveFirst();
    StrictChainSorted("getA", [C2, C1]);
    SortedPermutationUnique("getA", [C2, C1], r);
  }

  /** A prefix match comes before a case-insensitive non-prefix match. */
  method TestPrefixBeforeSubstring() returns (r: seq<Suggestion>)
    ensures r == [C2, C3]
  {
    r := SortList("getA", [C3, C2]);
    ComparePrefixBeforeSubstring();
    StrictChainSorted("getA", [C2, C3]);
    SortedPermutationUnique("getA", [C2, C3], r);
  }

  /** A case-sensitive non-prefix match comes before a case-insensitive one. */
  method TestSubstringCaseSensitiveFirst() returns (r: seq<Suggestion>)
    ensures r == [C4, C3]
  {
    r := SortList("getA", [C3, C4]);
    CompareSubstringCaseSensitiveFirst();
    StrictChainSorted("getA", [C4, C3]);
    SortedPermutationUnique("getA", [C4, C3], r);
  }

  /** Two matches of the same kind are in alphabetical order. */
  method TestSameTierAlphabetical() returns (r: seq<Suggestion>)
    ensures r == [C5, C4]
  {
    r := SortList("getA", [C4, C5]);
    CompareSameTierAlphabetical();
    StrictChainSorted("getA", [C5, C4]);
    SortedPermutationUnique("getA", [C5, C4], r);
  }

  /** A private name comes after a public one even when it matches better. */
  method TestPrivatePenalized() returns (r: seq<Suggestion>)
    ensures r == [C7, C6]
  {
    r := SortList("getA", [C6, C7]);
    ComparePublicBeforePrivate();
    StrictChainSorted("getA", [C7, C6]);
    SortedPermutationUnique("getA", [C7, C6], r);
  }

  /** The suggestion with the longer replacement prefix comes first. */
  method TestLongerPrefixFirst() returns (r: seq<Suggestion>)
    ensures r == [CreateCompletion(":foo", ":f"), CreateCompletion("foo", "f")]
  {
    var comp1, comp2 := CreateCompletion(":foo", ":f"), CreateCompletion("foo", "f");
    r := SortList("f", [comp2, comp1]);
    CompareLongerPrefixFirst();
    StrictChainSorted("f", [comp1, comp2]);
    SortedPermutationUnique("f", [comp1, comp2], r);
  }

  /** The six-name test comes out in exactly the expected order. */
  method TestMeaningfulOrder() returns (r: seq<Suggestion>)
    ensures r == MeaningfulOrder
  {
    r := SortList("getA", MeaningfulShuffled);
    MeaningfulShuffledPermutation();
    MeaningfulOrderStrict();
    SortedPermutationUnique("getA", MeaningfulOrder, r);
  }
}
