# Nuclide: Hack autocomplete ranking, replacement prefixes, quick-open results, outline panel state, Mercurial constants

This project is a Dafny model of five small pieces of Nuclide, the Atom-based IDE, with proofs about each:

- **Hack autocomplete ranking** (`hack_autocomplete.dfy`, `hack_autocomplete_spec.dfy`, with `strings.dfy` and `array_sort.dfy`).
  - `compareHackCompletions(token)` is modelled as `HackAutocomplete.Compare`.
  - Its keys, in order:
    1. The longer replacement prefix comes first.
    2. A public name comes before a `_`-private one.
    3. The better match tier comes first: prefix case-exact, then prefix case-insensitive, then substring case-exact, then substring case-insensitive, then no match.
    4. The code-unit order of the display text decides the rest.
  - `completions.sort(comparator)` is an in-place insertion sort on an array (`ArraySort.Sort`). It is proved sorted and a permutation for any consistent comparator, and `Compare` is proved consistent.
  - `SortedPermutationUnique` shows that a sorted permutation is unique when no two different suggestions compare equal. Each test of `autocomplete-spec.js` is therefore a method proved to return exactly the order the test expects, whatever order the sort visits pairs in.
- **Replacement-prefix update** (`hack_language.dfy`).
  - `updateAutocompleteResults` and `updateReplacementPrefix` are modelled on an abstract `Helpers` record.
  - That record stands for the prefix helpers and the sort-and-filter step, which are not part of this model.
  - The proofs are: null passthrough, length and order kept, only `replacementPrefix` changed, one prefix used for both annotating and sorting, idempotence, and distribution over concatenation.
- **Quick-open result helpers** (`search_result_helpers.dfy`).
  - `filterEmptyResults` and `flattenResults` are methods with the source's nested loops.
  - JavaScript objects are modelled as association lists with distinct keys in insertion order. Each loop is proved equal to a specification function.
  - Lemmas about those functions prove these facts:
    - what is kept and unchanged
    - keys form a subsequence and stay distinct
    - idempotence
    - flattening after pruning is unchanged
    - the flattened length is the number of results
- **Outline view panel state** (`outline_view_panel.dfy`).
  - `OutlineViewPanelState` is a class with the panel it holds and the tracked width. The panel is an opaque object that can be disposed.
  - `_show` and `_destroyPanel` carry their `invariant`s as preconditions, and every public method is proved to meet them.
  - `isVisible()` is `IsVisible()` and `getWidth()` is `GetWidth()`.
- **Mercurial constants** (`hg_constants.dfy`).
  - The status codes with their ids and numbers, and the id-to-number table.
  - The three string enums.
  - `HEAD_REVISION_EXPRESSION` is the constant `"."`.
  - The proofs: ids are distinct, numbers are exactly 1 to 8, the table agrees with both enums, and it is a bijection with an inverse that round-trips.

## Model

| member | source | states |
|---|---|---|
| HackAutocomplete.CreateCompletion | pkg/nuclide-hack-common/spec/autocomplete-spec.js:13-20 | The test's suggestion displays the given text, keeps the given replacement prefix (empty by default) and is labelled `function`. Its snippet is the text followed by `()`. |
| HackAutocomplete.Tier | pkg/nuclide-hack-common/spec/autocomplete-spec.js:32-57 | A name is in some match tier exactly when its lowercase form contains the lowercase token. A case-exact occurrence is therefore never "no match". |
| HackAutocomplete.IsPrivate | pkg/nuclide-hack-common/spec/autocomplete-spec.js:67-73 | A suggestion is private exactly when its display text starts with `_`. |
| HackAutocomplete.TierMeaning | pkg/nuclide-hack-common/spec/autocomplete-spec.js:32-57 | Each tier is characterised exactly. Prefix case-exact iff the name starts with the token. Prefix case-insensitive iff it does not, but its lowercase form starts with the lowercase token. Substring case-exact iff the name contains the token and is not a lowercase prefix match. Substring case-insensitive iff only the lowercase forms contain it. No match iff the lowercase forms do not contain it. |
| HackAutocomplete.Compare | pkg/nuclide-hack-common/spec/autocomplete-spec.js:35 | The comparator returns -1, 0 or 1. It returns 0 exactly when both suggestions agree on all four keys: prefix length, privacy, tier and display text. |
| HackAutocomplete.LongerReplacementPrefixFirst | pkg/nuclide-hack-common/spec/autocomplete-spec.js:75-83 | A longer replacement prefix sorts first, whatever the other keys say. |
| HackAutocomplete.PublicBeforePrivate | pkg/nuclide-hack-common/spec/autocomplete-spec.js:67-73 | When prefix lengths are equal, a public name sorts before a `_` name, whatever the tiers. |
| HackAutocomplete.BetterTierFirst | pkg/nuclide-hack-common/spec/autocomplete-spec.js:32-57 | When prefix length and privacy agree, the better match tier sorts first. |
| HackAutocomplete.AlphabeticalTieBreak | pkg/nuclide-hack-common/spec/autocomplete-spec.js:59-65 | When prefix length, privacy and tier agree, the code-unit order of the display texts decides. |
| HackAutocomplete.CompareAntisymmetric | pkg/nuclide-hack-common/spec/autocomplete-spec.js:34-72 | Swapping the arguments negates the result. |
| HackAutocomplete.LeTransitive | pkg/nuclide-hack-common/spec/autocomplete-spec.js:36 | "Sorts no later than" is transitive. |
| HackAutocomplete.CompareConsistent | pkg/nuclide-hack-common/spec/autocomplete-spec.js:36 | For every token, the comparator is antisymmetric in sign and transitive, as `Array.prototype.sort` requires. |
| HackAutocomplete.SortCompletions | pkg/nuclide-hack-common/spec/autocomplete-spec.js:36 | Sorting an array in place with the comparator leaves it sorted and a permutation of what it held. |
| HackAutocomplete.SortedPermutationUnique | pkg/nuclide-hack-common/spec/autocomplete-spec.js:95-102 | Two sorted permutations of the same suggestions are equal when no two different suggestions compare equal. The expected order therefore does not depend on the sort algorithm. |
| HackAutocomplete.StrictChainSorted | pkg/nuclide-hack-common/spec/autocomplete-spec.js:95-102 | A sequence in which each suggestion strictly precedes the next is sorted, and its ranks are distinct. |
| ArraySort.Sort | pkg/nuclide-hack-common/spec/autocomplete-spec.js:36 | For any consistent comparator, the in-place sort leaves the array sorted by it and a permutation of its old contents. |
| HackAutocompleteSpec.SortList | pkg/nuclide-hack-common/spec/autocomplete-spec.js:34-36 | Putting a list in an array and sorting it gives a sorted permutation of the list. |
| HackAutocompleteSpec.TierGetAaa | pkg/nuclide-hack-common/spec/autocomplete-spec.js:22 | `GetAaa` is a case-insensitive prefix match for `getA`. |
| HackAutocompleteSpec.TierGetAzzz | pkg/nuclide-hack-common/spec/autocomplete-spec.js:23 | `getAzzz` is a case-exact prefix match for `getA`. |
| HackAutocompleteSpec.TierAaGetaaa | pkg/nuclide-hack-common/spec/autocomplete-spec.js:24 | `aa_getaaa` is a case-insensitive substring match. |
| HackAutocompleteSpec.TierZzGetAaa | pkg/nuclide-hack-common/spec/autocomplete-spec.js:25 | `zz_getAaa` is a case-exact substring match. |
| HackAutocompleteSpec.TierAaGetAaa | pkg/nuclide-hack-common/spec/autocomplete-spec.js:26 | `aa_getAaa` is a case-exact substring match. |
| HackAutocompleteSpec.ComparePrefixCaseSensitiveFirst | pkg/nuclide-hack-common/spec/autocomplete-spec.js:32-39 | c2 sorts before c1, in both argument orders. |
| HackAutocompleteSpec.ComparePrefixBeforeSubstring | pkg/nuclide-hack-common/spec/autocomplete-spec.js:41-48 | c2 sorts before c3, in both argument orders. |
| HackAutocompleteSpec.CompareSubstringCaseSensitiveFirst | pkg/nuclide-hack-common/spec/autocomplete-spec.js:50-57 | c4 sorts before c3, in both argument orders. |
| HackAutocompleteSpec.CompareSameTierAlphabetical | pkg/nuclide-hack-common/spec/autocomplete-spec.js:59-65 | c5 sorts before c4, in both argument orders. |
| HackAutocompleteSpec.ComparePublicBeforePrivate | pkg/nuclide-hack-common/spec/autocomplete-spec.js:67-73 | c7 sorts before c6, in both argument orders. |
| HackAutocompleteSpec.CompareLongerPrefixFirst | pkg/nuclide-hack-common/spec/autocomplete-spec.js:75-83 | `:foo`/`:f` sorts before `foo`/`f` for token `f`, in both argument orders. |
| HackAutocompleteSpec.TierGetAddendum | pkg/nuclide-hack-common/spec/autocomplete-spec.js:90 | `getAddendum()` is a case-exact prefix match. |
| HackAutocompleteSpec.TierGetAppend | pkg/nuclide-hack-common/spec/autocomplete-spec.js:89 | `getAppend()` is a case-exact prefix match. |
| HackAutocompleteSpec.TierDoOrGetACup | pkg/nuclide-hack-common/spec/autocomplete-spec.js:91 | `doOrGetACup()` is a case-insensitive substring match. |
| HackAutocompleteSpec.TierPrivateGetAab | pkg/nuclide-hack-common/spec/autocomplete-spec.js:88 | `_getAab()` is a case-exact substring match. |
| HackAutocompleteSpec.TierPrivateGetAbc | pkg/nuclide-hack-common/spec/autocomplete-spec.js:87 | `_getAbc()` is a case-exact substring match. |
| HackAutocompleteSpec.TierPrivateDoOrGetACup | pkg/nuclide-hack-common/spec/autocomplete-spec.js:92 | `_doOrGetACup()` is a case-insensitive substring match. |
| HackAutocompleteSpec.MeaningfulShuffledPermutation | pkg/nuclide-hack-common/spec/autocomplete-spec.js:86-101 | The test's input list is a permutation of its expected list. |
| HackAutocompleteSpec.CompareGetAddendumGetAppend | pkg/nuclide-hack-common/spec/autocomplete-spec.js:96-97 | `getAddendum()` strictly precedes `getAppend()`, by the alphabetical tie-break. |
| HackAutocompleteSpec.CompareGetAppendDoOrGetACup | pkg/nuclide-hack-common/spec/autocomplete-spec.js:97-98 | `getAppend()` strictly precedes `doOrGetACup()`, by tier. |
| HackAutocompleteSpec.CompareDoOrGetACupPrivateGetAab | pkg/nuclide-hack-common/spec/autocomplete-spec.js:98-99 | `doOrGetACup()` strictly precedes `_getAab()` because it is public. |
| HackAutocompleteSpec.ComparePrivateGetAabGetAbc | pkg/nuclide-hack-common/spec/autocomplete-spec.js:99-100 | `_getAab()` strictly precedes `_getAbc()`, by the alphabetical tie-break. |
| HackAutocompleteSpec.ComparePrivateGetAbcDoOrGetACup | pkg/nuclide-hack-common/spec/autocomplete-spec.js:100-101 | `_getAbc()` strictly precedes `_doOrGetACup()`, by tier. |
| HackAutocompleteSpec.MeaningfulOrderStrict | pkg/nuclide-hack-common/spec/autocomplete-spec.js:95-102 | The expected six-name order is sorted, with distinct ranks. |
| HackAutocompleteSpec.TestPrefixCaseSensitiveFirst | pkg/nuclide-hack-common/spec/autocomplete-spec.js:32-39 | Sorting `[c1, c2]` gives exactly `[c2, c1]`. |
| HackAutocompleteSpec.TestPrefixBeforeSubstring | pkg/nuclide-hack-common/spec/autocomplete-spec.js:41-48 | Sorting `[c3, c2]` gives exactly `[c2, c3]`. |
| HackAutocompleteSpec.TestSubstringCaseSensitiveFirst | pkg/nuclide-hack-common/spec/autocomplete-spec.js:50-57 | Sorting `[c3, c4]` gives exactly `[c4, c3]`. |
| HackAutocompleteSpec.TestSameTierAlphabetical | pkg/nuclide-hack-common/spec/autocomplete-spec.js:59-65 | Sorting `[c4, c5]` gives exactly `[c5, c4]`. |
| HackAutocompleteSpec.TestPrivatePenalized | pkg/nuclide-hack-common/spec/autocomplete-spec.js:67-73 | Sorting `[c6, c7]` gives exactly `[c7, c6]`. |
| HackAutocompleteSpec.TestLongerPrefixFirst | pkg/nuclide-hack-common/spec/autocomplete-spec.js:75-83 | Sorting `[comp2, comp1]` with token `f` gives exactly `[comp1, comp2]`. |
| HackAutocompleteSpec.TestMeaningfulOrder | pkg/nuclide-hack-common/spec/autocomplete-spec.js:85-103 | Sorting the six names gives exactly `getAddendum()`, `getAppend()`, `doOrGetACup()`, `_getAab()`, `_getAbc()`, `_doOrGetACup()`. |
| HackLanguage.Annotate | pkg/nuclide-hack/lib/HackLanguage.js:181-188 | The spread copy differs from the completion only in `replacementPrefix`. That field is `getReplacementPrefix(getResultPrefix(contents, offset, displayText), prefixCandidate)`. |
| HackLanguage.UpdateReplacementPrefix | pkg/nuclide-hack/lib/HackLanguage.js:172-190 | The output has the same length and order as the input. Each element equals its input except for `replacementPrefix`, which is computed from the same contents and offset for every element. Every input must have a display text. |
| HackLanguage.UpdateAutocompleteResults | pkg/nuclide-hack/lib/HackLanguage.js:160-170 | The result is null exactly when the first result is null. Otherwise one prefix, found at the cursor, is given both to the update and to `sortAndFilterCompletions`. |
| HackLanguage.UpdateKeepsNames | pkg/nuclide-hack/lib/HackLanguage.js:185-188 | The update keeps every display text, so its output can be updated again. |
| HackLanguage.UpdateIdempotent | pkg/nuclide-hack/lib/HackLanguage.js:180-189 | Updating twice with the same prefix candidate gives the same list as updating once. |
| HackLanguage.UpdateConcat | pkg/nuclide-hack/lib/HackLanguage.js:180 | The update works element by element: updating a concatenation is the concatenation of the updates. |
| SearchResultHelpers.Assign | pkg/nuclide/quick-open/lib/searchResultHelpers.js:26 | After `m[k] = v` the object holds `(k, v)`. It grows by one entry exactly when `k` was not a key, and then `k` is the last key. Every entry with another key keeps its place and its value. |
| SearchResultHelpers.ConcatElements | pkg/nuclide/quick-open/lib/searchResultHelpers.js:43 | The joined array holds every element of every item, and each of its elements comes from some item. |
| SearchResultHelpers.AssignFresh | pkg/nuclide/quick-open/lib/searchResultHelpers.js:26-30 | Assigning to a property the object does not yet have appends that key at the end of the iteration order. |
| SearchResultHelpers.FilterEmptyResults | pkg/nuclide/quick-open/lib/searchResultHelpers.js:18-34 | The nested loops build exactly the pruned tree `FilterSpec` of the input. |
| SearchResultHelpers.DirectoryStep | pkg/nuclide/quick-open/lib/searchResultHelpers.js:24-28 | One pass of the inner loop. Assigning a non-empty directory extends the pruned prefix of the directories by that directory, and an empty one leaves it as it was. |
| SearchResultHelpers.ServiceStep | pkg/nuclide/quick-open/lib/searchResultHelpers.js:29-31 | One pass of the outer loop. A service with a kept directory is assigned `{results: nonEmptyDirectories}` at the end, and one without is skipped. |
| SearchResultHelpers.NonEmptyDirectoriesSubsequence | pkg/nuclide/quick-open/lib/searchResultHelpers.js:24-28 | The kept directory names are a subsequence of the original names. |
| SearchResultHelpers.NonEmptyDirectoriesKeys | pkg/nuclide/quick-open/lib/searchResultHelpers.js:23-28 | The kept directory names are original names, and they stay distinct. |
| SearchResultHelpers.NonEmptyDirectoriesKept | pkg/nuclide/quick-open/lib/searchResultHelpers.js:24-27 | A directory entry is kept, unchanged, iff it is in the input and its `results` is non-empty. |
| SearchResultHelpers.FilterSpecSubsequence | pkg/nuclide/quick-open/lib/searchResultHelpers.js:19-31 | The kept service names are a subsequence of the original names. |
| SearchResultHelpers.FilterSpecKeys | pkg/nuclide/quick-open/lib/searchResultHelpers.js:19-31 | The kept service names are original names, and they stay distinct. |
| SearchResultHelpers.FilterSpecKept | pkg/nuclide/quick-open/lib/searchResultHelpers.js:29-31 | A service entry is in the output iff some input service of that name has a non-empty directory. The entry is then `{results: nonEmptyDirectories}` of that service. |
| SearchResultHelpers.NonEmptyDirectoriesIdempotent | pkg/nuclide/quick-open/lib/searchResultHelpers.js:24-27 | Pruning the directories twice is the same as pruning them once. |
| SearchResultHelpers.FilterIdempotent | pkg/nuclide/quick-open/lib/searchResultHelpers.js:18-34 | `filterEmptyResults` applied twice equals it applied once. |
| SearchResultHelpers.FlattenResults | pkg/nuclide/quick-open/lib/searchResultHelpers.js:36-44 | Pushing each directory's results and concatenating them gives `FlattenSpec`: every directory's results in key order, services outer and directories inner. |
| SearchResultHelpers.FlattenDirectoriesPrunedSame | pkg/nuclide/quick-open/lib/searchResultHelpers.js:24-27 | Dropping the empty directories does not change their flattening. |
| SearchResultHelpers.EmptyWhenNothingKept | pkg/nuclide/quick-open/lib/searchResultHelpers.js:29-31 | A service left with no non-empty directory contributes nothing to the flattening. |
| SearchResultHelpers.FlattenFilter | pkg/nuclide/quick-open/lib/searchResultHelpers.js:36-44 | `flattenResults(filterEmptyResults(g)) == flattenResults(g)`. |
| SearchResultHelpers.FlattenDirectoriesLength | pkg/nuclide/quick-open/lib/searchResultHelpers.js:39-40 | A service's flattening has one item per result of its directories. |
| SearchResultHelpers.FlattenLength | pkg/nuclide/quick-open/lib/searchResultHelpers.js:36-44 | The length of `flattenResults` is the sum of the lengths of all directories' results, counted independently from the front. |
| OutlineViewPanel.Panel.constructor | pkg/nuclide-outline-view/lib/OutlineViewPanel.js:104-130 | A new panel is open (not disposed), at the width it was given. |
| OutlineViewPanel.Panel.Dispose | pkg/nuclide-outline-view/lib/OutlineViewPanel.js:132-135 | The panel is disposed. |
| OutlineViewPanel.OutlineViewPanelState.constructor | pkg/nuclide-outline-view/lib/OutlineViewPanel.js:27-35 | The new state is visible iff `visible`, and its width is the argument. When visible, it holds a fresh panel opened at that width. |
| OutlineViewPanel.OutlineViewPanelState.Dispose | pkg/nuclide-outline-view/lib/OutlineViewPanel.js:37-41 | Afterwards the state is hidden and the width is unchanged. A panel that was held is disposed. When already hidden, nothing changes. |
| OutlineViewPanel.OutlineViewPanelState.Toggle | pkg/nuclide-outline-view/lib/OutlineViewPanel.js:43-49 | Visibility flips and the width is unchanged. The old panel is disposed, or a fresh one is opened at the current width. |
| OutlineViewPanel.OutlineViewPanelState.Show | pkg/nuclide-outline-view/lib/OutlineViewPanel.js:51-55 | Afterwards the state is visible and the width is unchanged. When already visible, the same panel is kept, so showing is idempotent. |
| OutlineViewPanel.OutlineViewPanelState.Hide | pkg/nuclide-outline-view/lib/OutlineViewPanel.js:57-61 | Afterwards the state is hidden and the width is unchanged. A panel that was held is disposed. When already hidden, nothing changes. |
| OutlineViewPanel.OutlineViewPanelState.ShowPanel | pkg/nuclide-outline-view/lib/OutlineViewPanel.js:71-81 | Only while hidden: it opens a fresh panel at the current width. |
| OutlineViewPanel.OutlineViewPanelState.HidePanel | pkg/nuclide-outline-view/lib/OutlineViewPanel.js:83-85 | Only while visible: the panel is disposed and released. |
| OutlineViewPanel.OutlineViewPanelState.DestroyPanel | pkg/nuclide-outline-view/lib/OutlineViewPanel.js:87-93 | Only while visible: the panel is disposed and released. The width is unchanged. |
| OutlineViewPanel.OutlineViewPanelState.OnResize | pkg/nuclide-outline-view/lib/OutlineViewPanel.js:95-97 | `getWidth()` returns the new width afterwards, and the panel held is unchanged. |
| OutlineViewPanel.ShowResizeToggle | pkg/nuclide-outline-view/lib/OutlineViewPanel.js:22-98 | A scenario: open hidden at 300, show twice, resize to 250, toggle off and on. The state ends up hidden at width 250 after the first toggle, and the panel is reopened at 250. |
| HgConstants.AllStatusCodesListed | pkg/nuclide-hg-rpc/lib/hg-constants.js:21-30 | The eight status names are all the status codes there are. |
| HgConstants.StatusCodeIdsDistinct | pkg/nuclide-hg-rpc/lib/hg-constants.js:21-30 | Every id is one character, and two codes share an id only if they are the same code. |
| HgConstants.StatusCodeNumbersOneToEight | pkg/nuclide-hg-rpc/lib/hg-constants.js:35-44 | Every number is between 1 and 8, and two codes share a number only if they are the same code. |
| HgConstants.StatusCodeNumbersOnto | pkg/nuclide-hg-rpc/lib/hg-constants.js:35-44 | Every number from 1 to 8 is some code's number. |
| HgConstants.IdToNumberAgrees | pkg/nuclide-hg-rpc/lib/hg-constants.js:49-58 | `StatusCodeIdToNumber[StatusCodeId.X] == StatusCodeNumber.X` for every status X. |
| HgConstants.IdToNumberKeys | pkg/nuclide-hg-rpc/lib/hg-constants.js:49-58 | The table's keys are exactly the eight ids. |
| HgConstants.StatusCodeOfNumber | pkg/nuclide-hg-rpc/lib/hg-constants.js:35-44 | It inverts `StatusCodeNumber` on 1 to 8. |
| HgConstants.IdOfNumber | pkg/nuclide-hg-rpc/lib/hg-constants.js:49-58 | It inverts the table: the id it gives for n maps to n. |
| HgConstants.IdToNumberBijection | pkg/nuclide-hg-rpc/lib/hg-constants.js:49-58 | The table maps its ids into 1 to 8, and inverting it round-trips both ways: id to number to id, and number to id to number. |
| HgConstants.StatusCodeId | pkg/nuclide-hg-rpc/lib/hg-constants.js:21-30 | Every status code's id is a single character. |
| HgConstants.StatusCodeNumber | pkg/nuclide-hg-rpc/lib/hg-constants.js:35-44 | Every status code's number lies between 1 and 8. |
| HgConstants.IdToNumberSize | pkg/nuclide-hg-rpc/lib/hg-constants.js:49-58 | `StatusCodeIdToNumber` has exactly eight entries, one per status code. |
| HgConstants.MergeConflictStatus.Value | pkg/nuclide-hg-rpc/lib/hg-constants.js:60-64 | Each merge-conflict status is a non-empty string. `EnumValuesDistinct` shows the three differ. |
| HgConstants.AmendMode.Value | pkg/nuclide-hg-rpc/lib/hg-constants.js:69-73 | Each amend mode is a non-empty string. `EnumValuesDistinct` shows the three differ. |
| HgConstants.CommitPhase.Value | pkg/nuclide-hg-rpc/lib/hg-constants.js:78-82 | Each commit phase is a non-empty string. `EnumValuesDistinct` shows the three differ. |
| HgConstants.HeadRevisionIsWorkingParent | pkg/nuclide-hg-rpc/lib/hg-constants.js:84 | `HEAD_REVISION_EXPRESSION` is the one-character revision expression `.`. |
| HgConstants.EnumValuesDistinct | pkg/nuclide-hg-rpc/lib/hg-constants.js:60-82 | `MergeConflictStatus`, `AmendMode` and `CommitPhase` each have three distinct string values. |

## Left out

- The body of `compareHackCompletions` is in `nuclide-hack-common/lib/autocomplete`, which is not part of this model. The key order above agrees with every test assertion, and it makes three choices that the tests do not force:
  - The prefix length is ranked above privacy. No test has two suggestions that differ in both.
  - Privacy is ranked above the two prefix tiers as well as the substring tiers. The tests force it only over the substring tiers, because no test name that starts with `_` is a prefix match. For example, for token `_g` the model puts `a_g` before `_g`.
  - A name that does not match at all is ranked below every match with the same replacement-prefix length and privacy.

  Ranking the match tier above the replacement-prefix length would reverse the order autocomplete-spec.js:75-83 expects, since `:foo` is only a substring match of `f`.
- `HackAutocomplete.Compare`: the alphabetical tie-break compares code units with JavaScript's `<` order. It does not use `localeCompare` or Unicode collation.
- Strings are sequences of Dafny `char`s, not UTF-16 code units.
- `toLowerCase` is modelled on the ASCII letters only. Other characters are left unchanged.
- `Array.prototype.sort` does not fix its algorithm. The model sorts by insertion. Because ranks are distinct in every test, the tests' results hold for any sort that returns a sorted permutation.
- The bodies of `findHackPrefix`, `getResultPrefix`, `getReplacementPrefix` and `sortAndFilterCompletions` are not part of this model. They are arbitrary total functions passed in as `HackLanguage.Helpers`.
- The Atom editor and buffer APIs (`editor.getText()`, `characterIndexForPosition`) are replaced by the request's contents string and an integer offset.
- `HackLanguage.UpdateReplacementPrefix`: a completion without a `displayText` makes the source throw (its `invariant`). In the model this is a precondition, not a modelled exception.
- `HackLanguage.Completion` carries a representative set of optional fields. Its full type declaration is not part of this model.
- The Hack service bootstrap is not modelled: `getUseIdeConnection`, `connectionToHackService`, `createLanguageService`, `hackLanguageService`, `resetHackLanguageService` and `isFileInHackProject`. These are asynchronous RPC, configuration and gatekeeper lookups, and a file-system search.
- `for...in` visits integer-like keys in numeric order before other keys. The model uses plain insertion order for every key.
- The results in a directory are of an arbitrary type `T`. `concat.apply([], items)` spreads each `results` array once, and every argument is an array, so `Concat` joining the arrays end to end is exact.
- The outline view UI is not modelled: the React rendering, `OutlineViewHeader`, `hideOutlineView`, `atom.workspace` panels and the `track` analytics call. `OutlineViewPanel` is reduced to its initial width and a disposed flag.
- The `outlines` Observable held by `OutlineViewPanelState` is not modelled; it is only handed on to new panels.
- Widths are unbounded integers, not JavaScript numbers.
- `isVisible()` and `getWidth()` are the functions `IsVisible()` and `GetWidth()`, with no contract of their own. The method contracts above are stated through them.
- The Flow enum casts in hg-constants.js (lines 33, 47, 67, 76, 87) have no runtime effect and are not modelled. `Object.freeze` is implicit, since datatypes and constants are immutable.
- `pkg/nuclide-debugger-base/lib/types.js` holds only type declarations and is not part of this model.
