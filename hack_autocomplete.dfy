/**
 * The ranking of Hack autocomplete suggestions: the comparator that
 * `compareHackCompletions(token)` returns, the in-place sort the tests apply
 * it with, and the orderings the tests pin down.
 */
module HackAutocomplete {
  import opened Strings
  import opened ArraySort

  /** An autocomplete suggestion, with the fields the tests give it. */
  datatype Suggestion = Suggestion(
    snippet: string,
    displayText: string,
    rightLabel: string,
    replacementPrefix: string)

  /** The suggestion the tests build for a function named `text`. */
  function CreateCompletion(text: string, prefix: string := ""): (c: Suggestion)
    ensures c.displayText == text && c.replacementPrefix == prefix && c.rightLabel == "function"
    ensures StartsWith(c.snippet, c.displayText) && c.snippet[|text|..] == "()"
  {
    Suggestion(text + "()", text, "function", prefix)
  }

  /** How the typed token matches a suggestion's text, best first. */
  datatype MatchTier =
    | PrefixCaseSensitive
    | PrefixCaseInsensitive
    | SubstringCaseSensitive
    | SubstringCaseInsensitive
    | NoMatch
  {
    function Rank(): nat
    {
      match this
      case PrefixCaseSensitive => 0
      case PrefixCaseInsensitive => 1
      case SubstringCaseSensitive => 2
      case SubstringCaseInsensitive => 3
      case NoMatch => 4
    }
  }

  /** A case-sensitive occurrence is also a case-insensitive one. */
  lemma LowerKeepsOccurrence(s: string, t: string, k: nat)
    requires OccursAt(s, t, k)
    ensures OccursAt(ToLower(s), ToLower(t), k)
  {
    var ls, lt := ToLower(s), ToLower(t);
    assert ls[k..k + |t|] == lt by {
      forall i | 0 <= i < |t| ensures ls[k..k + |t|][i] == lt[i] {
        assert s[k..k + |t|][i] == t[i];
      }
    }
  }

  /** The tier of `text` for `token`, told by where `indexOf` finds the token. */
  function Tier(token: string, text: string): (r: MatchTier)
    ensures r != NoMatch <==> IndexOf(ToLower(text), ToLower(token)) != -1
  {
    var exact := IndexOf(text, token);
    var insensitive := IndexOf(ToLower(text), ToLower(token));
    assert exact != -1 ==> insensitive != -1 by {
      IndexOfFinds(text, token);
      IndexOfFinds(ToLower(text), ToLower(token));
      if exact != -1 {
        LowerKeepsOccurrence(text, token, exact);
      }
    }
    if exact == 0 then PrefixCaseSensitive
    else if insensitive == 0 then PrefixCaseInsensitive
    else if exact != -1 then SubstringCaseSensitive
    else if insensitive != -1 then SubstringCaseInsensitive
    else NoMatch
  }

  /** What each tier means in terms of prefixes and occurrences. */
  lemma TierMeaning(token: string, text: string)
    ensures Tier(token, text) == PrefixCaseSensitive <==> StartsWith(text, token)
    ensures Tier(token, text) == PrefixCaseInsensitive <==>
      !StartsWith(text, token) && StartsWith(ToLower(text), ToLower(token))
    ensures Tier(token, text) == SubstringCaseSensitive <==>
      !StartsWith(ToLower(text), ToLower(token)) && Contains(text, token)
    ensures Tier(token, text) == SubstringCaseInsensitive <==>
      !StartsWith(ToLower(text), ToLower(token)) && !Contains(text, token)
      && Contains(ToLower(text), ToLower(token))
    ensures Tier(token, text) == NoMatch <==> !Contains(ToLower(text), ToLower(token))
  {
    IndexOfFinds(text, token);
    IndexOfFinds(ToLower(text), ToLower(token));
    var exact := IndexOf(text, token);
    if exact != -1 {
      LowerKeepsOccurrence(text, token, exact);
    }
  }

  /** A name starting with an underscore is private by convention. */
  predicate IsPrivate(c: Suggestion): (r: bool)
    ensures r <==> StartsWith(c.displayText, "_")
  {
    c.displayText != [] && c.displayText[0] == '_'
  }

  /** The two suggestions agree on every ranking key. */
  predicate SameRank(token: string, a: Suggestion, b: Suggestion)
  {
    && |a.replacementPrefix| == |b.replacementPrefix|
    && IsPrivate(a) == IsPrivate(b)
    && Tier(token, a.displayText) == Tier(token, b.displayText)
    && a.displayText == b.displayText
  }

  /**
   * The comparator `compareHackCompletions(token)`: negative when `a` is to be
   * shown first, positive when `b` is. Keys, the first difference deciding:
   * the longer replacement prefix, then public before private, then the
   * better match tier, then the code-unit order of the display text.
   */
  function Compare(token: string, a: Suggestion, b: Suggestion): (r: int)
    ensures r == -1 || r == 0 || r == 1
    ensures r == 0 <==> SameRank(token, a, b)
  {
    var ta, tb := Tier(token, a.displayText), Tier(token, b.displayText);
    if |a.replacementPrefix| != |b.replacementPrefix| then
      (if |a.replacementPrefix| > |b.replacementPrefix| then -1 else 1)
    else if IsPrivate(a) != IsPrivate(b) then
      (if IsPrivate(b) then -1 else 1)
    else if ta != tb then
      (if ta.Rank() < tb.Rank() then -1 else 1)
    else
      CompareCodeUnits(a.displayText, b.displayText)
  }

  /** `a` may be placed before `b`. */
  predicate Le(token: string, a: Suggestion, b: Suggestion)
  {
    Compare(token, a, b) <= 0
  }

  /** A longer replacement prefix wins whatever the other keys say. */
  lemma LongerReplacementPrefixFirst(token: string, a: Suggestion, b: Suggestion)
    requires |a.replacementPrefix| > |b.replacementPrefix|
    ensures Compare(token, a, b) == -1 && Compare(token, b, a) == 1
  {
  }

  /** With equal replacement-prefix lengths, a public name beats a private one of any tier. */
  lemma PublicBeforePrivate(token: string, a: Suggestion, b: Suggestion)
    requires |a.replacementPrefix| == |b.replacementPrefix|
    requires !IsPrivate(a) && IsPrivate(b)
    ensures Compare(token, a, b) == -1 && Compare(token, b, a) == 1
  {
  }

  /** With the first two keys equal, the better tier wins whatever the names. */
  lemma BetterTierFirst(token: string, a: Suggestion, b: Suggestion)
    requires |a.replacementPrefix| == |b.replacementPrefix|
    requires IsPrivate(a) == IsPrivate(b)
    requires Tier(token, a.displayText).Rank() < Tier(token, b.displayText).Rank()
    ensures Compare(token, a, b) == -1 && Compare(token, b, a) == 1
  {
  }

  /** With the first three keys equal, the display texts decide in code-unit order. */
  lemma AlphabeticalTieBreak(token: string, a: Suggestion, b: Suggestion)
    requires |a.replacementPrefix| == |b.replacementPrefix|
    requires IsPrivate(a) == IsPrivate(b)
    requires Tier(token, a.displayText) == Tier(token, b.displayText)
    ensures Compare(token, a, b) == CompareCodeUnits(a.displayText, b.displayText)
  {
  }

  /** Swapping the arguments negates the result, as `Array.prototype.sort` needs. */
  lemma CompareAntisymmetric(token: string, a: Suggestion, b: Suggestion)
    ensures Compare(token, b, a) == -Compare(token, a, b)
  {
    CompareCodeUnitsAntisymmetric(a.displayText, b.displayText);
  }

  /** `Le` is transitive, so the comparator is a total preorder. */
  lemma LeTransitive(token: string, a: Suggestion, b: Suggestion, c: Suggestion)
    requires Le(token, a, b) && Le(token, b, c)
    ensures Le(token, a, c)
  {
    if SameRank(token, a, b) || SameRank(token, b, c) {
    } else if |a.replacementPrefix| == |b.replacementPrefix| == |c.replacementPrefix|
      && IsPrivate(a) == IsPrivate(b) == IsPrivate(c)
      && Tier(token, a.displayText) == Tier(token, b.displayText) == Tier(token, c.displayText)
    {
      CompareCodeUnitsTransitive(a.displayText, b.displayText, c.displayText);
    }
  }

  /** Every pair of a sequence is in comparator order. */
  predicate Sorted(token: string, s: seq<Suggestion>)
  {
    forall i, j :: 0 <= i < j < |s| ==> Le(token, s[i], s[j])
  }

  /** No two different suggestions of `s` compare equal. */
  predicate DistinctRanks(token: string, s: seq<Suggestion>)
  {
    forall i, j :: 0 <= i < |s| && 0 <= j < |s| && SameRank(token, s[i], s[j]) ==> s[i] == s[j]
  }

  /** The first elements of two sorted arrangements of the same suggestions agree. */
  lemma SortedHeadsAgree(token: string, s: seq<Suggestion>, t: seq<Suggestion>)
    requires s != [] && multiset(s) == multiset(t)
    requires Sorted(token, s) && Sorted(token, t)
    requires DistinctRanks(token, s)
    ensures t != [] && s[0] == t[0]
  {
    assert s[0] in multiset(t);
    assert t != [];
    var i :| 0 <= i < |t| && t[i] == s[0];
    assert t[0] in multiset(s);
    var j :| 0 <= j < |s| && s[j] == t[0];
    assert Le(token, t[0], s[0]);
    assert Le(token, s[0], t[0]);
    CompareAntisymmetric(token, s[0], t[0]);
    assert SameRank(token, s[0], s[j]);
  }

  /** Dropping the first element keeps ranks distinct. */
  lemma DistinctRanksTail(token: string, s: seq<Suggestion>)
    requires s != [] && DistinctRanks(token, s)
    ensures DistinctRanks(token, s[1..])
  {
    forall i, j | 0 <= i < |s| - 1 && 0 <= j < |s| - 1 && SameRank(token, s[1..][i], s[1..][j])
      ensures s[1..][i] == s[1..][j]
    {
      assert SameRank(token, s[i + 1], s[j + 1]);
    }
  }

  /** Dropping the first element keeps a sequence sorted. */
  lemma SortedTail(token: string, s: seq<Suggestion>)
    requires s != [] && Sorted(token, s)
    ensures Sorted(token, s[1..])
  {
    forall i, j | 0 <= i < j < |s| - 1 ensures Le(token, s[1..][i], s[1..][j]) {
      assert s[1..][i] == s[i + 1] && s[1..][j] == s[j + 1];
    }
  }

  /**
   * When no two different elements compare equal, there is only one sorted
   * arrangement of them: so any correct sort gives the same result.
   */
  lemma {:induction false} SortedPermutationUnique(token: string, s: seq<Suggestion>, t: seq<Suggestion>)
    requires multiset(s) == multiset(t)
    requires Sorted(token, s) && Sorted(token, t)
    requires DistinctRanks(token, s)
    ensures s == t
  {
    if s == [] {
      assert |t| == |multiset(t)| == 0;
    } else {
      SortedHeadsAgree(token, s, t);
      assert s == [s[0]] + s[1..] && t == [t[0]] + t[1..];
      calc {
        multiset(s[1..]);
        multiset(s) - multiset{s[0]};
        multiset(t) - multiset{t[0]};
        multiset(t[1..]);
      }
      DistinctRanksTail(token, s);
      SortedTail(token, s);
      SortedTail(token, t);
      SortedPermutationUnique(token, s[1..], t[1..]);
    }
  }

  /** The comparator is consistent, as `Array.prototype.sort` demands of it. */
  lemma CompareConsistent(token: string)
    ensures Consistent((x, y) => Compare(token, x, y))
  {
    var cmp := (x, y) => Compare(token, x, y);
    forall x, y ensures cmp(x, y) < 0 <==> cmp(y, x) > 0 {
      CompareAntisymmetric(token, x, y);
    }
    forall x, y, z | cmp(x, y) <= 0 && cmp(y, z) <= 0 ensures cmp(x, z) <= 0 {
      LeTransitive(token, x, y, z);
    }
  }

  /** `completions.sort(compareHackCompletions(token))`: reorders the array in place into comparator order. */
  method SortCompletions(token: string, a: array<Suggestion>)
    modifies a
    ensures Sorted(token, a[..])
    ensures multiset(a[..]) == multiset(old(a[..]))
  {
    CompareConsistent(token);
    Sort(a, (x, y) => Compare(token, x, y));
  }

  /** If `b` strictly follows `a` and `c` strictly follows `b`, then `c` strictly follows `a`. */
  lemma LtTransitive(token: string, a: Suggestion, b: Suggestion, c: Suggestion)
    requires Compare(token, a, b) == -1 && Compare(token, b, c) == -1
    ensures Compare(token, a, c) == -1
  {
    LeTransitive(token, a, b, c);
    CompareAntisymmetric(token, a, b);
    assert SameRank(token, a, c) ==> Compare(token, b, a) == Compare(token, b, c);
  }

  /** Each element strictly before the next: then every earlier element is strictly before every later one. */
  lemma {:induction false} StrictChainLt(token: string, t: seq<Suggestion>, i: nat, j: nat)
    requires forall k :: 0 <= k < |t| - 1 ==> Compare(token, t[k], t[k + 1]) == -1
    requires i < j < |t|
    ensures Compare(token, t[i], t[j]) == -1
    decreases j - i
  {
    if i + 1 < j {
      StrictChainLt(token, t, i + 1, j);
      LtTransitive(token, t[i], t[i + 1], t[j]);
    }
  }

  /** A strictly increasing sequence is sorted and has no two elements of the same rank. */
  lemma StrictChainSorted(token: string, t: seq<Suggestion>)
    requires forall k :: 0 <= k < |t| - 1 ==> Compare(token, t[k], t[k + 1]) == -1
    ensures Sorted(token, t) && DistinctRanks(token, t)
  {
    forall i, j | 0 <= i < j < |t| ensures Compare(token, t[i], t[j]) == -1 {
      StrictChainLt(token, t, i, j);
    }
  }
}
