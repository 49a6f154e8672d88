/**
 * The few JavaScript string operations the ranking relies on, on `seq<char>`:
 * `startsWith`, `indexOf`, `toLowerCase` (ASCII letters only) and the
 * code-unit order of the relational operators.
 */
module Strings {

  /** `s.startsWith(p)`. */
  predicate StartsWith(s: string, p: string)
  {
    |p| <= |s| && s[..|p|] == p
  }

  /** `t` occurs in `s` at index `k`. */
  predicate OccursAt(s: string, t: string, k: nat)
  {
    k + |t| <= |s| && s[k..k + |t|] == t
  }

  /** `s.includes(t)`: `t` occurs somewhere in `s`. */
  ghost predicate Contains(s: string, t: string)
  {
    exists k: nat :: OccursAt(s, t, k)
  }

  /** `s.indexOf(t)`. */
  function IndexOf(s: string, t: string): int
  {
    FindFrom(s, t, 0)
  }

  /** `indexOf` gives the first index at which `t` occurs in `s`, or -1 when it occurs nowhere. */
  lemma IndexOfFinds(s: string, t: string)
    ensures var r := IndexOf(s, t);
      && (r == -1 <==> !Contains(s, t))
      && (r != -1 ==> 0 <= r && OccursAt(s, t, r))
      && (r != -1 ==> forall k: nat :: k < r ==> !OccursAt(s, t, k))
      && (r == 0 <==> StartsWith(s, t))
  {
    assert OccursAt(s, t, 0) <==> StartsWith(s, t) by {
      assert |t| <= |s| ==> s[0..|t|] == s[..|t|];
    }
    FindFromFinds(s, t, 0);
  }

  /** The search behind `indexOf`: tries each index from `from` on in turn. */
  function FindFrom(s: string, t: string, from: nat): int
    decreases |s| - from
  {
    if |s| < from + |t| then -1
    else if MatchesFrom(s, t, from, 0) then from
    else FindFrom(s, t, from + 1)
  }

  /** `FindFrom` gives the first occurrence at or after `from`, or -1 when there is none. */
  lemma {:induction false} FindFromFinds(s: string, t: string, from: nat)
    ensures var r := FindFrom(s, t, from);
      && (r == -1 <==> forall k: nat :: from <= k ==> !OccursAt(s, t, k))
      && (r != -1 ==> from <= r && OccursAt(s, t, r))
      && (r != -1 ==> forall k: nat :: from <= k < r ==> !OccursAt(s, t, k))
    decreases |s| - from
  {
    if from + |t| <= |s| {
      assert OccursAt(s, t, from) <==> MatchesFrom(s, t, from, 0) by {
        MatchesFromOccurs(s, t, from, 0);
        assert t[0..] == t;
      }
      if !MatchesFrom(s, t, from, 0) {
        FindFromFinds(s, t, from + 1);
      }
    }
  }

  /** The characters of `t` from index `i` on are those of `s` from `k + i` on. */
  predicate MatchesFrom(s: string, t: string, k: nat, i: nat)
    requires k + |t| <= |s| && i <= |t|
    decreases |t| - i
  {
    i == |t| || (s[k + i] == t[i] && MatchesFrom(s, t, k, i + 1))
  }

  /** The character-by-character comparison decides `OccursAt`. */
  lemma {:induction false} MatchesFromOccurs(s: string, t: string, k: nat, i: nat)
    requires k + |t| <= |s| && i <= |t|
    ensures MatchesFrom(s, t, k, i) <==> s[k + i..k + |t|] == t[i..]
    decreases |t| - i
  {
    if i < |t| {
      MatchesFromOccurs(s, t, k, i + 1);
      assert s[k + i..k + |t|] == [s[k + i]] + s[k + i + 1..k + |t|];
      assert t[i..] == [t[i]] + t[i + 1..];
    }
  }

  /** `c.toLowerCase()` for the ASCII letters; every other character is left as it is. */
  function LowerChar(c: char): (r: char)
    ensures 'A' <= c <= 'Z' ==> r != c && 'a' <= r <= 'z'
    ensures !('A' <= c <= 'Z') ==> r == c
  {
    if 'A' <= c <= 'Z' then (c as int - 'A' as int + 'a' as int) as char else c
  }

  /** `s.toLowerCase()`, character by character. */
  function ToLower(s: string): (r: string)
    ensures |r| == |s|
    ensures forall i :: 0 <= i < |s| ==> r[i] == LowerChar(s[i])
  {
    seq(|s|, i requires 0 <= i < |s| => LowerChar(s[i]))
  }

  /**
   * The order of JavaScript's `<` on strings: the first differing character
   * decides, and a proper prefix comes first. -1, 0 or 1.
   */
  function CompareCodeUnits(a: string, b: string): (r: int)
    ensures r == -1 || r == 0 || r == 1
    ensures r == 0 <==> a == b
  {
    if a == [] && b == [] then 0
    else if a == [] then -1
    else if b == [] then 1
    else if a[0] < b[0] then -1
    else if b[0] < a[0] then 1
    else
      var r := CompareCodeUnits(a[1..], b[1..]);
      assert r == 0 <==> a == b by {
        assert a == [a[0]] + a[1..] && b == [b[0]] + b[1..];
      }
      r
  }

  /** Swapping the arguments negates the result. */
  lemma {:induction false} CompareCodeUnitsAntisymmetric(a: string, b: string)
    ensures CompareCodeUnits(b, a) == -CompareCodeUnits(a, b)
  {
    if a != [] && b != [] && a[0] == b[0] {
      CompareCodeUnitsAntisymmetric(a[1..], b[1..]);
    }
  }

  /** The order is transitive. */
  lemma {:induction false} CompareCodeUnitsTransitive(a: string, b: string, c: string)
    requires CompareCodeUnits(a, b) <= 0 && CompareCodeUnits(b, c) <= 0
    ensures CompareCodeUnits(a, c) <= 0
  {
    if a != [] && b != [] && c != [] && a[0] == b[0] == c[0] {
      CompareCodeUnitsTransitive(a[1..], b[1..], c[1..]);
    }
  }

  /** After a common prefix of length `k`, the first differing character decides. */
  lemma {:induction false} FirstDifferenceDecides(a: string, b: string, k: nat)
    requires k < |a| && k < |b| && a[..k] == b[..k] && a[k] < b[k]
    ensures CompareCodeUnits(a, b) == -1
  {
    if k > 0 {
      assert a[0] == a[..k][0] == b[..k][0] == b[0];
      assert a[1..][..k - 1] == a[..k][1..] == b[..k][1..] == b[1..][..k - 1];
      FirstDifferenceDecides(a[1..], b[1..], k - 1);
    }
  }
}
