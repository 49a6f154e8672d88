/**
 * The constant tables of the Mercurial service: the file status codes with
 * their one-character ids and their numbers, the lookup from id to number,
 * the merge-conflict, amend-mode and commit-phase values, and the revision
 * expression for the working copy's parent.
 */
module HgConstants {

  /** The names of `StatusCodeId` and `StatusCodeNumber`. */
  datatype StatusCode = Added | Clean | Ignored | Modified | Missing | Removed | Untracked | Unresolved

  /** Every status code, in the order the tables list them. */
  const AllStatusCodes: seq<StatusCode> :=
    [Added, Clean, Ignored, Modified, Missing, Removed, Untracked, Unresolved]

  /** `StatusCodeId`: the character `hg status` prints for the code. */
  function StatusCodeId(c: StatusCode): (id: string)
    ensures |id| == 1
  {
    match c
    case Added => "A"
    case Clean => "C"
    case Ignored => "I"
    case Modified => "M"
    case Missing => "!"  // deleted by another command, but still tracked
    case Removed => "R"
    case Untracked => "?"
    case Unresolved => "U"
  }

  /** `StatusCodeNumber`. */
  function StatusCodeNumber(c: StatusCode): (n: int)
    ensures 1 <= n <= 8
  {
    match c
    case Added => 1
    case Clean => 2
    case Ignored => 3
    case Modified => 4
    case Missing => 5
    case Removed => 6
    case Untracked => 7
    case Unresolved => 8
  }

  /** `StatusCodeIdToNumber`, keyed by the ids. */
  const StatusCodeIdToNumber: map<string, int> := map[
    StatusCodeId(Added) := StatusCodeNumber(Added),
    StatusCodeId(Clean) := StatusCodeNumber(Clean),
    StatusCodeId(Ignored) := StatusCodeNumber(Ignored),
    StatusCodeId(Modified) := StatusCodeNumber(Modified),
    StatusCodeId(Missing) := StatusCodeNumber(Missing),
    StatusCodeId(Removed) := StatusCodeNumber(Removed),
    StatusCodeId(Untracked) := StatusCodeNumber(Untracked),
    StatusCodeId(Unresolved) := StatusCodeNumber(Unresolved)]

  /** The eight codes are all listed. */
  lemma AllStatusCodesListed(c: StatusCode)
    ensures c in AllStatusCodes
  {
  }

  /** No two codes share an id, and every id is one character. */
  lemma StatusCodeIdsDistinct(c: StatusCode, d: StatusCode)
    ensures |StatusCodeId(c)| == 1
    ensures StatusCodeId(c) == StatusCodeId(d) <==> c == d
  {
  }

  /** The numbers are exactly 1 to 8, one per code. */
  lemma StatusCodeNumbersOneToEight(c: StatusCode, d: StatusCode)
    ensures 1 <= StatusCodeNumber(c) <= 8
    ensures StatusCodeNumber(c) == StatusCodeNumber(d) <==> c == d
  {
  }

  /** Every number from 1 to 8 belongs to a code. */
  lemma StatusCodeNumbersOnto(n: int)
    requires 1 <= n <= 8
    ensures exists c :: StatusCodeNumber(c) == n
  {
    assert StatusCodeNumber(AllStatusCodes[n - 1]) == n;
  }

  /** The lookup table sends each code's id to that code's number, and holds nothing else. */
  lemma IdToNumberAgrees(c: StatusCode)
    ensures StatusCodeId(c) in StatusCodeIdToNumber
    ensures StatusCodeIdToNumber[StatusCodeId(c)] == StatusCodeNumber(c)
  {
  }

  /** The table's keys are exactly the eight ids. */
  lemma IdToNumberKeys(id: string)
    ensures id in StatusCodeIdToNumber <==> exists c :: StatusCodeId(c) == id
  {
    if id in StatusCodeIdToNumber {
      assert id in {"A", "C", "I", "M", "!", "R", "U", "?"};
      if id == "A" { assert StatusCodeId(Added) == id; }
      else if id == "C" { assert StatusCodeId(Clean) == id; }
      else if id == "I" { assert StatusCodeId(Ignored) == id; }
      else if id == "M" { assert StatusCodeId(Modified) == id; }
      else if id == "!" { assert StatusCodeId(Missing) == id; }
      else if id == "R" { assert StatusCodeId(Removed) == id; }
      else if id == "?" { assert StatusCodeId(Untracked) == id; }
      else { assert StatusCodeId(Unresolved) == id; }
    }
  }

  /** The code whose number is `n`: the inverse of `StatusCodeNumber`. */
  function StatusCodeOfNumber(n: int): (c: StatusCode)
    requires 1 <= n <= 8
    ensures StatusCodeNumber(c) == n
  {
    AllStatusCodes[n - 1]
  }

  /** The id whose number is `n`: the inverse of the table. */
  function IdOfNumber(n: int): (id: string)
    requires 1 <= n <= 8
    ensures id in StatusCodeIdToNumber && StatusCodeIdToNumber[id] == n
  {
    IdToNumberAgrees(StatusCodeOfNumber(n));
    StatusCodeId(StatusCodeOfNumber(n))
  }

  /** The table is a bijection from the ids onto 1 to 8: looking up and inverting round-trip both ways. */
  lemma IdToNumberBijection(id: string, n: int)
    ensures id in StatusCodeIdToNumber ==>
      1 <= StatusCodeIdToNumber[id] <= 8 && IdOfNumber(StatusCodeIdToNumber[id]) == id
    ensures 1 <= n <= 8 ==> StatusCodeIdToNumber[IdOfNumber(n)] == n
  {
    if id in StatusCodeIdToNumber {
      IdToNumberKeys(id);
      var c :| StatusCodeId(c) == id;
      IdToNumberAgrees(c);
      StatusCodeNumbersOneToEight(c, c);
      var n' := StatusCodeIdToNumber[id];
      StatusCodeNumbersOneToEight(c, StatusCodeOfNumber(n'));
      StatusCodeIdsDistinct(c, StatusCodeOfNumber(n'));
    }
  }

  /** `MergeConflictStatus`. */
  datatype MergeConflictStatus = BothChanged | DeletedInTheirs | DeletedInOurs
  {
    function Value(): (v: string)
      ensures |v| > 0
    {
      match this
      case BothChanged => "both changed"
      case DeletedInTheirs => "deleted in theirs"
      case DeletedInOurs => "deleted in ours"
    }
  }

  /** `AmendMode`. */
  datatype AmendMode = AmendClean | Fixup | Rebase
  {
    function Value(): (v: string)
      ensures |v| > 0
    {
      match this
      case AmendClean => "Clean"
      case Fixup => "Fixup"
      case Rebase => "Rebase"
    }
  }

  /** `CommitPhase`. */
  datatype CommitPhase = Public | Draft | Secret
  {
    function Value(): (v: string)
      ensures |v| > 0
    {
      match this
      case Public => "public"
      case Draft => "draft"
      case Secret => "secret"
    }
  }

  /** The three values of each of the string enums are distinct. */
  lemma EnumValuesDistinct(m: MergeConflictStatus, m': MergeConflictStatus, a: AmendMode, a': AmendMode,
                           p: CommitPhase, p': CommitPhase)
    ensures m.Value() == m'.Value() <==> m == m'
    ensures a.Value() == a'.Value() <==> a == a'
    ensures p.Value() == p'.Value() <==> p == p'
  {
  }

  /** The revision expression for the parent of the working copy. */
  const HEAD_REVISION_EXPRESSION: string := "."

  /** The table holds exactly eight entries, one per status code. */
  lemma IdToNumberSize()
    ensures |StatusCodeIdToNumber| == |AllStatusCodes| == 8
  {
    assert StatusCodeIdToNumber.Keys == {"A", "C", "I", "M", "!", "R", "?", "U"};
  }

  /** The head revision is Mercurial's one-character name `.` for the working copy's parent. */
  lemma HeadRevisionIsWorkingParent()
    ensures HEAD_REVISION_EXPRESSION == "." && |HEAD_REVISION_EXPRESSION| == 1
  {
  }
}
