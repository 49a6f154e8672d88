/**
 * The hook the Hack language service gives the autocomplete cache: when the
 * user types on, the cached first result is re-annotated with fresh
 * replacement prefixes and re-sorted, instead of asking the server again.
 *
 * The prefix helpers and the sort-and-filter step live in code this model
 * does not see, so they are parameters: any total functions will do, and
 * every property below holds whatever they are.
 */
module HackLanguage {
  import opened Wrappers

  /** An autocomplete suggestion; every field may be absent. */
  datatype Completion = Completion(
    text: Option<string>,
    snippet: Option<string>,
    displayText: Option<string>,
    replacementPrefix: Option<string>,
    completionType: Option<string>,
    leftLabel: Option<string>,
    rightLabel: Option<string>,
    description: Option<string>)

  /** What the request tells about the editor: its text and the cursor as a character index. */
  datatype Request = Request(contents: string, offset: int)

  /** The autocomplete helpers whose bodies are not part of this model. */
  datatype Helpers = Helpers(
    findHackPrefix: (string, int) -> string,
    getResultPrefix: (string, int, string) -> string,
    getReplacementPrefix: (string, string) -> string,
    sortAndFilterCompletions: (seq<Completion>, string) -> seq<Completion>)

  /** Every completion names what it displays. */
  predicate AllNamed(completions: seq<Completion>)
  {
    forall i :: 0 <= i < |completions| ==> completions[i].displayText.Some?
  }

  /** `b` is `a` with, at most, another replacement prefix. */
  predicate DiffersOnlyInReplacementPrefix(a: Completion, b: Completion)
  {
    a.(replacementPrefix := b.replacementPrefix) == b
  }

  /** The replacement prefix the helpers give a completion named `name`. */
  function PrefixFor(h: Helpers, request: Request, name: string, prefixCandidate: string): string
  {
    h.getReplacementPrefix(h.getResultPrefix(request.contents, request.offset, name), prefixCandidate)
  }

  /** One step of the `map`: the completion, spread, with its new replacement prefix. */
  function Annotate(h: Helpers, request: Request, c: Completion, prefixCandidate: string): (r: Completion)
    requires c.displayText.Some?
    ensures DiffersOnlyInReplacementPrefix(c, r)
    ensures r.replacementPrefix == Some(PrefixFor(h, request, c.displayText.value, prefixCandidate))
  {
    c.(replacementPrefix := Some(PrefixFor(h, request, c.displayText.value, prefixCandidate)))
  }

  /**
   * `updateReplacementPrefix`: the completions in their order, each with the
   * replacement prefix worked out from the same editor text and offset.
   * A completion without a display text fails the source's invariant.
   */
  function UpdateReplacementPrefix(h: Helpers, request: Request, firstResult: seq<Completion>,
                                   prefixCandidate: string): (r: seq<Completion>)
    requires AllNamed(firstResult)
    ensures |r| == |firstResult|
    ensures forall i :: 0 <= i < |r| ==> DiffersOnlyInReplacementPrefix(firstResult[i], r[i])
    ensures forall i :: 0 <= i < |r| ==>
      r[i].replacementPrefix == Some(PrefixFor(h, request, firstResult[i].displayText.value, prefixCandidate))
    decreases |firstResult|
  {
    if firstResult == [] then []
    else
      [Annotate(h, request, firstResult[0], prefixCandidate)]
      + UpdateReplacementPrefix(h, request, firstResult[1..], prefixCandidate)
  }

  /**
   * `updateAutocompleteResults`: nothing when there was no first result;
   * otherwise one prefix is located at the cursor and used both to annotate
   * the completions and to sort and filter them.
   */
  function UpdateAutocompleteResults(h: Helpers, request: Request,
                                     firstResult: Option<seq<Completion>>): (r: Option<seq<Completion>>)
    requires firstResult.Some? ==> AllNamed(firstResult.value)
    ensures firstResult.None? <==> r.None?
    ensures firstResult.Some? ==>
      var prefix := h.findHackPrefix(request.contents, request.offset);
      r == Some(h.sortAndFilterCompletions(UpdateReplacementPrefix(h, request, firstResult.value, prefix), prefix))
  {
    match firstResult
    case None => None
    case Some(completions) =>
      var replacementPrefix := h.findHackPrefix(request.contents, request.offset);
      var updatedCompletions := UpdateReplacementPrefix(h, request, completions, replacementPrefix);
      Some(h.sortAndFilterCompletions(updatedCompletions, replacementPrefix))
  }

  /** The update keeps every display text, so the result stays fit for another update. */
  lemma UpdateKeepsNames(h: Helpers, request: Request, firstResult: seq<Completion>, prefixCandidate: string)
    requires AllNamed(firstResult)
    ensures var r := UpdateReplacementPrefix(h, request, firstResult, prefixCandidate);
      AllNamed(r) && forall i :: 0 <= i < |r| ==> r[i].displayText == firstResult[i].displayText
  {
  }

  /** The old replacement prefixes play no part: updating again with the same candidate changes nothing. */
  lemma {:induction false} UpdateIdempotent(h: Helpers, request: Request, firstResult: seq<Completion>,
                                            prefixCandidate: string)
    requires AllNamed(firstResult)
    ensures var once := UpdateReplacementPrefix(h, request, firstResult, prefixCandidate);
      AllNamed(once) && UpdateReplacementPrefix(h, request, once, prefixCandidate) == once
    decreases |firstResult|
  {
    var once := UpdateReplacementPrefix(h, request, firstResult, prefixCandidate);
    UpdateKeepsNames(h, request, firstResult, prefixCandidate);
    if firstResult != [] {
      UpdateIdempotent(h, request, firstResult[1..], prefixCandidate);
      assert once[1..] == UpdateReplacementPrefix(h, request, firstResult[1..], prefixCandidate);
    }
  }

  /** The update goes element by element: it distributes over concatenation. */
  lemma {:induction false} UpdateConcat(h: Helpers, request: Request, xs: seq<Completion>, ys: seq<Completion>,
                                        prefixCandidate: string)
    requires AllNamed(xs) && AllNamed(ys)
    ensures AllNamed(xs + ys)
    ensures UpdateReplacementPrefix(h, request, xs + ys, prefixCandidate)
         == UpdateReplacementPrefix(h, request, xs, prefixCandidate)
          + UpdateReplacementPrefix(h, request, ys, prefixCandidate)
    decreases |xs|
  {
    if xs != [] {
      assert (xs + ys)[1..] == xs[1..] + ys;
      UpdateConcat(h, request, xs[1..], ys, prefixCandidate);
    }
  }
}
