/**
  The reply classifier of `processEmail`: a fetched message counts as already replied exactly
  when one of its headers is named `In-Reply-To`.
 */
module Classifier {
  import opened Seqs
  import opened Messages

  /** The header predicate passed to `some`: the name is exactly `In-Reply-To` (case-sensitive). */
  predicate IsInReplyTo(h: Header) {
    h.name == "In-Reply-To"
  }

  /** `headers.some(h => h.name === 'In-Reply-To')`. */
  function IsReplied(headers: seq<Header>): (r: bool)
    ensures r <==> exists k :: 0 <= k < |headers| && headers[k].name == "In-Reply-To"
  {
    Any(headers, IsInReplyTo)
  }

  /** Only the names matter, and a differently cased name is not the marker. */
  lemma MarkerIsCaseSensitive(headers: seq<Header>)
    requires forall k :: 0 <= k < |headers| ==> headers[k].name in {"in-reply-to", "From", "Subject"}
    ensures !IsReplied(headers)
    ensures IsReplied(headers + [Header("In-Reply-To", "")])
  {
    var hs := headers + [Header("In-Reply-To", "")];
    assert hs[|headers|].name == "In-Reply-To";
  }
}
