/**
  Sender-address extraction (`getEmailAddress`): the first header named exactly `From` is
  consulted; the text inside its leftmost `<...>` pair with at least one character inside is the
  address, and otherwise the whole header value is.
 */
module Address {
  import opened Wrappers
  import opened Seqs
  import opened Messages

  /** The header predicate passed to `find`: the name is exactly `From` (case-sensitive). */
  predicate IsFrom(h: Header) {
    h.name == "From"
  }

  /**
    The regular expression `/<([^>]+)>/` matches `s` at `i` with closing bracket `j`: `s[i]` is
    `<`, `s[j]` is `>`, at least one character lies between them and none of those is `>`.
   */
  ghost predicate BracketPair(s: string, i: int, j: int) {
    0 <= i && i + 2 <= j < |s| && s[i] == '<' && s[j] == '>' &&
    forall k :: i < k < j ==> s[k] != '>'
  }

  /** The match JavaScript reports: the pair with the leftmost opening bracket. */
  ghost predicate LeftmostPair(s: string, i: int, j: int) {
    BracketPair(s, i, j) && forall a, b :: 0 <= a < i ==> !BracketPair(s, a, b)
  }

  /** Position of the first `>` at or after `k`, or `|s|` when there is none. */
  function NextClose(s: string, k: nat): (j: nat)
    requires k <= |s|
    ensures k <= j <= |s|
    ensures j < |s| ==> s[j] == '>'
    ensures forall m :: k <= m < j ==> s[m] != '>'
    decreases |s| - k
  {
    if k == |s| || s[k] == '>' then k else NextClose(s, k + 1)
  }

  /**
    The regex engine's scan: try each start position from `i` on; at a `<` the greedy `[^>]+`
    runs up to the next `>`, and backtracking cannot help, so the attempt succeeds exactly when
    that `>` exists and is not the very next character.
   */
  function PairFrom(s: string, i: nat): (r: Option<(nat, nat)>)
    requires i <= |s|
    ensures r.Some? ==> i <= r.value.0 && BracketPair(s, r.value.0, r.value.1)
    ensures r.Some? ==> forall a, b :: i <= a < r.value.0 ==> !BracketPair(s, a, b)
    ensures r.None? ==> forall a, b :: i <= a ==> !BracketPair(s, a, b)
    decreases |s| - i
  {
    if i == |s| then None
    else
      var j := NextClose(s, i + 1);
      if s[i] == '<' && j < |s| && i + 2 <= j then Some((i, j))
      else
        var r := PairFrom(s, i + 1);
        r
  }

  /** `value.match(/<([^>]+)>/)[1]`: the captured text of the leftmost match, if any. */
  function AngleMatch(s: string): (r: Option<string>)
    ensures r.None? <==> forall i, j :: !BracketPair(s, i, j)
    ensures r.Some? ==> exists i, j :: LeftmostPair(s, i, j) && r.value == s[i + 1..j]
  {
    match PairFrom(s, 0)
    case None => None
    case Some((i, j)) =>
      assert LeftmostPair(s, i, j);
      Some(s[i + 1..j])
  }

  /** The captured address when the value matches, the whole value otherwise. */
  function AddressOf(value: string): string {
    match AngleMatch(value)
    case Some(a) => a
    case None => value
  }

  /** `headers.find(h => h.name === 'From')`, reached only when payload and headers exist. */
  function FromHeader(email: Message): (r: Option<Header>)
    ensures r.None? <==>
      (Headers(email).None? ||
       forall k :: 0 <= k < |Headers(email).value| ==> Headers(email).value[k].name != "From")
    ensures r.Some? ==> r.value.name == "From"
  {
    match Headers(email)
    case None => None
    case Some(hs) =>
      var r := Find(hs, IsFrom);
      assert r.Some? ==> IsFrom(r.value) by {
        if r.Some? { var i :| IsFirst(hs, IsFrom, i) && hs[i] == r.value; }
      }
      r
  }

  /** `r` occurs contiguously in `v`. */
  ghost predicate IsSubstring(r: string, v: string) {
    exists i, j :: 0 <= i <= j <= |v| && v[i..j] == r
  }

  /**
    `getEmailAddress(email)`: `''` without a `From` header (or without payload or header list),
    otherwise a piece of that header's value.
   */
  function GetEmailAddress(email: Message): (r: string)
    ensures FromHeader(email).None? ==> r == ""
    ensures FromHeader(email).Some? ==> IsSubstring(r, FromHeader(email).value.value)
  {
    match FromHeader(email)
    case None => ""
    case Some(h) =>
      var v := h.value;
      assert IsSubstring(AddressOf(v), v) by {
        if AngleMatch(v).None? {
          assert v[0..|v|] == v;
        }
      }
      AddressOf(v)
  }

  /** At most one pair is leftmost. */
  lemma LeftmostPairUnique(s: string, i: int, j: int, i': int, j': int)
    requires LeftmostPair(s, i, j) && LeftmostPair(s, i', j')
    ensures i == i' && j == j'
  {
  }

  /**
    When the `From` value holds a bracket pair, the address is the text inside the leftmost one:
    non-empty and free of `>`.
   */
  lemma AddressInBrackets(email: Message, i: int, j: int)
    requires FromHeader(email).Some?
    requires LeftmostPair(FromHeader(email).value.value, i, j)
    ensures GetEmailAddress(email) == FromHeader(email).value.value[i + 1..j]
    ensures |GetEmailAddress(email)| > 0 && '>' !in GetEmailAddress(email)
  {
    var v := FromHeader(email).value.value;
    var m := AngleMatch(v);
    assert m.Some? by { assert BracketPair(v, i, j); }
    var i', j' :| LeftmostPair(v, i', j') && m.value == v[i' + 1..j'];
    LeftmostPairUnique(v, i, j, i', j');
    assert forall k :: 0 <= k < |m.value| ==> m.value[k] == v[i + 1 + k];
  }

  /** Without a bracket pair the `From` value is returned verbatim. */
  lemma AddressVerbatim(email: Message)
    requires FromHeader(email).Some?
    requires forall i, j :: !BracketPair(FromHeader(email).value.value, i, j)
    ensures GetEmailAddress(email) == FromHeader(email).value.value
  {
  }

  /**
    Only the first `From` header is consulted: whatever follows it, including further `From`
    headers, never changes the address.
   */
  lemma OnlyFirstFromCounts(id: string, before: seq<Header>, from: Header, after: seq<Header>)
    requires from.name == "From"
    requires forall k :: 0 <= k < |before| ==> before[k].name != "From"
    ensures GetEmailAddress(Fetched(id, before + [from] + after)) == AddressOf(from.value)
  {
    var hs := before + [from] + after;
    assert IsFirst(hs, IsFrom, |before|);
    FindIsFirst(hs, IsFrom, |before|);
  }
}

/**
  The address-extraction cases the responder's design names, on concrete messages. A lemma about a
  concrete `From` value takes it as a parameter required to equal the literal: stated on the literal
  itself, the verifier would evaluate every function on it outright, which costs far more than the
  proof.
 */
module AddressExamples {
  import opened Wrappers
  import opened Messages
  import opened Address

  lemma NamedSenderPair()
    ensures LeftmostPair("Name <a@b.com>", 5, 13)
  {
    var v := "Name <a@b.com>";
    assert v[5] == '<' && v[13] == '>' && |v| == 14;
    assert forall k :: 5 < k < 13 ==> v[k] != '>';
    assert forall a :: 0 <= a < 5 ==> v[a] != '<';
  }

  /** `Name <a@b.com>`, sent after another header, gives the address inside the brackets. */
  lemma NamedSender(v: string)
    requires v == "Name <a@b.com>"
    ensures GetEmailAddress(Fetched("m1", [Header("Subject", "Hi"), Header("From", v)])) == "a@b.com"
  {
    var hs := [Header("Subject", "Hi"), Header("From", v)];
    assert [Header("Subject", "Hi")] + [Header("From", v)] + [] == hs;
    OnlyFirstFromCounts("m1", [Header("Subject", "Hi")], Header("From", v), []);
    NamedSenderPair();
    AddressInBrackets(Fetched("m1", hs), 5, 13);
    NamedSenderInside(v);
  }

  lemma NamedSenderInside(v: string)
    requires v == "Name <a@b.com>"
    ensures v[6..13] == "a@b.com"
  {
    assert forall k :: 0 <= k < 7 ==> v[6..13][k] == "a@b.com"[k];
  }

  lemma BareSender()
    ensures GetEmailAddress(Fetched("m2", [Header("From", "a@b.com")])) == "a@b.com"
  {
    var email := Fetched("m2", [Header("From", "a@b.com")]);
    assert FromHeader(email) == Some(Header("From", "a@b.com"));
    assert forall k :: 0 <= k < |"a@b.com"| ==> "a@b.com"[k] != '<';
    AddressVerbatim(email);
  }

  lemma NoSender()
    ensures GetEmailAddress(Fetched("m3", [Header("To", "a@b.com")])) == ""
    ensures GetEmailAddress(Message("m4", None)) == ""
    ensures GetEmailAddress(Message("m5", Some(Payload(None)))) == ""
  {
  }
}
