/**
  The polling cycle of the responder: `checkForNewEmails` walks the listed unread messages and
  `processEmail` answers each one not yet replied to, labels it and takes it out of the inbox.

  The account is a `Mailbox` object: its label table, the `raw` payloads handed to
  `messages.send` and the requests handed to `messages.modify`. The answers of the remote calls
  for one listed message are given as a `Responses` value.
 */
module Mailbox {
  import opened Wrappers
  import opened Seqs
  import opened Messages
  import opened Address
  import opened Classifier
  import opened Labels
  import opened Reply

  /** The label `processEmail` applies. */
  const VacationLabel: string := "Vacation Auto-Reply"

  /**
    A `messages.modify` request. `createLabel` returns nothing, so the one entry of
    `addLabelIds` is always JavaScript's `undefined`, written `None`.
   */
  datatype Modification = Modification(id: string, addLabelIds: seq<Option<string>>, removeLabelIds: seq<string>)

  /** The request `labelEmail` sends for the message `id`. */
  function LabelRequest(id: string): (m: Modification)
    ensures m.id == id && m.removeLabelIds == ["INBOX"]
    ensures |m.addLabelIds| == 1 && m.addLabelIds[0].None?
  {
    Modification(id, [None], ["INBOX"])
  }

  /**
    The answers the remote calls give while one listed message is processed: the message
    `messages.get` returned (`None` when it failed), whether `labels.list` answered, and the id
    `labels.create` gave the new label (`None` when it failed).
   */
  datatype Responses = Responses(fetched: Option<Message>, labelsListed: bool, createdId: Option<string>)

  /** The source reads `message.payload.headers` without a check: a fetched message has them. */
  predicate Fetchable(r: Responses) {
    r.fetched.Some? ==> Headers(r.fetched.value).Some?
  }

  predicate AllFetchable(responses: seq<Responses>) {
    forall k :: 0 <= k < |responses| ==> Fetchable(responses[k])
  }

  /** The message was fetched and carries no `In-Reply-To` header. */
  predicate NeedsReply(r: Responses) {
    r.fetched.Some? && match Headers(r.fetched.value)
      case Some(headers) => !IsReplied(headers)
      case None => false
  }

  /** What the responder has done to the account so far. */
  datatype State = State(labels: seq<Label>, outbox: seq<string>, modifications: seq<Modification>)

  /** `processEmail` on the list entry `email`, as a function of the state before it. */
  function Process(s: State, email: Message, r: Responses): State
    requires Fetchable(r)
  {
    if NeedsReply(r) then
      State(AfterCreateLabel(s.labels, VacationLabel, r.labelsListed, r.createdId),
            s.outbox + [RawReply(r.fetched.value)],
            s.modifications + [LabelRequest(email.id)])
    else s
  }

  /** The listed messages processed in order, as a function of the state before them. */
  function Batch(s: State, emails: seq<Message>, responses: seq<Responses>): State
    requires |emails| == |responses| && AllFetchable(responses)
    decreases |emails|
  {
    if |emails| == 0 then s
    else
      var n := |emails| - 1;
      Process(Batch(s, emails[..n], responses[..n]), emails[n], responses[n])
  }

  /** `checkForNewEmails`: nothing happens when `messages.list` fails. */
  function Check(s: State, listed: Option<seq<Message>>, responses: seq<Responses>): State
    requires listed.Some? ==> |listed.value| == |responses| && AllFetchable(responses)
  {
    if listed.None? then s else Batch(s, listed.value, responses)
  }

  class Mailbox {
    var labels: seq<Label>
    var outbox: seq<string>
    var modifications: seq<Modification>

    function Current(): State
      reads this
    {
      State(labels, outbox, modifications)
    }

    /** An account with the given labels, before the responder has sent or modified anything. */
    constructor(labels: seq<Label>)
      ensures Current() == State(labels, [], [])
    {
      this.labels := labels;
      outbox := [];
      modifications := [];
    }

    /** `createLabel`: look the name up and create the label when it is missing. */
    method CreateLabel(name: string, listed: bool, created: Option<string>)
      modifies this
      ensures labels == AfterCreateLabel(old(labels), name, listed, created)
      ensures outbox == old(outbox) && modifications == old(modifications)
    {
      if !listed {
        return;
      }
      var found := Lookup(labels, name);
      if found.None? && created.Some? {
        labels := labels + [Label(created.value, name)];
      }
    }

    /** `sendReply`: hand the encoded reply to `message`'s sender to `messages.send`. */
    method SendReply(message: Message)
      modifies this
      ensures outbox == old(outbox) + [RawReply(message)]
      ensures labels == old(labels) && modifications == old(modifications)
    {
      outbox := outbox + [RawReply(message)];
    }

    /**
      `labelEmail`: `createLabel` runs while the request is built, and its missing result is what
      the request carries in `addLabelIds`.
     */
    method LabelEmail(email: Message, name: string, listed: bool, created: Option<string>)
      modifies this
      ensures labels == AfterCreateLabel(old(labels), name, listed, created)
      ensures outbox == old(outbox)
      ensures modifications == old(modifications) + [LabelRequest(email.id)]
    {
      CreateLabel(name, listed, created);
      modifications := modifications + [LabelRequest(email.id)];
    }

    /** `processEmail`: fetch the message, and answer and label it unless it was replied to. */
    method ProcessEmail(email: Message, r: Responses)
      requires Fetchable(r)
      modifies this
      ensures Current() == Process(old(Current()), email, r)
    {
      if r.fetched.None? {
        return;
      }
      var message := r.fetched.value;
      var headers := Headers(message).value;
      var isReplied := IsReplied(headers);
      if !isReplied {
        SendReply(message);
        LabelEmail(email, VacationLabel, r.labelsListed, r.createdId);
      }
    }

    /** `checkForNewEmails`: process every listed unread message in list order. */
    method CheckForNewEmails(listed: Option<seq<Message>>, responses: seq<Responses>)
      requires listed.Some? ==> |listed.value| == |responses| && AllFetchable(responses)
      modifies this
      ensures Current() == Check(old(Current()), listed, responses)
    {
      if listed.None? {
        return;
      }
      var emails := listed.value;
      if |emails| == 0 {
        return;
      }
      var i := 0;
      while i < |emails|
        invariant 0 <= i <= |emails|
        invariant Current() == Batch(old(Current()), emails[..i], responses[..i])
      {
        assert emails[..i + 1][..i] == emails[..i];
        assert responses[..i + 1][..i] == responses[..i];
        ProcessEmail(emails[i], responses[i]);
        i := i + 1;
      }
      assert emails[..i] == emails && responses[..i] == responses;
    }
  }

  /** A message leaves the account untouched exactly when it needs no reply. */
  lemma ProcessUntouched(s: State, email: Message, r: Responses)
    requires Fetchable(r)
    ensures Process(s, email, r) == s <==> !NeedsReply(r)
  {
    if NeedsReply(r) {
      assert |Process(s, email, r).outbox| == |s.outbox| + 1;
    }
  }

  /** One message appends at most one label, named `Vacation Auto-Reply`, and removes none. */
  lemma ProcessLabels(s: State, email: Message, r: Responses)
    requires Fetchable(r)
    ensures var t := Process(s, email, r);
      s.labels <= t.labels && forall k :: |s.labels| <= k < |t.labels| ==> t.labels[k].name == VacationLabel
  {
  }

  /** The replies a batch should send: one per message needing a reply, in list order. */
  function Replies(responses: seq<Responses>): seq<string>
    decreases |responses|
  {
    if |responses| == 0 then []
    else
      var n := |responses| - 1;
      var r := responses[n];
      Replies(responses[..n]) + (if NeedsReply(r) then [RawReply(r.fetched.value)] else [])
  }

  /** The modify requests a batch should send: one per message needing a reply, in list order. */
  function Requests(emails: seq<Message>, responses: seq<Responses>): seq<Modification>
    requires |emails| == |responses|
    decreases |emails|
  {
    if |emails| == 0 then []
    else
      var n := |emails| - 1;
      Requests(emails[..n], responses[..n]) + (if NeedsReply(responses[n]) then [LabelRequest(emails[n].id)] else [])
  }

  /** One message appends its reply and its request, when it needs a reply, and nothing otherwise. */
  lemma ProcessLog(s: State, email: Message, r: Responses)
    requires Fetchable(r)
    ensures Process(s, email, r).outbox == s.outbox + (if NeedsReply(r) then [RawReply(r.fetched.value)] else [])
    ensures Process(s, email, r).modifications == s.modifications + (if NeedsReply(r) then [LabelRequest(email.id)] else [])
  {
  }

  /** A batch appends exactly its replies to the outbox and exactly its requests to the modify log. */
  lemma {:induction false} BatchLog(s: State, emails: seq<Message>, responses: seq<Responses>)
    requires |emails| == |responses| && AllFetchable(responses)
    ensures var t := Batch(s, emails, responses);
      t.outbox == s.outbox + Replies(responses) && t.modifications == s.modifications + Requests(emails, responses)
    decreases |emails|
  {
    if |emails| > 0 {
      var n := |emails| - 1;
      BatchLog(s, emails[..n], responses[..n]);
      var u := Batch(s, emails[..n], responses[..n]);
      ProcessLog(u, emails[n], responses[n]);
      var r := responses[n];
      var sent := if NeedsReply(r) then [RawReply(r.fetched.value)] else [];
      var asked := if NeedsReply(r) then [LabelRequest(emails[n].id)] else [];
      assert Replies(responses) == Replies(responses[..n]) + sent;
      assert Requests(emails, responses) == Requests(emails[..n], responses[..n]) + asked;
      AppendAssoc(s.outbox, Replies(responses[..n]), sent);
      AppendAssoc(s.modifications, Requests(emails[..n], responses[..n]), asked);
    }
  }

  /** There are as many replies and as many requests as messages needing a reply. */
  lemma {:induction false} RepliesCounted(emails: seq<Message>, responses: seq<Responses>)
    requires |emails| == |responses|
    ensures |Replies(responses)| == CountWhere(responses, NeedsReply)
    ensures |Requests(emails, responses)| == CountWhere(responses, NeedsReply)
    decreases |emails|
  {
    if |emails| > 0 {
      var n := |emails| - 1;
      RepliesCounted(emails[..n], responses[..n]);
      assert responses[..n] == responses[..|responses| - 1];
    }
  }

  /** A batch sends one reply and one modify request per listed message needing a reply. */
  lemma BatchCounts(s: State, emails: seq<Message>, responses: seq<Responses>)
    requires |emails| == |responses| && AllFetchable(responses)
    ensures var t := Batch(s, emails, responses);
      s.outbox <= t.outbox && s.modifications <= t.modifications &&
      |t.outbox| == |s.outbox| + CountWhere(responses, NeedsReply) &&
      |t.modifications| == |s.modifications| + CountWhere(responses, NeedsReply)
  {
    BatchLog(s, emails, responses);
    RepliesCounted(emails, responses);
  }

  /** A batch only appends labels, and only ones named `Vacation Auto-Reply`. */
  lemma {:induction false} BatchLabels(s: State, emails: seq<Message>, responses: seq<Responses>)
    requires |emails| == |responses| && AllFetchable(responses)
    ensures var t := Batch(s, emails, responses);
      s.labels <= t.labels && forall k :: |s.labels| <= k < |t.labels| ==> t.labels[k].name == VacationLabel
    decreases |emails|
  {
    if |emails| > 0 {
      var n := |emails| - 1;
      BatchLabels(s, emails[..n], responses[..n]);
      ProcessLabels(Batch(s, emails[..n], responses[..n]), emails[n], responses[n]);
    }
  }

  /** `m` adds the missing label id, removes `INBOX` and names a listed message that needed a reply. */
  ghost predicate RequestForListed(m: Modification, emails: seq<Message>, responses: seq<Responses>) {
    m.addLabelIds == [None] && m.removeLabelIds == ["INBOX"] &&
    exists j :: 0 <= j < |emails| && j < |responses| && emails[j].id == m.id && NeedsReply(responses[j])
  }

  /** Every modify request of a batch is one for a listed message that needed a reply. */
  lemma {:induction false} RequestsShape(emails: seq<Message>, responses: seq<Responses>)
    requires |emails| == |responses|
    ensures forall k :: 0 <= k < |Requests(emails, responses)| ==>
      RequestForListed(Requests(emails, responses)[k], emails, responses)
    decreases |emails|
  {
    if |emails| > 0 {
      var n := |emails| - 1;
      RequestsShape(emails[..n], responses[..n]);
      var p := Requests(emails[..n], responses[..n]);
      var q := Requests(emails, responses);
      assert q == p + (if NeedsReply(responses[n]) then [LabelRequest(emails[n].id)] else []);
      forall k | 0 <= k < |q|
        ensures RequestForListed(q[k], emails, responses)
      {
        if k < |p| {
          assert q[k] == p[k];
          assert RequestForListed(p[k], emails[..n], responses[..n]);
          var j :| 0 <= j < n && emails[..n][j].id == p[k].id && NeedsReply(responses[..n][j]);
          assert emails[j].id == q[k].id && NeedsReply(responses[j]);
        } else {
          assert q[k] == LabelRequest(emails[n].id);
          assert emails[n].id == q[k].id && NeedsReply(responses[n]);
        }
      }
    }
  }

  /** A batch never gives the account a second label of any name. */
  lemma {:induction false} BatchKeepsLabelNamesUnique(s: State, emails: seq<Message>, responses: seq<Responses>, name: string)
    requires |emails| == |responses| && AllFetchable(responses)
    requires CountNamed(s.labels, name) <= 1
    ensures CountNamed(Batch(s, emails, responses).labels, name) <= 1
    decreases |emails|
  {
    if |emails| > 0 {
      var n := |emails| - 1;
      BatchKeepsLabelNamesUnique(s, emails[..n], responses[..n], name);
      var u := Batch(s, emails[..n], responses[..n]);
      CreateLabelKeepsNamesUnique(u.labels, VacationLabel, responses[n].labelsListed, responses[n].createdId, name);
    }
  }
}

module MailboxExamples {
  import opened Wrappers
  import opened Messages
  import opened Address
  import opened AddressExamples
  import opened Classifier
  import opened Labels
  import opened Reply
  import opened Mailbox

  /**
    On an account whose only label is `INBOX`, one unread message that needs a reply gets it: the
    `Vacation Auto-Reply` label is created with the id `labels.create` gave, and one modify
    request removes `INBOX`.
   */
  lemma LabelCreated(m: Message)
    requires NeedsReply(Responses(Some(m), true, Some("L1")))
    ensures Batch(State([Label("I", "INBOX")], [], []), [Message("m1", None)], [Responses(Some(m), true, Some("L1"))]) ==
      State([Label("I", "INBOX"), Label("L1", VacationLabel)], [RawReply(m)], [Modification("m1", [None], ["INBOX"])])
  {
    var r := Responses(Some(m), true, Some("L1"));
    assert [Message("m1", None)][..0] == [] && [r][..0] == [];
    assert !HasLabel([Label("I", "INBOX")], VacationLabel) by {
      assert "INBOX"[0] != VacationLabel[0];
    }
    assert [Label("I", "INBOX")] + [Label("L1", VacationLabel)] == [Label("I", "INBOX"), Label("L1", VacationLabel)];
  }

  /**
    One unread message from a named sender, on an account without the `Vacation Auto-Reply`
    label: one reply to the address in angle brackets, the label created, and one modify request
    that removes `INBOX`.
   */
  lemma FirstReply(v: string)
    requires v == "Name <a@b.com>"
    ensures var m := Fetched("m1", [Header("Subject", "Hi"), Header("From", v)]);
      GetEmailAddress(m) == "a@b.com" &&
      Batch(State([Label("I", "INBOX")], [], []), [Message("m1", None)], [Responses(Some(m), true, Some("L1"))]) ==
        State([Label("I", "INBOX"), Label("L1", VacationLabel)], [RawReply(m)], [Modification("m1", [None], ["INBOX"])])
  {
    NamedSender(v);
    var m := Fetched("m1", [Header("Subject", "Hi"), Header("From", v)]);
    assert !IsReplied([Header("Subject", "Hi"), Header("From", v)]);
    LabelCreated(m);
  }

  /** A message carrying `In-Reply-To` is left alone. */
  lemma AlreadyReplied(s: State)
    ensures var m := Fetched("m2", [Header("In-Reply-To", "<x@y>"), Header("From", "a@b.com")]);
      Batch(s, [Message("m2", None)], [Responses(Some(m), true, Some("L1"))]) == s
  {
    var m := Fetched("m2", [Header("In-Reply-To", "<x@y>"), Header("From", "a@b.com")]);
    assert Headers(m).value[0].name == "In-Reply-To";
    assert [Message("m2", None)][..0] == [];
  }

  /**
    With the label already there, a message from any sender gets its reply, nothing is created,
    and the modify request still carries the missing result of `createLabel` rather than the
    existing label's id.
   */
  lemma ExistingLabel(sender: string)
    ensures var m := Fetched("m1", [Header("From", sender)]);
      Batch(State([Label("L0", VacationLabel)], [], []), [Message("m1", None)], [Responses(Some(m), true, Some("L9"))]) ==
        State([Label("L0", VacationLabel)], [RawReply(m)], [Modification("m1", [None], ["INBOX"])])
  {
    var m := Fetched("m1", [Header("From", sender)]);
    assert !IsReplied(Headers(m).value);
    assert HasLabel([Label("L0", VacationLabel)], VacationLabel) by {
      assert [Label("L0", VacationLabel)][0].name == VacationLabel;
    }
    assert [Message("m1", None)][..0] == [];
  }
}
