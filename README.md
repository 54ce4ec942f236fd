# Gmail vacation auto-responder: a verified model of its core

The responder polls a Gmail account for unread inbox messages. It fetches each one and
classifies it: a message that carries an `In-Reply-To` header counts as already answered. It
sends every other message a fixed "Automatic Reply", addressed to the sender taken from the
`From` header. It then calls `createLabel('Vacation Auto-Reply')`, which only starts a
`labels.list` call and returns `undefined`. Right away, it sends a `messages.modify` request that
removes `INBOX` and adds that `undefined`. Later, from the list call's callback, the label is
created when the account has none of that name, so the create comes after the modify request.

This project models that core in Dafny:

- `Address`: sender extraction (`getEmailAddress`), including the semantics of the regular
  expression `/<([^>]+)>/`.
- `Classifier`: the `In-Reply-To` test.
- `Reply`: the reply serialiser. It builds the MIME text with an RFC 2047 "B" encoded subject,
  encodes it as UTF-8 bytes, then base64 with the URL-safe alphabet and no padding (the `raw`
  field of `messages.send`).
- `Base64` and `Utf8`: the encoders the serialiser relies on, with decoders for the round trips.
- `Labels`: the account's label table and lookup-or-create (`createLabel`).
- `Mailbox`: the polling cycle. It is a class whose fields are the label table, the payloads
  handed to `messages.send` and the requests handed to `messages.modify`. Its methods are
  `checkForNewEmails`, `processEmail`, `sendReply`, `labelEmail` and `createLabel`. Each method
  is proved against pure specification functions (`Process`, `Batch`, `Check`,
  `AfterCreateLabel`), and the lemmas state what a whole batch does.
- `Seqs`: the JavaScript array operations used (`find`, `some`, `join`). It also defines `Split`,
  which the source does not call: it is the partner of `join` that reads joined text back. `Wrappers`
  holds the `Option` type.

Every remote call is represented by its answer, given as a parameter (`Responses`): the message
`messages.get` returned, whether `labels.list` answered, and the id `labels.create` assigned.

`createLabel` is documented as returning the new label's id, but it returns nothing: both
Gmail calls finish later, in callbacks. The `addLabelIds` of every modify request is therefore
`[undefined]`, written `[None]` in the model, even when the label exists.

The MIME text carries the subject's encoded-word as the constant `=?utf-8?B?QXV0b21hdGljIFJlcGx5?=`;
`Reply.SubjectWord` proves it equal to the base64 encoding of the UTF-8 bytes of `Automatic
Reply`, which is how the source computes it.

The reply's lines end in a bare LF. The template literal of the encoded subject ends with a
line break, so three LFs follow the subject line: the header block ends in two empty lines.

## Model

| member | source | states |
|---|---|---|
| Address.AngleMatch | app.js:70-71 | `match(/<([^>]+)>/)` fails exactly when the value holds no `<`…`>` pair with at least one non-`>` character between; otherwise the capture is the text inside the leftmost such pair |
| Address.PairFrom | app.js:71 | the regex scan from a position finds a bracket pair whose opening is the leftmost at or after that position, or reports that none exists |
| Address.FromHeader | app.js:66-69 | no header is found exactly when the payload or its header list is missing or no header is named `From`; a found header is named `From` |
| Address.GetEmailAddress | app.js:66-79 | the result is `''` when there is no `From` header, and otherwise a substring of that header's value |
| Address.AddressInBrackets | app.js:70-73 | with a bracket pair in the `From` value, the address is the text inside the leftmost pair, non-empty and free of `>` |
| Address.AddressVerbatim | app.js:75 | without a bracket pair, the `From` value is returned whole |
| Address.OnlyFirstFromCounts | app.js:68-74 | only the first `From` header decides the address; headers after it never matter |
| AddressExamples.NamedSender | app.js:66-79 | a `From` value `Name <a@b.com>` gives `a@b.com`, with another header before `From` |
| AddressExamples.BareSender | app.js:75 | a bare `a@b.com` is returned unchanged |
| AddressExamples.NoSender | app.js:66-78 | no `From` header, no payload or no header list all give `''` |
| Seqs.Find | app.js:69 | `find` returns nothing exactly when no element satisfies the predicate, and otherwise the first element that does |
| Seqs.FindIsFirst | app.js:69 | the element at the first satisfying position is what `find` returns |
| Seqs.Any | app.js:183 | `some` holds exactly when some element satisfies the predicate |
| Classifier.IsReplied | app.js:183 | a message counts as replied exactly when one of its headers is named `In-Reply-To` |
| Classifier.MarkerIsCaseSensitive | app.js:183 | a lower-case `in-reply-to` does not count, and adding an `In-Reply-To` header makes a message count as replied |
| Seqs.SplitJoin | app.js:130 | joining LF-free lines with LF and splitting the result on LF gives the lines back |
| Seqs.JoinSplit | app.js:130 | splitting on LF and joining with LF gives the text back |
| Base64.DecodeStd | app.js:132 | standard padded base64 (`toString('base64')`) decodes back to the bytes |
| Base64.EncodeStd | app.js:132 | the padded encoding has length `4 * ceil(n / 3)` |
| Base64.StripTrailing | app.js:149 | `replace(/=+$/, '')` keeps a prefix, removes only `=` characters, and leaves no `=` at the end |
| Base64.ReplaceAll | app.js:147-148 | `replace(/\+/g, '-')` and `replace(/\//g, '_')` change every occurrence of the one character and nothing else |
| Base64.RawIsUnpaddedUrl | app.js:145-149 | the chain of replacements equals the URL-safe alphabet encoding with no padding |
| Base64.RawShape | app.js:145-149 | the `raw` text uses only URL-safe digits, has no `=`, and has length `ceil(4n / 3)` |
| Base64.RawRoundTrip | app.js:145-149 | putting the padding back and decoding with the URL-safe alphabet restores the bytes |
| Base64.DecodeEncoded | app.js:132 | base64 digits followed by their padding decode back to the bytes, for either alphabet |
| Utf8.EncodeChar | app.js:145 | every character becomes 1 to 4 bytes, one byte exactly for ASCII, with continuation bytes after the first |
| Utf8.DecodeEncode | app.js:145 | `Buffer.from(text)` encodes UTF-8 that decodes back to the text |
| Utf8.EncodeAscii | app.js:132 | ASCII text encodes as the list of its character codes |
| Reply.SubjectWord | app.js:132-133 | the encoded subject is `=?utf-8?B?QXV0b21hdGljIFJlcGx5?=` followed by an LF |
| Reply.SubjectDecodes | app.js:132 | the encoded subject decodes back to `Automatic Reply` |
| Reply.BodySplits | app.js:119-130 | the body splits on LF into the six lines of the message, ending with the signature |
| Reply.MimeLines | app.js:135-143 | split on LF, the MIME text is the three fixed header lines, `to:` with the sender's address, the subject line, two empty lines and the six body lines |
| Reply.ReplyLinesShape | app.js:119-143 | the reply has 13 lines; the fourth is `to: ` with the address and the last is the signature |
| Reply.RawReplyReadsBack | app.js:114-149 | the `raw` payload decodes (URL-safe base64, then UTF-8) to text whose lines are the reply's lines, addressed to the sender of the message |
| Reply.RawReplyShape | app.js:145-149 | the `raw` payload uses only URL-safe digits, carries no padding and has the unpadded length |
| Labels.Lookup | app.js:234 | a found label is in the table and has the name; nothing is found exactly when no label has it |
| Labels.AfterCreateLabel | app.js:227-248 | the table only grows, by at most one label; it grows exactly when the list call answered, no label had the name and the create call gave an id, and the new label has that id and the name |
| Labels.CreateLabelProvides | app.js:230-245 | after the call, a label of the name exists exactly when one did before or both calls succeeded |
| Labels.CreateLabelIdempotent | app.js:235-236 | once a label of the name exists, further calls change nothing, whatever the remote calls answer |
| Labels.CountNamedHas | app.js:234 | no label carries the name exactly when the count of labels carrying it is zero |
| Labels.CreateLabelKeepsNamesUnique | app.js:234-245 | lookup-or-create never gives any name a second label |
| Mailbox.LabelRequest | app.js:207-210 | a modify request names the message, removes `INBOX`, and adds one label id that is missing |
| Mailbox.Mailbox.CreateLabel | app.js:227-248 | the label table becomes `AfterCreateLabel` of the old one; nothing else changes |
| Mailbox.Mailbox.SendReply | app.js:111-165 | the encoded reply to the message's sender is appended to the outbox; nothing else changes |
| Mailbox.Mailbox.LabelEmail | app.js:200-219 | the label is looked up or created, and a request with `addLabelIds` `[undefined]` and `removeLabelIds` `['INBOX']` is appended for the listed message's id |
| Mailbox.Mailbox.ProcessEmail | app.js:172-192 | the new state is `Process` of the old one: nothing happens when the fetch fails or the message is replied; otherwise it is answered and labelled |
| Mailbox.Mailbox.CheckForNewEmails | app.js:85-104 | the new state is `Check` of the old one: nothing happens when the list call fails; otherwise the listed messages are processed in list order |
| Mailbox.ProcessUntouched | app.js:178-189 | a message leaves the account untouched exactly when it needs no reply (failed fetch or `In-Reply-To` present) |
| Mailbox.ProcessLabels | app.js:184-189 | one message only appends to the label table, at most the one `Vacation Auto-Reply` label |
| Mailbox.ProcessLog | app.js:184-189 | one message appends its reply and its modify request when it needs a reply, and nothing otherwise |
| Mailbox.BatchLog | app.js:96-98 | a batch appends exactly the replies for the messages needing one, in list order, and exactly their modify requests |
| Mailbox.RepliesCounted | app.js:183-189 | there are as many replies and as many modify requests as listed messages needing a reply |
| Mailbox.BatchCounts | app.js:96-98 | a batch sends one reply and one modify request per message needing one, and only appends to both logs |
| Mailbox.BatchLabels | app.js:96-98 | a batch only appends labels, and every one it appends is named `Vacation Auto-Reply` |
| Mailbox.RequestsShape | app.js:203-211 | every modify request adds the missing id, removes `INBOX`, and names a listed message that needed a reply |
| Mailbox.BatchKeepsLabelNamesUnique | app.js:234-245 | processed one after another, a batch never gives any name a second label |
| MailboxExamples.LabelCreated | app.js:172-248 | on an account whose only label is `INBOX`, one message needing a reply gets its reply, the `Vacation Auto-Reply` label is created with the id `labels.create` gave, and one request removes `INBOX` |
| MailboxExamples.FirstReply | app.js:172-219 | one unread message from `Name <a@b.com>` on an account without the `Vacation Auto-Reply` label: one reply to `a@b.com`, the label created, and one request removing `INBOX` |
| MailboxExamples.AlreadyReplied | app.js:183-185 | a message carrying `In-Reply-To` leaves the account untouched |
| MailboxExamples.ExistingLabel | app.js:209 | with the label already present, a message from any sender is answered, nothing is created, and the request still carries `undefined` rather than the label's id |

## Left out

- The OAuth flow, the token file and the console prompt (app.js:17-59) are not modelled; the model starts with an authorised client.
- Gmail API calls are not performed. Each call is represented by its answer: the fetched message, whether `labels.list` answered, and the id `labels.create` gave. The API's own error messages and console logging are left out.
- Callbacks run in an order the program does not control. The model processes listed messages one after another, each with its label lookup done before the next message. In the real program, the `labels.list` calls of a batch can all run before any create finishes, so they can all try to create the label. Within one message, the model records the label step and the modify request together, although the label is created after the request has gone out. Mailbox.BatchKeepsLabelNamesUnique therefore holds only under this sequential order.
- The outbox records the payloads handed to `messages.send`, and the modify log records the requests handed to `messages.modify`, whether or not Gmail accepts them. The server-side effect of a modify (the label applied, the message leaving the inbox) is not modelled.
- Mailbox.Mailbox.CheckForNewEmails: when the list response has no `messages` field, `emails.length` throws. The model takes the listed messages as a defined sequence (or a failed call) and does not model the crash.
- Labels.AfterCreateLabel: when the `labels.list` answer has no `labels` field, `labels.find` throws (app.js:233-234). The model takes the label table as a defined sequence and does not model the crash; Gmail always lists its system labels such as `INBOX`.
- Mailbox.Mailbox.ProcessEmail: a fetched message without a payload or header list makes `message.payload.headers` throw. The model requires fetched messages to have headers (`Fetchable`).
- The scheduler (`startAutoResponder`, app.js:253-264), the start-up `readFile` (app.js:275-280) and `getRandomInterval` (app.js:270-272) are clock, file and randomness code. They are not modelled.
- Reply.MimeLines and Reply.RawReplyReadsBack assume the sender's address holds no LF. Gmail header values do not, but the model's header values are arbitrary strings.
- Base64 and Utf8 model Node's `Buffer` encoders for the inputs the program gives them, which are JavaScript strings of Unicode scalar values. Lone surrogates, which `Buffer.from` replaces with U+FFFD, are not modelled.
