/**
  The parts of a Gmail API message resource that the responder reads: its id and the header list
  of its payload. Both the payload and its header list may be absent (`undefined`), as in a list
  entry, which carries only an id.
 */
module Messages {
  import opened Wrappers

  datatype Header = Header(name: string, value: string)

  datatype Payload = Payload(headers: Option<seq<Header>>)

  datatype Message = Message(id: string, payload: Option<Payload>)

  /** The header list, when both `payload` and `payload.headers` are present. */
  function Headers(m: Message): Option<seq<Header>> {
    if m.payload.Some? then m.payload.value.headers else None
  }

  /** A message as `messages.get` returns it: with a payload and a header list. */
  function Fetched(id: string, headers: seq<Header>): (m: Message)
    ensures Headers(m) == Some(headers)
  {
    Message(id, Some(Payload(Some(headers))))
  }
}
