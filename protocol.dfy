/**
 * The wire protocol of the chat socket: what a client may send, what the
 * gateway sends back, and how the peer address is derived.
 * JSON decoding and encoding are library calls; their results are modelled
 * here as datatypes rather than as text.
 */
module Protocol {
  import opened Types

  /** A decoded inbound frame: either `JSON.parse` threw (or the value has no
      readable `type`), or it produced an object with these three fields. */
  datatype Inbound = Malformed | Event(kind: string, username: string, text: string)

  /** What the gateway writes to a socket. */
  datatype Outbound =
    | ErrorNotice(message: string)
    | ChatBroadcast(id: nat, username: string, text: string, timestamp: Timestamp)

  /** The notice a banned peer receives before its socket is closed. */
  const BannedMessage: string := "You are banned."

  /** The address a connection is checked against: the socket's remote
      address, or "unknown" when that is missing or empty (JavaScript `||`
      treats the empty string as absent too). */
  function PeerAddress(remote: Option<string>): (ip: Address)
    ensures ip != ""
    ensures remote.Some? && remote.value != "" ==> ip == remote.value
    ensures remote.None? || remote.value == "" ==> ip == "unknown"
  {
    match remote
    case Some(a) => if a != "" then a else "unknown"
    case None => "unknown"
  }

  /** The username and text of a frame the message handler acts on: exactly
      the well-formed frames whose `type` is "chat". Empty fields are accepted. */
  function ChatFields(frame: Inbound): (r: Option<(string, string)>)
    ensures r.Some? <==> frame.Event? && frame.kind == "chat"
    ensures r.Some? ==> r.value.0 == frame.username && r.value.1 == frame.text
  {
    match frame
    case Malformed => None
    case Event(kind, username, text) => if kind == "chat" then Some((username, text)) else None
  }
}
