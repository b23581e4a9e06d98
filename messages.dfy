/**
 * The JSON messages of the signal channel, as the relay and the client read
 * and write them. A field the sender left out reads as `None`.
 */
module Messages {
  import opened Wrappers
  import SdpCodec

  /** The ICE candidate an `icecandidate` event carries, kept opaque. */
  datatype IceCandidate = IceCandidate(candidate: string)

  /** A parsed message: its `type` and the optional fields the two sides use. */
  datatype Message = Message(
    kind: string,
    from: Option<string>,
    to: Option<string>,
    uuid: Option<string>,
    sdp: Option<SdpCodec.SessionDescription>,
    candidate: Option<IceCandidate>)

  /** The text of a message event: either `JSON.parse` throws, or it yields a message. */
  datatype Inbound = Unparseable | Parsed(message: Message)

  /** `{ type: 'join', from: u }`. */
  function JoinNotice(u: string): Message
  {
    Message("join", Some(u), None, None, None, None)
  }

  /** `{ type: 'welcome', uuid: u }`. */
  function Welcome(u: string): Message
  {
    Message("welcome", None, None, Some(u), None, None)
  }

  /** The types the relay forwards. */
  predicate Relayed(kind: string)
  {
    kind == "offer" || kind == "answer" || kind == "candidate"
  }
}
