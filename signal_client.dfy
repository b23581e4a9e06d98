/**
 * The client side of the signal channel, lib/signal-client.js: a map from
 * peer id to peer connection, driven by the type of each incoming message.
 * The WebRTC engine is kept opaque: a peer connection is a handle, and
 * what the client asks of the engine is recorded as a list of calls.
 * `establishPeerConnection` is split at its `await` into a register step,
 * run when the message arrives, and a send step, run when the engine's
 * offer or answer is ready.
 */
module SignalClient {
  import opened Wrappers
  import opened Messages
  import SdpCodec

  /** An `RTCPeerConnection`, by identity. */
  type PeerHandle = nat

  /** A call the client makes on a peer connection. */
  datatype EngineCall =
    | CreateDataChannel(peer: PeerHandle)
    | SetRemoteDescription(peer: PeerHandle, remote: Option<SdpCodec.SessionDescription>)
    | CreateAnswer(peer: PeerHandle)
    | CreateOffer(peer: PeerHandle)
    | SetLocalDescription(peer: PeerHandle, local: SdpCodec.SessionDescription)
    | AddIceCandidate(peer: PeerHandle, candidate: IceCandidate)

  /** A connection waiting for the engine's offer or answer: the peer id it serves and its handle. */
  datatype Pending = Pending(peerId: Option<string>, peer: PeerHandle)

  /**
   * The calls of the register step: the `main` data channel (negotiated,
   * id 1, ordered), then, as answerer, `setRemoteDescription(offer)` and
   * `createAnswer`, or, as offerer, `createOffer`.
   */
  function RegisterCalls(pc: PeerHandle, offer: Option<SdpCodec.SessionDescription>): seq<EngineCall>
  {
    [CreateDataChannel(pc)] + if offer.Some? then [SetRemoteDescription(pc, offer), CreateAnswer(pc)] else [CreateOffer(pc)]
  }

  /** `{ to: peerId, type: sdp.type, sdp }`. */
  function DescriptionMessage(peerId: Option<string>, d: SdpCodec.SessionDescription): Message
  {
    Message(d.sdpType, None, peerId, None, Some(d), None)
  }

  /** `{ type: 'candidate', candidate, to: peerId }`. */
  function CandidateMessage(peerId: Option<string>, c: Option<IceCandidate>): Message
  {
    Message("candidate", None, peerId, None, None, c)
  }

  predicate Establishes(kind: string)
  {
    kind == "join" || kind == "offer"
  }

  /** A `SignalClient`: its `uuid`, its `peers` map, and what it has asked of the engine and sent. */
  class Client {
    var uuid: Option<string>
    var peers: map<Option<string>, PeerHandle>
    var nextHandle: PeerHandle
    var calls: seq<EngineCall>
    var sent: seq<Message>

    /** Every handle in the map was created before the next one. */
    ghost predicate Valid()
      reads this
    {
      forall k :: k in peers ==> peers[k] < nextHandle
    }

    constructor ()
      ensures Valid() && uuid == None && peers == map[] && nextHandle == 0 && calls == [] && sent == []
    {
      uuid := None;
      peers := map[];
      nextHandle := 0;
      calls := [];
      sent := [];
    }

    /**
     * `createPeerConnection(peerId)` (lib/signal-client.js:66-86): a new
     * connection, unlike every one in the map, with its `main` data channel,
     * stored under `peerId` in place of any earlier one.
     */
    method CreatePeerConnection(peerId: Option<string>) returns (pc: PeerHandle)
      requires Valid()
      modifies this
      ensures Valid()
      ensures forall k :: k in old(peers) ==> old(peers)[k] != pc
      ensures peers == old(peers)[peerId := pc]
      ensures nextHandle == old(nextHandle) + 1 && pc == old(nextHandle)
      ensures calls == old(calls) + [CreateDataChannel(pc)]
      ensures uuid == old(uuid) && sent == old(sent)
    {
      pc := nextHandle;
      nextHandle := nextHandle + 1;
      calls := calls + [CreateDataChannel(pc)];
      peers := peers[peerId := pc];
    }

    /**
     * The register step of `establishPeerConnection(peerId, offer)`
     * (lib/signal-client.js:35-51, 56-57): create and store the connection,
     * then with an offer accept it and ask for an answer, without one ask
     * for an offer.
     */
    method Register(peerId: Option<string>, offer: Option<SdpCodec.SessionDescription>) returns (p: Pending)
      requires Valid()
      modifies this
      ensures Valid()
      ensures p == Pending(peerId, old(nextHandle))
      ensures forall k :: k in old(peers) ==> old(peers)[k] != p.peer
      ensures peers == old(peers)[peerId := p.peer]
      ensures nextHandle == old(nextHandle) + 1
      ensures calls == old(calls) + RegisterCalls(p.peer, offer)
      ensures uuid == old(uuid) && sent == old(sent)
    {
      var pc := CreatePeerConnection(peerId);
      if offer.Some? {
        calls := calls + [SetRemoteDescription(pc, offer), CreateAnswer(pc)];
      } else {
        calls := calls + [CreateOffer(pc)];
      }
      p := Pending(peerId, pc);
    }

    /**
     * The send step of `establishPeerConnection` (lib/signal-client.js:60-61):
     * when the engine produced a description, install it and send it to
     * the peer; when it failed, the error propagates and nothing happens.
     */
    method Complete(p: Pending, outcome: Option<SdpCodec.SessionDescription>)
      modifies this
      ensures outcome.None? ==> calls == old(calls) && sent == old(sent)
      ensures outcome.Some? ==>
        calls == old(calls) + [SetLocalDescription(p.peer, outcome.value)]
        && sent == old(sent) + [DescriptionMessage(p.peerId, outcome.value)]
      ensures uuid == old(uuid) && peers == old(peers) && nextHandle == old(nextHandle)
    {
      if outcome.Some? {
        calls := calls + [SetLocalDescription(p.peer, outcome.value)];
        sent := sent + [DescriptionMessage(p.peerId, outcome.value)];
      }
    }

    /**
     * The message listener (lib/signal-client.js:9-32). `welcome` sets the
     * uuid; `join` and `offer` register a new connection for the sender and
     * return it for the send step; `candidate` and `answer` reach the
     * sender's connection only when the sender is known (and a candidate
     * only when there is one); anything else, and text that does not parse,
     * changes nothing. Nothing is sent here.
     */
    method Dispatch(inbound: Inbound) returns (pending: Option<Pending>)
      requires Valid()
      modifies this
      ensures Valid()
      ensures sent == old(sent)
      ensures pending.Some? <==> inbound.Parsed? && Establishes(inbound.message.kind)
      ensures inbound.Parsed? && inbound.message.kind == "welcome" ==>
        uuid == inbound.message.uuid && peers == old(peers) && calls == old(calls)
      ensures !(inbound.Parsed? && inbound.message.kind == "welcome") ==> uuid == old(uuid)
      ensures inbound.Parsed? && Establishes(inbound.message.kind) ==>
        var m := inbound.message;
        && pending == Some(Pending(m.from, old(nextHandle)))
        && (forall k :: k in old(peers) ==> old(peers)[k] != old(nextHandle))
        && peers == old(peers)[m.from := old(nextHandle)]
        && nextHandle == old(nextHandle) + 1
        && calls == old(calls) + RegisterCalls(old(nextHandle), m.sdp)
      ensures !(inbound.Parsed? && Establishes(inbound.message.kind)) ==>
        peers == old(peers) && nextHandle == old(nextHandle)
      ensures inbound.Parsed? && inbound.message.kind == "candidate" ==>
        var m := inbound.message;
        calls == old(calls) +
          if m.from in old(peers) && m.candidate.Some? then [AddIceCandidate(old(peers)[m.from], m.candidate.value)] else []
      ensures inbound.Parsed? && inbound.message.kind == "answer" ==>
        var m := inbound.message;
        calls == old(calls) + if m.from in old(peers) then [SetRemoteDescription(old(peers)[m.from], m.sdp)] else []
      ensures (inbound.Unparseable? || !(Establishes(inbound.message.kind)
        || inbound.message.kind in {"welcome", "candidate", "answer"})) ==> calls == old(calls)
    {
      pending := None;
      if inbound.Parsed? {
        var m := inbound.message;
        if m.kind == "welcome" {
          uuid := m.uuid;
        } else if Establishes(m.kind) {
          var p := Register(m.from, m.sdp);
          pending := Some(p);
        } else if m.kind == "candidate" {
          if m.from in peers && m.candidate.Some? {
            calls := calls + [AddIceCandidate(peers[m.from], m.candidate.value)];
          }
        } else if m.kind == "answer" {
          if m.from in peers {
            calls := calls + [SetRemoteDescription(peers[m.from], m.sdp)];
          }
        }
      }
    }

    /** The `icecandidate` handler of the connection for `peerId` (lib/signal-client.js:74-77). */
    method OnIceCandidate(peerId: Option<string>, candidate: Option<IceCandidate>)
      modifies this
      ensures sent == old(sent) + [CandidateMessage(peerId, candidate)]
      ensures uuid == old(uuid) && peers == old(peers) && nextHandle == old(nextHandle) && calls == old(calls)
    {
      sent := sent + [CandidateMessage(peerId, candidate)];
    }

    /**
     * The `close` handler of the main data channel of the connection for
     * `peerId` (lib/signal-client.js:38-40): it deletes the key `peerId`,
     * whichever connection is stored under it now.
     */
    method OnChannelClose(peerId: Option<string>)
      requires Valid()
      modifies this
      ensures Valid()
      ensures peers == old(peers) - {peerId}
      ensures uuid == old(uuid) && nextHandle == old(nextHandle) && calls == old(calls) && sent == old(sent)
    {
      peers := peers - {peerId};
    }
  }
}
