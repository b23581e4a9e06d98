# webrtc-signal in Dafny

This project models the core of a small WebRTC signalling library. Two
parties open a direct data channel. They negotiate it through a relay
and exchange compacted session descriptions. The model has four parts.

- **The session-description codec** (`lib/local-connection.js:3-59`).
  - `compressSDP` reduces an SDP offer or answer to
    `<role>,<ice-ufrag>,<ice-pwd>,<fingerprint-base64>,<proto|host|port>,...`.
  - `decompressSDP` rebuilds a fixed data-channel description around those
    fields. Its origin id comes from a module-level counter.
  - The fingerprint is carried as base64: `btoa`/`atob` follow section 4 of
    RFC 4648. It is rendered back as upper-case colon-separated hex
    (section 5 of RFC 8122).
  - Files: `base64.dfy`, `fingerprint.dfy`, `sdp_codec.dfy` and
    `sdp_roundtrip.dfy`. The last holds the round-trip theorems.
- **The signal relay** `SignalServer` (`src/signal-server.js`).
  - A class `Relay` holds the `connections` Map and the list of everything
    sent. The Map's keys are also kept in insertion order.
  - `join` announces the newcomer to every registered connection. It then
    registers and welcomes the newcomer.
  - The message handler routes offers, answers and candidates by `to`, and
    overwrites `from` with the sender.
  - The close handler deletes the uuid.
  - File: `signal_server.dfy`. The message record is in `messages.dfy`.
- **The signal client** `SignalClient` (`lib/signal-client.js`).
  - A class `Client` holds `uuid`, the `peers` Map and two logs: the calls
    it makes on peer connections, and the messages it sends.
  - An `RTCPeerConnection` is an opaque handle.
  - `establishPeerConnection` is split at its `await`. The register step runs
    when the message arrives. The send step runs when the engine has produced
    its offer or answer.
  - File: `signal_client.dfy`.
- **The log-level gate** `proxyConsole` (`src/console.js`).
  - A class `LevelGate` holds `level` and `silenced`. The set trap
    validates a level and refills `silenced` with a loop. `Get` is the get
    trap as written; `IntendedGet` is the trap as evidently intended (see
    "## Findings").
  - `ProxyConsole` takes the default level `info`, and `DefaultConsole` is
    the module's default export.
  - File: `console.dfy`.

Shared pieces:
- `text.dfy` holds JavaScript's `split`, `join`, `startsWith`, `includes`
  and decimal rendering, with their lemmas.
- `wrappers.dfy` holds `Option` and `Result`.

A thrown exception is modelled as an `Err` result. JSON text is modelled as
the `Message` datatype, with an `Unparseable` case for text that
`JSON.parse` rejects. `undefined` fields are `None`.

Three behaviours of the code are worth knowing before reading the model.
- `compressSDP` checks neither the hash name nor the length of the
  fingerprint line (lib/local-connection.js:22). `encodeFingerprint`
  re-encodes whatever follows the first 22 characters
  (lib/local-connection.js:4).
- When a description has no usable candidate, `compressSDP` writes a
  trailing comma, as in `o,u,p,fp,`. Decompressing that string writes a
  stray `a=candidate:` line with no transport and `undefined` host and
  port, and compressing the result throws. See
  `SdpRoundTrip.NoCandidatesTrailingComma` and
  `SdpRoundTrip.TrailingCommaMalformed`. A string without the trailing
  comma, such as `o,u,p,fp`, comes back with no candidate line at all.
- The get trap of the logging proxy never silences a level's method. See
  "## Findings".

## Model

| member | source | states |
|---|---|---|
| Base64.EncodeDecode | lib/local-connection.js:4-8 | `atob(btoa(b)) == b` for every byte string |
| Base64.EncodedLength | lib/local-connection.js:4 | `btoa` writes four characters per started group of three bytes |
| Base64.Encode | lib/local-connection.js:4 | `btoa` writes a text whose length is a multiple of four and whose every character is in the base64 alphabet or is `=`; `Base64.EncodeDecode` makes `atob` its inverse |
| Base64.Decode | lib/local-connection.js:8 | `atob` succeeds exactly when the text without its padding has an allowed length and only alphabet characters |
| Fingerprint.EncodeFingerprint | lib/local-connection.js:3-5 | the result is base64 that decodes to exactly the bytes of the colon-separated hex pieces after the first 22 characters, in order; its length is 4 per started group of three pieces |
| Fingerprint.DecodeFingerprint | lib/local-connection.js:7-15 | fails exactly when `atob` fails; otherwise the result starts with `a=fingerprint:sha-256 ` and renders the decoded bytes |
| Fingerprint.RenderedParts | lib/local-connection.js:10-14 | each rendered byte is exactly two upper-case hex digits naming that byte, zero-padded, and the pieces split back on `:` in order |
| Fingerprint.DecodeEncodeFingerprint | lib/local-connection.js:3-15 | `decodeFingerprint(encodeFingerprint(L)) == L` for every `a=fingerprint:sha-256 ` line with at least one upper-case two-digit pair |
| Fingerprint.EncodeDecodeFingerprint | lib/local-connection.js:3-15 | `encodeFingerprint(decodeFingerprint(f)) == f` for the base64 of any non-empty byte string |
| Fingerprint.EmptyFingerprint | lib/local-connection.js:4-14 | an empty fingerprint decodes to the bare prefix, which re-encodes as one zero byte (`AA==`) |
| SdpCodec.FirstWithPrefix | lib/local-connection.js:20-22 | `find` returns nothing exactly when no line starts with the prefix; otherwise it returns the first line that does |
| SdpCodec.ParseCandidate | lib/local-connection.js:27 | a parsed candidate has transport `udp` or `tcp`, a non-empty host in the address class and a decimal port |
| SdpCodec.CompactCandidates | lib/local-connection.js:24-29 | the candidate pipeline succeeds exactly when every retained candidate line matches the pattern; otherwise it throws |
| SdpCodec.CompressLines | lib/local-connection.js:17-31 | throws for a missing ufrag, then a missing pwd, then a missing fingerprint line, then a malformed retained candidate, each case exactly characterised; otherwise the result starts with the role character and a comma |
| SdpCodec.CompressSDP | lib/local-connection.js:17-31 | on success the compact string starts with the first character of the type and a comma |
| SdpCodec.RenderCandidates | lib/local-connection.js:38-53 | the `priority++` loop gives the i-th compact candidate priority i, in order, one line per candidate |
| SdpCodec.DecompressWith | lib/local-connection.js:35-59 | fails exactly when the fourth field, or `undefined` if missing, is not base64; role `o` gives `offer` and anything else `answer` |
| SdpCodec.SessionCounter.DecompressSDP | lib/local-connection.js:33-59 | uses the current origin id and advances the counter by exactly one, even when the fingerprint then fails |
| SdpCodec.SessionCounter.constructor | lib/local-connection.js:33 | the first origin id is 4503599627370496 |
| SdpRoundTrip.CompactCandidatesAppend | lib/local-connection.js:24-29 | the candidate pipeline distributes over concatenation, so retained candidates keep their input order |
| SdpRoundTrip.CandidateLineRoundTrip | lib/local-connection.js:24-53 | a candidate line written for a well-formed candidate passes the loopback filter and parses back to that candidate |
| SdpRoundTrip.CompactFields | lib/local-connection.js:30-36 | a compact string built from n well-formed candidates splits into exactly 4 + n fields, which are its parts |
| SdpRoundTrip.DecompressedLayout | lib/local-connection.js:38-57 | the decompressed text is the fixed line list: origin line, `setup` role, credentials, fingerprint, candidate i at priority i, the three fixed lines, and a trailing CRLF |
| SdpRoundTrip.OriginIdsDistinct | lib/local-connection.js:33-42 | descriptions decompressed with different origin ids differ in their origin line |
| SdpRoundTrip.DecompressCompact | lib/local-connection.js:35-59 | decompressing a compact string writes the description line list of its parts, with the type its role names |
| SdpRoundTrip.CompressDescription | lib/local-connection.js:17-31 | compressing that line list gives the compact string back when there is at least one candidate |
| SdpRoundTrip.RoundTrip | lib/local-connection.js:17-59 | `compressSDP(decompressSDP(c))` gives back every compact string with at least one well-formed candidate, a role and credentials free of commas and carriage returns, and a fingerprint field that is `btoa` of a non-empty byte string, whatever the origin id; the role comes back as `o` for `o` and as `a` for any other role, so `p` (from `pranswer`) becomes `a` |
| SdpRoundTrip.DescriptionRoundTrip | lib/local-connection.js:17-59 | `decompressSDP(compressSDP(d))` has the same first ufrag and pwd lines as `d`, a fingerprint line naming the same bytes, and the same candidates in the same order, under the type its role names; with role `o` or `a`, compressing it again gives the same compact string |
| SdpRoundTrip.ParsedCandidates | lib/local-connection.js:24-29 | the candidates read from the retained lines are well-formed, and the candidate pipeline renders exactly them, in order |
| SdpRoundTrip.RetainedWellFormed | lib/local-connection.js:24-27 | a retained line that matches the pattern gives a candidate whose host holds neither loopback text, because the line holds none |
| SdpRoundTrip.CompressFound | lib/local-connection.js:17-31 | when all three attributes are found and some candidate is retained, the compact string is the role, the rest of the first ufrag and pwd lines, the encoded fingerprint and the rendered candidates, joined by commas |
| SdpRoundTrip.CompressFoundNone | lib/local-connection.js:17-31 | when all three attributes are found and no candidate is retained, the compact string is the same four fields followed by a trailing comma |
| SdpRoundTrip.LoopbackDropped | lib/local-connection.js:24-26 | a candidate line mentioning `127.0.0.1` or `::1` anywhere can be inserted anywhere without changing what compression returns |
| SdpRoundTrip.LinkLocalDropped | lib/local-connection.js:25 | a candidate line that mentions `fe80::1ab` is dropped too, because it contains `::1` |
| SdpRoundTrip.NoCandidatesTrailingComma | lib/local-connection.js:30 | with no candidates, compressing the decompressed description gives the compact string with a trailing comma added |
| SdpRoundTrip.TrailingCommaMalformed | lib/local-connection.js:24-53 | decompressing the comma-terminated string that `compressSDP` writes without candidates writes one bogus candidate line with no transport and `undefined` host and port; compressing it throws |
| SdpRoundTrip.MissingFields | lib/local-connection.js:36-49 | a compact string of fewer than four fields cannot be decompressed |
| SignalServer.Without | src/signal-server.js:11 | deleting a key removes exactly that key and keeps the others distinct |
| SignalServer.WithoutKeepsOrder | src/signal-server.js:11 | deleting a key keeps the other keys in their insertion order, the order the broadcast follows |
| SignalServer.Forwarded | src/signal-server.js:14-28 | at most one delivery; exactly one when an offer, answer or candidate names a registered `to`; it goes to that connection with `from` overwritten and every other field kept |
| SignalServer.BroadcastAt | src/signal-server.js:30-32 | the loop sends the join notice to each registered connection, in the Map's iteration order |
| SignalServer.BroadcastSkips | src/signal-server.js:30-32 | a connection not registered receives no join notice, in particular not the newcomer |
| SignalServer.BroadcastOnce | src/signal-server.js:30-32 | a connection registered under one uuid receives the join notice exactly once |
| SignalServer.JoinKeepsRegistry | src/signal-server.js:34 | `set` keeps the key order and the Map in step, with every key once |
| SignalServer.CloseKeepsRegistry | src/signal-server.js:11 | `delete` keeps the key order and the Map in step |
| SignalServer.Relay.constructor | src/signal-server.js:4-6 | the relay starts with no connections and nothing sent |
| SignalServer.Relay.Join | src/signal-server.js:8-39 | broadcast to every earlier connection, then `connections[u] := c` with the other entries unchanged, then the welcome to `c`; returns `u` |
| SignalServer.Relay.Receive | src/signal-server.js:14-28 | the connections are unchanged and the sent log grows by exactly the forwarded delivery, if any |
| SignalServer.Relay.Close | src/signal-server.js:9-12 | deletes key `u` whichever connection is now registered under it, and sends nothing |
| SignalClient.Client.constructor | lib/signal-client.js:4-7 | the client starts with no peers, no uuid and nothing sent |
| SignalClient.Client.CreatePeerConnection | lib/signal-client.js:66-86 | a fresh handle, unlike every stored one, with its `main` data channel, stored under the peer id in place of any earlier one |
| SignalClient.Client.Register | lib/signal-client.js:35-57 | the register step: a fresh connection, then `setRemoteDescription` and `createAnswer` when there is an offer, `createOffer` otherwise |
| SignalClient.Client.Complete | lib/signal-client.js:60-61 | the send step: installs the engine's description and sends exactly one `{to, type, sdp}` message; an engine failure sends nothing |
| SignalClient.Client.Dispatch | lib/signal-client.js:9-32 | `welcome` sets only `uuid`; `join`/`offer` register a fresh connection under `from` and use up one handle; `candidate` and `answer` reach only a known peer, a candidate only when present; anything else changes nothing |
| SignalClient.Client.OnIceCandidate | lib/signal-client.js:74-77 | each ICE candidate event sends one `{type: 'candidate', candidate, to}` message and changes nothing else |
| SignalClient.Client.OnChannelClose | lib/signal-client.js:38-40 | the main channel's close deletes the peer id, whichever connection it holds now |
| Console.FindIndex | src/console.js:25 | the first position of the value, or -1 exactly when it is absent |
| Console.Lookup | src/console.js:16-22 | the get trap as written: `level` reads the level, and a passed-through read is the property asked for |
| Console.LookupNeverSilences | src/console.js:18-21 | as written, no level name (`debug` to `silent`) is ever replaced by the no-op, whatever the level |
| Console.IndexKeyIsGated | src/console.js:18-21 | as written, the index key `0` is replaced exactly when something is silenced |
| Console.LengthIsGated | src/console.js:18-21 | as written, `length` is always replaced by the no-op |
| Console.IntendedSilencesBelow | src/console.js:18-30 | as intended, a level's method is the no-op exactly when it ranks below the level set |
| Console.DefaultLevels | src/console.js:3-30 | `info` silences `debug` only, `debug` silences nothing, `silent` silences the five others |
| Console.LevelGate.constructor | src/console.js:12-13 | the closure starts with the given level and an empty `silenced` |
| Console.LevelGate.SetLevel | src/console.js:24-31 | an unknown level fails before any change; a known one at index i makes `silenced` exactly the first i levels, in order, and becomes the level |
| Console.LevelGate.SetProperty | src/console.js:23-33 | setting any property other than `level` changes nothing |
| Console.LevelGate.Get | src/console.js:16-22 | the get trap as written: `level` reads the last level set; every level's method passes through whatever the level; `length` reads as the no-op, and `0` does exactly when something is silenced |
| Console.LevelGate.IntendedGet | src/console.js:16-22 | the get trap as evidently intended: a level's method is the no-op exactly when it ranks below the level set; anything else other than `level` passes through |
| Console.ProxyConsole | src/console.js:12-37 | the initial level, `info` by default, goes through the set trap, so an unknown one fails and a known one is in force with its silenced prefix |
| Console.DefaultConsole | src/console.js:39 | the default export is built with level `info` and silences `debug` only; in the model it never throws (see "## Left out") |

## Left out

- The `LocalConnection` class (`lib/local-connection.js:61-115`) is not part of this model. It only wires up engine objects and promises.
- `index.js` only re-exports other modules and is not part of this model.
- The WebRTC engine is opaque: ICE gathering, DTLS and data delivery. A peer connection is a handle, and the client's calls on it are recorded in a log.
- Event-listener registration, promise resolution (the `ready` promise), and interleavings across `await` are not modelled. Each handler is one atomic step. `establishPeerConnection` is cut at its `await` into `Register` and `Complete`.
- JSON text is not modelled. `JSON.parse` and `JSON.stringify` become the `Message` datatype plus an `Unparseable` case. The caught-and-logged parse errors are that case.
- Logging (`console.debug`, `console.warn`) is left out. It has no effect on state.
- SdpCodec.ParseCandidate: reads the first six space-separated tokens, in place of the regular expression at lib/local-connection.js:27. Three differences follow. The expression has no anchors, so it also accepts extra text before the match and after the port: `... 2 h 5x typ host` gives port `5` there, but fails here as a malformed candidate. Its `\s` also matches tabs, carriage returns, non-breaking spaces and other white space, where the model accepts only a space. Where the expression would match later in the line than the first token, the model fails as well.
- SdpRoundTrip.RoundTrip: requires the role, ufrag and pwd to hold no comma and no carriage return, because a comma inside a field shifts the compact fields and a carriage return splits a line. The ICE grammar in section 5.4 of RFC 8839 allows neither character. It also requires at least one candidate; the string written without candidates is covered by `SdpRoundTrip.TrailingCommaMalformed`. It also requires the fingerprint field to be `btoa` of a non-empty byte string. Any other field either fails to decompress or comes back changed: an empty field comes back as `AA==` (see `Fingerprint.EmptyFingerprint`), and a non-canonical field such as `QR==` comes back in its canonical form `QQ==`, because `atob` reads both as the same byte.
- SdpRoundTrip.DescriptionRoundTrip: requires the same comma-free credentials, a role character that is not a comma or a carriage return, and at least one retained candidate, for the same reasons.
- Base64.Decode: does not model the forgiving decoder's removal of ASCII whitespace. Text holding whitespace is rejected here.
- Fingerprint.EncodeFingerprint: requires each colon-separated piece to be empty or one or two hex digits. The model does not cover `parseInt` on other text, or a piece above 255 that `String.fromCharCode` would make a non-byte character.
- SdpCodec.CompressLines: requires the fingerprint line it finds to be readable by `EncodeFingerprint` (see above). The `TypeError` that a missing line causes is named by the attribute that is missing.
- SdpCodec.SessionCounter.DecompressSDP: the counter is an unbounded natural number. JavaScript numbers lose precision above 2^53, which the counter would pass only after about 4.5 quadrillion calls.
- SignalServer.Forwarded: a `to` that is not a string cannot be registered, so it is modelled as a missing `to`.
- SignalClient.Client.Complete: an engine error in `createAnswer` or `createOffer` is modelled as a missing description. The rethrow and the warning it logs are not modelled.
- SignalClient.Client.Dispatch: `message.sdp` and `message.candidate` are opaque values. Their truthiness is modelled as `Some`, and `setRemoteDescription` receives the optional value as-is.
- Console: Proxy semantics beyond the two traps are not modelled. These include symbol-valued property keys, and the actual console output.
- Console.LevelGate.SetLevel: models the set trap as succeeding. src/console.js is an ES module, so its code is strict. The set trap returns `undefined`, and in strict code a falsy set result throws a `TypeError` after the state has changed. So `proxy.level = level` at src/console.js:35 throws on every call.
- Console.ProxyConsole: does not model that `TypeError`, so in the model it succeeds for a known level. In the code it throws at src/console.js:35 on every call.
- Console.DefaultConsole: never throws in the model. In the code the default export at src/console.js:39 calls `proxyConsole()`, which throws at src/console.js:35, so loading the module throws.

## Findings

| source | as written | input that shows it | evidently intended | confidence | as-written member | corrected member |
|---|---|---|---|---|---|---|
| src/console.js:18 | `prop in LEVELS && prop in silenced` asks whether `prop` is a key of the two arrays (an index, `length`, or an inherited method name), not whether it is one of their elements | set the level to `silent`, then read `error`: it passes through to the console instead of being replaced by the no-op; reading `0` or `length` is replaced instead | a level's method is replaced by the no-op exactly when that level is in `silenced` | not executed | Console.LevelGate.Get | Console.LevelGate.IntendedGet |
