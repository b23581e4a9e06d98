/**
 * The session-description compaction codec of lib/local-connection.js:
 * `compressSDP` keeps the ICE credentials (section 5.4 of RFC 8839), the
 * certificate fingerprint (section 5 of RFC 8122) and the host, port and
 * transport of every non-loopback candidate (section 5.1 of RFC 8839);
 * `decompressSDP` rebuilds a fixed data-channel description (section 5 of
 * RFC 8866) around them.
 */
module SdpCodec {
  import opened Wrappers
  import opened Text
  import Base64
  import Fingerprint

  /** An `RTCSessionDescription`: its `type` and its `sdp` text. */
  datatype SessionDescription = SessionDescription(sdpType: string, sdp: string)

  /** Why compression or decompression throws. */
  datatype CodecError =
    | MissingIceUfrag
    | MissingIcePwd
    | MissingFingerprint
    | MalformedCandidate
    | InvalidFingerprint

  /** The transport, address and port a candidate line is reduced to. */
  datatype Candidate = Candidate(proto: string, host: string, port: string)

  const CRLF: string := "\r\n"
  const UfragPrefix: string := "a=ice-ufrag:"
  const PwdPrefix: string := "a=ice-pwd:"
  const FingerprintAttr: string := "a=fingerprint:"
  const CandidatePrefix: string := "a=candidate:"
  const Loopback4: string := "127.0.0.1"
  const Loopback6: string := "::1"

  /** Position `i` holds the first line that starts with `prefix`. */
  predicate FirstMatchAt(lines: seq<string>, prefix: string, i: int)
  {
    0 <= i < |lines| && StartsWith(lines[i], prefix) && forall j :: 0 <= j < i ==> !StartsWith(lines[j], prefix)
  }

  /** `lines.find(line => line.startsWith(prefix))`: the first line that starts with `prefix`, if any. */
  function FirstWithPrefix(lines: seq<string>, prefix: string): (r: Option<string>)
    ensures r.None? <==> forall i :: 0 <= i < |lines| ==> !StartsWith(lines[i], prefix)
    ensures r.Some? ==> StartsWith(r.value, prefix)
    ensures r.Some? ==> exists i :: FirstMatchAt(lines, prefix, i) && lines[i] == r.value
  {
    if |lines| == 0 then None
    else if StartsWith(lines[0], prefix) then
      assert FirstMatchAt(lines, prefix, 0);
      Some(lines[0])
    else
      var r := FirstWithPrefix(lines[1..], prefix);
      assert r.Some? ==> exists i :: FirstMatchAt(lines, prefix, i) && lines[i] == r.value by {
        if r.Some? {
          var k :| FirstMatchAt(lines[1..], prefix, k) && lines[1..][k] == r.value;
          forall j | 0 <= j < k + 1 ensures !StartsWith(lines[j], prefix) {
            if j > 0 {
              assert lines[j] == lines[1..][j - 1];
            }
          }
          assert FirstMatchAt(lines, prefix, k + 1) && lines[k + 1] == r.value;
        }
      }
      r
  }

  /** The characters of the address class `[0-9A-z.:-]` of the candidate pattern (which takes in `[\]^_` and the backquote). */
  predicate IsHostChar(c: char)
  {
    ('0' <= c <= '9') || ('A' <= c <= 'z') || c == '.' || c == ':' || c == '-'
  }

  predicate IsHost(s: string)
  {
    |s| > 0 && forall i :: 0 <= i < |s| ==> IsHostChar(s[i])
  }

  predicate IsProto(s: string)
  {
    s == "udp" || s == "tcp"
  }

  /**
   * The candidate pattern `foundation SP component SP proto SP priority SP
   * host SP port`, read from the first six space-separated tokens of the
   * attribute value.
   */
  function ParseCandidate(value: string): (r: Option<Candidate>)
    ensures r.Some? ==> IsProto(r.value.proto) && IsHost(r.value.host) && IsDigits(r.value.port)
  {
    var t := SplitOn(value, " ");
    if |t| >= 6 && IsDigits(t[0]) && IsDigits(t[1]) && IsProto(t[2]) && IsDigits(t[3])
       && IsHost(t[4]) && IsDigits(t[5])
    then Some(Candidate(t[2], t[4], t[5]))
    else None
  }

  /** `proto|host|port`. */
  function RenderCandidate(c: Candidate): string
  {
    Join([c.proto, c.host, c.port], "|")
  }

  /** The candidate lines `compressSDP` keeps: any mention of a loopback address, anywhere in the line, drops it. */
  predicate Retained(line: string)
  {
    StartsWith(line, CandidatePrefix) && !Contains(line, Loopback4) && !Contains(line, Loopback6)
  }

  /** Every retained candidate line matches the candidate pattern. */
  predicate CandidatesParse(lines: seq<string>)
  {
    forall i :: 0 <= i < |lines| && Retained(lines[i]) ==> ParseCandidate(lines[i][|CandidatePrefix|..]).Some?
  }

  /** The `filter`/`map` pipeline of compressSDP: retained lines, in order, as `proto|host|port`. */
  function CompactCandidates(lines: seq<string>): (r: Result<seq<string>, CodecError>)
    ensures r.Ok? <==> CandidatesParse(lines)
    ensures r.Err? ==> r.error == MalformedCandidate
  {
    if |lines| == 0 then Ok([])
    else
      var rest := CompactCandidates(lines[1..]);
      assert CandidatesParse(lines) <==>
        (Retained(lines[0]) ==> ParseCandidate(lines[0][|CandidatePrefix|..]).Some?) && CandidatesParse(lines[1..]) by {
        forall i | 1 <= i < |lines| ensures lines[i] == lines[1..][i - 1] { }
      }
      if !Retained(lines[0]) then rest
      else match ParseCandidate(lines[0][|CandidatePrefix|..])
        case None => Err(MalformedCandidate)
        case Some(c) => if rest.Err? then rest else Ok([RenderCandidate(c)] + rest.value)
  }

  /** The fingerprint line `compressSDP` would encode is one `encodeFingerprint` can read (a missing one is an error). */
  predicate FingerprintReadable(lines: seq<string>)
  {
    var f := FirstWithPrefix(lines, FingerprintAttr);
    f.None? || Fingerprint.WellFormedBody(f.value)
  }

  /** `desc.type.substring(0, 1)`. */
  function RoleChar(sdpType: string): string
  {
    if |sdpType| >= 1 then sdpType[..1] else ""
  }

  /**
   * compressSDP on the CRLF-split lines (lib/local-connection.js:17-31).
   * A missing ufrag, pwd or fingerprint line, in that order, or a retained
   * candidate line the pattern does not match, makes it throw; otherwise
   * the result begins with the role character and a comma.
   */
  function CompressLines(sdpType: string, lines: seq<string>): (r: Result<string, CodecError>)
    requires FingerprintReadable(lines)
    ensures r == Err(MissingIceUfrag) <==> FirstWithPrefix(lines, UfragPrefix).None?
    ensures r == Err(MissingIcePwd) <==>
      FirstWithPrefix(lines, UfragPrefix).Some? && FirstWithPrefix(lines, PwdPrefix).None?
    ensures r == Err(MissingFingerprint) <==>
      FirstWithPrefix(lines, UfragPrefix).Some? && FirstWithPrefix(lines, PwdPrefix).Some?
      && FirstWithPrefix(lines, FingerprintAttr).None?
    ensures r == Err(MalformedCandidate) <==>
      FirstWithPrefix(lines, UfragPrefix).Some? && FirstWithPrefix(lines, PwdPrefix).Some?
      && FirstWithPrefix(lines, FingerprintAttr).Some? && !CandidatesParse(lines)
    ensures r.Ok? <==>
      FirstWithPrefix(lines, UfragPrefix).Some? && FirstWithPrefix(lines, PwdPrefix).Some?
      && FirstWithPrefix(lines, FingerprintAttr).Some? && CandidatesParse(lines)
    ensures r.Ok? ==> StartsWith(r.value, RoleChar(sdpType) + ",")
  {
    var t := RoleChar(sdpType);
    match FirstWithPrefix(lines, UfragPrefix)
    case None => Err(MissingIceUfrag)
    case Some(ufragLine) =>
      match FirstWithPrefix(lines, PwdPrefix)
      case None => Err(MissingIcePwd)
      case Some(pwdLine) =>
        match FirstWithPrefix(lines, FingerprintAttr)
        case None => Err(MissingFingerprint)
        case Some(fpLine) =>
          var fp := Fingerprint.EncodeFingerprint(fpLine);
          match CompactCandidates(lines)
          case Err(e) => Err(e)
          case Ok(cands) =>
            var fields := [t, ufragLine[|UfragPrefix|..], pwdLine[|PwdPrefix|..], fp, Join(cands, ",")];
            assert Join(fields, ",") == t + "," + Join(fields[1..], ",");
            Ok(Join(fields, ","))
  }

  /** compressSDP (lib/local-connection.js:17-31). */
  function CompressSDP(desc: SessionDescription): (r: Result<string, CodecError>)
    requires FingerprintReadable(SplitOn(desc.sdp, CRLF))
    ensures r.Ok? ==> StartsWith(r.value, RoleChar(desc.sdpType) + ",")
  {
    CompressLines(desc.sdpType, SplitOn(desc.sdp, CRLF))
  }

  /** `Math.round(Number.MAX_SAFE_INTEGER / 2)`, the first origin id. */
  const InitialSession: nat := 4503599627370496

  /** A `|`-field of a compact candidate, `undefined` when the candidate has too few. */
  function FieldOr(fields: seq<string>, i: nat): string
  {
    if i < |fields| then fields[i] else "undefined"
  }

  /** The candidate line written for the compact candidate `cand` at priority `priority`. */
  function CandidateLine(cand: string, priority: nat): string
  {
    var f := SplitOn(cand, "|");
    Join(["a=candidate:0", "1", f[0], DecimalString(priority), FieldOr(f, 1), FieldOr(f, 2), "typ", "host"], " ")
  }

  /** The candidate lines of decompressSDP: the i-th compact candidate gets priority i. */
  function CandidateLines(cands: seq<string>): (ls: seq<string>)
    ensures |ls| == |cands|
    ensures forall i :: 0 <= i < |cands| ==> ls[i] == CandidateLine(cands[i], i)
  {
    seq(|cands|, i requires 0 <= i < |cands| => CandidateLine(cands[i], i))
  }

  /**
   * The `map` with the `priority++` counter (lib/local-connection.js:38,
   * 50-53): each compact candidate in turn, priorities counting up from 0.
   */
  method RenderCandidates(cands: seq<string>) returns (ls: seq<string>)
    ensures |ls| == |cands|
    ensures forall i :: 0 <= i < |cands| ==> ls[i] == CandidateLine(cands[i], i)
  {
    var priority := 0;
    ls := [];
    while priority < |cands|
      invariant 0 <= priority <= |cands| && |ls| == priority
      invariant forall i :: 0 <= i < priority ==> ls[i] == CandidateLine(cands[i], i)
    {
      ls := ls + [CandidateLine(cands[priority], priority)];
      priority := priority + 1;
    }
  }

  /** The media description of the single data-channel section. */
  const MediaLine: string := "m=application " + "47496 " + "UDP/DTLS/SCTP " + "webrtc-datachannel"

  function SetupLine(t: string): string
  {
    if t == "o" then "a=setup:actpass" else "a=setup:active"
  }

  function OriginLine(session: nat): string
  {
    "o=- " + DecimalString(session) + " 2 IN IP4 127.0.0.1"
  }

  /** The session-level lines and the role-dependent `setup` line that open every decompressed description. */
  function HeadLines(t: string, session: nat): seq<string>
  {
    ["v=0", OriginLine(session), "s=-", "t=0 0", "a=msid-semantic: WMS",
     MediaLine, "c=IN IP4 0.0.0.0",
     SetupLine(t)]
  }

  const TailLines: seq<string> := ["a=mid:0", "a=sctp-port:5000", "a=max-message-size:262144"]

  /** The fixed line list of decompressSDP (lib/local-connection.js:41-56). */
  function DescriptionLines(t: string, ufrag: string, pwd: string, fpLine: string, session: nat, candLines: seq<string>): seq<string>
  {
    HeadLines(t, session) + [UfragPrefix + ufrag, PwdPrefix + pwd, fpLine] + candLines + TailLines
  }

  /**
   * decompressSDP with the origin id `session` (lib/local-connection.js:35-59).
   * Fields missing from the compact string read as `undefined`; the
   * fingerprint field must be base64, and `atob("undefined")` is not, so a
   * string of fewer than four fields always fails.
   */
  function DecompressWith(compact: string, session: nat): (r: Result<SessionDescription, CodecError>)
    ensures r.Ok? <==> Base64.Decode(FieldOr(SplitOn(compact, ","), 3)).Ok?
    ensures r.Err? ==> r.error == InvalidFingerprint
    ensures r.Ok? ==> (r.value.sdpType == "offer" <==> SplitOn(compact, ",")[0] == "o")
    ensures r.Ok? ==> (r.value.sdpType == "answer" <==> SplitOn(compact, ",")[0] != "o")
  {
    var f := SplitOn(compact, ",");
    var t := f[0];
    var cands := if |f| > 4 then f[4..] else [];
    match Fingerprint.DecodeFingerprint(FieldOr(f, 3))
    case Err(_) => Err(InvalidFingerprint)
    case Ok(fpLine) =>
      var lines := DescriptionLines(t, FieldOr(f, 1), FieldOr(f, 2), fpLine, session, CandidateLines(cands));
      Ok(SessionDescription(if t == "o" then "offer" else "answer", Join(lines, CRLF) + CRLF))
  }

  /**
   * The module-level `session` counter and the decompressSDP that advances it
   * (lib/local-connection.js:33-59).
   */
  class SessionCounter {
    var next: nat

    constructor ()
      ensures next == InitialSession
    {
      next := InitialSession;
    }

    /** Uses the current id and advances it by one, even when the fingerprint then fails to decode. */
    method DecompressSDP(compact: string) returns (r: Result<SessionDescription, CodecError>)
      modifies this
      ensures next == old(next) + 1
      ensures r == DecompressWith(compact, old(next))
    {
      var f := SplitOn(compact, ",");
      var t := f[0];
      var cands := if |f| > 4 then f[4..] else [];
      var session := next;
      next := next + 1;
      var candLines := RenderCandidates(cands);
      assert candLines == CandidateLines(cands);
      var fp := Fingerprint.DecodeFingerprint(FieldOr(f, 3));
      if fp.Err? {
        return Err(InvalidFingerprint);
      }
      var lines := DescriptionLines(t, FieldOr(f, 1), FieldOr(f, 2), fp.value, session, candLines);
      r := Ok(SessionDescription(if t == "o" then "offer" else "answer", Join(lines, CRLF) + CRLF));
    }
  }
}
