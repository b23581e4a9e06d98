/**
 * What the compaction codec preserves: a well-formed compact string survives
 * decompression followed by compression unchanged, loopback candidates are
 * dropped wherever they stand, and successive origin ids never repeat.
 */
module SdpRoundTrip {
  import opened Wrappers
  import opened Text
  import Base64
  import Fingerprint
  import opened SdpCodec

  /** A character that no piece and no separator holds is absent from their join. */
  lemma {:induction false} JoinAvoids(parts: seq<string>, sep: string, c: char)
    requires c !in sep
    requires forall i :: 0 <= i < |parts| ==> c !in parts[i]
    ensures c !in Join(parts, sep)
    decreases |parts|
  {
    if |parts| > 1 {
      JoinAvoids(parts[1..], sep, c);
    }
  }

  /** Every piece of a split lacks any character the whole string lacks. */
  lemma {:induction false} SplitOnAvoids(s: string, sep: string, c: char)
    requires |sep| > 0 && c !in s
    ensures forall i :: 0 <= i < |SplitOn(s, sep)| ==> c !in SplitOn(s, sep)[i]
    decreases |s|
  {
    if |s| >= |sep| {
      if s[..|sep|] == sep {
        SplitOnAvoids(s[|sep|..], sep, c);
      } else {
        SplitOnAvoids(s[1..], sep, c);
      }
    }
  }

  /** Lines that do not start with `p` do not change which line `find` returns. */
  lemma {:induction false} FirstWithPrefixSkip(a: seq<string>, b: seq<string>, p: string)
    requires forall i :: 0 <= i < |a| ==> !StartsWith(a[i], p)
    ensures FirstWithPrefix(a + b, p) == FirstWithPrefix(b, p)
    decreases |a|
  {
    if |a| > 0 {
      assert (a + b)[0] == a[0] && (a + b)[1..] == a[1..] + b;
      FirstWithPrefixSkip(a[1..], b, p);
    } else {
      assert a + b == b;
    }
  }

  /** The candidate pipeline distributes over concatenation of line lists. */
  lemma {:induction false} CompactCandidatesAppend(a: seq<string>, b: seq<string>)
    ensures CompactCandidates(a + b) ==
      if CompactCandidates(a).Ok? && CompactCandidates(b).Ok?
      then Ok(CompactCandidates(a).value + CompactCandidates(b).value)
      else Err(MalformedCandidate)
    decreases |a|
  {
    if |a| == 0 {
      assert a + b == b;
      if CompactCandidates(b).Ok? {
        assert [] + CompactCandidates(b).value == CompactCandidates(b).value;
      }
    } else {
      assert (a + b)[0] == a[0] && (a + b)[1..] == a[1..] + b;
      CompactCandidatesAppend(a[1..], b);
      if Retained(a[0]) && ParseCandidate(a[0][|CandidatePrefix|..]).Some? {
        var r := RenderCandidate(ParseCandidate(a[0][|CandidatePrefix|..]).value);
        if CompactCandidates(a[1..]).Ok? && CompactCandidates(b).Ok? {
          assert [r] + (CompactCandidates(a[1..]).value + CompactCandidates(b).value)
            == ([r] + CompactCandidates(a[1..]).value) + CompactCandidates(b).value;
        }
      }
    }
  }

  /** Lines that are not candidate lines contribute no candidate. */
  lemma {:induction false} NoCandidates(a: seq<string>)
    requires forall i :: 0 <= i < |a| ==> !StartsWith(a[i], CandidatePrefix)
    ensures CompactCandidates(a) == Ok([])
    decreases |a|
  {
    if |a| > 0 {
      NoCandidates(a[1..]);
    }
  }

  /** A candidate `decompressSDP` can write and `compressSDP` can read back. */
  predicate WellFormedCandidate(c: Candidate)
  {
    IsProto(c.proto) && IsHost(c.host) && IsDigits(c.port)
    && !Contains(c.host, Loopback4) && !Contains(c.host, Loopback6)
  }

  lemma DigitsLack(s: string, c: char)
    requires IsDigits(s) && !('0' <= c <= '9')
    ensures c !in s
  {
  }

  lemma HostLacks(s: string, c: char)
    requires IsHost(s) && !IsHostChar(c)
    ensures c !in s
  {
  }

  /** Neither loopback address occurs in a candidate line written for a well-formed candidate. */
  lemma CandidateWordsAvoidLoopback(words: seq<string>, c: Candidate, priority: nat, pat: string)
    requires WellFormedCandidate(c)
    requires pat == Loopback4 || pat == Loopback6
    requires words == ["a=candidate:0", "1", c.proto, DecimalString(priority), c.host, c.port, "typ", "host"]
    ensures !Contains(Join(words, " "), pat)
  {
    var missing := if pat == Loopback4 then '.' else ':';
    assert '1' in pat && missing in pat && ' ' !in pat;
    forall k | 0 <= k < |words| ensures !Contains(words[k], pat) {
      if k == 0 || k == 2 || k == 6 || k == 7 {
        NotContainsMissingChar(words[k], pat, '1');
      } else if k == 4 {
      } else {
        DigitsLack(words[k], missing);
        NotContainsMissingChar(words[k], pat, missing);
      }
    }
    JoinNotContains(words, pat);
  }

  /**
   * The line written for a well-formed compact candidate is kept by the
   * loopback filter and matches the candidate pattern, giving the candidate back.
   */
  lemma CandidateLineRoundTrip(c: Candidate, priority: nat)
    requires WellFormedCandidate(c)
    ensures Retained(CandidateLine(RenderCandidate(c), priority))
    ensures ParseCandidate(CandidateLine(RenderCandidate(c), priority)[|CandidatePrefix|..]) == Some(c)
  {
    var tokens := ["0", "1", c.proto, DecimalString(priority), c.host, c.port, "typ", "host"];
    var words := ["a=candidate:0"] + tokens[1..];
    var line := CandidateLine(RenderCandidate(c), priority);
    CandidateLineText(c, priority, tokens, words);
    assert line[|CandidatePrefix|..] == Join(tokens, " ");
    PrefixedStartsWith(CandidatePrefix, Join(tokens, " "));
    CandidateWordsAvoidLoopback(words, c, priority, Loopback4);
    CandidateWordsAvoidLoopback(words, c, priority, Loopback6);
    CandidateTokensParse(c, priority, tokens);
  }

  /** The line written for a rendered candidate is the candidate prefix followed by its space-separated tokens. */
  lemma CandidateLineText(c: Candidate, priority: nat, tokens: seq<string>, words: seq<string>)
    requires WellFormedCandidate(c)
    requires tokens == ["0", "1", c.proto, DecimalString(priority), c.host, c.port, "typ", "host"]
    requires words == ["a=candidate:0"] + tokens[1..]
    ensures CandidateLine(RenderCandidate(c), priority) == Join(words, " ")
    ensures CandidateLine(RenderCandidate(c), priority) == CandidatePrefix + Join(tokens, " ")
  {
    HostLacks(c.host, '|');
    DigitsLack(c.port, '|');
    SplitJoin([c.proto, c.host, c.port], "|");
    assert words[0] == CandidatePrefix + "0";
    assert [tokens[0]] + words[1..] == tokens;
    JoinFirstWord(words, " ", CandidatePrefix, "0");
  }

  /** The tokens of a well-formed candidate's line match the candidate pattern and give the candidate back. */
  lemma CandidateTokensParse(c: Candidate, priority: nat, tokens: seq<string>)
    requires WellFormedCandidate(c)
    requires tokens == ["0", "1", c.proto, DecimalString(priority), c.host, c.port, "typ", "host"]
    ensures ParseCandidate(Join(tokens, " ")) == Some(c)
  {
    HostLacks(c.host, ' ');
    DigitsLack(c.port, ' ');
    DigitsLack(DecimalString(priority), ' ');
    assert ' ' !in c.proto;
    forall i | 0 <= i < |tokens| ensures ' ' !in tokens[i] {
    }
    SplitJoin(tokens, " ");
    assert IsDigits(tokens[0]) && IsDigits(tokens[1]);
  }

  /** A line whose k-th character differs from the prefix's does not start with it. */
  lemma NotStartsWithAt(line: string, p: string, k: nat)
    requires k < |p| && k < |line| && line[k] != p[k]
    ensures !StartsWith(line, p)
  {
    if |p| <= |line| {
      assert line[..|p|][k] != p[k];
    }
  }

  lemma CandidateLineAvoidsCR(cand: string, priority: nat)
    requires '\r' !in cand
    ensures '\r' !in CandidateLine(cand, priority)
  {
    var f := SplitOn(cand, "|");
    SplitOnAvoids(cand, "|", '\r');
    DigitsLack(DecimalString(priority), '\r');
    var words := ["a=candidate:0", "1", f[0], DecimalString(priority), FieldOr(f, 1), FieldOr(f, 2), "typ", "host"];
    forall i | 0 <= i < |words| ensures '\r' !in words[i] {
    }
    JoinAvoids(words, " ", '\r');
  }

  lemma RenderedFingerprintAvoidsCR(bytes: seq<Fingerprint.Byte>)
    ensures '\r' !in Fingerprint.RenderFingerprint(bytes)
  {
    var hs := Fingerprint.HexBytes(bytes);
    forall i | 0 <= i < |hs| ensures '\r' !in hs[i] {
      assert Fingerprint.IsHexPart(hs[i]);
    }
    JoinAvoids(hs, ":", '\r');
  }

  lemma SessionLinesAvoidCR()
    ensures '\r' !in "v=0" && '\r' !in "s=-" && '\r' !in "t=0 0"
  {
  }

  lemma MediaLinesAvoidCR()
    ensures '\r' !in "a=msid-semantic: WMS" && '\r' !in "c=IN IP4 0.0.0.0"
  {
  }

  lemma MediaDescriptionAvoidsCR()
    ensures '\r' !in MediaLine
  {
    assert '\r' !in "m=application " && '\r' !in "47496 ";
    assert '\r' !in "UDP/DTLS/SCTP " && '\r' !in "webrtc-datachannel";
  }

  lemma HeadAvoidsCR(t: string, session: nat)
    ensures forall i :: 0 <= i < |HeadLines(t, session)| ==> '\r' !in HeadLines(t, session)[i]
  {
    DigitsLack(DecimalString(session), '\r');
    SessionLinesAvoidCR();
    MediaLinesAvoidCR();
    MediaDescriptionAvoidsCR();
    assert '\r' !in OriginLine(session);
    assert '\r' !in SetupLine(t);
  }

  lemma TailAvoidsCR()
    ensures forall i :: 0 <= i < |TailLines| ==> '\r' !in TailLines[i]
  {
  }

  lemma DescriptionLinesAvoidCR(t: string, ufrag: string, pwd: string, fpLine: string, session: nat, candLines: seq<string>)
    requires '\r' !in ufrag && '\r' !in pwd && '\r' !in fpLine
    requires forall i :: 0 <= i < |candLines| ==> '\r' !in candLines[i]
    ensures forall i :: 0 <= i < |DescriptionLines(t, ufrag, pwd, fpLine, session, candLines)| ==>
      '\r' !in DescriptionLines(t, ufrag, pwd, fpLine, session, candLines)[i]
  {
    HeadAvoidsCR(t, session);
    TailAvoidsCR();
    var mid := [UfragPrefix + ufrag, PwdPrefix + pwd, fpLine];
    assert '\r' !in UfragPrefix && '\r' !in PwdPrefix;
    AllAvoidCR(HeadLines(t, session), mid);
    AllAvoidCR(HeadLines(t, session) + mid, candLines);
    AllAvoidCR(HeadLines(t, session) + mid + candLines, TailLines);
  }

  lemma AllAvoidCR(a: seq<string>, b: seq<string>)
    requires forall i :: 0 <= i < |a| ==> '\r' !in a[i]
    requires forall i :: 0 <= i < |b| ==> '\r' !in b[i]
    ensures forall i :: 0 <= i < |a + b| ==> '\r' !in (a + b)[i]
  {
  }

  /** The text `decompressSDP` writes splits back into its line list and one empty piece after the trailing CRLF. */
  lemma SplitDescription(lines: seq<string>)
    requires |lines| > 0
    requires forall i :: 0 <= i < |lines| ==> '\r' !in lines[i]
    ensures SplitOn(Join(lines, CRLF) + CRLF, CRLF) == lines + [""]
  {
    JoinTrailing(lines, CRLF);
    SplitJoin(lines + [""], CRLF);
  }

  /** The compact field that carries the fingerprint, decoded and rendered. */
  function FingerprintLineOf(f: seq<string>): string
    requires Base64.Decode(FieldOr(f, 3)).Ok?
  {
    Fingerprint.RenderFingerprint(Base64.Decode(FieldOr(f, 3)).value)
  }

  function CandidateFields(f: seq<string>): seq<string>
  {
    if |f| > 4 then f[4..] else []
  }

  /** The CRLF-split text of a decompressed description is its line list and one empty piece. */
  lemma DecompressedLines(compact: string, session: nat)
    requires '\r' !in compact
    requires DecompressWith(compact, session).Ok?
    ensures var f := SplitOn(compact, ",");
      SplitOn(DecompressWith(compact, session).value.sdp, CRLF) ==
        DescriptionLines(f[0], FieldOr(f, 1), FieldOr(f, 2), FingerprintLineOf(f), session,
          CandidateLines(CandidateFields(f))) + [""]
  {
    var f := SplitOn(compact, ",");
    SplitOnAvoids(compact, ",", '\r');
    var cands := CandidateFields(f);
    RenderedFingerprintAvoidsCR(Base64.Decode(FieldOr(f, 3)).value);
    var candLines := CandidateLines(cands);
    forall i | 0 <= i < |candLines| ensures '\r' !in candLines[i] {
      CandidateLineAvoidsCR(cands[i], i);
    }
    DescriptionLinesAvoidCR(f[0], FieldOr(f, 1), FieldOr(f, 2), FingerprintLineOf(f), session, candLines);
    SplitDescription(DescriptionLines(f[0], FieldOr(f, 1), FieldOr(f, 2), FingerprintLineOf(f), session, candLines));
  }

  /** Where each line stands in the line list of decompressSDP. */
  lemma DescriptionLinesAt(t: string, ufrag: string, pwd: string, fpLine: string, session: nat, cands: seq<string>)
    ensures var lines := DescriptionLines(t, ufrag, pwd, fpLine, session, CandidateLines(cands)) + [""];
      && |lines| == 15 + |cands|
      && lines[0] == "v=0"
      && lines[1] == OriginLine(session)
      && lines[7] == (if t == "o" then "a=setup:actpass" else "a=setup:active")
      && lines[8] == UfragPrefix + ufrag
      && lines[9] == PwdPrefix + pwd
      && lines[10] == fpLine
      && (forall i :: 0 <= i < |cands| ==> lines[11 + i] == CandidateLine(cands[i], i))
      && lines[11 + |cands|] == "a=mid:0"
      && lines[12 + |cands|] == "a=sctp-port:5000"
      && lines[13 + |cands|] == "a=max-message-size:262144"
      && lines[14 + |cands|] == ""
  {
  }

  /**
   * How a decompressed description reads line by line when the compact
   * string holds no carriage return: the version and origin lines, the
   * `setup` role (`actpass` for `o`, `active` otherwise), the credentials,
   * the rendered fingerprint, the i-th candidate at priority i, three fixed
   * lines, and the empty piece after the trailing CRLF.
   */
  lemma DecompressedLayout(compact: string, session: nat)
    requires '\r' !in compact
    requires DecompressWith(compact, session).Ok?
    ensures var f := SplitOn(compact, ",");
      var cands := CandidateFields(f);
      var lines := SplitOn(DecompressWith(compact, session).value.sdp, CRLF);
      && |lines| == 15 + |cands|
      && lines[0] == "v=0"
      && lines[1] == OriginLine(session)
      && lines[7] == (if f[0] == "o" then "a=setup:actpass" else "a=setup:active")
      && lines[8] == UfragPrefix + FieldOr(f, 1)
      && lines[9] == PwdPrefix + FieldOr(f, 2)
      && lines[10] == FingerprintLineOf(f)
      && (forall i :: 0 <= i < |cands| ==> lines[11 + i] == CandidateLine(cands[i], i))
      && lines[11 + |cands|] == "a=mid:0"
      && lines[12 + |cands|] == "a=sctp-port:5000"
      && lines[13 + |cands|] == "a=max-message-size:262144"
      && lines[14 + |cands|] == ""
  {
    var f := SplitOn(compact, ",");
    DecompressedLines(compact, session);
    DescriptionLinesAt(f[0], FieldOr(f, 1), FieldOr(f, 2), FingerprintLineOf(f), session, CandidateFields(f));
  }

  lemma DecompressedOrigin(compact: string, session: nat)
    requires '\r' !in compact
    requires DecompressWith(compact, session).Ok?
    ensures |SplitOn(DecompressWith(compact, session).value.sdp, CRLF)| > 1
    ensures SplitOn(DecompressWith(compact, session).value.sdp, CRLF)[1] == OriginLine(session)
  {
    DecompressedLayout(compact, session);
  }

  /** The origin line names its id: different ids give different lines. */
  lemma OriginLineInjective(s1: nat, s2: nat)
    requires s1 != s2
    ensures OriginLine(s1) != OriginLine(s2)
  {
    if OriginLine(s1) == OriginLine(s2) {
      OriginLineNames(s1, s2);
    }
  }

  lemma OriginLineNames(s1: nat, s2: nat)
    requires OriginLine(s1) == OriginLine(s2)
    ensures s1 == s2
  {
    var d1, d2 := DecimalString(s1), DecimalString(s2);
    var o := OriginLine(s1);
    assert |d1| == |d2|;
    assert d1 == o[4..4 + |d1|] == d2;
    DecimalStringInjective(s1, s2);
  }

  /** Descriptions decompressed with different origin ids differ in their origin line, and so in their text. */
  lemma OriginIdsDistinct(c1: string, s1: nat, c2: string, s2: nat)
    requires '\r' !in c1 && '\r' !in c2 && s1 != s2
    requires DecompressWith(c1, s1).Ok? && DecompressWith(c2, s2).Ok?
    ensures var l1, l2 := SplitOn(DecompressWith(c1, s1).value.sdp, CRLF), SplitOn(DecompressWith(c2, s2).value.sdp, CRLF);
      |l1| > 1 && |l2| > 1 && l1[1] != l2[1]
    ensures DecompressWith(c1, s1).value.sdp != DecompressWith(c2, s2).value.sdp
  {
    DecompressedOrigin(c1, s1);
    DecompressedOrigin(c2, s2);
    OriginLineInjective(s1, s2);
  }

  function Renders(cands: seq<Candidate>): (rs: seq<string>)
    ensures |rs| == |cands|
    ensures forall i :: 0 <= i < |cands| ==> rs[i] == RenderCandidate(cands[i])
  {
    if |cands| == 0 then [] else [RenderCandidate(cands[0])] + Renders(cands[1..])
  }

  /** The compact wire form `<role>,<ufrag>,<pwd>,<fingerprint>,<candidate>,...`. */
  function Compact(t: string, ufrag: string, pwd: string, fp: string, cands: seq<Candidate>): string
  {
    Join([t, ufrag, pwd, fp] + Renders(cands), ",")
  }

  /** A compact field that needs no escaping: no comma and no carriage return. */
  predicate IsField(s: string)
  {
    ',' !in s && '\r' !in s
  }

  lemma RenderIsField(c: Candidate)
    requires WellFormedCandidate(c)
    ensures IsField(RenderCandidate(c))
  {
    HostLacks(c.host, ',');
    HostLacks(c.host, '\r');
    DigitsLack(c.port, ',');
    DigitsLack(c.port, '\r');
    JoinAvoids([c.proto, c.host, c.port], "|", ',');
    JoinAvoids([c.proto, c.host, c.port], "|", '\r');
  }

  lemma RendersAreFields(cands: seq<Candidate>)
    requires forall i :: 0 <= i < |cands| ==> WellFormedCandidate(cands[i])
    ensures forall i :: 0 <= i < |cands| ==> IsField(Renders(cands)[i])
  {
    forall i | 0 <= i < |cands| ensures IsField(Renders(cands)[i]) {
      RenderIsField(cands[i]);
    }
  }

  lemma FieldsAreFields(t: string, ufrag: string, pwd: string, fp: string, rs: seq<string>)
    requires IsField(t) && IsField(ufrag) && IsField(pwd) && IsField(fp)
    requires forall i :: 0 <= i < |rs| ==> IsField(rs[i])
    ensures forall i :: 0 <= i < 4 + |rs| ==> IsField(([t, ufrag, pwd, fp] + rs)[i])
  {
    var fields := [t, ufrag, pwd, fp] + rs;
    forall i | 4 <= i < |fields| ensures IsField(fields[i]) {
      assert fields[i] == rs[i - 4];
    }
    assert fields[0] == t && fields[1] == ufrag && fields[2] == pwd && fields[3] == fp;
  }

  /** A compact string built from well-formed fields splits back into exactly those fields. */
  lemma CompactFields(t: string, ufrag: string, pwd: string, fp: string, cands: seq<Candidate>)
    requires IsField(t) && IsField(ufrag) && IsField(pwd) && IsField(fp)
    requires forall i :: 0 <= i < |cands| ==> WellFormedCandidate(cands[i])
    ensures SplitOn(Compact(t, ufrag, pwd, fp, cands), ",") == [t, ufrag, pwd, fp] + Renders(cands)
  {
    RendersAreFields(cands);
    SplitFields(t, ufrag, pwd, fp, Renders(cands));
  }

  lemma SplitFields(t: string, ufrag: string, pwd: string, fp: string, rs: seq<string>)
    requires IsField(t) && IsField(ufrag) && IsField(pwd) && IsField(fp)
    requires forall i :: 0 <= i < |rs| ==> IsField(rs[i])
    ensures SplitOn(Join([t, ufrag, pwd, fp] + rs, ","), ",") == [t, ufrag, pwd, fp] + rs
  {
    var fields := [t, ufrag, pwd, fp] + rs;
    FieldsAreFields(t, ufrag, pwd, fp, rs);
    assert forall i :: 0 <= i < |fields| ==> ',' !in fields[i];
    SplitJoin(fields, ",");
  }

  lemma CompactAvoidsCR(t: string, ufrag: string, pwd: string, fp: string, cands: seq<Candidate>)
    requires IsField(t) && IsField(ufrag) && IsField(pwd) && IsField(fp)
    requires forall i :: 0 <= i < |cands| ==> WellFormedCandidate(cands[i])
    ensures '\r' !in Compact(t, ufrag, pwd, fp, cands)
  {
    RendersAreFields(cands);
    var fields := [t, ufrag, pwd, fp] + Renders(cands);
    FieldsAreFields(t, ufrag, pwd, fp, Renders(cands));
    assert forall i :: 0 <= i < |fields| ==> '\r' !in fields[i];
    JoinAvoids(fields, ",", '\r');
  }

  /** Candidate lines that are all retained and all parse give their candidates, in order. */
  lemma {:induction false} CompactCandidatesOfLines(ls: seq<string>, cs: seq<Candidate>)
    requires |ls| == |cs|
    requires forall i :: 0 <= i < |ls| ==> Retained(ls[i]) && ParseCandidate(ls[i][|CandidatePrefix|..]) == Some(cs[i])
    ensures CompactCandidates(ls) == Ok(Renders(cs))
    decreases |ls|
  {
    if |ls| > 0 {
      CompactCandidatesOfLines(ls[1..], cs[1..]);
    }
  }

  /** `[a..., [b...].join(sep)].join(sep)` flattens when `b` is not empty. */
  lemma {:induction false} JoinNested(a: seq<string>, b: seq<string>, sep: string)
    requires |a| > 0 && |b| > 0
    ensures Join(a + [Join(b, sep)], sep) == Join(a + b, sep)
    decreases |a|
  {
    if |a| > 1 {
      assert (a + [Join(b, sep)])[1..] == a[1..] + [Join(b, sep)];
      assert (a + b)[1..] == a[1..] + b;
      JoinNested(a[1..], b, sep);
    } else {
      assert (a + b)[1..] == b;
    }
  }

  /** An attribute prefix `a=i...`, `a=f...` or `a=c...` that no head line starts with. */
  predicate LookedUpAttribute(p: string)
  {
    |p| > 2 && p[0] == 'a' && p[1] == '=' && (p[2] == 'i' || p[2] == 'f' || p[2] == 'c')
  }

  lemma MediaDescriptionStart()
    ensures |MediaLine| > 0 && MediaLine[0] == 'm'
  {
    assert "m=application "[0] == 'm';
  }

  lemma EncodedIsField(bytes: seq<Fingerprint.Byte>)
    ensures IsField(Base64.Encode(bytes))
  {
    var fp := Base64.Encode(bytes);
    forall i | 0 <= i < |fp| ensures fp[i] != ',' && fp[i] != '\r' {
      assert Base64.IsBase64Char(fp[i]) || fp[i] == '=';
    }
  }

  lemma HeadLacksAttribute(t: string, session: nat, p: string)
    requires LookedUpAttribute(p)
    ensures forall i :: 0 <= i < |HeadLines(t, session)| ==> !StartsWith(HeadLines(t, session)[i], p)
  {
    var h := HeadLines(t, session);
    MediaDescriptionStart();
    assert h[1][0] == 'o' && h[5][0] == 'm' && h[6][0] == 'c';
    NotStartsWithAt(h[1], p, 0);
    NotStartsWithAt(h[5], p, 0);
    NotStartsWithAt(h[6], p, 0);
    assert h[4][2] == 'm' && h[7][2] == 's';
    NotStartsWithAt(h[4], p, 2);
    NotStartsWithAt(h[7], p, 2);
    assert |h[0]| < 3 + 1 && |h[2]| < 4 && |h[3]| < 6;
    NotStartsWithAt(h[0], p, 0);
    NotStartsWithAt(h[2], p, 0);
    NotStartsWithAt(h[3], p, 0);
  }

  lemma TailLacksCandidates()
    ensures forall i :: 0 <= i < |TailLines + [""]| ==> !StartsWith((TailLines + [""])[i], CandidatePrefix)
  {
    var l := TailLines + [""];
    assert l[0][2] == 'm' && l[1][2] == 's' && l[2][2] == 'm';
    NotStartsWithAt(l[0], CandidatePrefix, 2);
    NotStartsWithAt(l[1], CandidatePrefix, 2);
    NotStartsWithAt(l[2], CandidatePrefix, 2);
  }

  /** The rendered fingerprint line is a `a=fingerprint:` attribute. */
  lemma RenderedFingerprintAttribute(bytes: seq<Fingerprint.Byte>)
    ensures StartsWith(Fingerprint.RenderFingerprint(bytes), FingerprintAttr)
    ensures |Fingerprint.RenderFingerprint(bytes)| > 2 && Fingerprint.RenderFingerprint(bytes)[2] == 'f'
  {
    var line := Fingerprint.RenderFingerprint(bytes);
    assert Fingerprint.Prefix == FingerprintAttr + "sha-256 ";
    assert line[..|FingerprintAttr|] == FingerprintAttr;
  }

  lemma PrefixedStartsWith(p: string, v: string)
    ensures StartsWith(p + v, p)
  {
    assert (p + v)[..|p|] == p;
  }

  /** In a description line list, `find` returns the ufrag line. */
  lemma FindUfrag(t: string, ufrag: string, pwd: string, fpLine: string, session: nat, candLines: seq<string>)
    ensures FirstWithPrefix(DescriptionLines(t, ufrag, pwd, fpLine, session, candLines) + [""], UfragPrefix)
      == Some(UfragPrefix + ufrag)
  {
    var head := HeadLines(t, session);
    var rest := [UfragPrefix + ufrag, PwdPrefix + pwd, fpLine] + candLines + TailLines + [""];
    assert DescriptionLines(t, ufrag, pwd, fpLine, session, candLines) + [""] == head + rest;
    HeadLacksAttribute(t, session, UfragPrefix);
    FirstWithPrefixSkip(head, rest, UfragPrefix);
    PrefixedStartsWith(UfragPrefix, ufrag);
  }

  /** In a description line list, `find` returns the pwd line. */
  lemma FindPwd(t: string, ufrag: string, pwd: string, fpLine: string, session: nat, candLines: seq<string>)
    ensures FirstWithPrefix(DescriptionLines(t, ufrag, pwd, fpLine, session, candLines) + [""], PwdPrefix)
      == Some(PwdPrefix + pwd)
  {
    var head := HeadLines(t, session) + [UfragPrefix + ufrag];
    var rest := [PwdPrefix + pwd, fpLine] + candLines + TailLines + [""];
    assert DescriptionLines(t, ufrag, pwd, fpLine, session, candLines) + [""] == head + rest;
    HeadLacksAttribute(t, session, PwdPrefix);
    NotStartsWithAt(UfragPrefix + ufrag, PwdPrefix, 6);
    FirstWithPrefixSkip(head, rest, PwdPrefix);
    PrefixedStartsWith(PwdPrefix, pwd);
  }

  /** In a description line list whose fingerprint line is an attribute, `find` returns that line. */
  lemma FindFingerprint(t: string, ufrag: string, pwd: string, fpLine: string, session: nat, candLines: seq<string>)
    requires StartsWith(fpLine, FingerprintAttr)
    ensures FirstWithPrefix(DescriptionLines(t, ufrag, pwd, fpLine, session, candLines) + [""], FingerprintAttr)
      == Some(fpLine)
  {
    var head := HeadLines(t, session) + [UfragPrefix + ufrag, PwdPrefix + pwd];
    var rest := [fpLine] + candLines + TailLines + [""];
    assert DescriptionLines(t, ufrag, pwd, fpLine, session, candLines) + [""] == head + rest;
    HeadLacksAttribute(t, session, FingerprintAttr);
    NotStartsWithAt(UfragPrefix + ufrag, FingerprintAttr, 2);
    NotStartsWithAt(PwdPrefix + pwd, FingerprintAttr, 2);
    FirstWithPrefixSkip(head, rest, FingerprintAttr);
  }

  /** The candidate lines written for well-formed candidates give those candidates back. */
  lemma RenderedCandidateLines(cands: seq<Candidate>)
    requires forall i :: 0 <= i < |cands| ==> WellFormedCandidate(cands[i])
    ensures CompactCandidates(CandidateLines(Renders(cands))) == Ok(Renders(cands))
  {
    var candLines := CandidateLines(Renders(cands));
    forall i | 0 <= i < |candLines|
      ensures Retained(candLines[i]) && ParseCandidate(candLines[i][|CandidatePrefix|..]) == Some(cands[i])
    {
      CandidateLineRoundTrip(cands[i], i);
    }
    CompactCandidatesOfLines(candLines, cands);
  }

  /** No line before the candidates of a description is a candidate line. */
  lemma HeadNoCandidates(t: string, ufrag: string, pwd: string, fpLine: string, session: nat)
    requires |fpLine| > 2 && fpLine[2] == 'f'
    ensures CompactCandidates(HeadLines(t, session) + [UfragPrefix + ufrag, PwdPrefix + pwd, fpLine]) == Ok([])
  {
    var head := HeadLines(t, session) + [UfragPrefix + ufrag, PwdPrefix + pwd, fpLine];
    HeadLacksAttribute(t, session, CandidatePrefix);
    NotStartsWithAt(UfragPrefix + ufrag, CandidatePrefix, 2);
    NotStartsWithAt(PwdPrefix + pwd, CandidatePrefix, 2);
    NotStartsWithAt(fpLine, CandidatePrefix, 2);
    assert forall i :: 0 <= i < |head| ==> !StartsWith(head[i], CandidatePrefix);
    NoCandidates(head);
  }

  /** Candidates between two runs of non-candidate lines are exactly what the pipeline yields. */
  lemma {:induction false} CandidatesBetween(head: seq<string>, mid: seq<string>, tail: seq<string>, rs: seq<string>)
    requires CompactCandidates(head) == Ok([]) && CompactCandidates(tail) == Ok([])
    requires CompactCandidates(mid) == Ok(rs)
    ensures CompactCandidates(head + mid + tail) == Ok(rs)
  {
    CompactCandidatesAppend(head, mid);
    assert [] + rs == rs;
    CompactCandidatesAppend(head + mid, tail);
    assert rs + [] == rs;
  }

  /** A description line list is its opening lines, its candidate lines and its closing lines. */
  lemma DescriptionAround(t: string, ufrag: string, pwd: string, fpLine: string, session: nat, candLines: seq<string>)
    ensures DescriptionLines(t, ufrag, pwd, fpLine, session, candLines) + [""]
      == (HeadLines(t, session) + [UfragPrefix + ufrag, PwdPrefix + pwd, fpLine]) + candLines + (TailLines + [""])
  {
  }

  /** The candidate pipeline over a description line list sees only the candidate lines. */
  lemma DescriptionCandidates(t: string, ufrag: string, pwd: string, fpLine: string, session: nat, cands: seq<Candidate>)
    requires |fpLine| > 2 && fpLine[2] == 'f'
    requires forall i :: 0 <= i < |cands| ==> WellFormedCandidate(cands[i])
    ensures CompactCandidates(DescriptionLines(t, ufrag, pwd, fpLine, session, CandidateLines(Renders(cands))) + [""])
      == Ok(Renders(cands))
  {
    var candLines := CandidateLines(Renders(cands));
    var head := HeadLines(t, session) + [UfragPrefix + ufrag, PwdPrefix + pwd, fpLine];
    var tail := TailLines + [""];
    DescriptionAround(t, ufrag, pwd, fpLine, session, candLines);
    HeadNoCandidates(t, ufrag, pwd, fpLine, session);
    TailLacksCandidates();
    NoCandidates(tail);
    RenderedCandidateLines(cands);
    CandidatesBetween(head, candLines, tail, Renders(cands));
  }

  /** What a compact string is made of: a role, the two credentials, a non-empty fingerprint and well-formed candidates, none holding a comma or a carriage return. */
  predicate CompactParts(t: string, ufrag: string, pwd: string, bytes: seq<Fingerprint.Byte>, cands: seq<Candidate>)
  {
    IsField(t) && IsField(ufrag) && IsField(pwd) && |bytes| > 0
    && forall i :: 0 <= i < |cands| ==> WellFormedCandidate(cands[i])
  }

  function RoleType(t: string): string
  {
    if t == "o" then "offer" else "answer"
  }

  /** The role a compact string keeps across decompression: `o` stays `o`, and every other role becomes `a`. */
  function NormalRole(t: string): string
  {
    if t == "o" then "o" else "a"
  }

  /** Decompressing a compact string writes the description line list of its parts. */
  lemma DecompressCompact(t: string, ufrag: string, pwd: string, bytes: seq<Fingerprint.Byte>, cands: seq<Candidate>, session: nat)
    requires CompactParts(t, ufrag, pwd, bytes, cands)
    ensures var c := Compact(t, ufrag, pwd, Base64.Encode(bytes), cands);
      && DecompressWith(c, session).Ok?
      && DecompressWith(c, session).value.sdpType == RoleType(t)
      && SplitOn(DecompressWith(c, session).value.sdp, CRLF)
        == DescriptionLines(t, ufrag, pwd, Fingerprint.RenderFingerprint(bytes), session, CandidateLines(Renders(cands))) + [""]
  {
    var fp := Base64.Encode(bytes);
    var c := Compact(t, ufrag, pwd, fp, cands);
    EncodedIsField(bytes);
    CompactFields(t, ufrag, pwd, fp, cands);
    CompactAvoidsCR(t, ufrag, pwd, fp, cands);
    var f := SplitOn(c, ",");
    FieldsAt(t, ufrag, pwd, fp, Renders(cands));
    Base64.EncodeDecode(bytes);
    assert FingerprintLineOf(f) == Fingerprint.RenderFingerprint(bytes);
    DecompressedLines(c, session);
  }

  /** Where the parts stand in the field list of a compact string. */
  lemma FieldsAt(t: string, ufrag: string, pwd: string, fp: string, rs: seq<string>)
    ensures var f := [t, ufrag, pwd, fp] + rs;
      f[0] == t && FieldOr(f, 1) == ufrag && FieldOr(f, 2) == pwd && FieldOr(f, 3) == fp
      && CandidateFields(f) == rs
  {
    var f := [t, ufrag, pwd, fp] + rs;
    assert f[4..] == rs;
  }

  /** What `compressSDP` makes of lines in which it finds all three attributes and at least one candidate. */
  lemma CompressFound(sdpType: string, lines: seq<string>, ufrag: string, pwd: string, fpLine: string, rs: seq<string>)
    requires FirstWithPrefix(lines, UfragPrefix) == Some(UfragPrefix + ufrag)
    requires FirstWithPrefix(lines, PwdPrefix) == Some(PwdPrefix + pwd)
    requires FirstWithPrefix(lines, FingerprintAttr) == Some(fpLine)
    requires Fingerprint.WellFormedBody(fpLine)
    requires CompactCandidates(lines) == Ok(rs) && |rs| > 0
    ensures FingerprintReadable(lines)
    ensures CompressLines(sdpType, lines)
      == Ok(Join([RoleChar(sdpType), ufrag, pwd, Fingerprint.EncodeFingerprint(fpLine)] + rs, ","))
  {
    var t := RoleChar(sdpType);
    var fp := Fingerprint.EncodeFingerprint(fpLine);
    assert (UfragPrefix + ufrag)[|UfragPrefix|..] == ufrag;
    assert (PwdPrefix + pwd)[|PwdPrefix|..] == pwd;
    assert CompressLines(sdpType, lines) == Ok(Join([t, ufrag, pwd, fp, Join(rs, ",")], ","));
    FlattenCandidates([t, ufrag, pwd, fp], rs);
  }

  lemma FlattenCandidates(a: seq<string>, rs: seq<string>)
    requires |a| == 4 && |rs| > 0
    ensures Join([a[0], a[1], a[2], a[3], Join(rs, ",")], ",") == Join(a + rs, ",")
  {
    assert [a[0], a[1], a[2], a[3], Join(rs, ",")] == a + [Join(rs, ",")];
    JoinNested(a, rs, ",");
  }

  /** `compressSDP` finds the credentials and the rendered fingerprint in a description line list, and reads the fingerprint back. */
  lemma DescriptionFinds(t: string, ufrag: string, pwd: string, bytes: seq<Fingerprint.Byte>, session: nat, candLines: seq<string>)
    requires |bytes| > 0
    ensures var fpLine := Fingerprint.RenderFingerprint(bytes);
      var lines := DescriptionLines(t, ufrag, pwd, fpLine, session, candLines) + [""];
      && FirstWithPrefix(lines, UfragPrefix) == Some(UfragPrefix + ufrag)
      && FirstWithPrefix(lines, PwdPrefix) == Some(PwdPrefix + pwd)
      && FirstWithPrefix(lines, FingerprintAttr) == Some(fpLine)
      && Fingerprint.WellFormedBody(fpLine)
      && Fingerprint.EncodeFingerprint(fpLine) == Base64.Encode(bytes)
      && |fpLine| > 2 && fpLine[2] == 'f'
  {
    var fpLine := Fingerprint.RenderFingerprint(bytes);
    RenderedFingerprintAttribute(bytes);
    FindUfrag(t, ufrag, pwd, fpLine, session, candLines);
    FindPwd(t, ufrag, pwd, fpLine, session, candLines);
    FindFingerprint(t, ufrag, pwd, fpLine, session, candLines);
    Fingerprint.EncodeDecodeFingerprint(bytes);
  }

  lemma RoleTypeChar(t: string)
    ensures RoleChar(RoleType(t)) == NormalRole(t)
  {
  }

  /** Compressing the description line list of a compact string's parts gives that compact string. */
  lemma CompressDescription(t: string, ufrag: string, pwd: string, bytes: seq<Fingerprint.Byte>, cands: seq<Candidate>, session: nat)
    requires CompactParts(t, ufrag, pwd, bytes, cands)
    requires |cands| > 0
    ensures var lines := DescriptionLines(t, ufrag, pwd, Fingerprint.RenderFingerprint(bytes), session, CandidateLines(Renders(cands))) + [""];
      && FingerprintReadable(lines)
      && CompressLines(RoleType(t), lines) == Ok(Compact(NormalRole(t), ufrag, pwd, Base64.Encode(bytes), cands))
  {
    var fpLine := Fingerprint.RenderFingerprint(bytes);
    var candLines := CandidateLines(Renders(cands));
    DescriptionFinds(t, ufrag, pwd, bytes, session, candLines);
    DescriptionCandidates(t, ufrag, pwd, fpLine, session, cands);
    RoleTypeChar(t);
    CompressFound(RoleType(t), DescriptionLines(t, ufrag, pwd, fpLine, session, candLines) + [""], ufrag, pwd, fpLine, Renders(cands));
  }

  /**
   * `compressSDP(decompressSDP(c))` gives `c` back for every compact string
   * with at least one candidate, comma-free credentials and a fingerprint
   * field that is `btoa` of a non-empty byte string, whatever origin id
   * decompression uses, except that a role other than `o` (such as the `p`
   * of a `pranswer`) comes back as `a`.
   */
  lemma RoundTrip(t: string, ufrag: string, pwd: string, bytes: seq<Fingerprint.Byte>, cands: seq<Candidate>, session: nat)
    requires CompactParts(t, ufrag, pwd, bytes, cands)
    requires |cands| > 0
    ensures var c := Compact(t, ufrag, pwd, Base64.Encode(bytes), cands);
      && DecompressWith(c, session).Ok?
      && FingerprintReadable(SplitOn(DecompressWith(c, session).value.sdp, CRLF))
      && CompressSDP(DecompressWith(c, session).value) == Ok(Compact(NormalRole(t), ufrag, pwd, Base64.Encode(bytes), cands))
    ensures t == "o" || t == "a" ==>
      var c := Compact(t, ufrag, pwd, Base64.Encode(bytes), cands);
      CompressSDP(DecompressWith(c, session).value) == Ok(c)
  {
    DecompressCompact(t, ufrag, pwd, bytes, cands, session);
    CompressDescription(t, ufrag, pwd, bytes, cands, session);
  }

  /** A line that does not start with `p` can be inserted anywhere without changing what `find` returns. */
  lemma {:induction false} FirstWithPrefixInsert(a: seq<string>, l: string, b: seq<string>, p: string)
    requires !StartsWith(l, p)
    ensures FirstWithPrefix(a + [l] + b, p) == FirstWithPrefix(a + b, p)
    decreases |a|
  {
    if |a| == 0 {
      assert a + [l] + b == [l] + b && ([l] + b)[1..] == b && a + b == b;
    } else {
      assert (a + [l] + b)[1..] == a[1..] + [l] + b;
      assert (a + b)[1..] == a[1..] + b;
      FirstWithPrefixInsert(a[1..], l, b, p);
    }
  }

  /** A candidate line the loopback filter drops contributes nothing, wherever it stands. */
  lemma CompactCandidatesInsert(a: seq<string>, l: string, b: seq<string>)
    requires !Retained(l)
    ensures CompactCandidates(a + [l] + b) == CompactCandidates(a + b)
  {
    assert a + [l] + b == a + ([l] + b);
    assert ([l] + b)[1..] == b;
    assert CompactCandidates([l] + b) == CompactCandidates(b);
    CompactCandidatesAppend(a, [l] + b);
    CompactCandidatesAppend(a, b);
  }

  /**
   * A candidate line that mentions `127.0.0.1` or `::1` anywhere can be
   * added anywhere to a description without changing what `compressSDP`
   * returns or whether it throws.
   */
  lemma LoopbackDropped(sdpType: string, a: seq<string>, l: string, b: seq<string>)
    requires StartsWith(l, CandidatePrefix) && (Contains(l, Loopback4) || Contains(l, Loopback6))
    requires FingerprintReadable(a + b)
    ensures FingerprintReadable(a + [l] + b)
    ensures CompressLines(sdpType, a + [l] + b) == CompressLines(sdpType, a + b)
  {
    assert l[..|CandidatePrefix|] == CandidatePrefix;
    assert l[2] == 'c';
    NotStartsWithAt(l, UfragPrefix, 2);
    NotStartsWithAt(l, PwdPrefix, 2);
    NotStartsWithAt(l, FingerprintAttr, 2);
    FirstWithPrefixInsert(a, l, b, UfragPrefix);
    FirstWithPrefixInsert(a, l, b, PwdPrefix);
    FirstWithPrefixInsert(a, l, b, FingerprintAttr);
    CompactCandidatesInsert(a, l, b);
  }

  /** The words of the line written for an empty compact candidate: no transport, and `undefined` for host and port. */
  const StrayWords: seq<string> := ["a=candidate:0", "1", "", "0", "undefined", "undefined", "typ", "host"]

  lemma StrayWordsAvoidLoopback(words: seq<string>, pat: string)
    requires words == StrayWords
    requires pat == Loopback4 || pat == Loopback6
    ensures !Contains(Join(words, " "), pat)
  {
    var missing := if pat == Loopback4 then '.' else ':';
    assert '1' in pat && missing in pat && ' ' !in pat;
    forall k | 0 <= k < |words| ensures !Contains(words[k], pat) {
      if k == 0 {
        NotContainsMissingChar(words[k], pat, '1');
      } else {
        NotContainsMissingChar(words[k], pat, missing);
      }
    }
    JoinNotContains(words, pat);
  }

  lemma StrayLineWords()
    ensures CandidateLine("", 0) == Join(StrayWords, " ")
  {
    assert SplitOn("", "|") == [""];
  }

  lemma StrayLineTokens(words: seq<string>)
    requires words == StrayWords
    ensures StartsWith(Join(words, " "), CandidatePrefix)
    ensures Join(words, " ")[|CandidatePrefix|..] == Join(["0"] + words[1..], " ")
  {
    var tokens := ["0"] + words[1..];
    assert words[0] == CandidatePrefix + "0";
    JoinFirstWord(words, " ", CandidatePrefix, "0");
    PrefixedStartsWith(CandidatePrefix, Join(tokens, " "));
  }

  lemma StrayTokensUnparsed(tokens: seq<string>)
    requires tokens == ["0"] + StrayWords[1..]
    ensures ParseCandidate(Join(tokens, " ")) == None
  {
    SplitJoin(tokens, " ");
  }

  /**
   * The candidate line written for an empty compact candidate,
   * `a=candidate:0 1  0 undefined undefined typ host`, passes the loopback
   * filter but does not match the candidate pattern.
   */
  lemma StrayCandidateLine()
    ensures CandidateLine("", 0) == Join(StrayWords, " ")
    ensures Retained(CandidateLine("", 0))
    ensures ParseCandidate(CandidateLine("", 0)[|CandidatePrefix|..]) == None
  {
    StrayLineWords();
    StrayLineTokens(StrayWords);
    StrayTokensUnparsed(["0"] + StrayWords[1..]);
    StrayWordsAvoidLoopback(StrayWords, Loopback4);
    StrayWordsAvoidLoopback(StrayWords, Loopback6);
  }

  /** What `compressSDP` makes of lines in which it finds all three attributes and no candidate: a trailing comma. */
  lemma CompressFoundNone(sdpType: string, lines: seq<string>, ufrag: string, pwd: string, fpLine: string)
    requires FirstWithPrefix(lines, UfragPrefix) == Some(UfragPrefix + ufrag)
    requires FirstWithPrefix(lines, PwdPrefix) == Some(PwdPrefix + pwd)
    requires FirstWithPrefix(lines, FingerprintAttr) == Some(fpLine)
    requires Fingerprint.WellFormedBody(fpLine)
    requires CompactCandidates(lines) == Ok([])
    ensures FingerprintReadable(lines)
    ensures CompressLines(sdpType, lines)
      == Ok(Join([RoleChar(sdpType), ufrag, pwd, Fingerprint.EncodeFingerprint(fpLine)], ",") + ",")
  {
    var t := RoleChar(sdpType);
    var fp := Fingerprint.EncodeFingerprint(fpLine);
    assert (UfragPrefix + ufrag)[|UfragPrefix|..] == ufrag;
    assert (PwdPrefix + pwd)[|PwdPrefix|..] == pwd;
    assert CompressLines(sdpType, lines) == Ok(Join([t, ufrag, pwd, fp, ""], ","));
    assert [t, ufrag, pwd, fp, ""] == [t, ufrag, pwd, fp] + [""];
    JoinTrailing([t, ufrag, pwd, fp], ",");
  }

  /**
   * A compact string without candidates does not survive the round trip:
   * compressing its decompression appends a comma, because joining an
   * empty candidate list still contributes an empty field.
   */
  lemma NoCandidatesTrailingComma(t: string, ufrag: string, pwd: string, bytes: seq<Fingerprint.Byte>, session: nat)
    requires CompactParts(t, ufrag, pwd, bytes, [])
    ensures var c := Compact(t, ufrag, pwd, Base64.Encode(bytes), []);
      && DecompressWith(c, session).Ok?
      && FingerprintReadable(SplitOn(DecompressWith(c, session).value.sdp, CRLF))
      && CompressSDP(DecompressWith(c, session).value) == Ok(Compact(NormalRole(t), ufrag, pwd, Base64.Encode(bytes), []) + ",")
  {
    DecompressCompact(t, ufrag, pwd, bytes, [], session);
    CompressEmptyDescription(t, ufrag, pwd, bytes, session);
  }

  /** Compressing a description line list without candidate lines gives its compact string with a trailing comma. */
  lemma CompressEmptyDescription(t: string, ufrag: string, pwd: string, bytes: seq<Fingerprint.Byte>, session: nat)
    requires |bytes| > 0
    ensures var lines := DescriptionLines(t, ufrag, pwd, Fingerprint.RenderFingerprint(bytes), session, CandidateLines(Renders([]))) + [""];
      && FingerprintReadable(lines)
      && CompressLines(RoleType(t), lines) == Ok(Compact(NormalRole(t), ufrag, pwd, Base64.Encode(bytes), []) + ",")
  {
    var fpLine := Fingerprint.RenderFingerprint(bytes);
    var candLines := CandidateLines(Renders([]));
    DescriptionFinds(t, ufrag, pwd, bytes, session, candLines);
    DescriptionCandidates(t, ufrag, pwd, fpLine, session, []);
    RoleTypeChar(t);
    var n := NormalRole(t);
    assert [n, ufrag, pwd, Base64.Encode(bytes)] + Renders([]) == [n, ufrag, pwd, Base64.Encode(bytes)];
    CompressFoundNone(RoleType(t), DescriptionLines(t, ufrag, pwd, fpLine, session, candLines) + [""], ufrag, pwd, fpLine);
  }

  /** The fields of a compact string without candidates that ends in a comma. */
  lemma TrailingCommaFields(t: string, ufrag: string, pwd: string, fp: string)
    requires IsField(t) && IsField(ufrag) && IsField(pwd) && IsField(fp)
    ensures SplitOn(Compact(t, ufrag, pwd, fp, []) + ",", ",") == [t, ufrag, pwd, fp, ""]
    ensures '\r' !in Compact(t, ufrag, pwd, fp, []) + ","
  {
    assert [t, ufrag, pwd, fp] + Renders([]) == [t, ufrag, pwd, fp];
    assert [t, ufrag, pwd, fp] + [""] == [t, ufrag, pwd, fp, ""];
    JoinTrailing([t, ufrag, pwd, fp], ",");
    SplitFields(t, ufrag, pwd, fp, [""]);
    CompactAvoidsCR(t, ufrag, pwd, fp, []);
  }

  /** Decompressing the comma-terminated string writes the description line list with one empty compact candidate. */
  lemma TrailingCommaLines(t: string, ufrag: string, pwd: string, bytes: seq<Fingerprint.Byte>, session: nat)
    requires CompactParts(t, ufrag, pwd, bytes, [])
    ensures var c := Compact(t, ufrag, pwd, Base64.Encode(bytes), []) + ",";
      && DecompressWith(c, session).Ok?
      && DecompressWith(c, session).value.sdpType == RoleType(t)
      && SplitOn(DecompressWith(c, session).value.sdp, CRLF)
        == DescriptionLines(t, ufrag, pwd, Fingerprint.RenderFingerprint(bytes), session, CandidateLines([""])) + [""]
  {
    var fp := Base64.Encode(bytes);
    var c := Compact(t, ufrag, pwd, fp, []) + ",";
    EncodedIsField(bytes);
    TrailingCommaFields(t, ufrag, pwd, fp);
    var f := SplitOn(c, ",");
    FieldsAt(t, ufrag, pwd, fp, [""]);
    Base64.EncodeDecode(bytes);
    assert FingerprintLineOf(f) == Fingerprint.RenderFingerprint(bytes);
    DecompressedLines(c, session);
  }

  /** The description line list with one empty compact candidate holds the stray candidate line, and compressing it throws. */
  lemma StrayDescriptionMalformed(t: string, ufrag: string, pwd: string, bytes: seq<Fingerprint.Byte>, session: nat)
    requires |bytes| > 0
    ensures var lines := DescriptionLines(t, ufrag, pwd, Fingerprint.RenderFingerprint(bytes), session, CandidateLines([""])) + [""];
      && |lines| > 11
      && lines[11] == Join(StrayWords, " ")
      && FingerprintReadable(lines)
      && CompressLines(RoleType(t), lines) == Err(MalformedCandidate)
  {
    var fpLine := Fingerprint.RenderFingerprint(bytes);
    var candLines := CandidateLines([""]);
    var lines := DescriptionLines(t, ufrag, pwd, fpLine, session, candLines) + [""];
    FirstCandidateLineAt(t, ufrag, pwd, fpLine, session, candLines);
    StrayCandidateLine();
    DescriptionFinds(t, ufrag, pwd, bytes, session, candLines);
    MalformedLineThrows(RoleType(t), lines, 11);
  }

  /** The first candidate line of a description line list stands at position 11. */
  lemma FirstCandidateLineAt(t: string, ufrag: string, pwd: string, fpLine: string, session: nat, candLines: seq<string>)
    requires |candLines| > 0
    ensures |DescriptionLines(t, ufrag, pwd, fpLine, session, candLines) + [""]| > 11
    ensures (DescriptionLines(t, ufrag, pwd, fpLine, session, candLines) + [""])[11] == candLines[0]
  {
  }

  /** Once the three attributes are found, one retained candidate line that does not match the pattern makes compression throw. */
  lemma MalformedLineThrows(sdpType: string, lines: seq<string>, k: nat)
    requires k < |lines| && Retained(lines[k]) && ParseCandidate(lines[k][|CandidatePrefix|..]).None?
    requires FingerprintReadable(lines)
    requires FirstWithPrefix(lines, UfragPrefix).Some? && FirstWithPrefix(lines, PwdPrefix).Some?
    requires FirstWithPrefix(lines, FingerprintAttr).Some?
    ensures CompressLines(sdpType, lines) == Err(MalformedCandidate)
  {
  }

  /**
   * That comma is read back as one empty candidate: decompressing the
   * comma-terminated string writes the candidate line with no transport
   * and `undefined` host and port, and compressing the result throws.
   */
  lemma TrailingCommaMalformed(t: string, ufrag: string, pwd: string, bytes: seq<Fingerprint.Byte>, session: nat)
    requires CompactParts(t, ufrag, pwd, bytes, [])
    ensures var c := Compact(t, ufrag, pwd, Base64.Encode(bytes), []) + ",";
      && DecompressWith(c, session).Ok?
      && |SplitOn(DecompressWith(c, session).value.sdp, CRLF)| > 11
      && SplitOn(DecompressWith(c, session).value.sdp, CRLF)[11] == Join(StrayWords, " ")
      && FingerprintReadable(SplitOn(DecompressWith(c, session).value.sdp, CRLF))
      && CompressSDP(DecompressWith(c, session).value) == Err(MalformedCandidate)
  {
    TrailingCommaLines(t, ufrag, pwd, bytes, session);
    StrayDescriptionMalformed(t, ufrag, pwd, bytes, session);
  }

  /** A compact string of fewer than four fields cannot be decompressed: the missing fingerprint reads as `undefined`, which is not base64. */
  lemma MissingFields(compact: string, session: nat)
    requires |SplitOn(compact, ",")| < 4
    ensures DecompressWith(compact, session) == Err(InvalidFingerprint)
  {
    UndefinedNotBase64("undefined");
  }

  lemma UndefinedNotBase64(s: string)
    requires s == "undefined"
    ensures Base64.Decode(s).Err?
  {
    assert |s| == 9 && Base64.StripPadding(s) == s;
  }

  lemma LinkLocalHasLoopback6(h: string)
    requires h == "fe80::1ab"
    ensures Contains(h, Loopback6)
  {
    assert h[4..][..3] == Loopback6;
    assert StartsWith(h[4..], Loopback6);
    ContainsPrepend(h[..4], h[4..], Loopback6);
    assert h[..4] + h[4..] == h;
  }

  /**
   * The loopback filter matches text, not addresses: a candidate line that
   * mentions the link-local address `fe80::1ab` anywhere is dropped too,
   * because it holds `::1`.
   */
  lemma LinkLocalDropped(before: string, after: string)
    ensures !Retained(CandidatePrefix + before + "fe80::1ab" + after)
  {
    LinkLocalHasLoopback6("fe80::1ab");
    ContainsAppend("fe80::1ab", after, Loopback6);
    assert CandidatePrefix + before + "fe80::1ab" + after == (CandidatePrefix + before) + ("fe80::1ab" + after);
    ContainsPrepend(CandidatePrefix + before, "fe80::1ab" + after, Loopback6);
  }

  /** The address a retained line reads as holds no loopback text, since the line holds none. */
  lemma RetainedHostAvoids(line: string, pat: string)
    requires Retained(line) && ParseCandidate(line[|CandidatePrefix|..]).Some?
    requires pat == Loopback4 || pat == Loopback6
    ensures !Contains(ParseCandidate(line[|CandidatePrefix|..]).value.host, pat)
  {
    var value := line[|CandidatePrefix|..];
    var t := SplitOn(value, " ");
    assert ParseCandidate(value).value.host == t[4];
    if Contains(t[4], pat) {
      SplitPieceContains(value, " ", 4, pat);
      assert line == line[..|CandidatePrefix|] + value;
      ContainsPrepend(line[..|CandidatePrefix|], value, pat);
    }
  }

  /** A retained line that matches the pattern reads as a candidate that decompression can write and compression read back. */
  lemma RetainedWellFormed(line: string)
    requires Retained(line) && ParseCandidate(line[|CandidatePrefix|..]).Some?
    ensures WellFormedCandidate(ParseCandidate(line[|CandidatePrefix|..]).value)
  {
    RetainedHostAvoids(line, Loopback4);
    RetainedHostAvoids(line, Loopback6);
  }

  lemma RendersCons(c: Candidate, rest: seq<Candidate>)
    ensures Renders([c] + rest) == [RenderCandidate(c)] + Renders(rest)
  {
    assert ([c] + rest)[1..] == rest;
  }

  /** The candidates `compressSDP` reads from the retained lines, in order: well-formed, and rendered as its candidate fields. */
  function ParsedCandidates(lines: seq<string>): (cs: seq<Candidate>)
    requires CandidatesParse(lines)
    ensures CompactCandidates(lines) == Ok(Renders(cs))
    ensures forall i :: 0 <= i < |cs| ==> WellFormedCandidate(cs[i])
  {
    if |lines| == 0 then []
    else
      assert CandidatesParse(lines[1..]) by {
        forall i | 0 <= i < |lines[1..]| ensures lines[1..][i] == lines[i + 1] { }
      }
      var rest := ParsedCandidates(lines[1..]);
      if Retained(lines[0]) then
        var c := ParseCandidate(lines[0][|CandidatePrefix|..]).value;
        RetainedWellFormed(lines[0]);
        RendersCons(c, rest);
        [c] + rest
      else rest
  }

  /** A line found by its prefix is that prefix and the rest of the line. */
  lemma FoundLine(line: string, p: string)
    requires StartsWith(line, p)
    ensures line == p + line[|p|..]
  {
    assert line == line[..|p|] + line[|p|..];
  }

  /** A fingerprint line `encodeFingerprint` can read names at least one byte, and encodes as their base64. */
  lemma FingerprintEncoding(fpLine: string)
    requires Fingerprint.WellFormedBody(fpLine)
    ensures |Fingerprint.FingerprintBytes(fpLine)| > 0
    ensures Fingerprint.EncodeFingerprint(fpLine) == Base64.Encode(Fingerprint.FingerprintBytes(fpLine))
  {
  }

  /** The parts `compressSDP` reads from a description line list with at least one candidate, and the compact string it writes from them. */
  lemma CompressedParts(sdpType: string, lines: seq<string>)
    requires FingerprintReadable(lines) && CompressLines(sdpType, lines).Ok?
    requires CompactCandidates(lines) != Ok([])
    ensures var ufragLine := FirstWithPrefix(lines, UfragPrefix).value;
      var pwdLine := FirstWithPrefix(lines, PwdPrefix).value;
      var fpLine := FirstWithPrefix(lines, FingerprintAttr).value;
      && Fingerprint.WellFormedBody(fpLine)
      && |Fingerprint.FingerprintBytes(fpLine)| > 0
      && |ParsedCandidates(lines)| > 0
      && CompressLines(sdpType, lines) == Ok(Compact(RoleChar(sdpType), ufragLine[|UfragPrefix|..], pwdLine[|PwdPrefix|..],
           Base64.Encode(Fingerprint.FingerprintBytes(fpLine)), ParsedCandidates(lines)))
  {
    var ufragLine := FirstWithPrefix(lines, UfragPrefix).value;
    var pwdLine := FirstWithPrefix(lines, PwdPrefix).value;
    var fpLine := FirstWithPrefix(lines, FingerprintAttr).value;
    FoundLine(ufragLine, UfragPrefix);
    FoundLine(pwdLine, PwdPrefix);
    FingerprintEncoding(fpLine);
    var cands := ParsedCandidates(lines);
    CompressFound(sdpType, lines, ufragLine[|UfragPrefix|..], pwdLine[|PwdPrefix|..], fpLine, Renders(cands));
  }

  /**
   * `decompressSDP(compressSDP(d))` keeps everything compression reads from
   * `d`, whatever origin id decompression uses: the same ufrag and pwd
   * lines, a fingerprint line naming the same bytes, and the same candidates
   * in the same order, under the type the role names. When the role is `o`
   * or `a`, compressing the result again gives the same compact string.
   */
  lemma DescriptionRoundTrip(sdpType: string, lines: seq<string>, session: nat)
    requires FingerprintReadable(lines) && CompressLines(sdpType, lines).Ok?
    requires CompactCandidates(lines) != Ok([])
    requires IsField(RoleChar(sdpType))
    requires IsField(FirstWithPrefix(lines, UfragPrefix).value[|UfragPrefix|..])
    requires IsField(FirstWithPrefix(lines, PwdPrefix).value[|PwdPrefix|..])
    ensures DecompressWith(CompressLines(sdpType, lines).value, session).Ok?
    ensures DecompressWith(CompressLines(sdpType, lines).value, session).value.sdpType == RoleType(RoleChar(sdpType))
    ensures var back := SplitOn(DecompressWith(CompressLines(sdpType, lines).value, session).value.sdp, CRLF);
      && FirstWithPrefix(back, UfragPrefix) == FirstWithPrefix(lines, UfragPrefix)
      && FirstWithPrefix(back, PwdPrefix) == FirstWithPrefix(lines, PwdPrefix)
      && FingerprintReadable(back) && FirstWithPrefix(back, FingerprintAttr).Some?
      && Fingerprint.FingerprintBytes(FirstWithPrefix(back, FingerprintAttr).value)
        == Fingerprint.FingerprintBytes(FirstWithPrefix(lines, FingerprintAttr).value)
      && CompactCandidates(back) == CompactCandidates(lines)
      && (RoleChar(sdpType) == "o" || RoleChar(sdpType) == "a" ==>
        CompressLines(RoleType(RoleChar(sdpType)), back) == CompressLines(sdpType, lines))
  {
    var t := RoleChar(sdpType);
    var ufragLine := FirstWithPrefix(lines, UfragPrefix).value;
    var pwdLine := FirstWithPrefix(lines, PwdPrefix).value;
    var fpLine := FirstWithPrefix(lines, FingerprintAttr).value;
    var ufrag, pwd := ufragLine[|UfragPrefix|..], pwdLine[|PwdPrefix|..];
    var bytes := Fingerprint.FingerprintBytes(fpLine);
    var cands := ParsedCandidates(lines);
    CompressedParts(sdpType, lines);
    FoundLine(ufragLine, UfragPrefix);
    FoundLine(pwdLine, PwdPrefix);
    DecompressCompact(t, ufrag, pwd, bytes, cands, session);
    DescriptionFinds(t, ufrag, pwd, bytes, session, CandidateLines(Renders(cands)));
    Fingerprint.RenderedParts(bytes);
    DescriptionCandidates(t, ufrag, pwd, Fingerprint.RenderFingerprint(bytes), session, cands);
    if t == "o" || t == "a" {
      CompressDescription(t, ufrag, pwd, bytes, cands, session);
    }
  }
}
