/** Security findings: their grammar, their fingerprint and what the fingerprint determines. */
module Findings {
  import opened Common
  import opened Bytes

  const MAX_EVIDENCE_REFS: nat := 32
  const MAX_ACTOR_SCOPE_BYTES: nat := 256
  const FINGERPRINT_DOMAIN: string := "apex.security.finding.v3"

  datatype FindingType =
    | TelemetryIntegrity
    | AgentTemplateNoncompliant
    | ScopeIdentityDenied
    | UntrustedControlBoundary
    | SecretExposure
    | ToolPolicyDenied
    | AuthAbuse
    | AdmissionAbuse
    | BacklogDegraded

  datatype Severity = Info | Low | Medium | High | Critical
  datatype Confidence = Deterministic | Corroborated | Heuristic
  datatype Policy = Allow | Deny | RequireApproval | Contain
  datatype Status = Open | Acknowledged | Contained | Resolved | FalsePositive
  datatype Containment = Pause | Quarantine | DisableTool

  datatype Evidence = Evidence(eventId: string, fieldPath: string, valueHash: string)

  datatype Finding = Finding(
    findingId: string,
    findingType: FindingType,
    severity: Severity,
    confidence: Confidence,
    workspaceId: string,
    namespaceId: string,
    detector: string,
    evidence: seq<Evidence>,
    policy: Policy,
    fingerprint: string,
    createdAtMs: nat)

  // ------------------------------------------------------------------- grammar

  predicate AllChars(s: string, p: char -> bool) {
    s != [] ==> p(s[0]) && AllChars(s[1..], p)
  }

  predicate IsLowerHex(c: char) {
    '0' <= c <= '9' || 'a' <= c <= 'f'
  }

  predicate HasDoubleDot(s: string) {
    |s| > 1 && ((s[0] == '.' && s[1] == '.') || HasDoubleDot(s[1..]))
  }

  predicate IsLowercaseUuidV7(s: string) {
    && |s| == 36
    && s[8] == '-' && s[13] == '-' && s[18] == '-' && s[23] == '-'
    && s[14] == '7' && s[19] in "89ab"
    && (forall i :: 0 <= i < 36 && i != 8 && i != 13 && i != 18 && i != 23 ==> IsLowerHex(s[i]))
  }

  predicate IsDetector(s: string) {
    0 < |s| <= 128 && AllChars(s, IsDetectorChar)
  }

  predicate IsFieldPath(s: string) {
    0 < |s| <= 256 && !HasDoubleDot(s) && AllChars(s, IsPathChar)
  }

  predicate IsHash(s: string) {
    |s| == 64 && AllChars(s, IsLowerHex)
  }

  predicate IsEvidence(e: Evidence) {
    IsLowercaseUuidV7(e.eventId) && IsFieldPath(e.fieldPath) && IsHash(e.valueHash)
  }

  function Classification(t: FindingType): (Severity, Policy) {
    match t
    case SecretExposure => (Critical, Deny)
    case AgentTemplateNoncompliant => (High, RequireApproval)
    case BacklogDegraded => (High, Contain)
    case _ => (High, Deny)
  }

  /** The one classification each type may carry: nothing below High, and nothing is allowed. */
  lemma ClassificationExactly(f: Finding)
    requires HeaderIsValid(f)
    ensures f.severity == if f.findingType.SecretExposure? then Critical else High
    ensures f.policy.RequireApproval? <==> f.findingType.AgentTemplateNoncompliant?
    ensures f.policy.Contain? <==> f.findingType.BacklogDegraded?
    ensures f.policy.Deny? <==> !f.findingType.AgentTemplateNoncompliant? && !f.findingType.BacklogDegraded?
    ensures 1 <= |f.evidence| <= 32
    ensures IsIdentifier(f.workspaceId) && IsIdentifier(f.namespaceId) && IsDetector(f.detector)
    ensures IsLowercaseUuidV7(f.findingId)
  {
  }

  predicate NoRepeats(es: seq<Evidence>) {
    forall i, j :: 0 <= i < j < |es| ==> es[i] != es[j]
  }

  predicate AllEvidence(es: seq<Evidence>) {
    forall i :: 0 <= i < |es| ==> IsEvidence(es[i])
  }

  /** What validation demands before it looks at the evidence. */
  predicate HeaderIsValid(f: Finding) {
    && IsIdentifier(f.workspaceId) && IsIdentifier(f.namespaceId)
    && IsLowercaseUuidV7(f.findingId)
    && (f.severity, f.policy) == Classification(f.findingType)
    && IsDetector(f.detector)
    && 0 < |f.evidence| <= MAX_EVIDENCE_REFS
  }

  predicate IsValid(f: Finding, hash: string -> string) {
    && HeaderIsValid(f)
    && AllEvidence(f.evidence) && NoRepeats(f.evidence)
    && IsHash(f.fingerprint) && f.fingerprint == hash(Preimage(f))
  }

  lemma {:induction false} AllCharsExactly(s: string, p: char -> bool)
    ensures AllChars(s, p) <==> forall i :: 0 <= i < |s| ==> p(s[i])
  {
    if s != [] {
      var t := s[1..];
      AllCharsExactly(t, p);
      assert forall i :: 0 <= i < |t| ==> t[i] == s[i + 1];
      if AllChars(s, p) {
        forall i | 0 <= i < |s| ensures p(s[i]) {
          if i > 0 {
            assert s[i] == t[i - 1];
          }
        }
      }
    }
  }

  lemma {:induction false} DoubleDotExactly(s: string)
    ensures HasDoubleDot(s) <==> exists i :: 0 <= i < |s| - 1 && s[i] == '.' && s[i + 1] == '.'
  {
    if |s| > 1 {
      var t := s[1..];
      DoubleDotExactly(t);
      if exists i :: 0 <= i < |s| - 1 && s[i] == '.' && s[i + 1] == '.' {
        var i :| 0 <= i < |s| - 1 && s[i] == '.' && s[i + 1] == '.';
        if i > 0 {
          assert t[i - 1] == '.' && t[i] == '.';
        }
      }
      if HasDoubleDot(t) {
        var i :| 0 <= i < |t| - 1 && t[i] == '.' && t[i + 1] == '.';
        assert s[i + 1] == '.' && s[i + 2] == '.';
      }
    }
  }

  predicate IsDetectorChar(c: char) {
    IsAlphanumeric(c) || c == '.' || c == '_' || c == '-' || c == ':'
  }

  predicate IsPathChar(c: char) {
    IsAlphanumeric(c) || c == '.' || c == '_' || c == '/' || c == '-'
  }

  /** The grammars of detector names, field paths and hashes, as statements about positions. */
  lemma TextGrammarsExactly(s: string)
    ensures IsDetector(s) <==> 1 <= |s| <= 128 && forall i :: 0 <= i < |s| ==> IsDetectorChar(s[i])
    ensures IsFieldPath(s) <==>
            && 1 <= |s| <= 256 && (forall i :: 0 <= i < |s| ==> IsPathChar(s[i]))
            && (forall i :: 0 <= i < |s| - 1 ==> s[i] != '.' || s[i + 1] != '.')
    ensures IsHash(s) <==>
            |s| == 64 && forall i :: 0 <= i < |s| ==> '0' <= s[i] <= '9' || 'a' <= s[i] <= 'f'
  {
    AllCharsExactly(s, IsDetectorChar);
    AllCharsExactly(s, IsPathChar);
    AllCharsExactly(s, IsLowerHex);
    DoubleDotExactly(s);
  }

  // --------------------------------------------------------------- fingerprint

  function TypeTag(t: FindingType): string {
    match t
    case TelemetryIntegrity => "telemetry.integrity"
    case AgentTemplateNoncompliant => "agent.template.noncompliant"
    case ScopeIdentityDenied => "identity.scope.denied"
    case UntrustedControlBoundary => "control.untrusted.boundary"
    case SecretExposure => "data.secret.exposure"
    case ToolPolicyDenied => "tool.policy.denied"
    case AuthAbuse => "auth.abuse"
    case AdmissionAbuse => "ingest.admission.abuse"
    case BacklogDegraded => "ingest.backlog.degraded"
  }

  function SeverityTag(s: Severity): string {
    match s
    case Info => "info"
    case Low => "low"
    case Medium => "medium"
    case High => "high"
    case Critical => "critical"
  }

  function ConfidenceTag(c: Confidence): string {
    match c
    case Deterministic => "deterministic"
    case Corroborated => "corroborated"
    case Heuristic => "heuristic"
  }

  function PolicyTag(p: Policy): string {
    match p
    case Allow => "allow"
    case Deny => "deny"
    case RequireApproval => "require_approval"
    case Contain => "contain"
  }

  function Header(f: Finding): seq<string> {
    [TypeTag(f.findingType), SeverityTag(f.severity), ConfidenceTag(f.confidence), PolicyTag(f.policy),
     f.workspaceId, f.namespaceId, f.detector]
  }

  function EvidenceTokens(es: seq<Evidence>): (ts: seq<string>)
    ensures |ts| == 3 * |es|
  {
    if es == [] then []
    else EvidenceTokens(es[..|es| - 1])
         + [es[|es| - 1].eventId, es[|es| - 1].fieldPath, es[|es| - 1].valueHash]
  }

  /** The bytes hashed into a finding's fingerprint. */
  function Preimage(f: Finding): string {
    FINGERPRINT_DOMAIN + Framed(Header(f) + EvidenceTokens(f.evidence), true)
  }

  /** One `update_component` call: the digest absorbs one more length-prefixed token. */
  lemma {:induction false} FramedSnoc(tokens: seq<string>, t: string, big: bool)
    ensures Framed(tokens + [t], big) == Framed(tokens, big) + LengthPrefix(|t|, big) + t
  {
    if tokens == [] {
      assert tokens + [t] == [t];
      assert [t][1..] == [];
    } else {
      assert (tokens + [t])[1..] == tokens[1..] + [t];
      FramedSnoc(tokens[1..], t, big);
    }
  }

  lemma AbsorbsOne(tokens: seq<string>, t: string)
    ensures FINGERPRINT_DOMAIN + Framed(tokens + [t], true)
         == FINGERPRINT_DOMAIN + Framed(tokens, true) + LengthPrefix(|t|, true) + t
  {
    FramedSnoc(tokens, t, true);
    ConcatAssociates(FINGERPRINT_DOMAIN, Framed(tokens, true) + LengthPrefix(|t|, true), t);
    ConcatAssociates(FINGERPRINT_DOMAIN, Framed(tokens, true), LengthPrefix(|t|, true));
  }

  method Absorb(digest: string, ghost tokens: seq<string>, more: seq<string>) returns (r: string)
    requires digest == FINGERPRINT_DOMAIN + Framed(tokens, true)
    ensures r == FINGERPRINT_DOMAIN + Framed(tokens + more, true)
  {
    r := digest;
    assert tokens + more[..0] == tokens;
    for i := 0 to |more|
      invariant r == FINGERPRINT_DOMAIN + Framed(tokens + more[..i], true)
    {
      AbsorbsOne(tokens + more[..i], more[i]);
      OneMoreTaken(tokens, more, i);
      r := r + LengthPrefix(|more[i]|, true) + more[i];
    }
    assert more[..|more|] == more;
  }

  /** The digest input built up component by component. */
  method BuildPreimage(f: Finding) returns (r: string)
    ensures r == Preimage(f)
  {
    r := Absorb(FINGERPRINT_DOMAIN, [], Header(f));
    assert [] + Header(f) == Header(f) == Header(f) + EvidenceTokens(f.evidence[..0]);
    for i := 0 to |f.evidence|
      invariant r == FINGERPRINT_DOMAIN + Framed(Header(f) + EvidenceTokens(f.evidence[..i]), true)
    {
      var e := f.evidence[i];
      assert f.evidence[..i + 1][..i] == f.evidence[..i];
      ConcatAssociates(Header(f), EvidenceTokens(f.evidence[..i]), [e.eventId, e.fieldPath, e.valueHash]);
      r := Absorb(r, Header(f) + EvidenceTokens(f.evidence[..i]), [e.eventId, e.fieldPath, e.valueHash]);
    }
    assert f.evidence[..|f.evidence|] == f.evidence;
  }

  /** The evidence loop, with its early exits and its set of references seen so far. */
  method CheckEvidence(es: seq<Evidence>) returns (ok: bool)
    ensures ok <==> AllEvidence(es) && NoRepeats(es)
  {
    var seen: set<Evidence> := {};
    for i := 0 to |es|
      invariant forall j :: 0 <= j < i ==> IsEvidence(es[j])
      invariant NoRepeats(es[..i])
      invariant seen == set e | e in es[..i]
    {
      assert es[..i + 1] == es[..i] + [es[i]];
      if !IsEvidence(es[i]) {
        return false;
      }
      if es[i] in seen {
        assert es[i] in es[..i];
        return false;
      }
      seen := seen + {es[i]};
    }
    assert es[..|es|] == es;
    return true;
  }

  method ValidateFinding(f: Finding, hash: string -> string) returns (ok: bool)
    ensures ok == IsValid(f, hash)
  {
    if !HeaderIsValid(f) {
      return false;
    }
    var evidenced := CheckEvidence(f.evidence);
    if !evidenced {
      return false;
    }
    var preimage := BuildPreimage(f);
    return IsHash(f.fingerprint) && f.fingerprint == hash(preimage);
  }

  predicate LogicallyEqual(a: Finding, b: Finding) {
    && a.findingType == b.findingType
    && a.severity == b.severity
    && a.confidence == b.confidence
    && a.workspaceId == b.workspaceId
    && a.namespaceId == b.namespaceId
    && a.detector == b.detector
    && a.evidence == b.evidence
    && a.policy == b.policy
    && a.fingerprint == b.fingerprint
  }

  lemma TypeTagsDiffer(a: FindingType, b: FindingType)
    requires TypeTag(a) == TypeTag(b)
    ensures a == b
  {
    assert |TypeTag(a)| == |TypeTag(b)|;
  }

  lemma SmallTagsDiffer(a: Finding, b: Finding)
    requires SeverityTag(a.severity) == SeverityTag(b.severity)
    requires ConfidenceTag(a.confidence) == ConfidenceTag(b.confidence)
    requires PolicyTag(a.policy) == PolicyTag(b.policy)
    ensures a.severity == b.severity && a.confidence == b.confidence && a.policy == b.policy
  {
    assert SeverityTag(a.severity)[0] == SeverityTag(b.severity)[0];
    assert |ConfidenceTag(a.confidence)| == |ConfidenceTag(b.confidence)|;
    assert |PolicyTag(a.policy)| == |PolicyTag(b.policy)|;
  }

  lemma {:induction false} EvidenceTokensDetermine(a: seq<Evidence>, b: seq<Evidence>)
    requires EvidenceTokens(a) == EvidenceTokens(b)
    ensures a == b
  {
    if a != [] && b != [] {
      var x, y := EvidenceTokens(a), EvidenceTokens(b);
      var n := |x| - 3;
      assert x[..n] == EvidenceTokens(a[..|a| - 1]) && y[..n] == EvidenceTokens(b[..|b| - 1]);
      EvidenceTokensDetermine(a[..|a| - 1], b[..|b| - 1]);
      assert x[n] == a[|a| - 1].eventId && x[n + 1] == a[|a| - 1].fieldPath && x[n + 2] == a[|a| - 1].valueHash;
      assert y[n] == b[|b| - 1].eventId && y[n + 1] == b[|b| - 1].fieldPath && y[n + 2] == b[|b| - 1].valueHash;
      assert a == a[..|a| - 1] + [a[|a| - 1]] && b == b[..|b| - 1] + [b[|b| - 1]];
    }
  }

  lemma {:induction false} EvidenceTokensFit(es: seq<Evidence>)
    requires AllEvidence(es)
    ensures LengthsFit(EvidenceTokens(es))
  {
    if es != [] {
      EvidenceTokensFit(es[..|es| - 1]);
    }
  }

  lemma HeaderFits(f: Finding)
    requires HeaderIsValid(f)
    ensures LengthsFit(Header(f))
  {
    assert |TypeTag(f.findingType)| < 30 && |SeverityTag(f.severity)| < 30;
    assert |ConfidenceTag(f.confidence)| < 30 && |PolicyTag(f.policy)| < 30;
  }

  lemma TokensFit(f: Finding)
    requires HeaderIsValid(f) && AllEvidence(f.evidence)
    ensures LengthsFit(Header(f) + EvidenceTokens(f.evidence))
  {
    HeaderFits(f);
    EvidenceTokensFit(f.evidence);
  }

  lemma HeadersDetermine(a: Finding, b: Finding)
    requires Header(a) == Header(b)
    ensures a.findingType == b.findingType && a.severity == b.severity && a.confidence == b.confidence
    ensures a.policy == b.policy && a.workspaceId == b.workspaceId && a.namespaceId == b.namespaceId
    ensures a.detector == b.detector
  {
    assert Header(a)[0] == Header(b)[0] && Header(a)[1] == Header(b)[1] && Header(a)[2] == Header(b)[2];
    assert Header(a)[3] == Header(b)[3] && Header(a)[4] == Header(b)[4] && Header(a)[5] == Header(b)[5];
    assert Header(a)[6] == Header(b)[6];
    TypeTagsDiffer(a.findingType, b.findingType);
    SmallTagsDiffer(a, b);
  }

  /** The hashed bytes determine every field the duplicate test compares. */
  lemma PreimageDetermines(a: Finding, b: Finding)
    requires HeaderIsValid(a) && AllEvidence(a.evidence) && HeaderIsValid(b) && AllEvidence(b.evidence)
    requires Preimage(a) == Preimage(b) && a.fingerprint == b.fingerprint
    ensures LogicallyEqual(a, b)
  {
    var x, y := Header(a) + EvidenceTokens(a.evidence), Header(b) + EvidenceTokens(b.evidence);
    var d := |FINGERPRINT_DOMAIN|;
    assert Preimage(a)[d..] == Framed(x, true) && Preimage(b)[d..] == Framed(y, true);
    TokensFit(a);
    TokensFit(b);
    FramingIsInjective(x, y, true);
    assert x[..7] == Header(a) && y[..7] == Header(b);
    assert x[7..] == EvidenceTokens(a.evidence) && y[7..] == EvidenceTokens(b.evidence);
    HeadersDetermine(a, b);
    EvidenceTokensDetermine(a.evidence, b.evidence);
  }

  // -------------------------------------------------------------------- status

  predicate AllowedTransition(from: Status, to: Status) {
    match from
    case Open => to.Acknowledged? || to.Contained? || to.FalsePositive?
    case Acknowledged => to.Contained? || to.Resolved? || to.FalsePositive?
    case Contained => to.Resolved?
    case _ => false
  }

  /** How far a status is from Open, at most; terminal statuses are at the end. */
  function Rank(s: Status): nat {
    match s
    case Open => 0
    case Acknowledged => 1
    case Contained => 2
    case Resolved => 3
    case FalsePositive => 3
  }

  /** The part before the first slash, if there is one. */
  function SplitScope(s: string): Option<(string, string)> {
    if s == [] then None
    else if s[0] == '/' then Some(("", s[1..]))
    else
      var rest := SplitScope(s[1..]);
      if rest.None? then None else Some(([s[0]] + rest.value.0, rest.value.1))
  }

  predicate IsPrintable(c: char) {
    ' ' <= c <= '~'
  }

  predicate ValidActorScope(s: string) {
    && 0 < |s| <= MAX_ACTOR_SCOPE_BYTES
    && AllChars(s, IsPrintable)
    && SplitScope(s).Some?
    && IsIdentifier(SplitScope(s).value.0) && IsIdentifier(SplitScope(s).value.1)
  }
}
