/**
 The signed records of enrollment, persona requests and session hydration: what
 a signature covers, and what the chain of validators guarantees.
 */
module Enrollment {
  import opened Prelude
  import opened SigningPayload

  datatype DecisionKind = Approved | Denied
  datatype RevisionKind = Active | Revoked
  datatype OperatorAction = Approve | Deny | Revoke
  datatype OperatorQuery = PendingRequests
  datatype Direction = ClientToServer

  datatype Offer = Offer(
    version: nat, offerId: Text, challenge: Text, networkId: Text, adminDid: Text, serverPeer: Text,
    serverTicket: Text, ownerAgent: Text, profile: Text, schemaFingerprint: Text, issuedAt: Text,
    expiresAt: Text, sig: seq<Byte>)

  datatype Request = Request(
    version: nat, requestId: Text, requestDigest: Text, offerId: Text, offerToken: Text, challenge: Text,
    networkId: Text, adminDid: Text, serverPeer: Text, candidateDid: Text, candidatePeer: Text,
    candidateTicket: Text, ownerAgent: Text, profile: Text, clientNonce: Text, issuedAt: Text,
    expiresAt: Text, sig: seq<Byte>)

  datatype Decision = Decision(
    version: nat, decisionId: Text, requestId: Text, requestDigest: Text, networkId: Text, adminDid: Text,
    candidateDid: Text, candidatePeer: Text, ownerAgent: Text, kind: DecisionKind, sequence: nat,
    authorizationExpiresAt: Text, decidedAt: Text, signerDid: Text, sig: seq<Byte>)

  datatype Revision = Revision(
    version: nat, revisionId: Text, requestId: Text, requestDigest: Text, networkId: Text, adminDid: Text,
    memberDid: Text, memberPeer: Text, ownerAgent: Text, sequence: nat, authorizationExpiresAt: Text,
    kind: RevisionKind, issuedAt: Text, signerDid: Text, sig: seq<Byte>)

  datatype Receipt = Receipt(
    version: nat, receiptId: Text, requestId: Text, requestDigest: Text, networkId: Text, adminDid: Text,
    memberDid: Text, memberPeer: Text, serverPeer: Text, ownerAgent: Text, sequence: nat,
    authorizationExpiresAt: Text, direction: Direction, appliedAt: Text, signerDid: Text, sig: seq<Byte>)

  datatype DecisionCommand = DecisionCommand(
    version: nat, requestId: Text, action: OperatorAction, leaseSeconds: nat, adminDid: Text, issuedAt: Text,
    nonce: Text, sig: seq<Byte>)

  datatype QueryCommand = QueryCommand(
    version: nat, query: OperatorQuery, adminDid: Text, issuedAt: Text, nonce: Text, sig: seq<Byte>)

  datatype Persona = Persona(
    requestKey: Text, requesterDid: Text, agentDid: Text, authorityKind: Text, localSignerDid: Text, op: Text,
    behaviorId: Option<Text>, cloneFrom: Option<Text>, personaName: Option<Text>, backendModel: Option<Text>,
    root: Option<Text>, preset: Option<Text>, profileId: Option<Text>, createdAt: Text, sig: seq<Byte>)

  /** `manifest` is the JSON text of the served manifest. */
  datatype Hydration = Hydration(
    version: nat, requestKey: Text, requesterDid: Text, agentDid: Text, sessionId: Text, status: Text,
    statusDetail: Text, manifest: Text, processedAt: Text, signerDid: Text, sig: seq<Byte>)

  /** Everything that is signed over the canonical encoding. */
  datatype Record =
    | SignedOffer(offer: Offer)
    | SignedRequest(request: Request)
    | SignedDecision(decision: Decision)
    | SignedRevision(revision: Revision)
    | SignedReceipt(receipt: Receipt)
    | SignedDecisionCommand(decisionCommand: DecisionCommand)
    | SignedQueryCommand(queryCommand: QueryCommand)
    | SignedPersona(persona: Persona)
    | SignedHydration(hydration: Hydration)

  function Domain(r: Record): string
  {
    match r
    case SignedOffer(_) => "gents-enrollment-offer-signature-v1"
    case SignedRequest(_) => "gents-enrollment-request-signature-v1"
    case SignedDecision(_) => "gents-enrollment-decision-signature-v1"
    case SignedRevision(_) => "gents-network-authorization-signature-v1"
    case SignedReceipt(_) => "gents-enrollment-route-receipt-signature-v1"
    case SignedDecisionCommand(_) => "gents-enrollment-operator-decision-command-v1"
    case SignedQueryCommand(_) => "gents-enrollment-operator-query-command-v1"
    case SignedPersona(_) => "gents-persona-local-self-signature-v1"
    case SignedHydration(_) => "gents-session-hydration-receipt-v1"
  }

  function DecisionText(k: DecisionKind): Text { Ascii(if k.Approved? then "approved" else "denied") }
  function RevisionText(k: RevisionKind): Text { Ascii(if k.Active? then "active" else "revoked") }
  function DirectionText(d: Direction): Text { Ascii("client_to_server") }
  function QueryText(q: OperatorQuery): Text { Ascii("pending") }

  function ActionText(a: OperatorAction): Text
  {
    Ascii(match a case Approve => "approve" case Deny => "deny" case Revoke => "revoke")
  }

  /** The tagged text of an optional field. */
  function OptionText(value: Option<Text>): Text
  {
    if value.Some? then Ascii("some:") + value.value else Ascii("none:")
  }

  function Fields(r: Record): seq<Text>
  {
    match r
    case SignedOffer(o) =>
      [Decimal(o.version), o.offerId, o.challenge, o.networkId, o.adminDid, o.serverPeer, o.serverTicket,
       o.ownerAgent, o.profile, o.schemaFingerprint, o.issuedAt, o.expiresAt]
    case SignedRequest(q) =>
      [Decimal(q.version), q.requestId, q.requestDigest, q.offerId, q.offerToken, q.challenge, q.networkId,
       q.adminDid, q.serverPeer, q.candidateDid, q.candidatePeer, q.candidateTicket, q.ownerAgent, q.profile,
       q.clientNonce, q.issuedAt, q.expiresAt]
    case SignedDecision(d) =>
      [Decimal(d.version), d.decisionId, d.requestId, d.requestDigest, d.networkId, d.adminDid, d.candidateDid,
       d.candidatePeer, d.ownerAgent, DecisionText(d.kind), Decimal(d.sequence), d.authorizationExpiresAt,
       d.decidedAt, d.signerDid]
    case SignedRevision(v) =>
      [Decimal(v.version), v.revisionId, v.requestId, v.requestDigest, v.networkId, v.adminDid, v.memberDid,
       v.memberPeer, v.ownerAgent, Decimal(v.sequence), v.authorizationExpiresAt, RevisionText(v.kind),
       v.issuedAt, v.signerDid]
    case SignedReceipt(t) =>
      [Decimal(t.version), t.receiptId, t.requestId, t.requestDigest, t.networkId, t.adminDid, t.memberDid,
       t.memberPeer, t.serverPeer, t.ownerAgent, Decimal(t.sequence), t.authorizationExpiresAt,
       DirectionText(t.direction), t.appliedAt, t.signerDid]
    case SignedDecisionCommand(c) =>
      [Decimal(c.version), c.requestId, ActionText(c.action), Decimal(c.leaseSeconds), c.adminDid, c.issuedAt, c.nonce]
    case SignedQueryCommand(c) =>
      [Decimal(c.version), QueryText(c.query), c.adminDid, c.issuedAt, c.nonce]
    case SignedPersona(p) =>
      [p.requestKey, p.requesterDid, p.agentDid, p.authorityKind, p.localSignerDid, p.op,
       OptionText(p.behaviorId), OptionText(p.cloneFrom), OptionText(p.personaName), OptionText(p.backendModel),
       OptionText(p.root), OptionText(p.preset), OptionText(p.profileId), p.createdAt]
    case SignedHydration(h) =>
      [Decimal(h.version), h.requestKey, h.requesterDid, h.agentDid, h.sessionId, h.status, h.statusDetail,
       h.manifest, h.processedAt, h.signerDid]
  }

  function SigningBytes(r: Record): seq<Byte>
  {
    Payload(Ascii(Domain(r)), Fields(r))
  }

  /** The record with its signature left out. */
  function Unsigned(r: Record): Record
  {
    match r
    case SignedOffer(x) => SignedOffer(x.(sig := []))
    case SignedRequest(x) => SignedRequest(x.(sig := []))
    case SignedDecision(x) => SignedDecision(x.(sig := []))
    case SignedRevision(x) => SignedRevision(x.(sig := []))
    case SignedReceipt(x) => SignedReceipt(x.(sig := []))
    case SignedDecisionCommand(x) => SignedDecisionCommand(x.(sig := []))
    case SignedQueryCommand(x) => SignedQueryCommand(x.(sig := []))
    case SignedPersona(x) => SignedPersona(x.(sig := []))
    case SignedHydration(x) => SignedHydration(x.(sig := []))
  }

  /** A number that differs for every kind of record. */
  function KindOf(r: Record): nat
  {
    match r
    case SignedOffer(_) => 35
    case SignedRequest(_) => 37
    case SignedDecision(_) => 38
    case SignedRevision(_) => 40
    case SignedReceipt(_) => 43
    case SignedDecisionCommand(_) => 45
    case SignedQueryCommand(_) => 42
    case SignedPersona(_) => 36
    case SignedHydration(_) => 34
  }

  /** The length of a domain, and its seventh character, tell the kind. */
  lemma {:induction false} DomainTellsKind(r: Record)
    ensures |Domain(r)| == if r.SignedPersona? then 37 else KindOf(r)
    ensures r.SignedPersona? ==> Domain(r)[6] == 'p'
    ensures r.SignedRequest? ==> Domain(r)[6] == 'e'
  {
  }

  lemma {:induction false} DomainsDiffer(a: Record, b: Record)
    requires Ascii(Domain(a)) == Ascii(Domain(b))
    ensures KindOf(a) == KindOf(b)
  {
    DomainTellsKind(a);
    DomainTellsKind(b);
    assert |Domain(a)| == |Ascii(Domain(a))| == |Ascii(Domain(b))| == |Domain(b)|;
    assert Ascii(Domain(a))[6] == Ascii(Domain(b))[6];
  }

  lemma {:induction false} OptionInjective(a: Option<Text>, b: Option<Text>)
    requires OptionText(a) == OptionText(b)
    ensures a == b
  {
    assert OptionText(a)[0] == OptionText(b)[0];
    assert a.Some? ==> OptionText(a)[0] == 's' as int as Byte && OptionText(a)[5..] == a.value;
    assert b.Some? ==> OptionText(b)[0] == 's' as int as Byte && OptionText(b)[5..] == b.value;
    assert a.None? ==> OptionText(a)[0] == 'n' as int as Byte;
    assert b.None? ==> OptionText(b)[0] == 'n' as int as Byte;
  }

  lemma {:induction false} KindTextsDiffer(a: DecisionKind, b: DecisionKind, c: RevisionKind, d: RevisionKind, e: OperatorAction, f: OperatorAction)
    ensures DecisionText(a) == DecisionText(b) ==> a == b
    ensures RevisionText(c) == RevisionText(d) ==> c == d
    ensures ActionText(e) == ActionText(f) ==> e == f
  {
    assert |DecisionText(a)| == if a.Approved? then 8 else 6;
    assert |DecisionText(b)| == if b.Approved? then 8 else 6;
    assert |RevisionText(c)| == if c.Active? then 6 else 7;
    assert |RevisionText(d)| == if d.Active? then 6 else 7;
    assert |ActionText(e)| == match e case Approve => 7 case Deny => 4 case Revoke => 6;
    assert |ActionText(f)| == match f case Approve => 7 case Deny => 4 case Revoke => 6;
  }

  lemma {:induction false} DecimalField(a: seq<Text>, b: seq<Text>, i: nat, m: nat, n: nat)
    requires a == b && i < |a| && a[i] == Decimal(m) && b[i] == Decimal(n)
    ensures m == n
  {
    DecimalInjective(m, n);
  }

  lemma {:induction false} PersonaFieldsDetermine(x: Persona, y: Persona)
    requires Fields(SignedPersona(x)) == Fields(SignedPersona(y))
    ensures x.(sig := []) == y.(sig := [])
  {
    var f, g := Fields(SignedPersona(x)), Fields(SignedPersona(y));
    forall i | 0 <= i < |f| ensures f[i] == g[i] {}
    assert f[6] == g[6] && f[7] == g[7] && f[8] == g[8] && f[9] == g[9] && f[10] == g[10] && f[11] == g[11] && f[12] == g[12];
    OptionInjective(x.behaviorId, y.behaviorId);
    OptionInjective(x.cloneFrom, y.cloneFrom);
    OptionInjective(x.personaName, y.personaName);
    OptionInjective(x.backendModel, y.backendModel);
    OptionInjective(x.root, y.root);
    OptionInjective(x.preset, y.preset);
    OptionInjective(x.profileId, y.profileId);
  }

  lemma {:induction false} DecisionFieldsDetermine(x: Decision, y: Decision)
    requires Fields(SignedDecision(x)) == Fields(SignedDecision(y))
    ensures x.(sig := []) == y.(sig := [])
  {
    var f, g := Fields(SignedDecision(x)), Fields(SignedDecision(y));
    forall i | 0 <= i < |f| ensures f[i] == g[i] {}
    DecimalField(f, g, 0, x.version, y.version);
    DecimalField(f, g, 10, x.sequence, y.sequence);
    KindTextsDiffer(x.kind, y.kind, Active, Active, Approve, Approve);
  }

  lemma {:induction false} RevisionFieldsDetermine(x: Revision, y: Revision)
    requires Fields(SignedRevision(x)) == Fields(SignedRevision(y))
    ensures x.(sig := []) == y.(sig := [])
  {
    var f, g := Fields(SignedRevision(x)), Fields(SignedRevision(y));
    forall i | 0 <= i < |f| ensures f[i] == g[i] {}
    DecimalField(f, g, 0, x.version, y.version);
    DecimalField(f, g, 9, x.sequence, y.sequence);
    KindTextsDiffer(Approved, Approved, x.kind, y.kind, Approve, Approve);
  }

  /** Within one kind, equal field lists come from records equal up to the signature. */
  lemma {:induction false} FieldsDetermine(a: Record, b: Record)
    requires KindOf(a) == KindOf(b) && Fields(a) == Fields(b)
    ensures Unsigned(a) == Unsigned(b)
  {
    var f, g := Fields(a), Fields(b);
    forall i | 0 <= i < |f| ensures f[i] == g[i] {}
    match a
    case SignedOffer(x) => DecimalField(f, g, 0, x.version, b.offer.version);
    case SignedRequest(x) => DecimalField(f, g, 0, x.version, b.request.version);
    case SignedDecision(x) => DecisionFieldsDetermine(x, b.decision);
    case SignedRevision(x) => RevisionFieldsDetermine(x, b.revision);
    case SignedReceipt(x) =>
      DecimalField(f, g, 0, x.version, b.receipt.version);
      DecimalField(f, g, 10, x.sequence, b.receipt.sequence);
    case SignedDecisionCommand(x) =>
      DecimalField(f, g, 0, x.version, b.decisionCommand.version);
      DecimalField(f, g, 3, x.leaseSeconds, b.decisionCommand.leaseSeconds);
      KindTextsDiffer(Approved, Approved, Active, Active, x.action, b.decisionCommand.action);
    case SignedQueryCommand(x) => DecimalField(f, g, 0, x.version, b.queryCommand.version);
    case SignedPersona(x) => PersonaFieldsDetermine(x, b.persona);
    case SignedHydration(x) => DecimalField(f, g, 0, x.version, b.hydration.version);
  }

  /** A signing payload determines the kind of record and every signed field, and
      no payload is a prefix of another record's. */
  lemma {:induction false} SigningBytesDetermine(a: Record, b: Record)
    requires SigningBytes(a) <= SigningBytes(b)
    ensures Unsigned(a) == Unsigned(b)
  {
    PrefixFree(Ascii(Domain(a)), Fields(a), Ascii(Domain(b)), Fields(b));
    DomainsDiffer(a, b);
    FieldsDetermine(a, b);
  }
}
