/**
 The validator chain offer -> request -> decision -> revision / route receipt.
 */
module EnrollmentChain {
  import opened Prelude
  import opened SigningPayload
  import opened Enrollment

  const PROTOCOL_VERSION: nat := 2
  const MAX_LEASE_SECONDS: int := 90 * 24 * 60 * 60
  const MAX_FIELD_BYTES: nat := 16 * 1024
  const MAX_SEQUENCE: nat := 0x7fff_ffff_ffff_ffff
  const DIGEST_DOMAIN := "gents-enrollment-request-v1"
  const DIGEST_PREFIX := "utf8hex-v1:"

  /** The foreign parts: `time` parses a canonical UTC timestamp to seconds,
      `derive` hashes a domain and fields to an id text, `trimmed` says that a
      text has no surrounding white space. */
  datatype Host = Host(time: Text -> Option<int>, derive: (string, seq<Text>) -> Text, trimmed: Text -> bool)

  predicate ExactField(h: Host, value: Text)
  {
    value != [] && h.trimmed(value) && |value| <= MAX_FIELD_BYTES
  }

  predicate SignatureShape(sig: seq<Byte>)
  {
    |sig| == 64
  }

  // ----- the request digest

  function CanonicalFields(q: Request): seq<Text>
  {
    [q.requestId, q.offerId, q.challenge, q.networkId, q.adminDid, q.serverPeer, q.candidateDid, q.candidatePeer,
     q.ownerAgent, q.profile, q.clientNonce, q.issuedAt, q.expiresAt]
  }

  function Digest(fields: seq<Text>): Text
  {
    Ascii(DIGEST_PREFIX) + HexText(Payload(Ascii(DIGEST_DOMAIN), fields))
  }

  /** The digest is an injective commitment to its fields. */
  lemma {:induction false} DigestInjective(a: seq<Text>, b: seq<Text>)
    requires Digest(a) == Digest(b)
    ensures a == b
  {
    var n := |Ascii(DIGEST_PREFIX)|;
    var pa, pb := Payload(Ascii(DIGEST_DOMAIN), a), Payload(Ascii(DIGEST_DOMAIN), b);
    assert Digest(a)[n..] == HexText(pa) && Digest(b)[n..] == HexText(pb);
    HexInjective(pa, pb);
    PrefixFree(Ascii(DIGEST_DOMAIN), a, Ascii(DIGEST_DOMAIN), b);
  }

  /** A digest can be read back: after its tag, hexadecimal digits of the canonical
      encoding of the thirteen fields that identify the request. */
  lemma {:induction false} DigestReads(q: Request)
    ensures var digest := Digest(CanonicalFields(q));
            && |digest| >= 11 && digest[..11] == Ascii("utf8hex-v1:")
            && var bytes := ReadHex(digest[11..]);
            && bytes.Some?
            && Decode(bytes.value) == Some(Decoded(Ascii("gents-enrollment-request-v1"),
                 [q.requestId, q.offerId, q.challenge, q.networkId, q.adminDid, q.serverPeer, q.candidateDid,
                  q.candidatePeer, q.ownerAgent, q.profile, q.clientNonce, q.issuedAt, q.expiresAt], []))
  {
    var payload := Payload(Ascii(DIGEST_DOMAIN), CanonicalFields(q));
    var digest := Digest(CanonicalFields(q));
    assert |Ascii(DIGEST_PREFIX)| == 11;
    assert digest[..11] == Ascii(DIGEST_PREFIX) && digest[11..] == HexText(payload);
    HexReads(payload);
    DecodeInvertsPayload(Ascii(DIGEST_DOMAIN), CanonicalFields(q), []);
    assert payload + [] == payload;
  }

  // ----- the validators

  predicate ValidRequest(h: Host, offer: Offer, q: Request)
  {
    && q.version == PROTOCOL_VERSION
    && q.offerId == offer.offerId && q.challenge == offer.challenge && q.networkId == offer.networkId
    && q.adminDid == offer.adminDid && q.serverPeer == offer.serverPeer && q.ownerAgent == offer.ownerAgent
    && q.profile == offer.profile && q.expiresAt == offer.expiresAt
    && q.requestDigest == Digest(CanonicalFields(q))
    && q.requestId == Ascii("enroll-") + h.derive("gents-enrollment-request-id-v1",
                                                  [q.offerId, q.candidateDid, q.candidatePeer, q.clientNonce])
    && (forall i | 0 <= i < 16 :: ExactField(h, RequestTexts(q)[i]))
    && SignatureShape(q.sig)
    && h.time(offer.issuedAt).Some? && h.time(q.issuedAt).Some? && h.time(offer.expiresAt).Some?
    && h.time(offer.issuedAt).value <= h.time(q.issuedAt).value <= h.time(offer.expiresAt).value
  }

  function RequestTexts(q: Request): (r: seq<Text>)
    ensures |r| == 16
  {
    [q.requestId, q.requestDigest, q.offerId, q.offerToken, q.challenge, q.networkId, q.adminDid, q.serverPeer,
     q.candidateDid, q.candidatePeer, q.candidateTicket, q.ownerAgent, q.profile, q.clientNonce, q.issuedAt, q.expiresAt]
  }

  predicate ValidDecision(h: Host, q: Request, d: Decision)
  {
    && d.version == PROTOCOL_VERSION
    && d.requestId == q.requestId && d.requestDigest == q.requestDigest && d.networkId == q.networkId
    && d.adminDid == q.adminDid && d.candidateDid == q.candidateDid && d.candidatePeer == q.candidatePeer
    && d.ownerAgent == q.ownerAgent && d.signerDid == q.adminDid
    && d.decisionId == Ascii("decision-") + h.derive("gents-enrollment-decision-id-v1", [q.requestId, q.requestDigest])
    && (match d.kind
        case Approved =>
          && d.sequence > 0
          && h.time(d.authorizationExpiresAt).Some? && h.time(d.decidedAt).Some?
          && h.time(d.authorizationExpiresAt).value > h.time(d.decidedAt).value
          && h.time(d.authorizationExpiresAt).value - h.time(d.decidedAt).value <= MAX_LEASE_SECONDS
        case Denied =>
          && d.sequence == 0 && d.authorizationExpiresAt == d.decidedAt
          && h.time(d.authorizationExpiresAt).Some?)
    && d.sequence <= MAX_SEQUENCE
    && SignatureShape(d.sig)
    && h.time(q.issuedAt).Some? && h.time(q.expiresAt).Some? && h.time(d.decidedAt).Some?
    && h.time(q.issuedAt).value <= h.time(d.decidedAt).value <= h.time(q.expiresAt).value
  }

  predicate ValidRevision(h: Host, q: Request, d: Decision, v: Revision)
  {
    && v.version == PROTOCOL_VERSION && d.kind == Approved
    && v.requestId == q.requestId && v.requestDigest == q.requestDigest && v.networkId == q.networkId
    && v.adminDid == q.adminDid && v.memberDid == q.candidateDid && v.memberPeer == q.candidatePeer
    && v.ownerAgent == q.ownerAgent && v.signerDid == q.adminDid
    && 0 < v.sequence <= MAX_SEQUENCE
    && v.authorizationExpiresAt == d.authorizationExpiresAt
    && v.revisionId == Ascii("authorization-")
                       + h.derive("gents-network-authorization-id-v1",
                                  [v.networkId, v.memberDid, Decimal(v.sequence), RevisionText(v.kind), v.requestDigest])
    && (match v.kind
        case Active => v.sequence == d.sequence && v.issuedAt == d.decidedAt
        case Revoked =>
          && v.sequence > d.sequence
          && h.time(d.decidedAt).Some? && h.time(v.issuedAt).Some?
          && h.time(v.issuedAt).value >= h.time(d.decidedAt).value)
    && SignatureShape(v.sig)
    && h.time(v.issuedAt).Some?
  }

  predicate ValidReceipt(h: Host, q: Request, d: Decision, t: Receipt)
  {
    && t.version == PROTOCOL_VERSION
    && ValidDecision(h, q, d) && d.kind == Approved
    && t.requestId == q.requestId && t.requestDigest == q.requestDigest && t.networkId == q.networkId
    && t.adminDid == q.adminDid && t.memberDid == q.candidateDid && t.memberPeer == q.candidatePeer
    && t.serverPeer == q.serverPeer && t.ownerAgent == q.ownerAgent
    && t.sequence == d.sequence && t.authorizationExpiresAt == d.authorizationExpiresAt
    && t.signerDid == q.adminDid
    && t.receiptId == Ascii("route-receipt-")
                      + h.derive("gents-enrollment-route-receipt-id-v1",
                                 [t.requestId, t.requestDigest, Decimal(t.sequence), DirectionText(t.direction)])
    && h.time(d.decidedAt).Some? && h.time(t.appliedAt).Some? && h.time(t.authorizationExpiresAt).Some?
    && h.time(t.appliedAt).value >= h.time(d.decidedAt).value
    && h.time(t.appliedAt).value < h.time(t.authorizationExpiresAt).value
    && SignatureShape(t.sig)
  }

  // ----- what the chain guarantees

  /** Enrollment chain.  Records that validate in turn are ordered in time, and a
      route is applied less than the maximal lease after the offer expired. */
  lemma {:induction false} ChainIsOrdered(h: Host, offer: Offer, q: Request, d: Decision, t: Receipt)
    requires ValidRequest(h, offer, q) && ValidDecision(h, q, d) && ValidReceipt(h, q, d, t)
    ensures h.time(offer.issuedAt).Some? && h.time(q.issuedAt).Some? && h.time(d.decidedAt).Some?
    ensures h.time(t.appliedAt).Some? && h.time(offer.expiresAt).Some?
    ensures h.time(offer.issuedAt).value <= h.time(q.issuedAt).value <= h.time(d.decidedAt).value <= h.time(t.appliedAt).value
    ensures h.time(t.appliedAt).value < h.time(offer.expiresAt).value + MAX_LEASE_SECONDS
  {
  }

  /** One decision cannot serve two requests: validated requests that the same
      decision accepts agree on every canonical field. */
  lemma {:induction false} DecisionBindsRequest(h: Host, o1: Offer, q1: Request, o2: Offer, q2: Request, d: Decision)
    requires ValidRequest(h, o1, q1) && ValidRequest(h, o2, q2)
    requires ValidDecision(h, q1, d) && ValidDecision(h, q2, d)
    ensures CanonicalFields(q1) == CanonicalFields(q2)
  {
    DigestInjective(CanonicalFields(q1), CanonicalFields(q2));
  }

  /** Accepted Active revisions of one approval differ only in their signature. */
  lemma {:induction false} ActiveRevisionIsUnique(h: Host, q: Request, d: Decision, a: Revision, b: Revision)
    requires ValidRevision(h, q, d, a) && ValidRevision(h, q, d, b) && a.kind == b.kind == Active
    ensures a == b.(sig := a.sig)
  {
  }

  /** Every accepted revocation dominates every accepted activation of the same
      approval, and is not earlier. */
  lemma {:induction false} RevocationDominates(h: Host, q: Request, d: Decision, a: Revision, r: Revision)
    requires ValidRevision(h, q, d, a) && ValidRevision(h, q, d, r) && a.kind == Active && r.kind == Revoked
    ensures a.sequence < r.sequence
    ensures h.time(a.issuedAt).value <= h.time(r.issuedAt).value
    ensures SigningBytes(SignedRevision(a)) != SigningBytes(SignedRevision(r))
  {
    if SigningBytes(SignedRevision(a)) == SigningBytes(SignedRevision(r)) {
      SigningBytesDetermine(SignedRevision(a), SignedRevision(r));
    }
  }

  /** A receipt for an accepted approval fixes everything but its direction's own
      time and signature: two receipts of one approval agree on the rest. */
  lemma {:induction false} ReceiptsAgree(h: Host, q: Request, d: Decision, a: Receipt, b: Receipt)
    requires ValidReceipt(h, q, d, a) && ValidReceipt(h, q, d, b)
    ensures a == b.(appliedAt := a.appliedAt, sig := a.sig)
  {
  }

  // ----- accepted records are the issued ones

  /** The request a candidate makes of an offer. */
  function IssuedRequest(h: Host, offer: Offer, token: Text, did: Text, peer: Text, ticket: Text, nonce: Text,
                         issuedAt: Text, sig: seq<Byte>): Request
  {
    var id := Ascii("enroll-") + h.derive("gents-enrollment-request-id-v1", [offer.offerId, did, peer, nonce]);
    var digest := Digest([id, offer.offerId, offer.challenge, offer.networkId, offer.adminDid, offer.serverPeer, did, peer,
                          offer.ownerAgent, offer.profile, nonce, issuedAt, offer.expiresAt]);
    Request(2, id, digest, offer.offerId, token, offer.challenge, offer.networkId, offer.adminDid, offer.serverPeer,
            did, peer, ticket, offer.ownerAgent, offer.profile, nonce, issuedAt, offer.expiresAt, sig)
  }

  /** The admin's decision on a request. */
  function IssuedDecision(h: Host, q: Request, kind: DecisionKind, sequence: nat, expiresAt: Text, decidedAt: Text,
                          sig: seq<Byte>): Decision
  {
    Decision(2, Ascii("decision-") + h.derive("gents-enrollment-decision-id-v1", [q.requestId, q.requestDigest]),
             q.requestId, q.requestDigest, q.networkId, q.adminDid, q.candidateDid, q.candidatePeer, q.ownerAgent,
             kind, sequence, expiresAt, decidedAt, q.adminDid, sig)
  }

  /** The admin's activation or revocation of an approved request. */
  function IssuedRevision(h: Host, q: Request, d: Decision, kind: RevisionKind, sequence: nat, issuedAt: Text,
                          sig: seq<Byte>): Revision
  {
    var id := Ascii("authorization-")
              + h.derive("gents-network-authorization-id-v1",
                         [q.networkId, q.candidateDid, Decimal(sequence), RevisionText(kind), q.requestDigest]);
    Revision(2, id, q.requestId, q.requestDigest, q.networkId, q.adminDid, q.candidateDid, q.candidatePeer, q.ownerAgent,
             sequence, d.authorizationExpiresAt, kind, issuedAt, q.adminDid, sig)
  }

  /** The admin's receipt for a route applied under an approval. */
  function IssuedReceipt(h: Host, q: Request, d: Decision, direction: Direction, appliedAt: Text, sig: seq<Byte>): Receipt
  {
    var id := Ascii("route-receipt-")
              + h.derive("gents-enrollment-route-receipt-id-v1",
                         [q.requestId, q.requestDigest, Decimal(d.sequence), DirectionText(direction)]);
    Receipt(2, id, q.requestId, q.requestDigest, q.networkId, q.adminDid, q.candidateDid, q.candidatePeer, q.serverPeer,
            q.ownerAgent, d.sequence, d.authorizationExpiresAt, direction, appliedAt, q.adminDid, sig)
  }

  /** `a` is not after `b`, both being canonical timestamps. */
  predicate NotAfter(h: Host, a: Text, b: Text)
  {
    h.time(a).Some? && h.time(b).Some? && h.time(a).value <= h.time(b).value
  }

  /** A request is accepted exactly when it is one issued for the offer, every text it
      signs is exact, it carries a signature, and it was issued in the offer's window. */
  lemma {:induction false} RequestExactly(h: Host, offer: Offer, q: Request)
    ensures ValidRequest(h, offer, q) <==>
            && q == IssuedRequest(h, offer, q.offerToken, q.candidateDid, q.candidatePeer, q.candidateTicket, q.clientNonce,
                                  q.issuedAt, q.sig)
            && (forall i | 1 <= i <= 16 ::
                  var text := Fields(SignedRequest(q))[i]; text != [] && h.trimmed(text) && |text| <= 16384)
            && |q.sig| == 64
            && NotAfter(h, offer.issuedAt, q.issuedAt) && NotAfter(h, q.issuedAt, offer.expiresAt)
  {
    var texts, fields := RequestTexts(q), Fields(SignedRequest(q));
    assert forall i | 0 <= i < 16 :: fields[i + 1] == texts[i];
    assert forall i | 1 <= i <= 16 :: fields[i] == texts[i - 1];
    assert (forall i | 0 <= i < 16 :: ExactField(h, texts[i])) <==>
           (forall i | 1 <= i <= 16 :: fields[i] != [] && h.trimmed(fields[i]) && |fields[i]| <= 16384) by {
      if forall i | 1 <= i <= 16 :: fields[i] != [] && h.trimmed(fields[i]) && |fields[i]| <= 16384 {
        forall i | 0 <= i < 16 ensures ExactField(h, texts[i]) {
          assert texts[i] == fields[i + 1];
        }
      }
    }
  }

  /** A decision is accepted exactly when it is one the request's admin issued for it:
      an approval with a positive sequence and a lease of at most ninety days, or a
      denial without either; signed, and decided in the request's window. */
  lemma {:induction false} DecisionExactly(h: Host, q: Request, d: Decision)
    ensures ValidDecision(h, q, d) <==>
            && d == IssuedDecision(h, q, d.kind, d.sequence, d.authorizationExpiresAt, d.decidedAt, d.sig)
            && |d.sig| == 64 && NotAfter(h, q.issuedAt, d.decidedAt) && NotAfter(h, d.decidedAt, q.expiresAt)
            && (d.kind == Approved ==>
                  && 0 < d.sequence < 0x8000_0000_0000_0000
                  && h.time(d.authorizationExpiresAt).Some?
                  && 0 < h.time(d.authorizationExpiresAt).value - h.time(d.decidedAt).value <= 90 * 86400)
            && (d.kind == Denied ==> d.sequence == 0 && d.authorizationExpiresAt == d.decidedAt)
  {
  }

  /** A revision of an approval is accepted exactly when it is one the admin issued: the
      activation at the approval's sequence and time, or a later revocation. */
  lemma {:induction false} RevisionExactly(h: Host, q: Request, d: Decision, v: Revision)
    ensures ValidRevision(h, q, d, v) <==>
            && d.kind == Approved
            && v == IssuedRevision(h, q, d, v.kind, v.sequence, v.issuedAt, v.sig)
            && |v.sig| == 64 && 0 < v.sequence < 0x8000_0000_0000_0000 && h.time(v.issuedAt).Some?
            && (v.kind == Active ==> v.sequence == d.sequence && v.issuedAt == d.decidedAt)
            && (v.kind == Revoked ==> v.sequence > d.sequence && NotAfter(h, d.decidedAt, v.issuedAt))
  {
  }

  /** A receipt is accepted exactly when it is one the admin issued under an accepted
      approval, signed, and applied between the decision and the end of the lease. */
  lemma {:induction false} ReceiptExactly(h: Host, q: Request, d: Decision, t: Receipt)
    ensures ValidReceipt(h, q, d, t) <==>
            && ValidDecision(h, q, d) && d.kind == Approved
            && t == IssuedReceipt(h, q, d, t.direction, t.appliedAt, t.sig)
            && |t.sig| == 64 && NotAfter(h, d.decidedAt, t.appliedAt)
            && h.time(t.appliedAt).value < h.time(d.authorizationExpiresAt).value
  {
  }

  /** The identity law.  Records that validate in turn speak of the offer's network,
      admin, owner and server, and of the request's candidate, and the offer's admin
      signed every one after the request. */
  lemma {:induction false} ChainIdentity(h: Host, offer: Offer, q: Request, d: Decision, v: Revision, t: Receipt)
    requires ValidRequest(h, offer, q) && ValidDecision(h, q, d) && ValidRevision(h, q, d, v) && ValidReceipt(h, q, d, t)
    ensures q.networkId == d.networkId == v.networkId == t.networkId == offer.networkId
    ensures q.adminDid == d.adminDid == v.adminDid == t.adminDid == offer.adminDid
    ensures q.ownerAgent == d.ownerAgent == v.ownerAgent == t.ownerAgent == offer.ownerAgent
    ensures q.serverPeer == t.serverPeer == offer.serverPeer
    ensures d.candidateDid == v.memberDid == t.memberDid == q.candidateDid
    ensures d.candidatePeer == v.memberPeer == t.memberPeer == q.candidatePeer
    ensures d.signerDid == v.signerDid == t.signerDid == offer.adminDid
    ensures d.requestId == v.requestId == t.requestId == q.requestId
    ensures d.requestDigest == v.requestDigest == t.requestDigest == q.requestDigest == Digest(CanonicalFields(q))
    ensures t.sequence == d.sequence && v.authorizationExpiresAt == t.authorizationExpiresAt == d.authorizationExpiresAt
    ensures q.offerId == offer.offerId && q.challenge == offer.challenge && q.profile == offer.profile && q.expiresAt == offer.expiresAt
    ensures q.version == d.version == v.version == t.version == 2
  {
  }
}
