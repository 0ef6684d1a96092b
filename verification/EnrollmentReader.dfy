/**
 A reader of signed records: what stands at which place of a signing payload.
 */
module EnrollmentReader {
  import opened Prelude
  import opened SigningPayload
  import opened Enrollment

  function Number(t: Text): nat
  {
    if DecimalValue(t) >= 0 then DecimalValue(t) else 0
  }

  /** An optional field as written: a tag, and the text after it. */
  function ReadOption(t: Text): Option<Option<Text>>
  {
    if t == Ascii("none:") then Some(None)
    else if |t| >= 5 && t[..5] == Ascii("some:") then Some(Some(t[5..]))
    else None
  }

  function OrNone(o: Option<Option<Text>>): Option<Text>
  {
    if o.Some? then o.value else None
  }

  function ReadOffer(f: seq<Text>): Option<Record>
  {
    if |f| != 12 then None
    else Some(SignedOffer(Offer(Number(f[0]), f[1], f[2], f[3], f[4], f[5], f[6], f[7], f[8], f[9], f[10], f[11], [])))
  }

  function ReadRequest(f: seq<Text>): Option<Record>
  {
    if |f| != 17 then None
    else Some(SignedRequest(Request(Number(f[0]), f[1], f[2], f[3], f[4], f[5], f[6], f[7], f[8], f[9], f[10], f[11], f[12],
                                    f[13], f[14], f[15], f[16], [])))
  }

  function ReadDecision(f: seq<Text>): Option<Record>
  {
    if |f| != 14 || (f[9] != Ascii("approved") && f[9] != Ascii("denied")) then None
    else Some(SignedDecision(Decision(Number(f[0]), f[1], f[2], f[3], f[4], f[5], f[6], f[7], f[8],
                                      if f[9] == Ascii("approved") then Approved else Denied,
                                      Number(f[10]), f[11], f[12], f[13], [])))
  }

  function ReadRevision(f: seq<Text>): Option<Record>
  {
    if |f| != 14 || (f[11] != Ascii("active") && f[11] != Ascii("revoked")) then None
    else Some(SignedRevision(Revision(Number(f[0]), f[1], f[2], f[3], f[4], f[5], f[6], f[7], f[8], Number(f[9]), f[10],
                                      if f[11] == Ascii("active") then Active else Revoked, f[12], f[13], [])))
  }

  function ReadReceipt(f: seq<Text>): Option<Record>
  {
    if |f| != 15 || f[12] != Ascii("client_to_server") then None
    else Some(SignedReceipt(Receipt(Number(f[0]), f[1], f[2], f[3], f[4], f[5], f[6], f[7], f[8], f[9], Number(f[10]), f[11],
                                    ClientToServer, f[13], f[14], [])))
  }

  function ReadDecisionCommand(f: seq<Text>): Option<Record>
  {
    if |f| != 7 || (f[2] != Ascii("approve") && f[2] != Ascii("deny") && f[2] != Ascii("revoke")) then None
    else Some(SignedDecisionCommand(DecisionCommand(
                Number(f[0]), f[1],
                if f[2] == Ascii("approve") then Approve else if f[2] == Ascii("deny") then Deny else Revoke,
                Number(f[3]), f[4], f[5], f[6], [])))
  }

  function ReadQueryCommand(f: seq<Text>): Option<Record>
  {
    if |f| != 5 || f[1] != Ascii("pending") then None
    else Some(SignedQueryCommand(QueryCommand(Number(f[0]), PendingRequests, f[2], f[3], f[4], [])))
  }

  function ReadPersona(f: seq<Text>): Option<Record>
  {
    if |f| != 14 || exists i | 6 <= i < 13 :: ReadOption(f[i]).None? then None
    else Some(SignedPersona(Persona(f[0], f[1], f[2], f[3], f[4], f[5], OrNone(ReadOption(f[6])), OrNone(ReadOption(f[7])),
                                    OrNone(ReadOption(f[8])), OrNone(ReadOption(f[9])), OrNone(ReadOption(f[10])),
                                    OrNone(ReadOption(f[11])), OrNone(ReadOption(f[12])), f[13], [])))
  }

  function ReadHydration(f: seq<Text>): Option<Record>
  {
    if |f| != 10 then None
    else Some(SignedHydration(Hydration(Number(f[0]), f[1], f[2], f[3], f[4], f[5], f[6], f[7], f[8], f[9], [])))
  }

  /** The record that a domain and a list of fields stand for, without its signature. */
  function ReadRecord(domain: Text, f: seq<Text>): Option<Record>
  {
    if domain == Ascii("gents-enrollment-offer-signature-v1") then ReadOffer(f)
    else if domain == Ascii("gents-enrollment-request-signature-v1") then ReadRequest(f)
    else if domain == Ascii("gents-enrollment-decision-signature-v1") then ReadDecision(f)
    else if domain == Ascii("gents-network-authorization-signature-v1") then ReadRevision(f)
    else if domain == Ascii("gents-enrollment-route-receipt-signature-v1") then ReadReceipt(f)
    else if domain == Ascii("gents-enrollment-operator-decision-command-v1") then ReadDecisionCommand(f)
    else if domain == Ascii("gents-enrollment-operator-query-command-v1") then ReadQueryCommand(f)
    else if domain == Ascii("gents-persona-local-self-signature-v1") then ReadPersona(f)
    else if domain == Ascii("gents-session-hydration-receipt-v1") then ReadHydration(f)
    else None
  }

  lemma {:induction false} NumberReads(n: nat)
    ensures Number(Decimal(n)) == n
  {
    DecimalReads(n);
  }

  lemma {:induction false} OptionReads(value: Option<Text>)
    ensures ReadOption(OptionText(value)) == Some(value)
  {
    if value.Some? {
      var t := OptionText(value);
      assert t[..5] == Ascii("some:") && t[5..] == value.value;
      assert t[0] == 's' as int as Byte && Ascii("none:")[0] == 'n' as int as Byte;
    }
  }

  /** Texts of different lengths differ. */
  lemma {:induction false} LengthsDiffer(s: string, t: string)
    ensures |Ascii(s)| == |s| && (|s| != |t| ==> Ascii(s) != Ascii(t))
  {
  }

  lemma {:induction false} DecisionReads(d: Decision)
    ensures ReadDecision(Fields(SignedDecision(d))) == Some(SignedDecision(d.(sig := [])))
  {
    NumberReads(d.version);
    NumberReads(d.sequence);
    LengthsDiffer("denied", "approved");
    hide Number, Decimal, Ascii;
  }

  lemma {:induction false} RevisionReads(v: Revision)
    ensures ReadRevision(Fields(SignedRevision(v))) == Some(SignedRevision(v.(sig := [])))
  {
    NumberReads(v.version);
    NumberReads(v.sequence);
    LengthsDiffer("revoked", "active");
    hide Number, Decimal, Ascii;
  }

  lemma {:induction false} ReceiptReads(t: Receipt)
    ensures ReadReceipt(Fields(SignedReceipt(t))) == Some(SignedReceipt(t.(sig := [])))
  {
    NumberReads(t.version);
    NumberReads(t.sequence);
    assert t.direction.ClientToServer?;
    hide Number, Decimal, Ascii;
  }

  lemma {:induction false} DecisionCommandReads(c: DecisionCommand)
    ensures ReadDecisionCommand(Fields(SignedDecisionCommand(c))) == Some(SignedDecisionCommand(c.(sig := [])))
  {
    NumberReads(c.version);
    NumberReads(c.leaseSeconds);
    LengthsDiffer("deny", "approve");
    LengthsDiffer("revoke", "approve");
    LengthsDiffer("revoke", "deny");
    hide Number, Decimal, Ascii;
  }

  lemma {:induction false} PersonaReads(p: Persona)
    ensures ReadPersona(Fields(SignedPersona(p))) == Some(SignedPersona(p.(sig := [])))
  {
    OptionReads(p.behaviorId);
    OptionReads(p.cloneFrom);
    OptionReads(p.personaName);
    OptionReads(p.backendModel);
    OptionReads(p.root);
    OptionReads(p.preset);
    OptionReads(p.profileId);
    hide ReadOption, OptionText;
    var f := Fields(SignedPersona(p));
    forall i | 6 <= i < 13 ensures ReadOption(f[i]).Some? {
      assert i == 6 || i == 7 || i == 8 || i == 9 || i == 10 || i == 11 || i == 12;
    }
  }

  lemma {:induction false} OtherReads(r: Record)
    ensures r.SignedOffer? ==> ReadOffer(Fields(r)) == Some(Unsigned(r))
    ensures r.SignedRequest? ==> ReadRequest(Fields(r)) == Some(Unsigned(r))
    ensures r.SignedQueryCommand? ==> ReadQueryCommand(Fields(r)) == Some(Unsigned(r))
    ensures r.SignedHydration? ==> ReadHydration(Fields(r)) == Some(Unsigned(r))
  {
    match r
    case SignedOffer(x) => NumberReads(x.version);
    case SignedRequest(x) => NumberReads(x.version);
    case SignedQueryCommand(x) =>
      NumberReads(x.version);
      assert x.query.PendingRequests?;
    case SignedHydration(x) => NumberReads(x.version);
    case _ =>
  }

  lemma {:induction false} FieldsRead(r: Record)
    ensures match r
            case SignedOffer(_) => ReadOffer(Fields(r)) == Some(Unsigned(r))
            case SignedRequest(_) => ReadRequest(Fields(r)) == Some(Unsigned(r))
            case SignedDecision(_) => ReadDecision(Fields(r)) == Some(Unsigned(r))
            case SignedRevision(_) => ReadRevision(Fields(r)) == Some(Unsigned(r))
            case SignedReceipt(_) => ReadReceipt(Fields(r)) == Some(Unsigned(r))
            case SignedDecisionCommand(_) => ReadDecisionCommand(Fields(r)) == Some(Unsigned(r))
            case SignedQueryCommand(_) => ReadQueryCommand(Fields(r)) == Some(Unsigned(r))
            case SignedPersona(_) => ReadPersona(Fields(r)) == Some(Unsigned(r))
            case SignedHydration(_) => ReadHydration(Fields(r)) == Some(Unsigned(r))
  {
    hide Fields, ReadOffer, ReadRequest, ReadDecision, ReadRevision, ReadReceipt, ReadDecisionCommand, ReadQueryCommand,
      ReadPersona, ReadHydration;
    OtherReads(r);
    match r
    case SignedDecision(d) => DecisionReads(d);
    case SignedRevision(v) => RevisionReads(v);
    case SignedReceipt(t) => ReceiptReads(t);
    case SignedDecisionCommand(c) => DecisionCommandReads(c);
    case SignedPersona(p) => PersonaReads(p);
    case _ =>
  }

  /** The domain of each kind of record leads to that kind's fields. */
  lemma {:induction false} DomainReads(r: Record, f: seq<Text>)
    ensures ReadRecord(Ascii(Domain(r)), f) ==
            match r
            case SignedOffer(_) => ReadOffer(f)
            case SignedRequest(_) => ReadRequest(f)
            case SignedDecision(_) => ReadDecision(f)
            case SignedRevision(_) => ReadRevision(f)
            case SignedReceipt(_) => ReadReceipt(f)
            case SignedDecisionCommand(_) => ReadDecisionCommand(f)
            case SignedQueryCommand(_) => ReadQueryCommand(f)
            case SignedPersona(_) => ReadPersona(f)
            case SignedHydration(_) => ReadHydration(f)
  {
    var d := Domain(r);
    LengthsDiffer(d, "gents-enrollment-offer-signature-v1");
    LengthsDiffer(d, "gents-enrollment-request-signature-v1");
    LengthsDiffer(d, "gents-enrollment-decision-signature-v1");
    LengthsDiffer(d, "gents-network-authorization-signature-v1");
    LengthsDiffer(d, "gents-enrollment-route-receipt-signature-v1");
    LengthsDiffer(d, "gents-enrollment-operator-decision-command-v1");
    LengthsDiffer(d, "gents-enrollment-operator-query-command-v1");
    LengthsDiffer(d, "gents-persona-local-self-signature-v1");
    PersonaIsNoRequest();
    hide Ascii, ReadOffer, ReadRequest, ReadDecision, ReadRevision, ReadReceipt, ReadDecisionCommand, ReadQueryCommand,
      ReadPersona, ReadHydration;
  }

  lemma {:induction false} PersonaIsNoRequest()
    ensures Ascii("gents-persona-local-self-signature-v1") != Ascii("gents-enrollment-request-signature-v1")
  {
    assert Ascii("gents-persona-local-self-signature-v1")[6] == 'p' as int as Byte;
    assert Ascii("gents-enrollment-request-signature-v1")[6] == 'e' as int as Byte;
  }

  /** The round trip of every signed record: from its signing payload, and whatever
      bytes follow, the reader gets back its kind and every field but the signature. */
  lemma {:induction false} RecordRoundTrip(r: Record, rest: seq<Byte>)
    ensures var decoded := Decode(SigningBytes(r) + rest);
            && decoded.Some? && decoded.value.rest == rest
            && ReadRecord(decoded.value.domain, decoded.value.fields) == Some(Unsigned(r))
  {
    hide ReadRecord, Fields, Domain, Payload, Decode;
    DecodeInvertsPayload(Ascii(Domain(r)), Fields(r), rest);
    DomainReads(r, Fields(r));
    FieldsRead(r);
  }
}
