/**
 The canonical signing encoding: unary length framing of a domain and a list of
 fields.  Texts are their UTF-8 bytes.
 */
module SigningPayload {
  import opened Prelude

  newtype Byte = b: int | 0 <= b < 256
  type Text = seq<Byte>

  /** As many zero bytes as the length, then a byte that no length contains. */
  function EncodeLength(n: nat): seq<Byte>
  {
    if n == 0 then [0xff] else [0] + EncodeLength(n - 1)
  }

  function Frame(field: Text): seq<Byte>
  {
    EncodeLength(|field|) + field
  }

  function FrameAll(fields: seq<Text>): seq<Byte>
  {
    if fields == [] then [] else Frame(fields[0]) + FrameAll(fields[1..])
  }

  /** The payload of `domain` over `fields`: the count, then every field framed. */
  function Payload(domain: Text, fields: seq<Text>): seq<Byte>
  {
    EncodeLength(|fields| + 1) + FrameAll([domain] + fields)
  }

  /** Byte by byte. */
  lemma {:induction false} EncodedLength(n: nat)
    ensures |EncodeLength(n)| == n + 1 && EncodeLength(n)[n] == 0xff
    ensures forall k | 0 <= k < n :: EncodeLength(n)[k] == 0
  {
    if n > 0 {
      EncodedLength(n - 1);
    }
  }

  method EncodeWireLength(length: nat) returns (encoded: seq<Byte>)
    ensures encoded == EncodeLength(length)
  {
    encoded := [];
    for i := 0 to length
      invariant |encoded| == i && forall k | 0 <= k < i :: encoded[k] == 0
      invariant encoded + EncodeLength(length - i) == EncodeLength(length)
    {
      assert encoded + ([0] + EncodeLength(length - i - 1)) == encoded + [0] + EncodeLength(length - i - 1);
      encoded := encoded + [0];
    }
    encoded := encoded + [0xff];
  }

  method CanonicalDomainPayload(domain: Text, fields: seq<Text>) returns (encoded: seq<Byte>)
    ensures encoded == Payload(domain, fields)
  {
    var all := [domain] + fields;
    encoded := EncodeWireLength(|all|);
    for i := 0 to |all|
      invariant encoded + FrameAll(all[i..]) == Payload(domain, fields)
    {
      var length := EncodeWireLength(|all[i]|);
      assert all[i..][1..] == all[i + 1..];
      assert encoded + (Frame(all[i]) + FrameAll(all[i + 1..])) == encoded + length + all[i] + FrameAll(all[i + 1..]);
      encoded := encoded + length + all[i];
    }
  }

  // ----- the counting decoder

  /** A length and what follows it. */
  function ReadLength(bytes: seq<Byte>): (r: Option<(nat, seq<Byte>)>)
    ensures r.Some? ==> |r.value.1| < |bytes|
  {
    if bytes == [] then None
    else if bytes[0] == 0xff then Some((0, bytes[1..]))
    else if bytes[0] != 0 then None
    else
      match ReadLength(bytes[1..])
      case None => None
      case Some((n, rest)) => Some((n + 1, rest))
  }

  function ReadField(bytes: seq<Byte>): Option<(Text, seq<Byte>)>
  {
    match ReadLength(bytes)
    case None => None
    case Some((n, rest)) => if |rest| < n then None else Some((rest[..n], rest[n..]))
  }

  function ReadFields(n: nat, bytes: seq<Byte>): Option<(seq<Text>, seq<Byte>)>
  {
    if n == 0 then Some(([], bytes))
    else
      match ReadField(bytes)
      case None => None
      case Some((field, rest)) =>
        match ReadFields(n - 1, rest)
        case None => None
        case Some((fields, end)) => Some(([field] + fields, end))
  }

  /** A payload's domain, its fields and the bytes after it. */
  datatype Decoded = Decoded(domain: Text, fields: seq<Text>, rest: seq<Byte>)

  function Decode(bytes: seq<Byte>): Option<Decoded>
  {
    match ReadLength(bytes)
    case None => None
    case Some((n, rest)) =>
      if n == 0 then None
      else
        match ReadFields(n, rest)
        case None => None
        case Some((fields, end)) => if fields == [] then None else Some(Decoded(fields[0], fields[1..], end))
  }

  lemma {:induction false} ReadLengthInverts(n: nat, rest: seq<Byte>)
    ensures ReadLength(EncodeLength(n) + rest) == Some((n, rest))
  {
    var bytes := EncodeLength(n) + rest;
    if n == 0 {
      assert bytes[1..] == rest;
    } else {
      ReadLengthInverts(n - 1, rest);
      assert bytes[0] == 0 && bytes[1..] == EncodeLength(n - 1) + rest;
    }
  }

  lemma {:induction false} ReadFieldInverts(field: Text, rest: seq<Byte>)
    ensures ReadField(Frame(field) + rest) == Some((field, rest))
  {
    assert Frame(field) + rest == EncodeLength(|field|) + (field + rest);
    ReadLengthInverts(|field|, field + rest);
    assert (field + rest)[..|field|] == field && (field + rest)[|field|..] == rest;
  }

  lemma {:induction false} ReadFieldsInverts(fields: seq<Text>, rest: seq<Byte>)
    ensures ReadFields(|fields|, FrameAll(fields) + rest) == Some((fields, rest))
  {
    if fields == [] {
      assert FrameAll(fields) + rest == rest;
    } else {
      assert FrameAll(fields) + rest == Frame(fields[0]) + (FrameAll(fields[1..]) + rest);
      ReadFieldInverts(fields[0], FrameAll(fields[1..]) + rest);
      ReadFieldsInverts(fields[1..], rest);
      assert fields == [fields[0]] + fields[1..];
    }
  }

  /** Unique decoding.  The decoder recovers the domain, every field and whatever
      bytes follow the payload. */
  lemma {:induction false} DecodeInvertsPayload(domain: Text, fields: seq<Text>, rest: seq<Byte>)
    ensures Decode(Payload(domain, fields) + rest) == Some(Decoded(domain, fields, rest))
  {
    var all := [domain] + fields;
    assert Payload(domain, fields) + rest == EncodeLength(|all|) + (FrameAll(all) + rest);
    ReadLengthInverts(|all|, FrameAll(all) + rest);
    ReadFieldsInverts(all, rest);
    assert all[1..] == fields;
  }

  lemma {:induction false} ReadLengthIsExact(bytes: seq<Byte>)
    requires ReadLength(bytes).Some?
    ensures bytes == EncodeLength(ReadLength(bytes).value.0) + ReadLength(bytes).value.1
  {
    if bytes[0] == 0xff {
      assert bytes == [0xff] + bytes[1..];
    } else {
      ReadLengthIsExact(bytes[1..]);
      assert bytes == [0] + bytes[1..];
    }
  }

  lemma {:induction false} ReadFieldIsExact(bytes: seq<Byte>)
    requires ReadField(bytes).Some?
    ensures bytes == Frame(ReadField(bytes).value.0) + ReadField(bytes).value.1
  {
    ReadLengthIsExact(bytes);
    var (field, rest) := ReadField(bytes).value;
    assert ReadLength(bytes).value.1 == field + rest;
  }

  lemma {:induction false} ReadFieldsIsExact(n: nat, bytes: seq<Byte>)
    requires ReadFields(n, bytes).Some?
    ensures |ReadFields(n, bytes).value.0| == n
    ensures bytes == FrameAll(ReadFields(n, bytes).value.0) + ReadFields(n, bytes).value.1
  {
    var (fields, end) := ReadFields(n, bytes).value;
    if n > 0 {
      hide Frame, ReadField;
      ReadFieldIsExact(bytes);
      var (field, rest) := ReadField(bytes).value;
      ReadFieldsIsExact(n - 1, rest);
      assert fields[1..] == ReadFields(n - 1, rest).value.0;
    }
  }

  /** Only payloads decode: what the decoder accepts is a payload and the bytes after it. */
  lemma {:induction false} DecodedIsPayload(bytes: seq<Byte>)
    requires Decode(bytes).Some?
    ensures var d := Decode(bytes).value; bytes == Payload(d.domain, d.fields) + d.rest
  {
    var (n, rest) := ReadLength(bytes).value;
    ReadLengthIsExact(bytes);
    ReadFieldsIsExact(n, rest);
    var d := Decode(bytes).value;
    assert [d.domain] + d.fields == ReadFields(n, rest).value.0;
  }

  /** Payloads are injective and prefix-free over all domains and field lists. */
  lemma {:induction false} PrefixFree(d1: Text, f1: seq<Text>, d2: Text, f2: seq<Text>)
    requires Payload(d1, f1) <= Payload(d2, f2)
    ensures d1 == d2 && f1 == f2
  {
    var rest := Payload(d2, f2)[|Payload(d1, f1)|..];
    assert Payload(d2, f2) == Payload(d1, f1) + rest;
    DecodeInvertsPayload(d1, f1, rest);
    DecodeInvertsPayload(d2, f2, []);
    assert Payload(d2, f2) + [] == Payload(d2, f2);
  }

  // ----- the hexadecimal digest text

  function HexDigit(n: int): Byte
    requires 0 <= n < 16
  {
    if n < 10 then (48 + n) as Byte else (87 + n) as Byte
  }

  function HexText(bytes: seq<Byte>): Text
  {
    if bytes == [] then []
    else [HexDigit(bytes[0] as int / 16), HexDigit(bytes[0] as int % 16)] + HexText(bytes[1..])
  }

  method LowerHex(bytes: seq<Byte>) returns (rendered: Text)
    ensures rendered == HexText(bytes)
  {
    rendered := [];
    for i := 0 to |bytes|
      invariant rendered + HexText(bytes[i..]) == HexText(bytes)
    {
      var pair := [HexDigit(bytes[i] as int / 16), HexDigit(bytes[i] as int % 16)];
      assert bytes[i..][1..] == bytes[i + 1..];
      assert rendered + (pair + HexText(bytes[i + 1..])) == rendered + pair + HexText(bytes[i + 1..]);
      rendered := rendered + pair;
    }
  }

  /** The value of a lower-case hexadecimal digit. */
  function HexValue(digit: Byte): Option<int>
  {
    var c := digit as int;
    if '0' as int <= c <= '9' as int then Some(c - '0' as int)
    else if 'a' as int <= c <= 'f' as int then Some(c - 'a' as int + 10)
    else None
  }

  function ReadHex(t: Text): Option<seq<Byte>>
  {
    if t == [] then Some([])
    else if |t| == 1 || HexValue(t[0]).None? || HexValue(t[1]).None? then None
    else
      match ReadHex(t[2..])
      case None => None
      case Some(rest) =>
        var value := 16 * HexValue(t[0]).value + HexValue(t[1]).value;
        if value < 256 then Some([value as Byte] + rest) else None
  }

  lemma {:induction false} HexReads(bytes: seq<Byte>)
    ensures ReadHex(HexText(bytes)) == Some(bytes)
  {
    if bytes != [] {
      HexReads(bytes[1..]);
      var t, b := HexText(bytes), bytes[0] as int;
      assert t[2..] == HexText(bytes[1..]);
      assert HexValue(t[0]) == Some(b / 16) && HexValue(t[1]) == Some(b % 16);
      assert bytes == [bytes[0]] + bytes[1..];
    }
  }

  lemma {:induction false} HexInjective(a: seq<Byte>, b: seq<Byte>)
    requires HexText(a) == HexText(b)
    ensures a == b
  {
    HexReads(a);
    HexReads(b);
  }

  // ----- texts of numbers and constants

  /** The bytes of an ASCII constant. */
  function Ascii(s: string): Text
  {
    seq(|s|, i requires 0 <= i < |s| => if s[i] < '\U{0080}' then s[i] as int as Byte else 0)
  }

  function Decimal(n: nat): Text
  {
    if n < 10 then [(48 + n) as Byte] else Decimal(n / 10) + [(48 + n % 10) as Byte]
  }

  function DecimalValue(t: Text): int
  {
    if t == [] then 0 else 10 * DecimalValue(t[..|t| - 1]) + (t[|t| - 1] as int - 48)
  }

  lemma {:induction false} DecimalReads(n: nat)
    ensures DecimalValue(Decimal(n)) == n
  {
    if n >= 10 {
      DecimalReads(n / 10);
      assert Decimal(n)[..|Decimal(n)| - 1] == Decimal(n / 10);
    } else {
      assert Decimal(n)[..0] == [];
    }
  }

  lemma {:induction false} DecimalInjective(a: nat, b: nat)
    requires Decimal(a) == Decimal(b)
    ensures a == b
  {
    DecimalReads(a);
    DecimalReads(b);
  }
}
