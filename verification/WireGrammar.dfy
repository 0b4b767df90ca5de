/**
 What the CAP-PRODUCTION extractor accepts, said without the extractor: lists of
 complete records, their canonical encoding, and the closed outer grammar.
 */
module WireGrammar {
  import opened Bytes
  import opened Varint
  import opened Wire

  /**
   The fields of BusPacket by number, as the schema declares them: name, wire type, and
   whether in the payload oneof.
   */
  datatype Field = Field(name: string, wireType: nat, payload: bool)

  const BUS_PACKET: map<nat, Field> := map[
    1 := Field("trace_id", 2, false),
    2 := Field("sender_id", 2, false),
    3 := Field("created_at", 2, false),
    4 := Field("protocol_version", 0, false),
    5 := Field("signature_metadata", 2, false),
    6 := Field("identity", 2, false),
    10 := Field("job_request", 2, true),
    11 := Field("job_result", 2, true),
    12 := Field("heartbeat", 2, true),
    13 := Field("alert", 2, true),
    14 := Field("signature", 2, false),
    15 := Field("job_progress", 2, true),
    16 := Field("job_cancel", 2, true),
    17 := Field("handshake", 2, true),
    18 := Field("auth_token", 2, false),
    19 := Field("worker_handshake_challenge_request", 2, true),
    20 := Field("worker_handshake_challenge", 2, true),
    21 := Field("worker_handshake_authenticate", 2, true),
    22 := Field("worker_handshake_result", 2, true)
  ]

  /** The number ranges of the scan are the schema's fields, wire types and oneof. */
  lemma ScanFollowsSchema(number: nat)
    ensures ExpectedWireType(number) == if number in BUS_PACKET then Some(BUS_PACKET[number].wireType) else None
    ensures IsPayload(number) <==> number in BUS_PACKET && BUS_PACKET[number].payload
    ensures number in BUS_PACKET && BUS_PACKET[number].name == "signature" <==> number == SIGNATURE_FIELD
  {
  }

  /** One complete record of the Protocol Buffers wire format. */
  datatype Record =
    | VarintRecord(number: nat, value: nat)
    | Fixed32Record(number: nat, data: Bytes)
    | Fixed64Record(number: nat, data: Bytes)
    | BytesRecord(number: nat, content: Bytes)
  {
    function WireType(): nat
    {
      match this
      case VarintRecord(_, _) => VARINT
      case Fixed32Record(_, _) => FIXED32
      case Fixed64Record(_, _) => FIXED64
      case BytesRecord(_, _) => BYTES
    }

    predicate Complete()
    {
      && 1 <= number <= MAX_INT32
      && match this
         case VarintRecord(_, v) => v < UINT64_LIMIT
         case Fixed32Record(_, d) => |d| == 4
         case Fixed64Record(_, d) => |d| == 8
         case BytesRecord(_, c) => |c| < UINT64_LIMIT
    }

    function EncodeValue(): Bytes
    {
      match this
      case VarintRecord(_, v) => AppendVarint(v)
      case Fixed32Record(_, d) => d
      case Fixed64Record(_, d) => d
      case BytesRecord(_, c) => AppendVarint(|c|) + c
    }

    function Encode(): (r: Bytes)
      ensures |r| >= 1
    {
      AppendTag(number, WireType()) + EncodeValue()
    }

    /** A known field with its own wire type; the version field says 1, the signature is not empty. */
    predicate Known()
    {
      && ExpectedWireType(number) == Some(WireType())
      && (VarintRecord? ==> value == PROTOCOL_VERSION)
      && (number == SIGNATURE_FIELD ==> BytesRecord? && content != [])
    }

    predicate Signature()
    {
      number == SIGNATURE_FIELD
    }
  }

  function EncodeAll(rs: seq<Record>): Bytes
  {
    if rs == [] then [] else rs[0].Encode() + EncodeAll(rs[1..])
  }

  predicate Complete(rs: seq<Record>)
  {
    forall i :: 0 <= i < |rs| ==> rs[i].Complete()
  }

  /** The closed outer grammar, record by record and pair by pair. */
  predicate Grammatical(rs: seq<Record>)
  {
    && Complete(rs)
    && (forall i :: 0 <= i < |rs| ==> rs[i].Known())
    && (forall i, j :: 0 <= i < j < |rs| ==> rs[i].number != rs[j].number)
    && (forall i, j :: 0 <= i < j < |rs| ==> !(IsPayload(rs[i].number) && IsPayload(rs[j].number)))
  }

  predicate Signed(rs: seq<Record>)
  {
    exists i :: 0 <= i < |rs| && rs[i].Signature()
  }

  /** The records without the signature, in order. */
  function Unsigned(rs: seq<Record>): seq<Record>
  {
    if rs == [] then []
    else if rs[0].Signature() then Unsigned(rs[1..])
    else [rs[0]] + Unsigned(rs[1..])
  }

  function SignatureRecord(signature: Bytes): Record
  {
    BytesRecord(SIGNATURE_FIELD, signature)
  }

  lemma {:induction false} EncodeAllConcat(xs: seq<Record>, ys: seq<Record>)
    ensures EncodeAll(xs + ys) == EncodeAll(xs) + EncodeAll(ys)
  {
    if xs == [] {
      assert xs + ys == ys;
    } else {
      assert (xs + ys)[1..] == xs[1..] + ys;
      EncodeAllConcat(xs[1..], ys);
    }
  }

  lemma EncodeAllOne(r: Record)
    ensures EncodeAll([r]) == r.Encode()
  {
    assert EncodeAll([r]) == r.Encode() + EncodeAll([]);
  }

  // ------------------------------------------------------ one step, both ways

  function After(st: ScanState, r: Record): ScanState
  {
    var marked := st.(seen := st.seen + {r.number}, payloadSeen := st.payloadSeen || IsPayload(r.number));
    if r.Signature() && r.BytesRecord? then marked.(signature := Some(r.content))
    else marked.(unsigned := st.unsigned + r.Encode())
  }

  predicate Fits(st: ScanState, r: Record)
  {
    r.Known() && OuterFieldError(st, r.number, r.WireType()).None?
  }

  lemma VarintOfEncoded(number: nat, v: nat, tail: Bytes)
    requires v < UINT64_LIMIT
    ensures ConsumeCanonicalFieldValue(AppendVarint(v) + tail, number, VARINT)
         == (|AppendVarint(v)|, number == 4 ==> v == PROTOCOL_VERSION)
  {
    hide AppendVarint, ConsumeVarint, CanonicalVarint;
    AppendedIsCanonical(AppendVarint(v) + tail, v, tail);
  }

  lemma ContentOfEncoded(number: nat, c: Bytes, tail: Bytes)
    requires |c| < UINT64_LIMIT
    ensures ConsumeCanonicalFieldValue(AppendVarint(|c|) + c + tail, number, BYTES) == (|AppendVarint(|c|) + c|, true)
  {
    hide AppendVarint, ConsumeVarint, CanonicalVarint;
    var raw := AppendVarint(|c|) + c + tail;
    assert raw == AppendVarint(|c|) + (c + tail);
    AppendedIsCanonical(raw, |c|, c + tail);
  }

  lemma FixedOfEncoded(number: nat, d: Bytes, tail: Bytes)
    ensures |d| == 4 ==> ConsumeCanonicalFieldValue(d + tail, number, FIXED32) == (4, true)
    ensures |d| == 8 ==> ConsumeCanonicalFieldValue(d + tail, number, FIXED64) == (8, true)
  {
    hide ConsumeVarint, CanonicalVarint;
  }

  lemma ValueOfEncoded(r: Record, tail: Bytes)
    requires r.Complete()
    ensures ConsumeCanonicalFieldValue(r.EncodeValue() + tail, r.number, r.WireType())
         == (|r.EncodeValue()|, r.VarintRecord? && r.number == 4 ==> r.value == PROTOCOL_VERSION)
  {
    hide ConsumeCanonicalFieldValue, AppendVarint;
    match r
    case VarintRecord(number, v) => VarintOfEncoded(number, v, tail);
    case BytesRecord(number, c) => ContentOfEncoded(number, c, tail);
    case Fixed32Record(number, d) => FixedOfEncoded(number, d, tail);
    case Fixed64Record(number, d) => FixedOfEncoded(number, d, tail);
  }

  lemma AppendedIsCanonical(raw: Bytes, v: nat, rest: Bytes)
    requires v < UINT64_LIMIT && raw == AppendVarint(v) + rest
    ensures ConsumeVarint(raw) == Parsed(v, |AppendVarint(v)|)
    ensures CanonicalVarint(raw, |AppendVarint(v)|)
  {
    ConsumeUndoesAppend(v, rest);
    assert AppendVarint(v) <= raw;
    CanonicalIffAppended(raw);
  }

  lemma BytesOfEncoded(content: Bytes, prefix: Bytes)
    requires |content| < UINT64_LIMIT && prefix == AppendVarint(|content|)
    ensures ConsumeBytes(prefix + content) == Some((content, |prefix + content|))
  {
    ConsumeUndoesAppend(|content|, content);
    assert (prefix + content)[|prefix|..|prefix| + |content|] == content;
  }

  /** On an encoded complete record the step goes on exactly when the record fits. */
  lemma StepOnEncoded(r: Record, tail: Bytes, st: ScanState)
    requires r.Complete()
    ensures Fits(st, r) ==> Step(r.Encode() + tail, st) == Next(After(st, r), |r.Encode()|)
    ensures !Fits(st, r) ==> Step(r.Encode() + tail, st).Stop?
  {
    hide ConsumeTag, AppendVarint, ConsumeVarint, ConsumeCanonicalFieldValue, ConsumeBytes;
    var rest := r.Encode() + tail;
    var tag := AppendTag(r.number, r.WireType());
    assert tag <= rest;
    CanonicalTagIffAppended(rest, r.number, r.WireType());
    var after := rest[|tag|..];
    assert after == r.EncodeValue() + tail;
    ValueOfEncoded(r, tail);
    assert rest[..|r.Encode()|] == r.Encode();
    if r.Signature() && r.BytesRecord? {
      assert after[..|r.EncodeValue()|] == AppendVarint(|r.content|) + r.content;
      BytesOfEncoded(r.content, AppendVarint(|r.content|));
    }
  }

  lemma VarintAt(after: Bytes) returns (v: nat, rest: Bytes)
    requires CanonicalVarint(after, SizeOf(ConsumeVarint(after)))
    ensures v < UINT64_LIMIT && after == AppendVarint(v) + rest
    ensures ConsumeVarint(after) == Parsed(v, |AppendVarint(v)|)
  {
    CanonicalIsAppended(after);
    var c := ConsumeVarint(after);
    v, rest := c.value, after[c.size..];
  }

  /** Whatever the extractor takes as a field value is the canonical value of some record. */
  lemma ValueIsEncoded(after: Bytes, number: nat, wireType: nat) returns (r: Record, tail: Bytes)
    requires 1 <= number <= MAX_INT32 && |after| <= MAX_RAW_BYTES
    requires ExpectedWireType(number) == Some(wireType)
    requires ConsumeCanonicalFieldValue(after, number, wireType).1
    ensures r.Complete() && r.number == number && r.WireType() == wireType
    ensures after == r.EncodeValue() + tail
  {
    var v, rest := VarintAt(after);
    if wireType == VARINT {
      r, tail := VarintRecord(number, v), rest;
    } else {
      r, tail := BytesRecord(number, rest[..v]), rest[v..];
    }
  }

  lemma CanonicalTagBytes(rest: Bytes)
    requires ConsumeCanonicalTag(rest).Tag?
    ensures var tag := ConsumeCanonicalTag(rest); AppendTag(tag.number, tag.wireType) == rest[..tag.size]
  {
  }

  lemma EncodeIs(r: Record)
    ensures r.Encode() == AppendTag(r.number, r.WireType()) + r.EncodeValue()
  {
  }

  lemma RecordAt(rest: Bytes, tag: ConsumedTag) returns (r: Record, tail: Bytes)
    requires tag.Tag? && tag == ConsumeCanonicalTag(rest) && |rest| <= MAX_RAW_BYTES
    requires ExpectedWireType(tag.number) == Some(tag.wireType)
    requires ConsumeCanonicalFieldValue(rest[tag.size..], tag.number, tag.wireType).1
    ensures r.Complete() && rest == r.Encode() + tail
  {
    hide *;
    var after := rest[tag.size..];
    assert rest == rest[..tag.size] + after;
    CanonicalTagBytes(rest);
    r, tail := ValueIsEncoded(after, tag.number, tag.wireType);
    EncodeIs(r);
    assert rest[..tag.size] + (r.EncodeValue() + tail) == rest[..tag.size] + r.EncodeValue() + tail;
  }

  lemma StepReadsCanonically(rest: Bytes, st: ScanState)
    requires rest != [] && Step(rest, st).Next?
    ensures ConsumeCanonicalTag(rest).Tag?
    ensures var tag := ConsumeCanonicalTag(rest);
            && ExpectedWireType(tag.number) == Some(tag.wireType)
            && ConsumeCanonicalFieldValue(rest[tag.size..], tag.number, tag.wireType).1
  {
  }

  /** Every step that goes on has consumed the encoding of one record that fits. */
  lemma StepIsEncoded(rest: Bytes, st: ScanState) returns (r: Record)
    requires rest != [] && |rest| <= MAX_RAW_BYTES && Step(rest, st).Next?
    ensures r.Complete() && Fits(st, r) && r.Encode() <= rest
    ensures Step(rest, st) == Next(After(st, r), |r.Encode()|)
  {
    StepReadsCanonically(rest, st);
    var tail;
    r, tail := RecordAt(rest, ConsumeCanonicalTag(rest));
    StepOnEncoded(r, tail, st);
  }
}
