/**
 The CAP-PRODUCTION outer wire grammar: a closed set of fields, each at most
 once, one payload, shortest-form tags and lengths, and exactly one non-empty
 signature record, which is cut out of the exact bytes.
 */
module Wire {
  import opened Bytes
  import opened Varint

  const MAX_RAW_BYTES := 0x10_0000
  const MAX_INT32 := 0x7fff_ffff
  const PROTOCOL_VERSION := 1
  const SIGNATURE_FIELD := 14

  // protowire.Type
  const VARINT := 0
  const FIXED64 := 1
  const BYTES := 2
  const FIXED32 := 5

  datatype WireError = Malformed | DuplicateSignature | MissingSignature

  // ---------------------------------------------------------------- tags

  datatype ConsumedTag = BadTag | Tag(number: nat, wireType: nat, size: nat)

  function AppendTag(number: nat, wireType: nat): (r: Bytes)
    ensures |r| >= 1
  {
    AppendVarint(number * 8 + wireType % 8)
  }

  function ConsumeTag(raw: Bytes): (r: ConsumedTag)
    ensures r.Tag? ==> 1 <= r.size <= |raw| && 1 <= r.number <= MAX_INT32 && r.wireType < 8
  {
    match ConsumeVarint(raw)
    case Parsed(v, n) =>
      if v / 8 > MAX_INT32 || v / 8 < 1 then BadTag else Tag(v / 8, v % 8, n)
    case _ => BadTag
  }

  /** consumeCanonicalTag: BadTag also stands for a tag that is not in shortest form. */
  function ConsumeCanonicalTag(raw: Bytes): (r: ConsumedTag)
    ensures r.Tag? ==> 1 <= r.size <= |raw| && 1 <= r.number <= MAX_INT32 && r.wireType < 8
  {
    var t := ConsumeTag(raw);
    if t.Tag? && AppendTag(t.number, t.wireType) == raw[..t.size] then t else BadTag
  }

  /** A tag's varint divides back into its number and wire type. */
  lemma TagParts(number: nat, wireType: nat)
    requires 1 <= number <= MAX_INT32 && wireType < 8
    ensures AppendTag(number, wireType) == AppendVarint(number * 8 + wireType)
    ensures (number * 8 + wireType) / 8 == number && (number * 8 + wireType) % 8 == wireType
    ensures number * 8 + wireType < UINT64_LIMIT
  {
  }

  lemma TagOfVarint(raw: Bytes, v: nat, n: nat)
    requires ConsumeVarint(raw) == Parsed(v, n) && 1 <= v / 8 <= MAX_INT32
    ensures ConsumeTag(raw) == Tag(v / 8, v % 8, n)
  {
    hide ConsumeVarint;
  }

  lemma CanonicalIs(raw: Bytes)
    ensures var t := ConsumeTag(raw);
            ConsumeCanonicalTag(raw) == if t.Tag? && AppendTag(t.number, t.wireType) == raw[..t.size] then t else BadTag
  {
  }

  lemma CanonicalTagIffAppended(raw: Bytes, number: nat, wireType: nat)
    requires 1 <= number <= MAX_INT32 && wireType < 8
    ensures AppendTag(number, wireType) <= raw
       <==> ConsumeCanonicalTag(raw) == Tag(number, wireType, |AppendTag(number, wireType)|)
  {
    hide *;
    var tag, v := AppendTag(number, wireType), number * 8 + wireType;
    CanonicalIs(raw);
    if tag <= raw {
      assert raw == tag + raw[|tag|..];
      TagParts(number, wireType);
      ConsumeUndoesAppend(v, raw[|tag|..]);
      TagOfVarint(raw, v, |tag|);
      assert raw[..|tag|] == tag;
    }
  }

  // -------------------------------------------------------------- values

  /** consumeCanonicalFieldValue: the length of the value and whether it is canonical. */
  function ConsumeCanonicalFieldValue(raw: Bytes, number: nat, wireType: nat): (int, bool)
  {
    var c := ConsumeVarint(raw);
    var canonical := CanonicalVarint(raw, SizeOf(c));
    if wireType == VARINT then
      (SizeOf(c), canonical && (number != 4 || (c.Parsed? && c.value == PROTOCOL_VERSION)))
    else if wireType == FIXED32 then (4, |raw| >= 4)
    else if wireType == FIXED64 then (8, |raw| >= 8)
    else if wireType == BYTES then
      if !canonical || !c.Parsed? || c.value > |raw| - c.size then (-1, false)
      else (c.size + c.value, true)
    else (-1, false)
  }

  /** protowire.ConsumeBytes. */
  function ConsumeBytes(raw: Bytes): (r: Option<(Bytes, nat)>)
    ensures r.Some? ==> r.value.1 <= |raw|
  {
    match ConsumeVarint(raw)
    case Parsed(m, n) => if m > |raw| - n then None else Some((raw[n..n + m], n + m))
    case _ => None
  }

  // ---------------------------------------------------------- outer fields

  function ExpectedWireType(number: nat): Option<nat>
  {
    if number == 4 then Some(VARINT)
    else if 1 <= number <= 3 || 5 <= number <= 6 || 10 <= number <= 22 then Some(BYTES)
    else None
  }

  predicate IsPayload(number: nat)
  {
    10 <= number <= 13 || 15 <= number <= 17 || 19 <= number <= 22
  }

  // --------------------------------------------------------------- scanning

  datatype ScanState = ScanState(seen: set<nat>, payloadSeen: bool, unsigned: Bytes, signature: Option<Bytes>)

  datatype Extracted = Extracted(unsigned: Bytes, signature: Bytes)

  const START := ScanState({}, false, [], None)

  /** validateProductionOuterField: which error, if any, the next field number draws. */
  function OuterFieldError(st: ScanState, number: nat, wireType: nat): Option<WireError>
  {
    if ExpectedWireType(number) != Some(wireType) then Some(Malformed)
    else if number in st.seen then
      Some(if number == SIGNATURE_FIELD then DuplicateSignature else Malformed)
    else if IsPayload(number) && st.payloadSeen then Some(Malformed)
    else None
  }

  datatype StepResult = Next(st: ScanState, size: nat) | Stop(error: WireError)

  /** One round of the extraction loop on the bytes that are left. */
  function Step(rest: Bytes, st: ScanState): (r: StepResult)
    requires rest != []
    ensures r.Next? ==> 1 <= r.size <= |rest|
  {
    var tag := ConsumeCanonicalTag(rest);
    if tag.BadTag? then Stop(Malformed)
    else
      var bad := OuterFieldError(st, tag.number, tag.wireType);
      if bad.Some? then Stop(bad.value)
      else
        var after := rest[tag.size..];
        var (valueLength, canonical) := ConsumeCanonicalFieldValue(after, tag.number, tag.wireType);
        if valueLength < 0 || !canonical || valueLength > |after| then Stop(Malformed)
        else
          var marked := st.(seen := st.seen + {tag.number},
                            payloadSeen := st.payloadSeen || IsPayload(tag.number));
          var size := tag.size + valueLength;
          if tag.number == SIGNATURE_FIELD then
            var value := ConsumeBytes(after[..valueLength]);
            if value.None? || value.value.1 != valueLength || value.value.0 == [] then Stop(Malformed)
            else Next(marked.(signature := Some(value.value.0)), size)
          else Next(marked.(unsigned := st.unsigned + rest[..size]), size)
  }

  function Scan(rest: Bytes, st: ScanState): Result<Extracted, WireError>
    decreases |rest|
  {
    if rest == [] then
      match st.signature
      case None => Err(MissingSignature)
      case Some(signature) => Ok(Extracted(st.unsigned, signature))
    else
      match Step(rest, st)
      case Stop(error) => Err(error)
      case Next(next, size) => Scan(rest[size..], next)
  }

  function Extract(raw: Bytes): Result<Extracted, WireError>
  {
    if |raw| > MAX_RAW_BYTES then Err(Malformed) else Scan(raw, START)
  }

  /** The body of the extraction loop: the field that starts at `fieldStart`. */
  method ScanField(raw: Bytes, fieldStart: nat, st: ScanState) returns (r: StepResult)
    requires fieldStart < |raw|
    ensures r == Step(raw[fieldStart..], st)
  {
    ghost var rest := raw[fieldStart..];
    var tag := ConsumeCanonicalTag(raw[fieldStart..]);
    if tag.BadTag? {
      return Stop(Malformed);
    }
    var bad := OuterFieldError(st, tag.number, tag.wireType);
    if bad.Some? {
      return Stop(bad.value);
    }
    var seen := st.seen + {tag.number};
    var payloadSeen := st.payloadSeen || IsPayload(tag.number);
    var offset := fieldStart + tag.size;
    assert raw[offset..] == rest[tag.size..];
    var (valueLength, canonical) := ConsumeCanonicalFieldValue(raw[offset..], tag.number, tag.wireType);
    if valueLength < 0 || !canonical || offset + valueLength > |raw| {
      return Stop(Malformed);
    }
    var fieldEnd := offset + valueLength;
    if tag.number != SIGNATURE_FIELD {
      assert raw[fieldStart..fieldEnd] == rest[..tag.size + valueLength];
      return Next(ScanState(seen, payloadSeen, st.unsigned + raw[fieldStart..fieldEnd], st.signature),
             fieldEnd - fieldStart);
    }
    assert raw[offset..fieldEnd] == rest[tag.size..][..valueLength];
    var value := ConsumeBytes(raw[offset..fieldEnd]);
    if value.None? || value.value.1 != valueLength || value.value.0 == [] {
      return Stop(Malformed);
    }
    return Next(ScanState(seen, payloadSeen, st.unsigned, Some(value.value.0)), fieldEnd - fieldStart);
  }

  /** extractSignatureField, looping over offsets into the exact bytes. */
  method ExtractSignatureField(raw: Bytes) returns (r: Result<Extracted, WireError>)
    ensures r == Extract(raw)
  {
    hide Step;
    if |raw| > MAX_RAW_BYTES {
      return Err(Malformed);
    }
    var st := START;
    var offset := 0;
    assert raw[0..] == raw;
    while offset < |raw|
      invariant 0 <= offset <= |raw|
      invariant Extract(raw) == Scan(raw[offset..], st)
    {
      var field := ScanField(raw, offset, st);
      match field
      case Stop(error) => return Err(error);
      case Next(next, size) =>
        assert raw[offset..][size..] == raw[offset + size..];
        offset, st := offset + size, next;
    }
    if st.signature.None? {
      return Err(MissingSignature);
    }
    return Ok(Extracted(st.unsigned, st.signature.value));
  }
}
