/**
 Appending a signature record and cutting it out again: when the two are
 inverse, that the record may stand at any field boundary, and what the
 producer's probe does and does not establish.
 */
module WireSigning {
  import opened Bytes
  import opened Varint
  import opened Wire
  import opened WireGrammar
  import opened WireProperties

  /** appendSignatureField. */
  function AppendSignatureField(unsigned: Bytes, signature: Bytes): Bytes
  {
    unsigned + AppendTag(SIGNATURE_FIELD, BYTES) + (AppendVarint(|signature|) + signature)
  }

  /** validateUnsignedProductionWire: run the verifier's grammar over a one-byte placeholder signature. */
  predicate ProbeAccepts(unsigned: Bytes)
  {
    Extract(AppendSignatureField(unsigned, [1])).Ok?
  }

  lemma AppendIsEncode(unsigned: Bytes, signature: Bytes)
    ensures AppendSignatureField(unsigned, signature) == unsigned + SignatureRecord(signature).Encode()
  {
    hide AppendTag, AppendVarint;
    var r := SignatureRecord(signature);
    assert r.Encode() == AppendTag(SIGNATURE_FIELD, BYTES) + r.EncodeValue();
  }

  function Insert(rs: seq<Record>, k: nat, signature: Bytes): seq<Record>
    requires k <= |rs|
  {
    rs[..k] + [SignatureRecord(signature)] + rs[k..]
  }

  lemma {:induction false} UnsignedConcat(xs: seq<Record>, ys: seq<Record>)
    ensures Unsigned(xs + ys) == Unsigned(xs) + Unsigned(ys)
  {
    if xs == [] {
      assert xs + ys == ys;
    } else {
      assert (xs + ys)[1..] == xs[1..] + ys;
      UnsignedConcat(xs[1..], ys);
    }
  }

  lemma {:induction false} UnsignedOfUnsigned(rs: seq<Record>)
    requires !Signed(rs)
    ensures Unsigned(rs) == rs && SignatureOf(rs) == None
  {
    if rs != [] {
      SignedHead(rs);
      UnsignedOfUnsigned(rs[1..]);
    }
  }

  lemma {:induction false} SignatureOfConcat(xs: seq<Record>, ys: seq<Record>)
    requires !Signed(xs)
    ensures SignatureOf(xs + ys) == SignatureOf(ys)
  {
    if xs == [] {
      assert xs + ys == ys;
    } else {
      assert (xs + ys)[1..] == xs[1..] + ys;
      SignedHead(xs);
      SignatureOfConcat(xs[1..], ys);
    }
  }

  lemma SlicesUnsigned(rs: seq<Record>, k: nat)
    requires k <= |rs| && !Signed(rs)
    ensures !Signed(rs[..k]) && !Signed(rs[k..])
  {
    assert forall i :: k <= i < |rs| ==> rs[k..][i - k] == rs[i];
  }

  /** Adding a non-empty signature anywhere keeps an unsigned list grammatical and is undone by Unsigned. */
  lemma InsertSignature(rs: seq<Record>, k: nat, signature: Bytes)
    requires Grammatical(rs) && !Signed(rs) && k <= |rs| && 0 < |signature| < UINT64_LIMIT
    ensures Grammatical(Insert(rs, k, signature)) && Signed(Insert(rs, k, signature))
    ensures Unsigned(Insert(rs, k, signature)) == rs
    ensures SignatureOf(Insert(rs, k, signature)) == Some(signature)
  {
    hide Unsigned, SignatureOf;
    var s := SignatureRecord(signature);
    var all := Insert(rs, k, signature);
    InsertGrammatical(rs, k, signature);
    assert all[k].Signature();
    SlicesUnsigned(rs, k);
    UnsignedOfUnsigned(rs[..k]);
    UnsignedOfUnsigned(rs[k..]);
    UnsignedConcat(rs[..k] + [s], rs[k..]);
    UnsignedConcat(rs[..k], [s]);
    UnsignedOne(s);
    assert rs[..k] + [] + rs[k..] == rs;
    assert all == rs[..k] + ([s] + rs[k..]);
    SignatureOfConcat(rs[..k], [s] + rs[k..]);
    SignatureOfHead(signature, rs[k..]);
  }

  lemma UnsignedOne(s: Record)
    requires s.Signature()
    ensures Unsigned([s]) == []
  {
    assert [s][1..] == [];
  }

  lemma SignatureOfHead(signature: Bytes, rs: seq<Record>)
    ensures SignatureOf([SignatureRecord(signature)] + rs) == Some(signature)
  {
  }

  lemma InsertGrammatical(rs: seq<Record>, k: nat, signature: Bytes)
    requires Grammatical(rs) && !Signed(rs) && k <= |rs| && 0 < |signature| < UINT64_LIMIT
    ensures Grammatical(Insert(rs, k, signature))
  {
    hide AppendTag, AppendVarint, EncodeAll;
    var all := Insert(rs, k, signature);
    assert forall i :: 0 <= i < |all| ==>
      all[i] == if i < k then rs[i] else if i == k then SignatureRecord(signature) else rs[i - 1];
  }

  lemma EncodeInsert(rs: seq<Record>, k: nat, signature: Bytes)
    requires k <= |rs|
    ensures EncodeAll(Insert(rs, k, signature))
         == EncodeAll(rs[..k]) + SignatureRecord(signature).Encode() + EncodeAll(rs[k..])
    ensures EncodeAll(rs) == EncodeAll(rs[..k]) + EncodeAll(rs[k..])
  {
    hide EncodeAll;
    var s := SignatureRecord(signature);
    EncodeAllConcat(rs[..k] + [s], rs[k..]);
    EncodeAllConcat(rs[..k], [s]);
    EncodeAllOne(s);
    EncodeAllConcat(rs[..k], rs[k..]);
    assert rs[..k] + rs[k..] == rs;
  }

  /**
   Position independence: with the signature record at any field boundary,
   extraction gives back the same body and the same signature.
   */
  lemma PositionIndependence(rs: seq<Record>, k: nat, signature: Bytes)
    requires Grammatical(rs) && !Signed(rs) && k <= |rs| && signature != []
    requires |EncodeAll(rs) + SignatureRecord(signature).Encode()| <= MAX_RAW_BYTES
    ensures Extract(EncodeAll(rs[..k]) + SignatureRecord(signature).Encode() + EncodeAll(rs[k..]))
         == Ok(Extracted(EncodeAll(rs), signature))
  {
    hide Grammatical, Signed, AppendTag, AppendVarint;
    assert |SignatureRecord(signature).Encode()| >= |signature| by {
      assert SignatureRecord(signature).EncodeValue() == AppendVarint(|signature|) + signature;
    }
    InsertSignature(rs, k, signature);
    EncodeInsert(rs, k, signature);
    ExtractOfRecords(Insert(rs, k, signature));
  }

  function Drop(rs: seq<Record>, k: nat): seq<Record>
    requires k < |rs|
  {
    rs[..k] + rs[k + 1..]
  }

  lemma WithoutSignature(rs: seq<Record>, k: nat)
    requires Grammatical(rs) && k < |rs| && rs[k].Signature()
    ensures Grammatical(Drop(rs, k)) && !Signed(Drop(rs, k))
    ensures rs[k].BytesRecord? && 0 < |rs[k].content| < UINT64_LIMIT
    ensures Insert(Drop(rs, k), k, rs[k].content) == rs
  {
    var body := Drop(rs, k);
    assert forall i :: 0 <= i < |body| ==> body[i] == rs[if i < k then i else i + 1];
    assert rs[k] == SignatureRecord(rs[k].content);
    assert body[..k] == rs[..k] && body[k..] == rs[k + 1..];
  }

  /** The extracted body is the input with exactly the signature record cut out, order kept. */
  lemma CutOut(raw: Bytes) returns (before: Bytes, after: Bytes)
    requires Extract(raw).Ok?
    ensures raw == before + SignatureRecord(Extract(raw).value.signature).Encode() + after
    ensures Extract(raw).value.unsigned == before + after
    ensures Extract(raw).value.signature != []
  {
    hide Scan, Grammatical, EncodeAll, Insert, AppendTag, AppendVarint;
    ExactGrammar(raw);
    var rs: seq<Record> :| ReadsAs(raw, rs, []) && Signed(rs);
    assert raw == EncodeAll(rs);
    var k :| 0 <= k < |rs| && rs[k].Signature();
    WithoutSignature(rs, k);
    var body, signature := Drop(rs, k), rs[k].content;
    before, after := EncodeAll(body[..k]), EncodeAll(body[k..]);
    EncodeInsert(body, k, signature);
    InsertSignature(body, k, signature);
    ExtractOfRecords(rs);
  }

  ghost predicate UnsignedBody(u: Bytes)
  {
    exists rs :: Grammatical(rs) && !Signed(rs) && EncodeAll(rs) == u
  }

  /**
   Signing then extracting is the identity on exactly the grammatical unsigned
   bodies, among all byte strings and for every signature that fits.
   */
  lemma RoundTripIff(u: Bytes, signature: Bytes)
    requires signature != [] && |AppendSignatureField(u, signature)| <= MAX_RAW_BYTES
    ensures Extract(AppendSignatureField(u, signature)) == Ok(Extracted(u, signature)) <==> UnsignedBody(u)
  {
    hide Grammatical, Signed, Scan, AppendTag, AppendVarint;
    var raw := AppendSignatureField(u, signature);
    AppendIsEncode(u, signature);
    if UnsignedBody(u) {
      var rs: seq<Record> :| Grammatical(rs) && !Signed(rs) && EncodeAll(rs) == u;
      PositionIndependence(rs, |rs|, signature);
      assert rs[..|rs|] == rs;
      assert u + SignatureRecord(signature).Encode() + EncodeAll([]) == raw;
    }
    if Extract(raw) == Ok(Extracted(u, signature)) {
      ExactGrammar(raw);
      var rs: seq<Record> :| ReadsAs(raw, rs, []) && Signed(rs);
      assert EncodeAll(rs) + [] == EncodeAll(rs);
      ExtractOfRecords(rs);
      UnsignedGrammatical(rs);
    }
  }

  lemma UnsignedGrammatical(rs: seq<Record>)
    requires Grammatical(rs)
    ensures Grammatical(Unsigned(rs)) && !Signed(Unsigned(rs))
  {
    hide Grammatical, Insert;
    if !Signed(rs) {
      UnsignedOfUnsigned(rs);
    } else {
      var k :| 0 <= k < |rs| && rs[k].Signature();
      WithoutSignature(rs, k);
      InsertSignature(Drop(rs, k), k, rs[k].content);
    }
  }

  lemma {:induction false} CompleteScan(st: ScanState, rs: seq<Record>, tail: Bytes)
    requires Complete(rs)
    ensures Admissible(st, rs) || Scan(EncodeAll(rs) + tail, st).Err?
    decreases rs
  {
    if rs != [] {
      hide Step, Fits, After;
      var head, rest := rs[0].Encode(), EncodeAll(rs[1..]) + tail;
      assert EncodeAll(rs) + tail == head + rest;
      StepOnEncoded(rs[0], rest, st);
      assert (head + rest)[|head|..] == rest;
      CompleteScan(After(st, rs[0]), rs[1..], tail);
    }
  }

  /** On complete records, which is what marshalling yields, the probe is the grammar check. */
  lemma ProbeIffGrammatical(rs: seq<Record>)
    requires Complete(rs)
    ensures ProbeAccepts(EncodeAll(rs)) <==>
            Grammatical(rs) && !Signed(rs) && |EncodeAll(rs)| + 3 <= MAX_RAW_BYTES
  {
    var probe := SignatureRecord([1]);
    AppendIsEncode(EncodeAll(rs), [1]);
    assert probe.Encode() == [0x72, 1, 1] by {
      assert AppendVarint(0x72) == [0x72] && AppendVarint(1) == [1];
    }
    hide Grammatical, Signed, Scan, AppendVarint, AppendTag;
    if Grammatical(rs) && !Signed(rs) && |EncodeAll(rs)| + 3 <= MAX_RAW_BYTES {
      RoundTripIff(EncodeAll(rs), [1]);
    }
    if ProbeAccepts(EncodeAll(rs)) {
      CompleteScan(START, rs, probe.Encode());
      AdmissibleIffGrammatical(START, rs);
      ScanEnds(rs, probe.Encode());
      assert probe.Encode() == SIGNATURE_TAG + [1, 1] by {
        assert SIGNATURE_TAG == [0x72] by { assert AppendTag(14, 2) == AppendVarint(0x72); }
      }
    }
  }

  /**
   On bytes that are not complete records the probe proves nothing: here the
   unfinished last record swallows the appended signature, so the probe accepts,
   and what is extracted after signing is neither the body nor the signature.
   */
  lemma ProbeIsNotEnough()
    ensures ProbeAccepts([0x72, 1, 0xAA, 0x0A, 3])
    ensures Extract(AppendSignatureField([0x72, 1, 0xAA, 0x0A, 3], [7]))
         == Ok(Extracted([0x0A, 3, 0x72, 1, 7], [0xAA]))
  {
    SwallowedSignature(1);
    SwallowedSignature(7);
  }

  lemma SwallowedSignature(b: byte)
    ensures Extract(AppendSignatureField([0x72, 1, 0xAA, 0x0A, 3], [b]))
         == Ok(Extracted([0x0A, 3, 0x72, 1, b], [0xAA]))
  {
    var first, second := SignatureRecord([0xAA]), BytesRecord(1, [0x72, 1, b]);
    assert first.Encode() == [0x72, 1, 0xAA] && second.Encode() == [0x0A, 3, 0x72, 1, b];
    EncodeAllOne(first);
    EncodeAllOne(second);
    EncodeAllConcat([first], [second]);
    assert EncodeAll([first] + [second]) == AppendSignatureField([0x72, 1, 0xAA, 0x0A, 3], [b]);
    hide EncodeAll, AppendVarint, AppendTag, Extract;
    assert Insert([second], 0, [0xAA]) == [first] + [second];
    InsertSignature([second], 0, [0xAA]);
    ExtractOfRecords([first] + [second]);
  }
}
