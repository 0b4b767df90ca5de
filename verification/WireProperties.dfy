/**
 The extractor against the grammar: it accepts exactly the grammatical, signed
 byte strings, names the right error otherwise, and undoes signing wherever the
 signature record stands.
 */
module WireProperties {
  import opened Bytes
  import opened Varint
  import opened Wire
  import opened WireGrammar

  // ------------------------------------------------------------ record lists

  function AfterAll(st: ScanState, rs: seq<Record>): ScanState
    decreases rs
  {
    if rs == [] then st else AfterAll(After(st, rs[0]), rs[1..])
  }

  predicate Admissible(st: ScanState, rs: seq<Record>)
    decreases rs
  {
    rs == [] || (rs[0].Complete() && Fits(st, rs[0]) && Admissible(After(st, rs[0]), rs[1..]))
  }

  /** What a scan state leaves room for. */
  predicate RoomFor(st: ScanState, rs: seq<Record>)
  {
    forall i :: 0 <= i < |rs| ==>
      rs[i].number !in st.seen && !(st.payloadSeen && IsPayload(rs[i].number))
  }

  lemma GrammaticalHead(rs: seq<Record>)
    requires rs != []
    ensures Grammatical(rs) <==>
            && rs[0].Complete() && rs[0].Known() && Grammatical(rs[1..])
            && RoomFor(After(START, rs[0]), rs[1..])
  {
  }

  /** Going through the records with the running sets is checking the grammar pair by pair. */
  lemma {:induction false} AdmissibleIffGrammatical(st: ScanState, rs: seq<Record>)
    ensures Admissible(st, rs) <==> Grammatical(rs) && RoomFor(st, rs)
    decreases rs
  {
    if rs != [] {
      var r, tail := rs[0], rs[1..];
      AdmissibleIffGrammatical(After(st, r), tail);
      GrammaticalHead(rs);
      RoomForHead(st, rs);
    }
  }

  lemma RoomForHead(st: ScanState, rs: seq<Record>)
    requires rs != []
    ensures RoomFor(st, rs) && RoomFor(After(START, rs[0]), rs[1..])
       <==> RoomFor(After(st, rs[0]), rs[1..]) && RoomFor(st, [rs[0]])
  {
    var tail := rs[1..];
    assert forall i :: 0 < i < |rs| ==> rs[i] == tail[i - 1];
    if RoomFor(After(st, rs[0]), tail) && RoomFor(st, [rs[0]]) {
      assert [rs[0]][0] == rs[0];
    }
  }

  // ---------------------------------------------------------------- scanning

  /** Scanning an admissible list of records arrives at the tail in the state after them. */
  lemma {:induction false} ScanRecords(st: ScanState, rs: seq<Record>, tail: Bytes)
    requires Admissible(st, rs)
    ensures Scan(EncodeAll(rs) + tail, st) == Scan(tail, AfterAll(st, rs))
    decreases rs
  {
    hide Step, After, Fits;
    if rs == [] {
      NoRecords(st, tail);
    } else {
      var head, rest := rs[0].Encode(), EncodeAll(rs[1..]) + tail;
      assert rs == [rs[0]] + rs[1..];
      PrependRecord(st, rs[0], rs[1..], tail);
      StepOnEncoded(rs[0], rest, st);
      assert (head + rest)[|head|..] == rest;
      ScanRecords(After(st, rs[0]), rs[1..], tail);
    }
  }

  /** Any bytes split into the admissible records the scan gets through and the tail it stops at. */
  lemma {:induction false} ScanSplits(st: ScanState, raw: Bytes) returns (rs: seq<Record>, tail: Bytes)
    requires |raw| <= MAX_RAW_BYTES
    ensures Admissible(st, rs) && raw == EncodeAll(rs) + tail
    ensures tail == [] || Step(tail, AfterAll(st, rs)).Stop?
    decreases |raw|
  {
    hide *;
    NoRecords(st, raw);
    if raw == [] || Step(raw, st).Stop? {
      rs, tail := [], raw;
    } else {
      var r := StepIsEncoded(raw, st);
      var rest := raw[|r.Encode()|..];
      var more;
      more, tail := ScanSplits(After(st, r), rest);
      rs := [r] + more;
      PrependRecord(st, r, more, tail);
      assert raw == r.Encode() + rest;
    }
  }

  lemma NoRecords(st: ScanState, tail: Bytes)
    ensures Admissible(st, []) && AfterAll(st, []) == st && EncodeAll([]) + tail == tail
  {
  }

  lemma PrependRecord(st: ScanState, r: Record, rs: seq<Record>, tail: Bytes)
    ensures EncodeAll([r] + rs) + tail == r.Encode() + (EncodeAll(rs) + tail)
    ensures AfterAll(st, [r] + rs) == AfterAll(After(st, r), rs)
    ensures Admissible(st, [r] + rs) <==> r.Complete() && Fits(st, r) && Admissible(After(st, r), rs)
  {
    assert ([r] + rs)[1..] == rs;
  }

  /** Complete records are read back one by one: an encoding has only one such reading. */
  lemma {:induction false} Unambiguous(xs: seq<Record>, ys: seq<Record>)
    requires Grammatical(xs) && Grammatical(ys) && EncodeAll(xs) == EncodeAll(ys)
    ensures xs == ys
  {
    AdmissibleIffGrammatical(START, xs);
    AdmissibleIffGrammatical(START, ys);
    SameReading(START, xs, ys);
  }

  lemma {:induction false} SameReading(st: ScanState, xs: seq<Record>, ys: seq<Record>)
    requires Admissible(st, xs) && Admissible(st, ys) && EncodeAll(xs) == EncodeAll(ys)
    ensures xs == ys
    decreases xs
  {
    if xs != [] && ys != [] {
      var restX, restY := EncodeAll(xs[1..]), EncodeAll(ys[1..]);
      SameFirst(xs[0], ys[0], restX, restY);
      SameReading(After(st, xs[0]), xs[1..], ys[1..]);
      assert xs == [xs[0]] + xs[1..] && ys == [ys[0]] + ys[1..];
    }
  }

  lemma SameFirst(x: Record, y: Record, restX: Bytes, restY: Bytes)
    requires x.Complete() && y.Complete() && x.Known() && y.Known()
    requires x.Encode() + restX == y.Encode() + restY
    ensures x == y && restX == restY
  {
    hide AppendVarint;
    assert x.Encode() + restX == AppendTag(x.number, x.WireType()) + (x.EncodeValue() + restX);
    assert y.Encode() + restY == AppendTag(y.number, y.WireType()) + (y.EncodeValue() + restY);
    AppendIsPrefixFree(x.number * 8 + x.WireType(), y.number * 8 + y.WireType(),
                       x.EncodeValue() + restX, y.EncodeValue() + restY);
    SameValue(x, y, restX, restY);
  }

  lemma SameValue(x: Record, y: Record, restX: Bytes, restY: Bytes)
    requires x.Complete() && y.Complete() && x.Known() && y.Known()
    requires x.number == y.number && x.WireType() == y.WireType()
    requires x.EncodeValue() + restX == y.EncodeValue() + restY
    ensures x == y && restX == restY
  {
    hide AppendVarint;
    if x.BytesRecord? {
      assert x.EncodeValue() + restX == AppendVarint(|x.content|) + (x.content + restX);
      assert y.EncodeValue() + restY == AppendVarint(|y.content|) + (y.content + restY);
      AppendIsPrefixFree(|x.content|, |y.content|, x.content + restX, y.content + restY);
      SplitAt(x.content, restX, y.content, restY);
    } else {
      AppendIsPrefixFree(x.value, y.value, restX, restY);
    }
  }

  lemma SplitAt(a: Bytes, restA: Bytes, b: Bytes, restB: Bytes)
    requires a + restA == b + restB && |a| == |b|
    ensures a == b && restA == restB
  {
    assert a == (a + restA)[..|a|] && b == (b + restB)[..|b|];
    assert restA == (a + restA)[|a|..] && restB == (b + restB)[|b|..];
  }

  // ------------------------------------------------------- the state at the end

  /** The content of the signature record, if there is one. */
  function SignatureOf(rs: seq<Record>): Option<Bytes>
  {
    if rs == [] then None
    else if rs[0].Signature() && rs[0].BytesRecord? then Some(rs[0].content)
    else SignatureOf(rs[1..])
  }

  lemma UnsignedCons(rs: seq<Record>)
    requires rs != []
    ensures Unsigned(rs) == if rs[0].Signature() then Unsigned(rs[1..]) else [rs[0]] + Unsigned(rs[1..])
  {
  }

  lemma AdmissibleFirst(st: ScanState, rs: seq<Record>)
    requires rs != [] && Admissible(st, rs)
    ensures Fits(st, rs[0]) && Admissible(After(st, rs[0]), rs[1..]) &&
            AfterAll(st, rs) == AfterAll(After(st, rs[0]), rs[1..])
  {
    hide Fits, After;
  }

  lemma UnsignedOne(st: ScanState, r: Record)
    requires Fits(st, r)
    ensures After(st, r).unsigned == if r.Signature() then st.unsigned else st.unsigned + r.Encode()
  {
  }

  lemma UnsignedFirst(st: ScanState, rs: seq<Record>)
    requires rs != [] && Admissible(st, rs)
    ensures Admissible(After(st, rs[0]), rs[1..]) && AfterAll(st, rs) == AfterAll(After(st, rs[0]), rs[1..])
    ensures After(st, rs[0]).unsigned + EncodeAll(Unsigned(rs[1..])) == st.unsigned + EncodeAll(Unsigned(rs))
  {
    hide *;
    AdmissibleFirst(st, rs);
    UnsignedCons(rs);
    UnsignedOne(st, rs[0]);
    PrependRecord(st, rs[0], Unsigned(rs[1..]), []);
    assert EncodeAll(Unsigned(rs[1..])) + [] == EncodeAll(Unsigned(rs[1..]));
    assert EncodeAll(Unsigned(rs)) + [] == EncodeAll(Unsigned(rs));
    assert st.unsigned + rs[0].Encode() + EncodeAll(Unsigned(rs[1..])) ==
           st.unsigned + (rs[0].Encode() + EncodeAll(Unsigned(rs[1..])));
  }

  lemma {:induction false} UnsignedAfter(st: ScanState, rs: seq<Record>)
    requires Admissible(st, rs)
    ensures AfterAll(st, rs).unsigned == st.unsigned + EncodeAll(Unsigned(rs))
    decreases rs
  {
    hide After, Fits, Admissible;
    if rs != [] {
      UnsignedFirst(st, rs);
      UnsignedAfter(After(st, rs[0]), rs[1..]);
    }
  }

  lemma {:induction false} SeenAfter(st: ScanState, rs: seq<Record>)
    ensures SIGNATURE_FIELD in AfterAll(st, rs).seen <==> SIGNATURE_FIELD in st.seen || Signed(rs)
    decreases rs
  {
    if rs != [] {
      SeenAfter(After(st, rs[0]), rs[1..]);
      SignedHead(rs);
    }
  }

  lemma {:induction false} SignatureAfter(st: ScanState, rs: seq<Record>)
    requires Admissible(st, rs)
    ensures Signed(rs) <==> SignatureOf(rs).Some?
    ensures AfterAll(st, rs).signature == if Signed(rs) then SignatureOf(rs) else st.signature
    decreases rs
  {
    if rs != [] {
      var next, tail := After(st, rs[0]), rs[1..];
      SignatureAfter(next, tail);
      SignedHead(rs);
      AdmissibleIffGrammatical(next, tail);
    }
  }

  lemma SignedHead(rs: seq<Record>)
    requires rs != []
    ensures Signed(rs) <==> rs[0].Signature() || Signed(rs[1..])
  {
  }

  // ------------------------------------------------------------ main results

  const SIGNATURE_TAG := AppendTag(SIGNATURE_FIELD, BYTES)

  lemma DuplicateStop(tail: Bytes, st: ScanState)
    requires tail != []
    ensures Step(tail, st) == Stop(DuplicateSignature) <==> SIGNATURE_FIELD in st.seen && SIGNATURE_TAG <= tail
    ensures Step(tail, st) != Stop(MissingSignature)
  {
  }

  /** How extraction ends, once it has gone through `rs` and stands before `tail`. */
  lemma ScanEnds(rs: seq<Record>, tail: Bytes)
    requires Grammatical(rs) && |EncodeAll(rs) + tail| <= MAX_RAW_BYTES
    ensures tail == [] && Signed(rs) ==>
      SignatureOf(rs).Some? &&
      Extract(EncodeAll(rs) + tail) == Ok(Extracted(EncodeAll(Unsigned(rs)), SignatureOf(rs).value))
    ensures tail == [] && !Signed(rs) ==> Extract(EncodeAll(rs) + tail) == Err(MissingSignature)
    ensures Signed(rs) && SIGNATURE_TAG <= tail ==> Extract(EncodeAll(rs) + tail) == Err(DuplicateSignature)
    ensures tail != [] && Step(tail, AfterAll(START, rs)).Stop? && !(Signed(rs) && SIGNATURE_TAG <= tail) ==>
      Extract(EncodeAll(rs) + tail) == Err(Malformed)
  {
    hide Step, Grammatical, Signed, AppendTag;
    AdmissibleIffGrammatical(START, rs);
    ScanRecords(START, rs, tail);
    UnsignedAfter(START, rs);
    assert [] + EncodeAll(Unsigned(rs)) == EncodeAll(Unsigned(rs));
    SignatureAfter(START, rs);
    SeenAfter(START, rs);
    var st := AfterAll(START, rs);
    if tail != [] {
      DuplicateStop(tail, st);
      match Step(tail, st)
      case Stop(error) => assert Scan(tail, st) == Err(error) && error != MissingSignature;
      case Next(_, _) =>
    }
  }

  ghost predicate ReadsAs(raw: Bytes, rs: seq<Record>, tail: Bytes)
  {
    Grammatical(rs) && raw == EncodeAll(rs) + tail
  }

  /**
   The exact grammar.  Extraction succeeds on exactly the byte strings of at most
   1 MiB that are the canonical encoding of a grammatical record list with a
   signature; it misses the signature on exactly those without one; it reports a
   duplicate exactly when a grammatical, signed prefix is followed by another
   signature tag; everything else is malformed.
   */
  lemma ExactGrammar(raw: Bytes)
    ensures Extract(raw).Ok? <==>
            |raw| <= MAX_RAW_BYTES && exists rs :: ReadsAs(raw, rs, []) && Signed(rs)
    ensures Extract(raw) == Err(MissingSignature) <==>
            |raw| <= MAX_RAW_BYTES && exists rs :: ReadsAs(raw, rs, []) && !Signed(rs)
    ensures Extract(raw) == Err(DuplicateSignature) <==>
            |raw| <= MAX_RAW_BYTES && exists rs, tail :: ReadsAs(raw, rs, tail) && Signed(rs) && SIGNATURE_TAG <= tail
  {
    hide Step, Grammatical, Signed, Scan, EncodeAll, AppendTag;
    forall rs, tail | |raw| <= MAX_RAW_BYTES && ReadsAs(raw, rs, tail)
      ensures tail == [] ==> Extract(raw).Ok? == Signed(rs)
      ensures tail == [] && !Signed(rs) ==> Extract(raw) == Err(MissingSignature)
      ensures Signed(rs) && SIGNATURE_TAG <= tail ==> Extract(raw) == Err(DuplicateSignature)
    {
      ScanEnds(rs, tail);
    }
    if |raw| <= MAX_RAW_BYTES {
      var rs, tail := ScanSplits(START, raw);
      AdmissibleIffGrammatical(START, rs);
      assert ReadsAs(raw, rs, tail);
      ScanEnds(rs, tail);
    }
  }

  /** The answer on a grammatical, signed list: its body without the record, and the record's content. */
  lemma ExtractOfRecords(rs: seq<Record>)
    requires Grammatical(rs) && Signed(rs) && |EncodeAll(rs)| <= MAX_RAW_BYTES
    ensures SignatureOf(rs).Some?
    ensures Extract(EncodeAll(rs)) == Ok(Extracted(EncodeAll(Unsigned(rs)), SignatureOf(rs).value))
  {
    hide Grammatical, Signed, AppendTag;
    assert EncodeAll(rs) + [] == EncodeAll(rs);
    ScanEnds(rs, []);
  }
}
