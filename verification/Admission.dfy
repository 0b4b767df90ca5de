/**
 The runtime's raw-packet admission: verify the exact bytes, then admit the
 message to replay storage until expiry plus clock skew, and only then deliver.
 */
module Admission {
  import opened Bytes
  import opened Crypto
  import opened Wire
  import opened WireGrammar
  import opened WireSigning
  import opened Production
  import opened Replay
  import opened ReplayRuns
  import opened ProductionProperties

  /** Local configuration; `acceptable` stands for the packet and identity-mirror validation. */
  datatype Config = Config(lib: Library, trust: Trust, acceptable: Packet -> bool, utf8: string -> Bytes)

  /** Bytes off the wire with the two clock readings their handling takes. */
  datatype Arrival = Arrival(raw: Bytes, verifiedAt: int, admittedAt: int)

  datatype Delivery = Delivered(packet: Packet) | AlreadySeen | Rejected

  function TupleOf(cfg: Config, packet: Packet): Tuple
    requires packet.metadata.Some?
  {
    Tuple(cfg.utf8(packet.tenant), cfg.utf8(packet.metadata.value.audience), cfg.utf8(packet.sender),
          packet.metadata.value.messageID)
  }

  /** When the replay record may be forgotten: expiry plus the skew that verification tolerates. */
  function ReplayExpiry(cfg: Config, packet: Packet): int
    requires packet.metadata.Some? && packet.metadata.value.expiresAt.Some?
  {
    packet.metadata.value.expiresAt.value.AsTime() + cfg.trust.clockSkew
  }

  lemma VerifiedHasMetadata(cfg: Config, a: Arrival)
    requires VerifyProductionPacket(cfg.lib, a.raw, cfg.trust, a.verifiedAt).Ok?
    ensures var p := VerifyProductionPacket(cfg.lib, a.raw, cfg.trust, a.verifiedAt).value.packet;
            && p.metadata.Some? && p.metadata.value.expiresAt.Some?
            && Extract(a.raw).Ok?
            && cfg.lib.unmarshal(Extract(a.raw).value.unsigned).Some?
            && p == cfg.lib.unmarshal(Extract(a.raw).value.unsigned).value.(signature := p.signature)
  {
    hide Extract;
  }

  /** admitProductionPacketForAudience. */
  function Handle(cfg: Config, entries: Entries, a: Arrival): (Entries, Delivery)
  {
    match VerifyProductionPacket(cfg.lib, a.raw, cfg.trust, a.verifiedAt)
    case Err(_) => (entries, Rejected)
    case Ok(v) =>
      VerifiedHasMetadata(cfg, a);
      if !cfg.acceptable(v.packet) then (entries, Rejected)
      else
        match ProductionSignedBodyDigest(cfg.lib, a.raw)
        case Err(_) => (entries, Rejected)
        case Ok(digest) =>
          var (next, outcome) :=
            Admitted(entries, Call(a.admittedAt, TupleOf(cfg, v.packet), digest, ReplayExpiry(cfg, v.packet)));
          (next, match outcome
                 case First => Delivered(v.packet)
                 case Duplicate => AlreadySeen
                 case Conflict => Rejected
                 case Unavailable => Rejected)
  }

  function HandleAll(cfg: Config, arrivals: seq<Arrival>): (Entries, seq<Delivery>)
  {
    if arrivals == [] then (map[], [])
    else
      var last := |arrivals| - 1;
      var (entries, deliveries) := HandleAll(cfg, arrivals[..last]);
      var (next, delivery) := Handle(cfg, entries, arrivals[last]);
      (next, deliveries + [delivery])
  }

  /** The replay record outlives verification: at no instant does a packet still verify without it. */
  lemma RecordOutlivesVerification(cfg: Config, a: Arrival)
    requires VerifyProductionPacket(cfg.lib, a.raw, cfg.trust, a.verifiedAt).Ok?
    ensures var p := VerifyProductionPacket(cfg.lib, a.raw, cfg.trust, a.verifiedAt).value.packet;
            p.metadata.Some? && p.metadata.value.expiresAt.Some? && a.verifiedAt < ReplayExpiry(cfg, p)
  {
    hide Extract, ValidTrust;
    VerifiedHasMetadata(cfg, a);
  }

  // ----------------------------------------- an arrival as a replay-store call

  predicate Passes(cfg: Config, a: Arrival)
  {
    var v := VerifyProductionPacket(cfg.lib, a.raw, cfg.trust, a.verifiedAt);
    v.Ok? && cfg.acceptable(v.value.packet)
  }

  /** The call an arrival makes; one that never gets to the store is a call the store refuses. */
  function CallOf(cfg: Config, a: Arrival): Call
  {
    if !Passes(cfg, a) then Call(a.admittedAt, Tuple([], [], [], []), [], a.admittedAt)
    else
      VerifiedHasMetadata(cfg, a);
      var v := VerifyProductionPacket(cfg.lib, a.raw, cfg.trust, a.verifiedAt).value;
      Call(a.admittedAt, TupleOf(cfg, v.packet), v.bodyDigest, ReplayExpiry(cfg, v.packet))
  }

  function Calls(cfg: Config, arrivals: seq<Arrival>): seq<Call>
  {
    seq(|arrivals|, i requires 0 <= i < |arrivals| => CallOf(cfg, arrivals[i]))
  }

  predicate Agrees(d: Delivery, o: Outcome)
  {
    (d.Delivered? <==> o == First) && (d.AlreadySeen? <==> o == Duplicate)
  }

  lemma HandleIsAdmit(cfg: Config, entries: Entries, a: Arrival)
    ensures Handle(cfg, entries, a).0 == Admitted(entries, CallOf(cfg, a)).0
    ensures Agrees(Handle(cfg, entries, a).1, Admitted(entries, CallOf(cfg, a)).1)
  {
    hide Extract, TupleKey, Purge;
    if Passes(cfg, a) {
      VerifiedHasMetadata(cfg, a);
    }
  }

  lemma {:induction false} HandleAllIsRun(cfg: Config, arrivals: seq<Arrival>)
    ensures |HandleAll(cfg, arrivals).1| == |arrivals| == |Run(Calls(cfg, arrivals)).1|
    ensures HandleAll(cfg, arrivals).0 == Run(Calls(cfg, arrivals)).0
    ensures forall i :: 0 <= i < |arrivals| ==>
              Agrees(HandleAll(cfg, arrivals).1[i], Run(Calls(cfg, arrivals)).1[i].outcome)
  {
    if arrivals != [] {
      hide Handle, CallOf, Admitted;
      var last := |arrivals| - 1;
      HandleAllIsRun(cfg, arrivals[..last]);
      assert Calls(cfg, arrivals)[..last] == Calls(cfg, arrivals[..last]);
      HandleIsAdmit(cfg, HandleAll(cfg, arrivals[..last]).0, arrivals[last]);
    }
  }

  // -------------------------------------------------------------- whole runs

  function Body(a: Arrival): Option<Bytes>
  {
    match Extract(a.raw)
    case Ok(e) => Some(e.unsigned)
    case Err(_) => None
  }

  /** No admission clock reaches a record's expiry and is before it again later; authorities up to 4 GiB. */
  ghost predicate Orderly(cfg: Config, arrivals: seq<Arrival>)
  {
    !Crosses(Calls(cfg, arrivals)) && ShortCalls(Calls(cfg, arrivals))
  }

  lemma SameBodySameCall(cfg: Config, a: Arrival, b: Arrival)
    requires Passes(cfg, a) && Passes(cfg, b) && Body(a) == Body(b)
    ensures CallOf(cfg, a).tuple == CallOf(cfg, b).tuple
    ensures CallOf(cfg, a).digest == CallOf(cfg, b).digest
    ensures CallOf(cfg, a).expires == CallOf(cfg, b).expires
  {
    hide Extract;
    VerifiedHasMetadata(cfg, a);
    VerifiedHasMetadata(cfg, b);
  }

  lemma DeliveredPasses(cfg: Config, a: Arrival)
    requires WellFormed(CallOf(cfg, a))
    ensures Passes(cfg, a)
  {
  }

  /** What the store says about arrival `j` once arrival `i` with the same tuple has been delivered. */
  lemma AfterDelivery(cfg: Config, arrivals: seq<Arrival>, i: nat, j: nat)
    requires Orderly(cfg, arrivals) && i < j < |arrivals|
    requires |HandleAll(cfg, arrivals).1| == |arrivals| && HandleAll(cfg, arrivals).1[i].Delivered?
    requires var ci, cj := CallOf(cfg, arrivals[i]), CallOf(cfg, arrivals[j]);
             ci.tuple == cj.tuple && WellFormed(cj) && cj.now < ci.expires
    ensures var d := HandleAll(cfg, arrivals).1[j];
            !d.Delivered? &&
            (d.AlreadySeen? <==> CallOf(cfg, arrivals[i]).digest == CallOf(cfg, arrivals[j]).digest)
  {
    hide WellFormed, CallOf, HandleAll, Run, Crosses, Unreached, ShortCalls, Passes;
    var calls := Calls(cfg, arrivals);
    HandleAllIsRun(cfg, arrivals);
    DeliveredIsWellFormed(cfg, arrivals, i);
    UnlessCrossing(calls, i, j);
    OnceUntilExpiry(calls, i, j);
  }

  lemma CallTime(cfg: Config, a: Arrival)
    ensures CallOf(cfg, a).now == a.admittedAt
  {
  }

  lemma DeliveredIsWellFormed(cfg: Config, arrivals: seq<Arrival>, j: nat)
    requires j < |arrivals| && |HandleAll(cfg, arrivals).1| == |arrivals| && HandleAll(cfg, arrivals).1[j].Delivered?
    ensures WellFormed(CallOf(cfg, arrivals[j])) && Passes(cfg, arrivals[j])
  {
    hide CallOf, HandleAll, Run, WellFormed;
    var calls := Calls(cfg, arrivals);
    HandleAllIsRun(cfg, arrivals);
    RunPrefix(calls, j);
    RunPrefix(calls, j + 1);
    assert |Run(calls[..j]).1| == j;
    RunSnoc(calls, j);
    DeliveredPasses(cfg, arrivals[j]);
  }

  /**
   At most once.  Over any run, no signed body reaches the handler twice, however
   often it is redelivered, re-signed, or has its signature record moved.
   */
  lemma AtMostOnce(cfg: Config, arrivals: seq<Arrival>, i: nat, j: nat)
    requires Orderly(cfg, arrivals) && i < j < |arrivals|
    requires |HandleAll(cfg, arrivals).1| == |arrivals|
    requires HandleAll(cfg, arrivals).1[i].Delivered? && HandleAll(cfg, arrivals).1[j].Delivered?
    ensures Body(arrivals[i]) != Body(arrivals[j])
  {
    hide CallOf, HandleAll, Passes, Body, Orderly;
    if Body(arrivals[i]) == Body(arrivals[j]) {
      DeliveredIsWellFormed(cfg, arrivals, i);
      DeliveredIsWellFormed(cfg, arrivals, j);
      SameBodySameCall(cfg, arrivals[i], arrivals[j]);
      AfterDelivery(cfg, arrivals, i, j);
    }
  }

  /** An arrival gets to the store with a reading at or past the expiry of another's record. */
  predicate Retires(cfg: Config, a: Arrival, b: Arrival)
  {
    WellFormed(CallOf(cfg, a)) && CallOf(cfg, a).now >= CallOf(cfg, b).expires
  }

  /**
   Exactly when a body is delivered again, whatever the clocks do: its latest delivery
   is arrival i, and since then some arrival that got to the store read a clock at or
   past the expiry of its record.
   */
  lemma DeliveredAgainIff(cfg: Config, arrivals: seq<Arrival>, i: nat, j: nat)
    requires ShortCalls(Calls(cfg, arrivals)) && i < j < |arrivals|
    requires |HandleAll(cfg, arrivals).1| == |arrivals| && HandleAll(cfg, arrivals).1[i].Delivered?
    requires Passes(cfg, arrivals[j]) && WellFormed(CallOf(cfg, arrivals[j])) && Body(arrivals[i]) == Body(arrivals[j])
    requires forall m :: i < m < j && CallOf(cfg, arrivals[m]).tuple == CallOf(cfg, arrivals[i]).tuple ==>
               !HandleAll(cfg, arrivals).1[m].Delivered?
    ensures HandleAll(cfg, arrivals).1[j].Delivered? <==>
            exists k :: i < k < j && Retires(cfg, arrivals[k], arrivals[i])
  {
    hide WellFormed, CallOf, HandleAll, Run, Passes, Body, ShortCalls;
    var calls := Calls(cfg, arrivals);
    HandleAllIsRun(cfg, arrivals);
    DeliveredIsWellFormed(cfg, arrivals, i);
    SameBodySameCall(cfg, arrivals[i], arrivals[j]);
    WellFormedExpires(calls[j]);
    AgainIff(calls, i, j);
    assert forall k :: i < k < j ==> calls[k] == CallOf(cfg, arrivals[k]);
    if !Unreached(calls, i, j) {
      var k :| i < k <= j && WellFormed(calls[k]) && calls[k].now >= calls[i].expires;
      assert Retires(cfg, arrivals[k], arrivals[i]);
    }
  }

  lemma WellFormedExpires(c: Call)
    requires WellFormed(c)
    ensures c.expires > c.now
  {
  }

  /**
   Redelivery.  While the replay record lasts, another copy of a delivered body
   that passes verification is acknowledged without delivery and never reported
   as a conflict; the same message ID over a different body is rejected.
   */
  lemma Redelivery(cfg: Config, arrivals: seq<Arrival>, i: nat, j: nat)
    requires Orderly(cfg, arrivals) && i < j < |arrivals| && CollisionFree(cfg.lib.hash)
    requires |HandleAll(cfg, arrivals).1| == |arrivals| && HandleAll(cfg, arrivals).1[i].Delivered?
    requires Passes(cfg, arrivals[j]) && WellFormed(CallOf(cfg, arrivals[j]))
    requires CallOf(cfg, arrivals[j]).tuple == CallOf(cfg, arrivals[i]).tuple
    requires arrivals[j].admittedAt < CallOf(cfg, arrivals[i]).expires
    ensures HandleAll(cfg, arrivals).1[j] ==
            if Body(arrivals[j]) == Body(arrivals[i]) then AlreadySeen else Rejected
  {
    hide CallOf, HandleAll, Passes, Body, Orderly, WellFormed, CollisionFree;
    CallTime(cfg, arrivals[j]);
    DeliveredIsWellFormed(cfg, arrivals, i);
    AfterDelivery(cfg, arrivals, i, j);
    DigestIsBody(cfg, arrivals[i], arrivals[j]);
  }

  lemma DigestIsBody(cfg: Config, a: Arrival, b: Arrival)
    requires Passes(cfg, a) && Passes(cfg, b) && CollisionFree(cfg.lib.hash)
    ensures CallOf(cfg, a).digest == CallOf(cfg, b).digest <==> Body(a) == Body(b)
  {
    hide Extract;
    VerifiedHasMetadata(cfg, a);
    VerifiedHasMetadata(cfg, b);
  }

  // -------------------------------------------------------- every arrival's fate

  /** The decoded packet of an arrival's bytes without the signature record, and that record's content. */
  function Decoded(cfg: Config, a: Arrival): Option<Packet>
  {
    match Extract(a.raw)
    case Err(_) => None
    case Ok(e) =>
      match cfg.lib.unmarshal(e.unsigned)
      case None => None
      case Some(packet) => Some(packet.(signature := e.signature))
  }

  /** The call of an arrival that passes, field by field. */
  lemma CallIs(cfg: Config, a: Arrival)
    requires Passes(cfg, a)
    ensures Extract(a.raw).Ok? && Decoded(cfg, a).Some? && cfg.acceptable(Decoded(cfg, a).value)
    ensures VerifyProductionPacket(cfg.lib, a.raw, cfg.trust, a.verifiedAt).value.packet == Decoded(cfg, a).value
    ensures var p := Decoded(cfg, a).value;
            && p.metadata.Some? && p.metadata.value.expiresAt.Some?
            && CallOf(cfg, a) ==
               Call(a.admittedAt,
                    Tuple(cfg.utf8(p.tenant), cfg.utf8(p.metadata.value.audience), cfg.utf8(p.sender),
                      p.metadata.value.messageID),
                    cfg.lib.hash(Extract(a.raw).value.unsigned),
                    Expiry(p.metadata.value) + cfg.trust.clockSkew)
  {
    hide Extract, VerifyProductionPacket, Trusted, Usable;
    VerifiesIff(cfg.lib, a.raw, cfg.trust, a.verifiedAt);
    VerifiedHasMetadata(cfg, a);
  }

  lemma {:induction false} HandlePrefix(cfg: Config, arrivals: seq<Arrival>, n: nat)
    requires n <= |arrivals|
    ensures |HandleAll(cfg, arrivals).1| == |arrivals|
    ensures HandleAll(cfg, arrivals).1[..n] == HandleAll(cfg, arrivals[..n]).1
  {
    hide Handle;
    if n < |arrivals| {
      var last := |arrivals| - 1;
      HandlePrefix(cfg, arrivals[..last], n);
      assert arrivals[..last][..n] == arrivals[..n];
    } else if arrivals != [] {
      assert arrivals[..n] == arrivals;
      HandlePrefix(cfg, arrivals[..n - 1], n - 1);
    }
  }

  /** What is delivered is what was verified. */
  lemma HandledAt(cfg: Config, arrivals: seq<Arrival>, i: nat)
    requires i < |arrivals|
    ensures |HandleAll(cfg, arrivals).1| == |arrivals|
    ensures var d := HandleAll(cfg, arrivals).1[i];
            d.Delivered? ==>
              && VerifyProductionPacket(cfg.lib, arrivals[i].raw, cfg.trust, arrivals[i].verifiedAt).Ok?
              && d.packet ==
                 VerifyProductionPacket(cfg.lib, arrivals[i].raw, cfg.trust, arrivals[i].verifiedAt).value.packet
              && cfg.acceptable(d.packet)
  {
    hide Handle, VerifyProductionPacket;
    HandlePrefix(cfg, arrivals, i);
    HandlePrefix(cfg, arrivals, i + 1);
    assert arrivals[..i + 1][..i] == arrivals[..i];
    assert HandleAll(cfg, arrivals).1[i] == HandleAll(cfg, arrivals).1[..i + 1][i];
    HandledLast(cfg, HandleAll(cfg, arrivals[..i]).0, arrivals[i]);
  }

  lemma HandledLast(cfg: Config, entries: Entries, a: Arrival)
    ensures var d := Handle(cfg, entries, a).1;
            d.Delivered? ==>
              && VerifyProductionPacket(cfg.lib, a.raw, cfg.trust, a.verifiedAt).Ok?
              && d.packet == VerifyProductionPacket(cfg.lib, a.raw, cfg.trust, a.verifiedAt).value.packet
              && cfg.acceptable(d.packet)
  {
    hide VerifyProductionPacket, Admitted, ProductionSignedBodyDigest, TupleOf, ReplayExpiry;
  }

  /**
   What reaches the handler: the decoding of the arrived bytes with one signature record
   cut out, carrying that signature, and acceptable.
   */
  lemma DeliveredIsDecoded(
    cfg: Config, arrivals: seq<Arrival>, i: nat) returns (before: Bytes, after: Bytes, decoded: Packet)
    requires i < |arrivals| && |HandleAll(cfg, arrivals).1| == |arrivals| && HandleAll(cfg, arrivals).1[i].Delivered?
    ensures var p := HandleAll(cfg, arrivals).1[i].packet;
            && arrivals[i].raw == before + SignatureRecord(p.signature).Encode() + after
            && cfg.lib.unmarshal(before + after) == Some(decoded)
            && p == decoded.(signature := p.signature) && cfg.acceptable(p)
            && Trusted(decoded, cfg.trust, arrivals[i].verifiedAt)
  {
    hide Extract, VerifyProductionPacket, Trusted, Usable, HandleAll;
    HandledAt(cfg, arrivals, i);
    VerifiesIff(cfg.lib, arrivals[i].raw, cfg.trust, arrivals[i].verifiedAt);
    before, after := CutOut(arrivals[i].raw);
    decoded := cfg.lib.unmarshal(Extract(arrivals[i].raw).value.unsigned).value;
  }

  /** The store still knows at arrival i the message that arrival m delivered. */
  ghost predicate Remembers(cfg: Config, arrivals: seq<Arrival>, m: nat, i: nat)
    requires i < |arrivals| && |HandleAll(cfg, arrivals).1| == |arrivals|
  {
    && m < i && HandleAll(cfg, arrivals).1[m].Delivered?
    && CallOf(cfg, arrivals[m]).tuple == CallOf(cfg, arrivals[i]).tuple
    && forall k :: m < k <= i ==> !Retires(cfg, arrivals[k], arrivals[m])
  }

  lemma BlocksIffRemembers(cfg: Config, arrivals: seq<Arrival>, m: nat, i: nat)
    requires ShortCalls(Calls(cfg, arrivals)) && i < |arrivals| && WellFormed(CallOf(cfg, arrivals[i]))
    ensures |HandleAll(cfg, arrivals).1| == |arrivals| == |Run(Calls(cfg, arrivals)).1|
    ensures Blocks(Run(Calls(cfg, arrivals)).1[..i], m, CallOf(cfg, arrivals[i])) <==> Remembers(cfg, arrivals, m, i)
  {
    hide CallOf, HandleAll, Run, WellFormed, ShortCalls;
    var calls := Calls(cfg, arrivals);
    HandleAllIsRun(cfg, arrivals);
    OutcomeAt(calls, i);
    var h := Run(calls).1[..i];
    forall k | 0 <= k < i ensures h[k].call == CallOf(cfg, arrivals[k]) && h[k] == Run(calls).1[k] {
      assert calls[..i][k] == calls[k];
    }
    if Blocks(h, m, calls[i]) {
      forall k | m < k <= i ensures !Retires(cfg, arrivals[k], arrivals[m]) {
        if k < i {
          assert WellFormed(h[k].call) ==> h[k].call.now < h[m].call.expires;
        }
      }
    }
    if Remembers(cfg, arrivals, m, i) {
      forall k | m < k < |h| && WellFormed(h[k].call) ensures h[k].call.now < h[m].call.expires {
        assert !Retires(cfg, arrivals[k], arrivals[m]);
      }
      assert !Retires(cfg, arrivals[i], arrivals[m]);
    }
  }

  /** The store knows the message of arrival i, with the same body digest or with another. */
  ghost predicate Knows(cfg: Config, arrivals: seq<Arrival>, i: nat, same: bool)
    requires i < |arrivals| && |HandleAll(cfg, arrivals).1| == |arrivals|
  {
    exists m: nat :: Remembers(cfg, arrivals, m, i) && same == SameDigest(cfg, arrivals, m, i)
  }

  predicate SameDigest(cfg: Config, arrivals: seq<Arrival>, m: nat, i: nat)
    requires i < |arrivals|
  {
    m < i && CallOf(cfg, arrivals[m]).digest == CallOf(cfg, arrivals[i]).digest
  }

  /** The arrival gets to the store with a call that it takes. */
  predicate Reaches(cfg: Config, a: Arrival)
  {
    Passes(cfg, a) && WellFormed(CallOf(cfg, a))
  }

  lemma OutcomeIs(cfg: Config, arrivals: seq<Arrival>, i: nat)
    requires ShortCalls(Calls(cfg, arrivals)) && i < |arrivals|
    ensures |HandleAll(cfg, arrivals).1| == |arrivals| == |Run(Calls(cfg, arrivals)).1|
    ensures var o := Run(Calls(cfg, arrivals)).1[i].outcome;
            && (!Reaches(cfg, arrivals[i]) ==> o == Unavailable)
            && (Reaches(cfg, arrivals[i]) && Knows(cfg, arrivals, i, true) ==> o == Duplicate)
            && (Reaches(cfg, arrivals[i]) && !Knows(cfg, arrivals, i, true) && Knows(cfg, arrivals, i, false) ==>
               o == Conflict)
            && (Reaches(cfg, arrivals[i]) && !Knows(cfg, arrivals, i, true) && !Knows(cfg, arrivals, i, false) ==>
               o == First)
  {
    hide CallOf, HandleAll, Run, WellFormed, ShortCalls, Passes, Remembers;
    var calls, a := Calls(cfg, arrivals), arrivals[i];
    HandleAllIsRun(cfg, arrivals);
    OutcomeAt(calls, i);
    var h := Run(calls).1[..i];
    if WellFormed(CallOf(cfg, a)) {
      DeliveredPasses(cfg, a);
      forall m: nat
        ensures Blocks(h, m, calls[i]) <==> Remembers(cfg, arrivals, m, i)
        ensures Blocks(h, m, calls[i]) ==> (h[m].call.digest == calls[i].digest <==> SameDigest(cfg, arrivals, m, i))
      {
        BlocksIffRemembers(cfg, arrivals, m, i);
        if m < i {
          assert h[m].call == calls[..i][m] == calls[m];
        }
      }
    }
  }

  /**
   The fate of every arrival, whatever the clocks do.  One that does not pass or whose
   call the store refuses is rejected; one whose message the store still knows is
   acknowledged if the digests agree and rejected if not; any other is delivered, as the
   decoded packet with its signature.
   */
  lemma FateOf(cfg: Config, arrivals: seq<Arrival>, i: nat)
    requires ShortCalls(Calls(cfg, arrivals)) && i < |arrivals|
    ensures |HandleAll(cfg, arrivals).1| == |arrivals|
    ensures HandleAll(cfg, arrivals).1[i] ==
            if !Reaches(cfg, arrivals[i]) then Rejected
            else if Knows(cfg, arrivals, i, true) then AlreadySeen
            else if Knows(cfg, arrivals, i, false) || Decoded(cfg, arrivals[i]).None? then Rejected
            else Delivered(Decoded(cfg, arrivals[i]).value)
    ensures Reaches(cfg, arrivals[i]) ==> Decoded(cfg, arrivals[i]).Some?
  {
    hide HandleAll, Run, WellFormed, ShortCalls, Passes, Decoded, Knows, CallOf, VerifyProductionPacket;
    HandleAllIsRun(cfg, arrivals);
    OutcomeIs(cfg, arrivals, i);
    HandledAt(cfg, arrivals, i);
    if Reaches(cfg, arrivals[i]) {
      CallIs(cfg, arrivals[i]);
    }
  }

  /**
   End to end: a packet signed within the profile, for a trust store that pins its key,
   arriving in time and new to the store, reaches the handler as it was, with its
   signature.
   */
  lemma SignedIsDelivered(
    cfg: Config, arrivals: seq<Arrival>, i: nat, packet: Packet, key: Key, signedAt: int, signature: Bytes)
    requires ShortCalls(Calls(cfg, arrivals)) && i < |arrivals|
    requires Faithful(cfg.lib, packet.(signature := [])) && signature != []
    requires SignProductionPacket(cfg.lib, packet, key, signedAt, Some(signature)) == Ok(arrivals[i].raw)
    requires cfg.lib.verify(key, cfg.lib.hash(SigningInput(cfg.lib.marshal(packet.(signature := [])))), signature)
    requires PinnedKey(cfg.trust, packet.metadata.value.keyID) == Some(key)
    requires Usable(cfg.trust) && Trusted(packet, cfg.trust, arrivals[i].verifiedAt)
    requires cfg.acceptable(packet.(signature := signature)) && WellFormed(CallOf(cfg, arrivals[i]))
    requires |HandleAll(cfg, arrivals).1| == |arrivals| && forall m: nat :: !Remembers(cfg, arrivals, m, i)
    ensures HandleAll(cfg, arrivals).1[i] == Delivered(packet.(signature := signature))
  {
    hide CallOf, HandleAll, WellFormed, ShortCalls, VerifyProductionPacket, SignProductionPacket, Remembers, Extract,
      Usable, Trusted, Faithful, PinnedKey;
    var a := arrivals[i];
    SignThenVerify(cfg.lib, packet, key, signedAt, signature, cfg.trust, a.verifiedAt);
    TrustedIff(packet, cfg.trust, a.verifiedAt);
    UsableIff(cfg.trust);
    FateOf(cfg, arrivals, i);
    CallIs(cfg, a);
    HandleAllIsRun(cfg, arrivals);
  }
}
