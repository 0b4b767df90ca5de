/** What a verified CAP-PRODUCTION packet proves, and when a signed one verifies. */
module ProductionProperties {
  import opened Bytes
  import opened Clock
  import opened Crypto
  import opened Text
  import opened Varint
  import opened Wire
  import opened WireGrammar
  import opened WireProperties
  import opened WireSigning
  import opened Production

  /**
   Soundness.  Whatever bytes arrive, an accepted packet is the decoding of the
   input with one signature record cut out, and the key that local trust pins for
   its tenant, sender and key ID signed the domain-separated form of exactly those
   bytes, for this audience and within the window.
   */
  lemma VerifiedIsSigned(lib: Library, signed: iset<(Key, Bytes)>, raw: Bytes, trust: Trust, now: int)
    returns (before: Bytes, after: Bytes, key: Key, decoded: Packet)
    requires CollisionFree(lib.hash) && Unforgeable(lib.hash, lib.verify, signed)
    requires VerifyProductionPacket(lib, raw, trust, now).Ok?
    ensures var v := VerifyProductionPacket(lib, raw, trust, now).value;
            && raw == before + SignatureRecord(v.packet.signature).Encode() + after
            && v.bodyDigest == lib.hash(before + after)
            && lib.unmarshal(before + after) == Some(decoded)
            && v.packet == decoded.(signature := v.packet.signature)
    ensures (key, PRODUCTION_DOMAIN + (before + after)) in signed && key.p256
    ensures Usable(trust) && Trusted(decoded, trust, now)
    ensures PinnedKey(trust, decoded.metadata.value.keyID) == Some(key)
  {
    hide Extract, VerifyProductionPacket, Trusted, Usable;
    VerifiesIff(lib, raw, trust, now);
    before, after := CutOut(raw);
    var Extracted(unsigned, signature) := Extract(raw).value;
    decoded := lib.unmarshal(unsigned).value;
    TrustedHasMetadata(decoded, trust, now);
    key := PinnedKey(trust, decoded.metadata.value.keyID).value;
    var message :| (key, message) in signed && lib.hash(message) == lib.hash(SigningInput(unsigned));
  }

  // -------------------------------------------------------- when each succeeds

  /** Metadata as the profile wants it, field by field. */
  predicate InProfile(m: Option<Metadata>)
  {
    && m.Some?
    && m.value.profileVersion == "cap-production-v1"
    && m.value.algorithm == "ECDSA-P256-SHA256"
    && |m.value.messageID| == 16
    && m.value.audience != ""
    && m.value.keyID != ""
    && m.value.expiresAt.Some?
    && -62135596800 <= m.value.expiresAt.value.seconds <= 253402300799
    && 0 <= m.value.expiresAt.value.nanos < 1_000_000_000
  }

  function Expiry(m: Metadata): int
    requires m.expiresAt.Some?
  {
    m.expiresAt.value.seconds * 1_000_000_000 + m.expiresAt.value.nanos
  }

  /** A name without white space at its ends. */
  predicate Tight(s: string)
  {
    s != "" && !IsSpace(s[0]) && !IsSpace(s[|s| - 1])
  }

  lemma {:induction false} TrimLeftShort(s: string)
    ensures |TrimLeft(s)| <= |s|
  {
    if s != "" && IsSpace(s[0]) {
      TrimLeftShort(s[1..]);
    }
  }

  lemma {:induction false} TrimRightShort(s: string)
    ensures |TrimRight(s)| <= |s|
  {
    if s != "" && IsSpace(s[|s| - 1]) {
      TrimRightShort(s[..|s| - 1]);
    }
  }

  /** Trimming leaves a non-empty string alone exactly when its ends are not white space. */
  lemma AuthorityIff(s: string)
    ensures ValidAuthority(s) <==> Tight(s)
  {
    hide IsSpace;
    if s != "" {
      TrimLeftShort(s[1..]);
      TrimRightShort(TrimLeft(s));
      TrimRightShort(s[..|s| - 1]);
    }
    if Tight(s) {
      TrimOfTight(s);
    }
  }

  /** A trust store that can decide: three pinned names and some source of keys. */
  predicate Usable(trust: Trust)
  {
    && Tight(trust.audience) && Tight(trust.tenant) && Tight(trust.sender)
    && (trust.resolveKey.Some? || exists id :: id in trust.publicKeys)
  }

  /** The lifetime bound, five minutes unless a shorter one is set; it covers the skew, which is at most one minute. */
  predicate WindowsFit(trust: Trust)
  {
    && 0 <= trust.maxLifetime <= 300_000_000_000
    && 0 <= trust.clockSkew <= 60_000_000_000
    && (trust.maxLifetime > 0 ==> trust.clockSkew <= trust.maxLifetime)
  }

  /** The expiry is still ahead, within the skew, and no further ahead than the lifetime and the skew. */
  predicate Timely(expires: int, trust: Trust, now: int)
  {
    && now - trust.clockSkew < expires
    && expires <= now + trust.clockSkew + (if trust.maxLifetime == 0 then 300_000_000_000 else trust.maxLifetime)
  }

  /** All that verification asks of a decoded packet, its signature aside. */
  predicate Trusted(packet: Packet, trust: Trust, now: int)
  {
    && !packet.unknownFields
    && InProfile(packet.metadata)
    && WindowsFit(trust) && Timely(Expiry(packet.metadata.value), trust, now)
    && packet.metadata.value.audience == trust.audience
    && packet.tenant == trust.tenant && packet.sender == trust.sender
  }

  lemma UsableIff(trust: Trust)
    ensures ValidTrust(trust) <==> Usable(trust)
  {
    hide Tight, ValidAuthority;
    AuthorityIff(trust.audience);
    AuthorityIff(trust.tenant);
    AuthorityIff(trust.sender);
    if trust.publicKeys != map[] {
      var id :| id in trust.publicKeys;
    }
  }

  lemma TrustedIff(packet: Packet, trust: Trust, now: int)
    ensures Trusted(packet, trust, now) <==>
            && !packet.unknownFields && MetadataError(packet.metadata, trust, now).None?
            && packet.tenant == trust.tenant && packet.sender == trust.sender
    ensures MetadataShape(packet.metadata).None? <==> InProfile(packet.metadata)
  {
  }

  /**
   Verification, exactly.  It accepts some bytes if and only if the trust store can
   decide, the bytes hold one signature record, what is left decodes to a packet that
   passes every check of trust, and the key pinned for it is a P-256 key that verifies
   the domain-separated bytes; and then it returns that packet with its signature, and
   the digest of the bytes.
   */
  lemma VerifiesIff(lib: Library, raw: Bytes, trust: Trust, now: int)
    ensures VerifyProductionPacket(lib, raw, trust, now).Ok? <==>
            && Usable(trust)
            && Extract(raw).Ok?
            && var body, signature := Extract(raw).value.unsigned, Extract(raw).value.signature;
            && lib.unmarshal(body).Some?
            && var packet := lib.unmarshal(body).value;
            && Trusted(packet, trust, now)
            && var key := PinnedKey(trust, packet.metadata.value.keyID);
            key.Some? && key.value.p256 && lib.verify(key.value, lib.hash(SigningInput(body)), signature)
    ensures VerifyProductionPacket(lib, raw, trust, now).Ok? ==>
            && Extract(raw).Ok? && lib.unmarshal(Extract(raw).value.unsigned).Some?
            && var e := Extract(raw).value;
            VerifyProductionPacket(lib, raw, trust, now)
            == Ok(Verified(lib.unmarshal(e.unsigned).value.(signature := e.signature), lib.hash(e.unsigned)))
  {
    hide Extract, Usable, ValidTrust, Trusted, MetadataError, InProfile;
    UsableIff(trust);
    if Extract(raw).Ok? && lib.unmarshal(Extract(raw).value.unsigned).Some? {
      TrustedIff(lib.unmarshal(Extract(raw).value.unsigned).value, trust, now);
      TrustedHasMetadata(lib.unmarshal(Extract(raw).value.unsigned).value, trust, now);
    }
  }

  lemma TrustedHasMetadata(packet: Packet, trust: Trust, now: int)
    ensures Trusted(packet, trust, now) ==> InProfile(packet.metadata) && packet.metadata.Some?
  {
  }

  /** What the codec owes one packet: decoding gives it back, and its encoding is complete records. */
  ghost predicate Faithful(lib: Library, packet: Packet)
  {
    && lib.unmarshal(lib.marshal(packet)) == Some(packet)
    && exists rs :: Complete(rs) && EncodeAll(rs) == lib.marshal(packet)
  }

  /**
   Signing, exactly.  With a drawn signature it succeeds if and only if the key is a
   P-256 key, the metadata is in the profile and expires later than now and at most five
   minutes from now, nothing unknown is in the packet, its records are grammatical and
   hold no signature, and it fits 1 MiB with the probe and with the signature; and then
   it returns the encoded packet followed by the signature record.
   */
  lemma SignsIff(lib: Library, packet: Packet, key: Key, now: int, signature: Bytes)
    requires Faithful(lib, packet.(signature := []))
    ensures var unsigned := lib.marshal(packet.(signature := []));
            var raw := unsigned + SignatureRecord(signature).Encode();
            var answer := SignProductionPacket(lib, packet, key, now, Some(signature));
            && (answer.Ok? <==>
                && key.p256
                && InProfile(packet.metadata)
                && now < Expiry(packet.metadata.value) <= now + 300_000_000_000
                && !packet.unknownFields
                && UnsignedBody(unsigned)
                && |unsigned| + 3 <= 0x10_0000 && |raw| <= 0x10_0000)
            && (answer.Ok? ==> answer == Ok(raw))
  {
    hide Extract, AppendSignatureField, EncodeAll, Complete, InProfile, MetadataShape;
    var unsigned := lib.marshal(packet.(signature := []));
    var rs :| Complete(rs) && EncodeAll(rs) == unsigned;
    ProbeIffBody(rs);
    AppendIsEncode(unsigned, signature);
    ShapeIff(packet.metadata);
  }

  lemma ShapeIff(m: Option<Metadata>)
    ensures MetadataShape(m).None? <==> InProfile(m)
    ensures InProfile(m) ==> m.Some? && m.value.expiresAt.Some? && Expiry(m.value) == m.value.expiresAt.value.AsTime()
  {
  }

  lemma ProbeIffBody(rs: seq<Record>)
    requires Complete(rs)
    ensures ProbeAccepts(EncodeAll(rs)) <==> UnsignedBody(EncodeAll(rs)) && |EncodeAll(rs)| + 3 <= MAX_RAW_BYTES
  {
    hide EncodeAll, Grammatical, Signed, Complete, Extract;
    ProbeIffGrammatical(rs);
    ProbeLength(EncodeAll(rs));
    if UnsignedBody(EncodeAll(rs)) && |EncodeAll(rs)| + 3 <= MAX_RAW_BYTES {
      RoundTripIff(EncodeAll(rs), [1]);
    }
  }

  lemma ProbeLength(unsigned: Bytes)
    ensures |AppendSignatureField(unsigned, [1])| == |unsigned| + 3
  {
    assert AppendTag(14, 2) == AppendVarint(0x72) && AppendVarint(0x72) == [0x72] && AppendVarint(1) == [1];
  }

  lemma SignedExtracts(lib: Library, packet: Packet, key: Key, signedAt: int, signature: Bytes)
    requires Faithful(lib, packet.(signature := [])) && signature != []
    requires SignProductionPacket(lib, packet, key, signedAt, Some(signature)).Ok?
    ensures Extract(SignProductionPacket(lib, packet, key, signedAt, Some(signature)).value)
         == Ok(Extracted(lib.marshal(packet.(signature := [])), signature))
  {
    hide Extract, AppendSignatureField, EncodeAll, Complete;
    var unsigned := lib.marshal(packet.(signature := []));
    var rs :| Complete(rs) && EncodeAll(rs) == unsigned;
    ProbeIffGrammatical(rs);
    assert UnsignedBody(unsigned);
    RoundTripIff(unsigned, signature);
  }

  /**
   Signing then verifying, with a trust store that pins the signer's key: the
   packet comes back unchanged exactly when tenant, sender and audience are the
   trusted ones and the clock is in the window.
   */
  lemma SignThenVerify(lib: Library, packet: Packet, key: Key, signedAt: int, signature: Bytes, trust: Trust, now: int)
    requires Faithful(lib, packet.(signature := [])) && signature != []
    requires SignProductionPacket(lib, packet, key, signedAt, Some(signature)).Ok?
    requires lib.verify(key, lib.hash(SigningInput(lib.marshal(packet.(signature := [])))), signature)
    requires PinnedKey(trust, packet.metadata.value.keyID) == Some(key)
    ensures var raw := SignProductionPacket(lib, packet, key, signedAt, Some(signature)).value;
            VerifyProductionPacket(lib, raw, trust, now) ==
              (if !ValidTrust(trust) then Err(TrustRequired)
               else if MetadataError(packet.metadata, trust, now).Some?
               then Err(MetadataError(packet.metadata, trust, now).value)
               else if packet.tenant != trust.tenant || packet.sender != trust.sender then Err(UnknownKeyID)
               else Ok(Verified(packet.(signature := signature), lib.hash(lib.marshal(packet.(signature := []))))))
    ensures packet.metadata.Some? && packet.metadata.value.expiresAt.Some?
    ensures MetadataError(packet.metadata, trust, now).None? <==>
            && WindowsFit(trust) && Timely(Expiry(packet.metadata.value), trust, now)
            && packet.metadata.value.audience == trust.audience
  {
    hide Extract, AppendSignatureField, ValidTrust;
    SignedExtracts(lib, packet, key, signedAt, signature);
  }

  /** With the default windows a signed packet verifies from the moment of signing until it expires. */
  lemma VerifiesUntilExpiry(
    lib: Library, packet: Packet, key: Key, signedAt: int, signature: Bytes, trust: Trust, now: int)
    requires Faithful(lib, packet.(signature := [])) && signature != []
    requires SignProductionPacket(lib, packet, key, signedAt, Some(signature)).Ok?
    requires lib.verify(key, lib.hash(SigningInput(lib.marshal(packet.(signature := [])))), signature)
    requires PinnedKey(trust, packet.metadata.value.keyID) == Some(key) && ValidTrust(trust)
    requires packet.tenant == trust.tenant && packet.sender == trust.sender
    requires packet.metadata.value.audience == trust.audience
    requires trust.maxLifetime == 0 && trust.clockSkew == 0 && signedAt <= now
    ensures var raw := SignProductionPacket(lib, packet, key, signedAt, Some(signature)).value;
            VerifyProductionPacket(lib, raw, trust, now).Ok? <==> now < packet.metadata.value.expiresAt.value.AsTime()
  {
    hide Extract, AppendSignatureField, ValidTrust, VerifyProductionPacket;
    SignThenVerify(lib, packet, key, signedAt, signature, trust, now);
  }

  /** A fresh signature over the same packet, or the record moved to another boundary, keeps the body digest. */
  lemma DigestIgnoresSignature(lib: Library, rs: seq<Record>, k: nat, l: nat, one: Bytes, other: Bytes)
    requires Grammatical(rs) && !Signed(rs) && k <= |rs| && l <= |rs| && one != [] && other != []
    requires |EncodeAll(rs) + SignatureRecord(one).Encode()| <= MAX_RAW_BYTES
    requires |EncodeAll(rs) + SignatureRecord(other).Encode()| <= MAX_RAW_BYTES
    ensures ProductionSignedBodyDigest(lib, EncodeAll(rs[..k]) + SignatureRecord(one).Encode() + EncodeAll(rs[k..]))
         == ProductionSignedBodyDigest(lib, EncodeAll(rs[..l]) + SignatureRecord(other).Encode() + EncodeAll(rs[l..]))
         == Ok(lib.hash(EncodeAll(rs)))
  {
    hide Extract, EncodeAll, Grammatical, Signed;
    PositionIndependence(rs, k, one);
    PositionIndependence(rs, l, other);
  }
}
