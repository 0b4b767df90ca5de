/**
 Signing and verifying CAP-PRODUCTION packets.

 The protobuf codec, SHA-256 and ECDSA come in as functions.  Signing is
 randomised, so the signature that the library drew is an argument of signing.
 */
module Production {
  import opened Bytes
  import opened Clock
  import opened Crypto
  import opened Text
  import opened Wire
  import opened WireSigning

  const PROFILE_VERSION := "cap-production-v1"
  const ALGORITHM := "ECDSA-P256-SHA256"
  const MAX_LIFETIME := 5 * MINUTE
  const MAX_CLOCK_SKEW := MINUTE
  const MESSAGE_ID_BYTES := 16

  const PRODUCTION_DOMAIN: Bytes := Ascii("CAP-PRODUCTION-SIGNATURE-V1") + [0]

  datatype Error =
    | MissingMetadata
    | MalformedWire
    | SignatureExpired
    | AudienceMismatch
    | UnknownKeyID
    | UnsupportedKey
    | TrustRequired
    | InvalidSignature
    | WireRejected(wire: WireError)
    | SigningFailed

  datatype Metadata = Metadata(
    profileVersion: string, algorithm: string, messageID: Bytes, audience: string,
    expiresAt: Option<Timestamp>, keyID: string)

  /** The parts of a bus packet that signing and verifying look at; `rest` is everything else. */
  datatype Packet = Packet(
    sender: string, tenant: string, metadata: Option<Metadata>, unknownFields: bool, rest: Bytes, signature: Bytes)

  datatype Library = Library(
    marshal: Packet -> Bytes,
    unmarshal: Bytes -> Option<Packet>,
    hash: Bytes -> Bytes,
    verify: (Key, Bytes, Bytes) -> bool)

  datatype Trust = Trust(
    audience: string, tenant: string, sender: string,
    publicKeys: map<string, Key>,
    resolveKey: Option<(string, string, string) -> Option<Key>>,
    maxLifetime: int, clockSkew: int)

  // ----------------------------------------------------------------- metadata

  function MetadataShape(m: Option<Metadata>): Option<Error>
  {
    if m.None? then Some(MissingMetadata)
    else
      var v := m.value;
      if v.profileVersion != PROFILE_VERSION || v.algorithm != ALGORITHM || |v.messageID| != MESSAGE_ID_BYTES
         || v.audience == "" || v.expiresAt.None? || v.keyID == ""
      then Some(MalformedWire)
      else if !v.expiresAt.value.Valid() then Some(MalformedWire)
      else None
  }

  function MetadataForSigning(m: Option<Metadata>, now: int): Option<Error>
  {
    var shape := MetadataShape(m);
    if shape.Some? then shape
    else
      var expires := m.value.expiresAt.value.AsTime();
      if expires <= now then Some(SignatureExpired)
      else if expires > now + MAX_LIFETIME then Some(MalformedWire)
      else None
  }

  function Lifetime(trust: Trust): int
  {
    if trust.maxLifetime == 0 then MAX_LIFETIME else trust.maxLifetime
  }

  predicate WindowsInBounds(trust: Trust)
  {
    && 0 <= Lifetime(trust) <= MAX_LIFETIME
    && 0 <= trust.clockSkew <= MAX_CLOCK_SKEW
    && trust.clockSkew <= Lifetime(trust)
  }

  function MetadataError(m: Option<Metadata>, trust: Trust, now: int): Option<Error>
  {
    var shape := MetadataShape(m);
    if shape.Some? then shape
    else if !WindowsInBounds(trust) then Some(MalformedWire)
    else
      var expires := m.value.expiresAt.value.AsTime();
      if expires <= now - trust.clockSkew then Some(SignatureExpired)
      else if expires > now + (Lifetime(trust) + trust.clockSkew) then Some(MalformedWire)
      else if m.value.audience != trust.audience then Some(AudienceMismatch)
      else None
  }

  // -------------------------------------------------------------------- trust

  predicate ValidAuthority(value: string)
  {
    value != "" && TrimSpace(value) == value
  }

  predicate ValidTrust(trust: Trust)
  {
    && ValidAuthority(trust.audience) && ValidAuthority(trust.tenant) && ValidAuthority(trust.sender)
    && (trust.resolveKey.Some? || trust.publicKeys != map[])
  }

  /** The key that local trust holds for the pinned tenant and sender under a key ID. */
  function PinnedKey(trust: Trust, keyID: string): Option<Key>
  {
    match trust.resolveKey
    case Some(resolve) => resolve(trust.tenant, trust.sender, keyID)
    case None => if keyID in trust.publicKeys then Some(trust.publicKeys[keyID]) else None
  }

  function ResolveKey(packet: Packet, keyID: string, trust: Trust): Result<Key, Error>
  {
    if packet.tenant != trust.tenant || packet.sender != trust.sender then Err(UnknownKeyID)
    else
      var found := match trust.resolveKey
                   case Some(resolve) => resolve(packet.tenant, packet.sender, keyID)
                   case None => if keyID in trust.publicKeys then Some(trust.publicKeys[keyID]) else None;
      if found.None? then Err(UnknownKeyID)
      else if !found.value.p256 then Err(UnsupportedKey)
      else Ok(found.value)
  }

  // --------------------------------------------------------------- operations

  function SigningInput(unsigned: Bytes): Bytes
  {
    PRODUCTION_DOMAIN + unsigned
  }

  function SignProductionPacket(
    lib: Library, packet: Packet, key: Key, now: int, drawn: Option<Bytes>): Result<Bytes, Error>
  {
    if !key.p256 then Err(UnsupportedKey)
    else
      var bad := MetadataForSigning(packet.metadata, now);
      if bad.Some? then Err(bad.value)
      else if packet.unknownFields then Err(MalformedWire)
      else
        var unsigned := lib.marshal(packet.(signature := []));
        match Extract(AppendSignatureField(unsigned, [1]))
        case Err(e) => Err(WireRejected(e))
        case Ok(_) =>
          match drawn
          case None => Err(SigningFailed)
          case Some(signature) =>
            var raw := AppendSignatureField(unsigned, signature);
            if |raw| > MAX_RAW_BYTES then Err(MalformedWire) else Ok(raw)
  }

  datatype Verified = Verified(packet: Packet, bodyDigest: Bytes)

  function VerifyProductionPacket(lib: Library, raw: Bytes, trust: Trust, now: int): Result<Verified, Error>
  {
    if !ValidTrust(trust) then Err(TrustRequired)
    else
      match Extract(raw)
      case Err(e) => Err(WireRejected(e))
      case Ok(Extracted(unsigned, signature)) =>
        var decoded := lib.unmarshal(unsigned);
        if decoded.None? || decoded.value.unknownFields then Err(MalformedWire)
        else
          var packet := decoded.value;
          var bad := MetadataError(packet.metadata, trust, now);
          if bad.Some? then Err(bad.value)
          else
            match ResolveKey(packet, packet.metadata.value.keyID, trust)
            case Err(e) => Err(e)
            case Ok(key) =>
              if !lib.verify(key, lib.hash(SigningInput(unsigned)), signature) then Err(InvalidSignature)
              else Ok(Verified(packet.(signature := signature), lib.hash(unsigned)))
  }

  function ProductionSignedBodyDigest(lib: Library, raw: Bytes): Result<Bytes, Error>
  {
    match Extract(raw)
    case Err(e) => Err(WireRejected(e))
    case Ok(e) => Ok(lib.hash(e.unsigned))
  }
}
