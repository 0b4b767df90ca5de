/**
 The worker side of the authenticated trust handshake: building the signed
 challenge request and authenticate packets, and verifying the scheduler's
 challenge and result.  Deterministic marshalling, SHA-256 and ECDSA come in as
 functions; the signature that signing drew is an argument of the builders.
 */
module Handshake {
  import opened Bytes
  import opened Clock
  import opened Crypto
  import opened Text

  const AUDIENCE := "cordum-scheduler"
  const VERSION := 1
  const NONCE_BYTES := 32
  const MAX_IDENTITY := 256
  const MAX_TOKEN := 16 * 1024
  const MAX_SKEW := MINUTE
  const MAX_CHALLENGE_LIFETIME := MINUTE

  const P256_SHA256 := 1
  const ISSUE := 1
  const RENEW := 2
  const WORKER_ROLE := 3
  const NO_REASON := 0

  datatype Error =
    | ConfigError
    | PacketError
    | BindingError
    | ExpiredError
    | ValidationError(field: string)
    | PayloadError
    | KeyIDError
    | KeyError
    | AlgorithmError
    | MissingSignatureError
    | InvalidSignatureError
    | SigningError
    | RejectedError(reason: int)

  // ----------------------------------------------------------------- messages

  datatype ChallengeRequest = ChallengeRequest(
    requestID: string, traceID: string, workerID: string, proofKeyID: string, proofAlgorithm: int,
    audience: string, purpose: int, clientNonce: Bytes, protocolVersion: int, sdkVersion: string)

  datatype Challenge = Challenge(
    requestID: string, challengeID: string, traceID: string, workerID: string, agentID: string,
    tenantID: string, proofKeyID: string, proofAlgorithm: int, serverKeyID: string, audience: string,
    purpose: int, clientNonce: Bytes, serverNonce: Bytes, protocolVersion: int, sdkVersion: string,
    issuedAt: Option<Timestamp>, expiresAt: Option<Timestamp>)

  datatype Capability = Capability(
    componentID: string, role: int, sdkVersion: string, supportedVersions: seq<int>,
    capabilities: map<string, bool>, readyTopics: seq<string>)

  datatype Authenticate = Authenticate(challenge: Option<Challenge>, capability: Option<Capability>)

  datatype HandshakeResult = HandshakeResult(
    challenge: Option<Challenge>, accepted: bool, reason: int,
    tokenExpiresAt: Option<Timestamp>, issuedAt: Option<Timestamp>)

  /** The oneof payload; a trust phase may be selected and still carry no message. */
  datatype Payload =
    | NotTrust
    | RequestPayload(request: Option<ChallengeRequest>)
    | ChallengePayload(challenge: Option<Challenge>)
    | AuthenticatePayload(authenticate: Option<Authenticate>)
    | ResultPayload(result: Option<HandshakeResult>)

  datatype Packet = Packet(
    traceID: string, senderID: string, createdAt: Option<Timestamp>, protocolVersion: int,
    authToken: string, unknownFields: bool, payload: Payload, signature: Bytes)

  /** A private key with its public part; `consistent` says that the scalar is in range and yields that part. */
  datatype PrivateKey = PrivateKey(public: Key, consistent: bool)

  datatype Config = Config(
    workerID: string, agentID: string, tenantID: string, audience: string, proofKeyID: string,
    proofKey: PrivateKey, schedulerID: string, schedulerKeys: map<string, Key>, sdkVersion: string)

  datatype Options = Options(requestID: string, traceID: string, purpose: int, clientNonce: Bytes, createdAt: int)

  datatype Session = Session(token: string, issuedAt: int, expiresAt: int)

  /** Marshalling fails with None. */
  datatype Library = Library(
    marshal: Packet -> Option<Bytes>,
    hash: Bytes -> Bytes,
    verify: (Key, Bytes, Bytes) -> bool)

  // ------------------------------------------------------------ configuration

  predicate Printable(s: string)
  {
    forall i :: 0 <= i < |s| ==> '\U{0021}' <= s[i] <= '\U{007E}'
  }

  /** canonicalTrustString. */
  predicate Canonical(s: string)
  {
    s != "" && s == TrimSpace(s) && |s| <= MAX_IDENTITY && Printable(s)
  }

  /** validSessionToken. */
  predicate ValidToken(s: string)
  {
    s != "" && s == TrimSpace(s) && |s| <= MAX_TOKEN && Printable(s)
  }

  predicate ValidPrivateKey(key: PrivateKey)
  {
    key.public.p256 && key.consistent
  }

  predicate ValidConfig(config: Config)
  {
    && Canonical(config.workerID) && Canonical(config.agentID) && Canonical(config.tenantID)
    && Canonical(config.audience) && Canonical(config.proofKeyID) && Canonical(config.schedulerID)
    && Canonical(config.sdkVersion)
    && config.audience == AUDIENCE
    && ValidPrivateKey(config.proofKey)
    && config.schedulerKeys != map[]
    && forall id :: id in config.schedulerKeys ==> Canonical(id) && config.schedulerKeys[id].p256
  }

  // ------------------------------------------------------------------ signing

  datatype Phase = RequestPhase | ChallengePhase | AuthenticatePhase | ResultPhase

  function Domain(phase: Phase): string
  {
    match phase
    case RequestPhase => "CAP-WORKER-HANDSHAKE-CHALLENGE-REQUEST-V1"
    case ChallengePhase => "CAP-WORKER-HANDSHAKE-CHALLENGE-V1"
    case AuthenticatePhase => "CAP-WORKER-HANDSHAKE-AUTHENTICATE-V1"
    case ResultPhase => "CAP-WORKER-HANDSHAKE-RESULT-V1"
  }

  /** SelectTrustHandshakePhase. */
  function SelectPhase(packet: Packet): Result<Phase, Error>
  {
    match packet.payload
    case RequestPayload(Some(_)) => Ok(RequestPhase)
    case ChallengePayload(Some(_)) => Ok(ChallengePhase)
    case AuthenticatePayload(Some(_)) => Ok(AuthenticatePhase)
    case ResultPayload(Some(_)) => Ok(ResultPhase)
    case _ => Err(PayloadError)
  }

  /** The key ID and proof algorithm that the signed payload names. */
  function KeyChoice(packet: Packet): Result<(string, int), Error>
  {
    match packet.payload
    case RequestPayload(Some(r)) => Ok((r.proofKeyID, r.proofAlgorithm))
    case ChallengePayload(Some(c)) => Ok((c.serverKeyID, c.proofAlgorithm))
    case AuthenticatePayload(Some(a)) =>
      if a.challenge.None? then Err(AlgorithmError)
      else Ok((a.challenge.value.proofKeyID, a.challenge.value.proofAlgorithm))
    case ResultPayload(Some(r)) =>
      if r.challenge.None? then Err(AlgorithmError)
      else Ok((r.challenge.value.serverKeyID, r.challenge.value.proofAlgorithm))
    case _ => Err(PayloadError)
  }

  /** trustHandshakeKeyID. */
  function KeyID(packet: Packet): Result<string, Error>
  {
    match KeyChoice(packet)
    case Err(e) => Err(e)
    case Ok((keyID, algorithm)) => if algorithm != P256_SHA256 then Err(AlgorithmError) else Ok(keyID)
  }

  function Frame(phase: Phase, unsigned: Bytes): Bytes
  {
    Ascii(Domain(phase)) + [0] + unsigned
  }

  function Cleared(packet: Packet): Packet
  {
    packet.(signature := [])
  }

  /** MarshalTrustHandshakeTranscript: domain, NUL, deterministic unsigned packet. */
  function Transcript(lib: Library, packet: Packet): Result<Bytes, Error>
  {
    if packet.unknownFields then Err(PacketError)
    else
      match SelectPhase(packet)
      case Err(e) => Err(e)
      case Ok(phase) =>
        match KeyID(packet)
        case Err(e) => Err(e)
        case Ok(_) =>
          match lib.marshal(Cleared(packet))
          case None => Err(PacketError)
          case Some(unsigned) => Ok(Frame(phase, unsigned))
  }

  /** SignTrustHandshake. */
  function Sign(lib: Library, packet: Packet, key: PrivateKey, drawn: Option<Bytes>): Result<Packet, Error>
  {
    match KeyID(packet)
    case Err(e) => Err(e)
    case Ok(keyID) =>
      if keyID == "" then Err(KeyIDError)
      else if !ValidPrivateKey(key) then Err(KeyError)
      else
        match Transcript(lib, packet)
        case Err(e) => Err(e)
        case Ok(_) =>
          if drawn.None? then Err(SigningError) else Ok(packet.(signature := drawn.value))
  }

  /** VerifyTrustHandshake. */
  function SignatureError(lib: Library, packet: Packet, keys: map<string, Key>): Option<Error>
  {
    match KeyID(packet)
    case Err(e) => Some(e)
    case Ok(keyID) =>
      if packet.signature == [] then Some(MissingSignatureError)
      else if keyID == "" || keyID !in keys then Some(KeyIDError)
      else if !keys[keyID].p256 then Some(KeyError)
      else
        match Transcript(lib, packet)
        case Err(e) => Some(e)
        case Ok(transcript) =>
          if lib.verify(keys[keyID], lib.hash(transcript), packet.signature) then None else Some(InvalidSignatureError)
  }

  // --------------------------------------------------------------- validation

  function CheckedTime(t: Option<Timestamp>): Option<int>
  {
    if t.Some? && t.value.Valid() then Some(t.value.AsTime()) else None
  }

  predicate Blank(s: string)
  {
    TrimSpace(s) == ""
  }

  predicate ValidPurpose(purpose: int)
  {
    purpose == ISSUE || purpose == RENEW
  }

  /** validateSessionForPurpose. */
  predicate SessionFits(purpose: int, token: string)
  {
    (purpose == ISSUE ==> token == "") && (purpose == RENEW ==> ValidToken(token))
  }

  predicate ValidRequest(packet: Packet, request: ChallengeRequest)
  {
    && !Blank(request.requestID) && !Blank(request.traceID) && !Blank(request.workerID)
    && !Blank(request.proofKeyID) && !Blank(request.audience) && !Blank(request.sdkVersion)
    && packet.traceID == request.traceID && packet.senderID == request.workerID
    && request.protocolVersion == VERSION && ValidPurpose(request.purpose)
    && request.proofAlgorithm == P256_SHA256 && |request.clientNonce| == NONCE_BYTES
    && packet.authToken == "" && packet.signature != []
  }

  predicate ValidTimes(challenge: Challenge)
  {
    var issued, expires := CheckedTime(challenge.issuedAt), CheckedTime(challenge.expiresAt);
    && issued.Some? && expires.Some?
    && expires.value > issued.value
    && Sub(expires.value, issued.value) <= MAX_CHALLENGE_LIFETIME
  }

  predicate ValidChallenge(packet: Packet, challenge: Challenge, topLevel: bool)
  {
    && !Blank(challenge.requestID) && !Blank(challenge.challengeID) && !Blank(challenge.traceID)
    && !Blank(challenge.workerID) && !Blank(challenge.agentID) && !Blank(challenge.tenantID)
    && !Blank(challenge.proofKeyID) && !Blank(challenge.serverKeyID) && !Blank(challenge.audience)
    && !Blank(challenge.sdkVersion)
    && packet.traceID == challenge.traceID
    && (topLevel ==> packet.authToken == "")
    && challenge.protocolVersion == VERSION && ValidPurpose(challenge.purpose)
    && challenge.proofAlgorithm == P256_SHA256
    && |challenge.clientNonce| == NONCE_BYTES && |challenge.serverNonce| == NONCE_BYTES
    && ValidTimes(challenge)
    && (topLevel ==> packet.signature != [])
  }

  /** The capability key pattern: a lower-case letter, then at most 63 of [a-z0-9_.-]. */
  predicate CapabilityKey(key: string)
  {
    && 1 <= |key| <= 64
    && 'a' <= key[0] <= 'z'
    && forall i :: 1 <= i < |key| ==>
         'a' <= key[i] <= 'z' || '0' <= key[i] <= '9' || key[i] == '_' || key[i] == '.' || key[i] == '-'
  }

  predicate ValidTopics(topics: seq<string>)
  {
    && (forall i :: 0 <= i < |topics| ==> !Blank(topics[i]))
    && (forall i, j :: 0 <= i < j < |topics| ==> topics[i] != topics[j])
  }

  /** The scan over the ready topics, with its set of topics already seen. */
  method CheckTopics(topics: seq<string>) returns (ok: bool)
    ensures ok <==> ValidTopics(topics)
  {
    var seen: set<string> := {};
    for i := 0 to |topics|
      invariant seen == set k | 0 <= k < i :: topics[k]
      invariant ValidTopics(topics[..i])
    {
      if TrimSpace(topics[i]) == "" {
        return false;
      }
      if topics[i] in seen {
        return false;
      }
      seen := seen + {topics[i]};
      assert topics[..i + 1] == topics[..i] + [topics[i]];
      assert forall k :: 0 <= k < i ==> topics[k] in seen;
    }
    assert topics[..|topics|] == topics;
    return true;
  }

  /** validateCapabilityShape. */
  predicate ValidCapability(capability: Capability, challenge: Challenge)
  {
    && capability.componentID == challenge.workerID
    && capability.role == WORKER_ROLE
    && capability.sdkVersion == challenge.sdkVersion
    && capability.supportedVersions == [VERSION]
    && (forall key :: key in capability.capabilities ==> capability.capabilities[key] && CapabilityKey(key))
    && ValidTopics(capability.readyTopics)
  }

  predicate ValidAuthenticate(packet: Packet, authenticate: Authenticate)
  {
    && authenticate.challenge.Some? && authenticate.capability.Some?
    && ValidChallenge(packet, authenticate.challenge.value, false)
    && packet.senderID == authenticate.challenge.value.workerID && packet.signature != []
    && ValidCapability(authenticate.capability.value, authenticate.challenge.value)
    && SessionFits(authenticate.challenge.value.purpose, packet.authToken)
  }

  predicate ValidResult(packet: Packet, result: HandshakeResult)
  {
    && result.challenge.Some? && packet.signature != []
    && ValidChallenge(packet, result.challenge.value, false)
    && CheckedTime(result.issuedAt).Some?
    && if result.accepted then
         && ValidToken(packet.authToken)
         && CheckedTime(result.tokenExpiresAt).Some?
         && CheckedTime(result.tokenExpiresAt).value > CheckedTime(result.issuedAt).value
         && result.reason == NO_REASON
       else
         packet.authToken == "" && 1 <= result.reason <= 9 && result.tokenExpiresAt.None?
  }

  /** ValidateWorkerTrustPacket, which includes the envelope checks of ValidateBusPacket. */
  predicate ValidPacket(packet: Packet)
  {
    && SelectPhase(packet).Ok?
    && packet.traceID != "" && packet.senderID != "" && packet.protocolVersion == VERSION
    && packet.createdAt.Some?
    && !packet.unknownFields
    && CheckedTime(packet.createdAt).Some?
    && match packet.payload
       case RequestPayload(Some(r)) => ValidRequest(packet, r)
       case ChallengePayload(Some(c)) => ValidChallenge(packet, c, true)
       case AuthenticatePayload(Some(a)) => ValidAuthenticate(packet, a)
       case ResultPayload(Some(r)) => ValidResult(packet, r)
       case _ => false
  }

  /** validateTimestampSkew. */
  predicate WithinSkew(t: Option<Timestamp>, now: int)
  {
    var checked := CheckedTime(t);
    checked.Some? && -MAX_SKEW <= Sub(checked.value, now) <= MAX_SKEW
  }

  // ------------------------------------------------------------------ builders

  function Envelope(traceID: string, senderID: string, createdAt: int, token: string, payload: Payload): Packet
  {
    Packet(traceID, senderID, Some(FromTime(createdAt)), VERSION, token, false, payload, [])
  }

  const ZERO_TIME := MIN_SECONDS * SECOND

  predicate ValidOptions(options: Options)
  {
    && Canonical(options.requestID) && Canonical(options.traceID)
    && ValidPurpose(options.purpose)
    && |options.clientNonce| == NONCE_BYTES
    && options.createdAt != ZERO_TIME
  }

  function RequestMessage(config: Config, options: Options): ChallengeRequest
  {
    ChallengeRequest(options.requestID, options.traceID, config.workerID, config.proofKeyID, P256_SHA256,
                     config.audience, options.purpose, options.clientNonce, VERSION, config.sdkVersion)
  }

  /** BuildWorkerHandshakeChallengeRequest. */
  function BuildRequest(lib: Library, config: Config, options: Options, drawn: Option<Bytes>): Result<Packet, Error>
  {
    if !ValidConfig(config) then Err(ConfigError)
    else if !ValidOptions(options) then Err(PacketError)
    else
      var payload := RequestPayload(Some(RequestMessage(config, options)));
      match Sign(lib, Envelope(options.traceID, config.workerID, options.createdAt, "", payload), config.proofKey,
            drawn)
      case Err(e) => Err(e)
      case Ok(packet) => if ValidPacket(packet) then Ok(packet) else Err(PacketError)
  }

  /** VerifiedWorkerHandshakeChallenge: only VerifyChallenge makes one. */
  datatype VerifiedChallenge = VerifiedChallenge(request: Packet, response: Packet)

  function ChallengeOf(packet: Packet): Option<Challenge>
  {
    if packet.payload.ChallengePayload? then packet.payload.challenge else None
  }

  predicate MatchesConfig(config: Config, challenge: Challenge)
  {
    && challenge.workerID == config.workerID && challenge.agentID == config.agentID
    && challenge.tenantID == config.tenantID && challenge.proofKeyID == config.proofKeyID
    && challenge.audience == config.audience && challenge.sdkVersion == config.sdkVersion
  }

  /** BuildWorkerHandshakeAuthenticate. */
  function BuildAuthenticate(
    lib: Library, config: Config, verified: VerifiedChallenge, capability: Option<Capability>,
    token: string, createdAt: int, drawn: Option<Bytes>): Result<Packet, Error>
  {
    if !ValidConfig(config) then Err(ConfigError)
    else
      match ChallengeOf(verified.response)
      case None => Err(BindingError)
      case Some(challenge) =>
        if !MatchesConfig(config, challenge) then Err(BindingError)
        else if capability.None? || !ValidCapability(capability.value, challenge)
        then Err(ValidationError("capability_handshake"))
        else if !SessionFits(challenge.purpose, token) then Err(PacketError)
        else if createdAt == ZERO_TIME then Err(PacketError)
        else
          var payload := AuthenticatePayload(Some(Authenticate(Some(challenge), capability)));
          match Sign(lib, Envelope(challenge.traceID, config.workerID, createdAt, token, payload), config.proofKey,
                drawn)
          case Err(e) => Err(e)
          case Ok(packet) => if ValidPacket(packet) then Ok(packet) else Err(PacketError)
  }

  // ----------------------------------------------------------------- verifiers

  /** validateSignedSchedulerPacket. */
  function SchedulerError(lib: Library, config: Config, packet: Packet, now: int): Option<Error>
  {
    if !ValidPacket(packet) then Some(PacketError)
    else if packet.senderID != config.schedulerID then Some(BindingError)
    else if !WithinSkew(packet.createdAt, now) then Some(ExpiredError)
    else if SignatureError(lib, packet, config.schedulerKeys).Some? then Some(PacketError)
    else None
  }

  /** correlateChallengeRequest. */
  predicate Correlates(config: Config, request: ChallengeRequest, challenge: Challenge)
  {
    && challenge.requestID == request.requestID && challenge.traceID == request.traceID
    && challenge.workerID == request.workerID && challenge.proofKeyID == request.proofKeyID
    && challenge.proofAlgorithm == request.proofAlgorithm && challenge.audience == request.audience
    && challenge.purpose == request.purpose && challenge.clientNonce == request.clientNonce
    && challenge.protocolVersion == request.protocolVersion && challenge.sdkVersion == request.sdkVersion
    && challenge.agentID == config.agentID && challenge.tenantID == config.tenantID
  }

  /** validateChallengeFreshness. */
  predicate Fresh(challenge: Challenge, now: int)
  {
    && WithinSkew(challenge.issuedAt, now)
    && CheckedTime(challenge.expiresAt).Some?
    && now < CheckedTime(challenge.expiresAt).value
  }

  function WorkerKeys(config: Config): map<string, Key>
  {
    map[config.proofKeyID := config.proofKey.public]
  }

  /** VerifyWorkerHandshakeChallenge. */
  function VerifyChallenge(
    lib: Library, config: Config, request: Packet, response: Packet, now: int): Result<VerifiedChallenge, Error>
  {
    if !ValidConfig(config) then Err(ConfigError)
    else if !ValidPacket(request) then Err(PacketError)
    else if !WithinSkew(request.createdAt, now) then Err(ExpiredError)
    else if SignatureError(lib, request, WorkerKeys(config)).Some? then Err(PacketError)
    else
      var bad := SchedulerError(lib, config, response, now);
      if bad.Some? then Err(bad.value)
      else
        var challenge := ChallengeOf(response);
        if !request.payload.RequestPayload? || request.payload.request.None? || challenge.None? then Err(BindingError)
        else if !Correlates(config, request.payload.request.value, challenge.value) then Err(BindingError)
        else if !Fresh(challenge.value, now) then Err(ExpiredError)
        else Ok(VerifiedChallenge(request, response))
  }

  function ResultOf(packet: Packet): Option<HandshakeResult>
  {
    if packet.payload.ResultPayload? then packet.payload.result else None
  }

  function EmbeddedChallenge(packet: Packet): Option<Challenge>
  {
    if packet.payload.AuthenticatePayload? && packet.payload.authenticate.Some?
    then packet.payload.authenticate.value.challenge else None
  }

  /** VerifyWorkerHandshakeResult. */
  function VerifyResult(
    lib: Library, config: Config, verified: VerifiedChallenge, authenticate: Packet, response: Packet, now: int):
    Result<Session, Error>
  {
    if !ValidConfig(config) then Err(ConfigError)
    else if !ValidPacket(authenticate) then Err(PacketError)
    else if SignatureError(lib, authenticate, WorkerKeys(config)).Some? then Err(PacketError)
    else
      var bad := SchedulerError(lib, config, response, now);
      if bad.Some? then Err(bad.value)
      else
        var want := ChallengeOf(verified.response);
        var result := ResultOf(response);
        if want.None? || result.None? || result.value.challenge != want || EmbeddedChallenge(authenticate) != want
        then Err(BindingError)
        else if !Fresh(want.value, now) then Err(ExpiredError)
        else if !WithinSkew(result.value.issuedAt, now) then Err(ExpiredError)
        else if !result.value.accepted then Err(RejectedError(result.value.reason))
        else
          var issued, expires := CheckedTime(result.value.issuedAt), CheckedTime(result.value.tokenExpiresAt);
          if expires.None? || expires.value <= now then Err(ExpiredError)
          else if want.value.purpose == RENEW && response.authToken == authenticate.authToken then Err(BindingError)
          else Ok(Session(response.authToken, issued.value, expires.value))
  }
}
