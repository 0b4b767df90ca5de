/**
 The handshake over whole runs of the worker, with arbitrary replies from the
 network: what a session proves, when an honest scheduler is accepted, how long a
 run can take, and that no reply or signature serves two purposes.
 */
module HandshakeProperties {
  import opened Bytes
  import opened Clock
  import opened Crypto
  import opened Text
  import opened Handshake
  import Production

  // ------------------------------------------------------------------ framing

  lemma DomainLength(phase: Phase)
    ensures |Domain(phase)| ==
            match phase
            case RequestPhase => 41
            case ChallengePhase => 33
            case AuthenticatePhase => 36
            case ResultPhase => 30
    ensures Domain(phase)[4] == 'W'
  {
  }

  /** A domain does not run into the NUL of a shorter one: it has a printable character where that one ends. */
  lemma DomainsDiverge(p: Phase, q: Phase)
    requires |Domain(p)| < |Domain(q)|
    ensures '-' <= Domain(q)[|Domain(p)|] <= 'Z'
  {
    DomainLength(p);
  }

  /** Transcripts are equal only for the same phase and the same unsigned bytes. */
  lemma FramesInjective(p: Phase, u: Bytes, q: Phase, v: Bytes)
    ensures Frame(p, u) == Frame(q, v) <==> p == q && u == v
  {
    hide Domain;
    DomainLength(p);
    DomainLength(q);
    if |Domain(p)| < |Domain(q)| {
      FramesDiffer(p, u, q, v);
    } else if |Domain(q)| < |Domain(p)| {
      FramesDiffer(q, v, p, u);
    } else {
      assert u == Frame(p, u)[|Domain(p)| + 1..] && v == Frame(q, v)[|Domain(q)| + 1..];
    }
  }

  lemma FramesDiffer(p: Phase, u: Bytes, q: Phase, v: Bytes)
    requires |Domain(p)| < |Domain(q)|
    ensures Frame(p, u) != Frame(q, v)
  {
    hide Domain;
    DomainsDiverge(p, q);
    assert Frame(p, u)[|Domain(p)|] == 0;
    assert Frame(q, v)[|Domain(p)|] == Ascii(Domain(q))[|Domain(p)|];
  }

  /** No handshake transcript is the signing input of a CAP-PRODUCTION packet. */
  lemma FramesAreNotProduction(phase: Phase, u: Bytes, unsigned: Bytes)
    ensures Frame(phase, u) != Production.SigningInput(unsigned)
  {
    hide Domain;
    DomainLength(phase);
    assert |Domain(phase)| > 4;
    assert Frame(phase, u)[4] == 'W' as int;
    var production := "CAP-PRODUCTION-SIGNATURE-V1";
    assert production[4] == 'P';
    assert Production.SigningInput(unsigned)[4] == Ascii(production)[4] == 'P' as int;
  }

  // --------------------------------------------------------------- signatures

  ghost predicate Ideal(lib: Library, signed: iset<(Key, Bytes)>)
  {
    CollisionFree(lib.hash) && Unforgeable(lib.hash, lib.verify, signed)
  }

  /** The holder of `key` signed this packet, without its signature, for this phase. */
  ghost predicate SignedFor(lib: Library, signed: iset<(Key, Bytes)>, key: Key, phase: Phase, packet: Packet)
  {
    && lib.marshal(Cleared(packet)).Some?
    && (key, Frame(phase, lib.marshal(Cleared(packet)).value)) in signed
  }

  lemma VerifiedIsSigned(lib: Library, signed: iset<(Key, Bytes)>, packet: Packet, keys: map<string, Key>)
    requires Ideal(lib, signed) && SignatureError(lib, packet, keys).None?
    ensures SelectPhase(packet).Ok? && KeyID(packet).Ok? && KeyID(packet).value in keys
    ensures SignedFor(lib, signed, keys[KeyID(packet).value], SelectPhase(packet).value, packet)
  {
  }

  // --------------------------------------------------------------- whole runs

  /** One run of the worker: its own inputs, and two replies that the network may choose freely. */
  datatype Run = Run(
    options: Options, requestDraw: Option<Bytes>,
    challengeReply: Packet, challengedAt: int,
    capability: Option<Capability>, token: string, authenticatedAt: int, authenticateDraw: Option<Bytes>,
    resultReply: Packet, resultAt: int)

  datatype Trace = Trace(request: Packet, verified: VerifiedChallenge, authenticate: Packet, session: Session)

  /** The four phases in order under one configuration. */
  function Play(lib: Library, config: Config, run: Run): Result<Trace, Error>
  {
    match BuildRequest(lib, config, run.options, run.requestDraw)
    case Err(e) => Err(e)
    case Ok(request) =>
      match VerifyChallenge(lib, config, request, run.challengeReply, run.challengedAt)
      case Err(e) => Err(e)
      case Ok(verified) =>
        match BuildAuthenticate(lib, config, verified, run.capability, run.token, run.authenticatedAt,
              run.authenticateDraw)
        case Err(e) => Err(e)
        case Ok(authenticate) =>
          match VerifyResult(lib, config, verified, authenticate, run.resultReply, run.resultAt)
          case Err(e) => Err(e)
          case Ok(session) => Ok(Trace(request, verified, authenticate, session))
  }

  /** The request a run sends carries its options and configuration. */
  lemma RequestCarriesOptions(lib: Library, config: Config, options: Options, drawn: Option<Bytes>)
    requires BuildRequest(lib, config, options, drawn).Ok?
    ensures var packet := BuildRequest(lib, config, options, drawn).value;
            && packet.payload == RequestPayload(Some(RequestMessage(config, options)))
            && packet.createdAt == Some(FromTime(options.createdAt))
            && packet.traceID == options.traceID && packet.senderID == config.workerID
  {
    hide ValidConfig, ValidOptions, ValidPacket, Transcript, KeyID;
  }

  lemma AuthenticateCarriesChallenge(
    lib: Library, config: Config, verified: VerifiedChallenge, capability: Option<Capability>,
    token: string, createdAt: int, drawn: Option<Bytes>)
    requires BuildAuthenticate(lib, config, verified, capability, token, createdAt, drawn).Ok?
    ensures ChallengeOf(verified.response).Some?
    ensures var packet := BuildAuthenticate(lib, config, verified, capability, token, createdAt, drawn).value;
            && EmbeddedChallenge(packet) == ChallengeOf(verified.response)
            && packet.authToken == token && packet.senderID == config.workerID
            && packet.traceID == ChallengeOf(verified.response).value.traceID
            && SessionFits(ChallengeOf(verified.response).value.purpose, token)
  {
    hide ValidConfig, ValidPacket, Transcript, KeyID, ValidCapability, SessionFits;
  }

  lemma SchedulerReplyIsSigned(lib: Library, signed: iset<(Key, Bytes)>, config: Config, packet: Packet, now: int)
    requires Ideal(lib, signed) && SchedulerError(lib, config, packet, now).None?
    ensures packet.senderID == config.schedulerID && ValidPacket(packet)
    ensures SelectPhase(packet).Ok? && KeyID(packet).Ok? && KeyID(packet).value in config.schedulerKeys
    ensures SignedFor(lib, signed, config.schedulerKeys[KeyID(packet).value], SelectPhase(packet).value, packet)
  {
    hide ValidPacket, Frame, SignatureError, Ideal, SignedFor;
    VerifiedIsSigned(lib, signed, packet, config.schedulerKeys);
  }

  /** An accepted challenge is the scheduler's signed answer to this very request. */
  lemma ChallengeIsBound(
    lib: Library, signed: iset<(Key, Bytes)>, config: Config, request: Packet, response: Packet, now: int)
    requires Ideal(lib, signed) && VerifyChallenge(lib, config, request, response, now).Ok?
    ensures request.payload.RequestPayload? && request.payload.request.Some? && ChallengeOf(response).Some?
    ensures var c := ChallengeOf(response).value;
            && Correlates(config, request.payload.request.value, c)
            && response.traceID == c.traceID && response.senderID == config.schedulerID
            && c.serverKeyID in config.schedulerKeys
            && SignedFor(lib, signed, config.schedulerKeys[c.serverKeyID], ChallengePhase, response)
            && Fresh(c, now) && ValidTimes(c) && WithinSkew(request.createdAt, now)
    ensures VerifyChallenge(lib, config, request, response, now).value == VerifiedChallenge(request, response)
  {
    hide ValidConfig, SignatureError, Ideal, SignedFor, Correlates, Fresh, WithinSkew, ValidTimes, Blank;
    SchedulerReplyIsSigned(lib, signed, config, response, now);
    assert ValidChallenge(response, ChallengeOf(response).value, true);
    assert KeyID(response).value == ChallengeOf(response).value.serverKeyID;
  }

  /** An accepted result is the scheduler's signed answer over the verified challenge. */
  lemma ResultIsBound(
    lib: Library, signed: iset<(Key, Bytes)>, config: Config, verified: VerifiedChallenge,
    authenticate: Packet, response: Packet, now: int)
    requires Ideal(lib, signed) && VerifyResult(lib, config, verified, authenticate, response, now).Ok?
    ensures ChallengeOf(verified.response).Some? && ResultOf(response).Some?
    ensures var c, r := ChallengeOf(verified.response).value, ResultOf(response).value;
            var session := VerifyResult(lib, config, verified, authenticate, response, now).value;
            && r.challenge == Some(c) && r.accepted
            && response.traceID == c.traceID && response.senderID == config.schedulerID
            && c.serverKeyID in config.schedulerKeys
            && SignedFor(lib, signed, config.schedulerKeys[c.serverKeyID], ResultPhase, response)
            && session.token == response.authToken && ValidToken(session.token)
            && CheckedTime(r.issuedAt) == Some(session.issuedAt) &&
               CheckedTime(r.tokenExpiresAt) == Some(session.expiresAt)
            && session.expiresAt > now && session.expiresAt > session.issuedAt
            && (c.purpose == RENEW ==> session.token != authenticate.authToken)
            && Fresh(c, now)
  {
    hide ValidConfig, SignatureError, Ideal, SignedFor, Fresh, WithinSkew, ValidTimes, Blank, ValidToken,
      ValidChallenge;
    SchedulerReplyIsSigned(lib, signed, config, response, now);
    var c, r := ChallengeOf(verified.response).value, ResultOf(response).value;
    assert ValidResult(response, r);
    assert KeyID(response).value == c.serverKeyID;
    ChallengeTrace(response, c);
  }

  lemma ChallengeTrace(packet: Packet, challenge: Challenge)
    ensures ValidChallenge(packet, challenge, false) ==> packet.traceID == challenge.traceID
  {
  }

  /**
   Soundness of whole runs.  Whatever the network replied, a session means that
   pinned scheduler keys signed, each for its own phase, a challenge that carries
   this run's request, nonce, purpose and identities and a result over exactly that
   challenge, all under one trace; the session has the token and the two times of that
   result; and the token is well formed, unexpired, and on renewal not the current one.
   */
  lemma SessionIsAuthentic(lib: Library, signed: iset<(Key, Bytes)>, config: Config, run: Run)
    requires Ideal(lib, signed) && Play(lib, config, run).Ok?
    ensures ChallengeOf(run.challengeReply).Some? && ResultOf(run.resultReply).Some?
    ensures var c := ChallengeOf(run.challengeReply).value;
            && c.requestID == run.options.requestID && c.traceID == run.options.traceID
            && c.clientNonce == run.options.clientNonce && c.purpose == run.options.purpose
            && c.workerID == config.workerID && c.proofKeyID == config.proofKeyID
            && c.agentID == config.agentID && c.tenantID == config.tenantID
            && c.audience == config.audience && c.sdkVersion == config.sdkVersion
            && c.serverKeyID in config.schedulerKeys
            && SignedFor(lib, signed, config.schedulerKeys[c.serverKeyID], ChallengePhase, run.challengeReply)
            && SignedFor(lib, signed, config.schedulerKeys[c.serverKeyID], ResultPhase, run.resultReply)
            && ResultOf(run.resultReply).value.challenge == Some(c) && ResultOf(run.resultReply).value.accepted
    ensures run.challengeReply.senderID == run.resultReply.senderID == config.schedulerID
    ensures run.challengeReply.traceID == run.resultReply.traceID == run.options.traceID
    ensures var session := Play(lib, config, run).value.session;
            && session.token == run.resultReply.authToken && ValidToken(session.token)
            && CheckedTime(ResultOf(run.resultReply).value.issuedAt) == Some(session.issuedAt)
            && CheckedTime(ResultOf(run.resultReply).value.tokenExpiresAt) == Some(session.expiresAt)
            && session.expiresAt > run.resultAt && session.expiresAt > session.issuedAt
            && (run.options.purpose == ISSUE ==> run.token == "")
            && (run.options.purpose == RENEW ==> ValidToken(run.token) && session.token != run.token)
  {
    hide VerifyChallenge, VerifyResult, BuildRequest, BuildAuthenticate, Ideal, SignedFor, ValidToken, Fresh;
    var t := Play(lib, config, run).value;
    RequestCarriesOptions(lib, config, run.options, run.requestDraw);
    ChallengeIsBound(lib, signed, config, t.request, run.challengeReply, run.challengedAt);
    AuthenticateCarriesChallenge(lib, config, t.verified, run.capability, run.token, run.authenticatedAt,
      run.authenticateDraw);
    ResultIsBound(lib, signed, config, t.verified, t.authenticate, run.resultReply, run.resultAt);
  }

  // ----------------------------------------------------------------- run time

  lemma SkewIsAbsolute(t: Option<Timestamp>, now: int)
    ensures WithinSkew(t, now) <==>
            CheckedTime(t).Some? && now - MAX_SKEW <= CheckedTime(t).value <= now + MAX_SKEW
  {
  }

  lemma ChallengeTimes(lib: Library, config: Config, request: Packet, response: Packet, now: int)
    requires VerifyChallenge(lib, config, request, response, now).Ok?
    ensures VerifyChallenge(lib, config, request, response, now).value == VerifiedChallenge(request, response)
    ensures ChallengeOf(response).Some? && ValidTimes(ChallengeOf(response).value)
    ensures Fresh(ChallengeOf(response).value, now) && WithinSkew(request.createdAt, now)
  {
    hide ValidConfig, SignatureError, Correlates, Fresh, WithinSkew, ValidTimes, Blank;
    assert ValidChallenge(response, ChallengeOf(response).value, true);
  }

  lemma ResultTimes(
    lib: Library, config: Config, verified: VerifiedChallenge, authenticate: Packet, response: Packet, now: int)
    requires VerifyResult(lib, config, verified, authenticate, response, now).Ok?
    ensures ChallengeOf(verified.response).Some? && Fresh(ChallengeOf(verified.response).value, now)
    ensures ResultOf(response).Some? && ResultOf(response).value.challenge == ChallengeOf(verified.response)
  {
    hide ValidConfig, ValidPacket, SignatureError, Fresh, WithinSkew;
  }

  /**
   Time bound.  In a run that yields a session the two checks lie less than 120
   seconds apart, and the result check less than 180 seconds from the creation time
   of the request, in either direction.
   */
  lemma RunsAreShort(lib: Library, config: Config, run: Run)
    requires Play(lib, config, run).Ok?
    ensures -2 * MINUTE < run.resultAt - run.challengedAt < 2 * MINUTE
    ensures -3 * MINUTE < run.resultAt - run.options.createdAt < 3 * MINUTE
  {
    hide VerifyChallenge, VerifyResult, BuildRequest, BuildAuthenticate;
    var t := Play(lib, config, run).value;
    RequestCarriesOptions(lib, config, run.options, run.requestDraw);
    TimestampRoundTrip(run.options.createdAt);
    ChallengeTimes(lib, config, t.request, run.challengeReply, run.challengedAt);
    ResultTimes(lib, config, t.verified, t.authenticate, run.resultReply, run.resultAt);
    var c := ChallengeOf(run.challengeReply).value;
    SkewIsAbsolute(t.request.createdAt, run.challengedAt);
    SkewIsAbsolute(c.issuedAt, run.challengedAt);
    SkewIsAbsolute(c.issuedAt, run.resultAt);
  }

  // ------------------------------------------------------------- no reply twice

  lemma ChallengeAnswersOptions(lib: Library, config: Config, run: Run)
    requires Play(lib, config, run).Ok?
    ensures ResultOf(run.resultReply).Some? && ResultOf(run.resultReply).value.challenge.Some?
    ensures var c := ResultOf(run.resultReply).value.challenge.value;
            && ChallengeOf(run.challengeReply) == Some(c)
            && c.requestID == run.options.requestID && c.traceID == run.options.traceID
            && c.clientNonce == run.options.clientNonce && c.purpose == run.options.purpose
  {
    hide VerifyResult, BuildRequest, BuildAuthenticate, ValidConfig, ValidPacket, SignatureError, SchedulerError;
    var t := Play(lib, config, run).value;
    RequestCarriesOptions(lib, config, run.options, run.requestDraw);
    ResultTimes(lib, config, t.verified, t.authenticate, run.resultReply, run.resultAt);
  }

  /** A scheduler reply that was accepted in two runs, in either phase, was accepted for the same request and nonce. */
  lemma RepliesServeOneRequest(lib: Library, config: Config, one: Run, other: Run)
    requires Play(lib, config, one).Ok? && Play(lib, config, other).Ok?
    requires one.challengeReply == other.challengeReply || one.resultReply == other.resultReply
    ensures one.options.requestID == other.options.requestID && one.options.traceID == other.options.traceID
    ensures one.options.clientNonce == other.options.clientNonce && one.options.purpose == other.options.purpose
  {
    hide Play;
    ChallengeAnswersOptions(lib, config, one);
    ChallengeAnswersOptions(lib, config, other);
  }

  // --------------------------------------------------------------- completeness

  lemma CanonicalIsNotBlank(s: string)
    requires Canonical(s)
    ensures !Blank(s) && s != ""
  {
  }

  /** The packet marshals, names a usable key, and carries a signature of that key. */
  predicate Authentic(lib: Library, key: Key, packet: Packet)
  {
    && packet.signature != []
    && Transcript(lib, packet).Ok?
    && lib.verify(key, lib.hash(Transcript(lib, packet).value), packet.signature)
  }

  /** A well-formed scheduler envelope around a payload. */
  predicate SchedulerEnvelope(config: Config, packet: Packet, traceID: string)
  {
    && packet.traceID == traceID && packet.senderID == config.schedulerID
    && CheckedTime(packet.createdAt).Some? && packet.protocolVersion == VERSION && !packet.unknownFields
  }

  /** What an honest scheduler answers to a request: it echoes it, adds its own part, and signs with a pinned key. */
  predicate HonestChallenge(lib: Library, config: Config, request: ChallengeRequest, reply: Packet)
  {
    && SchedulerEnvelope(config, reply, request.traceID) && reply.authToken == ""
    && ChallengeOf(reply).Some?
    && var c := ChallengeOf(reply).value;
       && Correlates(config, request, c)
       && !Blank(c.challengeID) && |c.serverNonce| == NONCE_BYTES && ValidTimes(c)
       && c.serverKeyID in config.schedulerKeys
       && Authentic(lib, config.schedulerKeys[c.serverKeyID], reply)
  }

  predicate HonestResult(lib: Library, config: Config, challenge: Challenge, current: string, reply: Packet)
  {
    && SchedulerEnvelope(config, reply, challenge.traceID) && ValidToken(reply.authToken)
    && ResultOf(reply).Some?
    && var r := ResultOf(reply).value;
       && r.challenge == Some(challenge) && r.accepted && r.reason == NO_REASON
       && CheckedTime(r.issuedAt).Some? && CheckedTime(r.tokenExpiresAt).Some?
       && CheckedTime(r.tokenExpiresAt).value > CheckedTime(r.issuedAt).value
       && (challenge.purpose == RENEW ==> reply.authToken != current)
       && challenge.serverKeyID in config.schedulerKeys
       && Authentic(lib, config.schedulerKeys[challenge.serverKeyID], reply)
  }

  lemma HonestChallengeIsValid(lib: Library, config: Config, options: Options, reply: Packet)
    requires ValidConfig(config) && ValidOptions(options)
    requires HonestChallenge(lib, config, RequestMessage(config, options), reply)
    ensures ValidPacket(reply) && ValidChallenge(reply, ChallengeOf(reply).value, false)
    ensures SignatureError(lib, reply, config.schedulerKeys).None?
    ensures MatchesConfig(config, ChallengeOf(reply).value)
  {
    hide Canonical, Blank, ValidTimes, Frame;
    var c := ChallengeOf(reply).value;
    CanonicalIsNotBlank(options.requestID);
    CanonicalIsNotBlank(options.traceID);
    CanonicalIsNotBlank(config.workerID);
    CanonicalIsNotBlank(config.agentID);
    CanonicalIsNotBlank(config.tenantID);
    CanonicalIsNotBlank(config.proofKeyID);
    CanonicalIsNotBlank(config.audience);
    CanonicalIsNotBlank(config.sdkVersion);
    CanonicalIsNotBlank(config.schedulerID);
    CanonicalIsNotBlank(c.serverKeyID);
  }

  lemma BuiltIsAuthentic(lib: Library, config: Config, packet: Packet)
    requires ValidConfig(config) && Authentic(lib, config.proofKey.public, packet)
    requires KeyID(packet) == Ok(config.proofKeyID)
    ensures SignatureError(lib, packet, WorkerKeys(config)).None?
  {
    hide Frame, Transcript;
    CanonicalIsNotBlank(config.proofKeyID);
  }

  lemma RequestNamesProofKey(lib: Library, config: Config, options: Options, drawn: Option<Bytes>)
    requires BuildRequest(lib, config, options, drawn).Ok?
    ensures var p := BuildRequest(lib, config, options, drawn).value;
            ValidConfig(config) && ValidOptions(options) && ValidPacket(p) && KeyID(p) == Ok(config.proofKeyID)
  {
    hide ValidConfig, ValidOptions, ValidPacket, Transcript;
    RequestCarriesOptions(lib, config, options, drawn);
  }

  /** An honest challenge is accepted exactly inside the time windows. */
  lemma HonestChallengeAccepted(
    lib: Library, config: Config, options: Options, drawn: Option<Bytes>, reply: Packet, now: int)
    requires BuildRequest(lib, config, options, drawn).Ok?
    requires Authentic(lib, config.proofKey.public, BuildRequest(lib, config, options, drawn).value)
    requires HonestChallenge(lib, config, RequestMessage(config, options), reply)
    ensures var request := BuildRequest(lib, config, options, drawn).value;
            VerifyChallenge(lib, config, request, reply, now) == Ok(VerifiedChallenge(request, reply)) <==>
            WithinSkew(request.createdAt, now) && WithinSkew(reply.createdAt, now) &&
              Fresh(ChallengeOf(reply).value, now)
    ensures MatchesConfig(config, ChallengeOf(reply).value)
  {
    hide ValidConfig, ValidOptions, ValidPacket, BuildRequest, Authentic, SignatureError, WithinSkew, Fresh, Correlates;
    RequestCarriesOptions(lib, config, options, drawn);
    RequestNamesProofKey(lib, config, options, drawn);
    BuiltIsAuthentic(lib, config, BuildRequest(lib, config, options, drawn).value);
    HonestChallengeIsValid(lib, config, options, reply);
  }

  /** The authenticate packet that a challenge calls for, with the signature drawn for it. */
  function AuthenticatePacket(
    config: Config, challenge: Challenge, capability: Capability, token: string, createdAt: int,
    signature: Bytes): Packet
  {
    var payload := AuthenticatePayload(Some(Authenticate(Some(challenge), Some(capability))));
    Envelope(challenge.traceID, config.workerID, createdAt, token, payload).(signature := signature)
  }

  lemma OnlyTheTraceMatters(p: Packet, q: Packet, challenge: Challenge)
    requires ValidChallenge(p, challenge, false) && p.traceID == q.traceID
    ensures ValidChallenge(q, challenge, false)
  {
  }

  lemma AuthenticateBuilds(
    lib: Library, config: Config, verified: VerifiedChallenge, challenge: Challenge, capability: Capability,
    token: string, createdAt: int, signature: Bytes)
    requires ValidConfig(config) && ChallengeOf(verified.response) == Some(challenge)
    requires ValidChallenge(verified.response, challenge, false) && MatchesConfig(config, challenge)
    requires ValidCapability(capability, challenge) && SessionFits(challenge.purpose, token)
    requires createdAt != ZERO_TIME && Representable(createdAt)
    requires Authentic(lib, config.proofKey.public,
             AuthenticatePacket(config, challenge, capability, token, createdAt, signature))
    ensures BuildAuthenticate(lib, config, verified, Some(capability), token, createdAt, Some(signature))
         == Ok(AuthenticatePacket(config, challenge, capability, token, createdAt, signature))
    ensures KeyID(AuthenticatePacket(config, challenge, capability, token, createdAt, signature)) ==
            Ok(config.proofKeyID)
  {
    hide ValidCapability, ValidTimes, Blank, Canonical, SessionFits, Frame;
    var packet := AuthenticatePacket(config, challenge, capability, token, createdAt, signature);
    TimestampRoundTrip(createdAt);
    CanonicalIsNotBlank(config.workerID);
    CanonicalIsNotBlank(config.proofKeyID);
    OnlyTheTraceMatters(verified.response, packet, challenge);
    NotBlankIsNotEmpty(challenge.traceID);
    UnsignedTranscript(lib, packet);
  }

  lemma NotBlankIsNotEmpty(s: string)
    ensures !Blank(s) ==> s != ""
  {
  }

  /** The transcript does not depend on the signature. */
  lemma UnsignedTranscript(lib: Library, packet: Packet)
    ensures Transcript(lib, packet) == Transcript(lib, Cleared(packet))
  {
    hide Frame;
  }

  lemma HonestResultIsValid(
    lib: Library, config: Config, challenge: Challenge, verified: Packet, current: string, reply: Packet)
    requires ValidConfig(config) && ValidChallenge(verified, challenge, false) && verified.traceID == challenge.traceID
    requires HonestResult(lib, config, challenge, current, reply)
    ensures ValidPacket(reply) && SignatureError(lib, reply, config.schedulerKeys).None?
  {
    hide Canonical, ValidTimes, Blank, ValidToken, Frame;
    CanonicalIsNotBlank(config.schedulerID);
    CanonicalIsNotBlank(challenge.serverKeyID);
    NotBlankIsNotEmpty(challenge.traceID);
    OnlyTheTraceMatters(verified, reply, challenge);
  }

  predicate ChallengeInTime(config: Config, run: Run, challenge: Challenge)
  {
    && WithinSkew(Some(FromTime(run.options.createdAt)), run.challengedAt)
    && WithinSkew(run.challengeReply.createdAt, run.challengedAt)
    && Fresh(challenge, run.challengedAt)
  }

  predicate ResultInTime(config: Config, run: Run, challenge: Challenge, result: HandshakeResult)
  {
    && WithinSkew(run.resultReply.createdAt, run.resultAt)
    && Fresh(challenge, run.resultAt)
    && WithinSkew(result.issuedAt, run.resultAt)
    && CheckedTime(result.tokenExpiresAt).Some? && run.resultAt < CheckedTime(result.tokenExpiresAt).value
  }

  /** Everything in the run is as an honest worker and an honest scheduler make it, times aside. */
  predicate Honest(lib: Library, config: Config, run: Run)
  {
    && BuildRequest(lib, config, run.options, run.requestDraw).Ok?
    && Authentic(lib, config.proofKey.public, BuildRequest(lib, config, run.options, run.requestDraw).value)
    && HonestChallenge(lib, config, RequestMessage(config, run.options), run.challengeReply)
    && var c := ChallengeOf(run.challengeReply).value;
       && run.capability.Some? && ValidCapability(run.capability.value, c) && SessionFits(c.purpose, run.token)
       && run.authenticatedAt != ZERO_TIME && Representable(run.authenticatedAt) && run.authenticateDraw.Some?
       && Authentic(lib, config.proofKey.public, AuthenticatePacket(
            config, c, run.capability.value, run.token, run.authenticatedAt, run.authenticateDraw.value))
       && HonestResult(lib, config, c, run.token, run.resultReply)
  }

  /** The session that a signed result grants: its token and its two times. */
  function SignedSession(reply: Packet): Session
  {
    match ResultOf(reply)
    case None => Session("", 0, 0)
    case Some(r) =>
      match (CheckedTime(r.issuedAt), CheckedTime(r.tokenExpiresAt))
      case (Some(issued), Some(expires)) => Session(reply.authToken, issued, expires)
      case _ => Session("", 0, 0)
  }

  lemma HonestResultAccepted(lib: Library, config: Config, run: Run, verified: VerifiedChallenge, authenticate: Packet)
    requires ValidConfig(config) && verified.response == run.challengeReply
    requires ChallengeOf(run.challengeReply).Some?
    requires ValidChallenge(run.challengeReply, ChallengeOf(run.challengeReply).value, false)
    requires HonestResult(lib, config, ChallengeOf(run.challengeReply).value, run.token, run.resultReply)
    requires ValidPacket(authenticate) && SignatureError(lib, authenticate, WorkerKeys(config)).None?
    requires EmbeddedChallenge(authenticate) == ChallengeOf(run.challengeReply) && authenticate.authToken == run.token
    ensures VerifyResult(lib, config, verified, authenticate, run.resultReply, run.resultAt).Ok? <==>
            ResultInTime(config, run, ChallengeOf(run.challengeReply).value, ResultOf(run.resultReply).value)
    ensures VerifyResult(lib, config, verified, authenticate, run.resultReply, run.resultAt).Ok? ==>
            VerifyResult(lib, config, verified, authenticate, run.resultReply, run.resultAt) ==
              Ok(SignedSession(run.resultReply))
  {
    hide ValidConfig, ValidPacket, SignatureError, WithinSkew, Fresh, ValidChallenge;
    var c := ChallengeOf(run.challengeReply).value;
    ChallengeTrace(run.challengeReply, c);
    HonestResultIsValid(lib, config, c, run.challengeReply, run.token, run.resultReply);
  }

  /**
   Completeness.  A run with an honest scheduler yields a session exactly when both
   checks fall inside the windows; and then the request, the challenge, the authenticate
   packet and the session are the ones that the configuration and the replies determine.
   */
  lemma HonestRunsSucceed(lib: Library, config: Config, run: Run)
    requires Honest(lib, config, run)
    ensures var c, r := ChallengeOf(run.challengeReply).value, ResultOf(run.resultReply).value;
            Play(lib, config, run).Ok? <==> ChallengeInTime(config, run, c) && ResultInTime(config, run, c, r)
    ensures Play(lib, config, run).Ok? ==>
            var request := BuildRequest(lib, config, run.options, run.requestDraw).value;
            var authenticate := AuthenticatePacket(
              config, ChallengeOf(run.challengeReply).value, run.capability.value, run.token, run.authenticatedAt,
              run.authenticateDraw.value);
            Play(lib, config, run)
            == Ok(Trace(request, VerifiedChallenge(request, run.challengeReply), authenticate,
              SignedSession(run.resultReply)))
  {
    assert ChallengeOf(run.challengeReply).Some?;
    hide BuildRequest, VerifyChallenge, BuildAuthenticate, VerifyResult, ValidConfig, ValidOptions, ValidPacket,
      Authentic,
      HonestChallenge, HonestResult, WithinSkew, Fresh, ValidChallenge, ValidCapability, SessionFits, MatchesConfig,
      SignatureError, ResultInTime;
    var c := ChallengeOf(run.challengeReply).value;
    RequestNamesProofKey(lib, config, run.options, run.requestDraw);
    RequestCarriesOptions(lib, config, run.options, run.requestDraw);
    HonestChallengeAccepted(lib, config, run.options, run.requestDraw, run.challengeReply, run.challengedAt);
    HonestChallengeIsValid(lib, config, run.options, run.challengeReply);
    var request := BuildRequest(lib, config, run.options, run.requestDraw).value;
    if VerifyChallenge(lib, config, request, run.challengeReply, run.challengedAt).Ok? {
      ChallengeTimes(lib, config, request, run.challengeReply, run.challengedAt);
      AuthenticateThenResult(lib, config, run, VerifiedChallenge(request, run.challengeReply), c);
    }
  }

  lemma AuthenticateThenResult(lib: Library, config: Config, run: Run, verified: VerifiedChallenge, c: Challenge)
    requires Honest(lib, config, run) && ValidConfig(config)
    requires verified.response == run.challengeReply && ChallengeOf(run.challengeReply) == Some(c)
    requires ValidChallenge(run.challengeReply, c, false) && MatchesConfig(config, c)
    ensures var built := BuildAuthenticate(
              lib, config, verified, run.capability, run.token, run.authenticatedAt, run.authenticateDraw);
            && built == Ok(AuthenticatePacket(
                 config, c, run.capability.value, run.token, run.authenticatedAt, run.authenticateDraw.value))
            && var answer := VerifyResult(lib, config, verified, built.value, run.resultReply, run.resultAt);
            && (answer.Ok? <==> ResultInTime(config, run, c, ResultOf(run.resultReply).value))
            && (answer.Ok? ==> answer == Ok(SignedSession(run.resultReply)))
  {
    hide BuildRequest, VerifyResult, ValidConfig, ValidPacket, Authentic, HonestChallenge, HonestResult, WithinSkew,
      Fresh,
      ValidChallenge, ValidCapability, SessionFits, MatchesConfig, SignatureError, ResultInTime, Sign;
    AuthenticateBuilds(lib, config, verified, c, run.capability.value, run.token, run.authenticatedAt,
      run.authenticateDraw.value);
    var packet :=
      AuthenticatePacket(config, c, run.capability.value, run.token, run.authenticatedAt, run.authenticateDraw.value);
    BuiltIsAuthentic(lib, config, packet);
    HonestResultAccepted(lib, config, run, verified, packet);
  }
}
