/**
 Exactly when each of the four steps of the worker succeeds, and with what: the
 conditions on every field, written out from the handshake's rules and not through the
 validators.
 */
module HandshakeExact {
  import opened Bytes
  import opened Clock
  import opened Crypto
  import opened Text
  import opened Handshake
  import opened HandshakeProperties

  // ------------------------------------------------------------------ vocabulary

  /** One to `limit` printable ASCII characters other than space. */
  predicate Word(s: string, limit: nat)
  {
    1 <= |s| <= limit && forall i :: 0 <= i < |s| ==> '!' <= s[i] <= '~'
  }

  /** Some character is not white space. */
  predicate Says(s: string)
  {
    exists i :: 0 <= i < |s| && !IsSpace(s[i])
  }

  /** The instant of a timestamp from year 1 to year 9999. */
  function Instant(t: Option<Timestamp>): Option<int>
  {
    if t.Some? && -62135596800 <= t.value.seconds <= 253402300799 && 0 <= t.value.nanos <= 999_999_999
    then Some(t.value.seconds * 1_000_000_000 + t.value.nanos) else None
  }

  predicate Near(t: Option<Timestamp>, now: int)
  {
    Instant(t).Some? && now - 60_000_000_000 <= Instant(t).value <= now + 60_000_000_000
  }

  lemma WordIff(s: string, limit: nat)
    ensures s != "" && s == TrimSpace(s) && |s| <= limit && Printable(s) <==> Word(s, limit)
  {
    if Word(s, limit) {
      TrimOfTight(s);
    }
  }

  lemma CanonicalIff(s: string)
    ensures Canonical(s) <==> Word(s, 256)
    ensures ValidToken(s) <==> Word(s, 16384)
  {
    hide TrimSpace, Printable, Word;
    WordIff(s, 256);
    WordIff(s, 16384);
  }

  lemma {:induction false} TrimLeftAll(s: string)
    ensures TrimLeft(s) == "" <==> !Says(s)
    ensures TrimLeft(s) != "" ==> !IsSpace(TrimLeft(s)[0])
  {
    hide IsSpace;
    if s != "" && IsSpace(s[0]) {
      TrimLeftAll(s[1..]);
      assert s == [s[0]] + s[1..];
      if Says(s) {
        var i :| 0 <= i < |s| && !IsSpace(s[i]);
        assert s[1..][i - 1] == s[i];
      }
    } else if s != "" {
      assert !IsSpace(s[0]);
    }
  }

  lemma {:induction false} TrimRightKeepsFirst(s: string)
    requires s != "" && !IsSpace(s[0])
    ensures TrimRight(s) != ""
  {
    hide IsSpace;
    if IsSpace(s[|s| - 1]) {
      TrimRightKeepsFirst(s[..|s| - 1]);
    }
  }

  lemma BlankIff(s: string)
    ensures Blank(s) <==> !Says(s)
  {
    hide IsSpace, Says;
    TrimLeftAll(s);
    if TrimLeft(s) != "" {
      TrimRightKeepsFirst(TrimLeft(s));
    }
  }

  lemma InstantIs(t: Option<Timestamp>, now: int)
    ensures CheckedTime(t) == Instant(t)
    ensures WithinSkew(t, now) <==> Near(t, now)
  {
  }

  /** The packet carries a signature, by this key, of its other bytes for this phase. */
  predicate SignedBy(lib: Library, key: Key, phase: Phase, packet: Packet)
  {
    && packet.signature != []
    && lib.marshal(packet.(signature := [])).Some?
    && lib.verify(key, lib.hash(Ascii(Domain(phase)) + [0] + lib.marshal(packet.(signature := [])).value),
       packet.signature)
  }

  // --------------------------------------------------------------- configuration

  predicate UsableConfig(config: Config)
  {
    && Word(config.workerID, 256) && Word(config.agentID, 256) && Word(config.tenantID, 256)
    && Word(config.proofKeyID, 256) && Word(config.schedulerID, 256) && Word(config.sdkVersion, 256)
    && config.audience == "cordum-scheduler"
    && config.proofKey.public.p256 && config.proofKey.consistent
    && (exists id :: id in config.schedulerKeys)
    && forall id :: id in config.schedulerKeys ==> Word(id, 256) && config.schedulerKeys[id].p256
  }

  lemma AudienceIsWord()
    ensures Word(AUDIENCE, 256)
  {
  }

  lemma ConfigIff(config: Config)
    ensures ValidConfig(config) <==> UsableConfig(config)
  {
    hide Canonical, Word;
    AudienceIsWord();
    CanonicalIff(config.workerID);
    CanonicalIff(config.agentID);
    CanonicalIff(config.tenantID);
    CanonicalIff(config.audience);
    CanonicalIff(config.proofKeyID);
    CanonicalIff(config.schedulerID);
    CanonicalIff(config.sdkVersion);
    forall id ensures Canonical(id) <==> Word(id, 256) {
      CanonicalIff(id);
    }
    if config.schedulerKeys != map[] {
      var id :| id in config.schedulerKeys;
    }
  }

  // --------------------------------------------------------------------- packets

  /** What every packet of the handshake has: names, version 1, a creation time, nothing unknown, a signature. */
  predicate Enveloped(p: Packet)
  {
    && p.traceID != "" && p.senderID != "" && p.protocolVersion == 1
    && Instant(p.createdAt).Some? && !p.unknownFields && p.signature != []
  }

  predicate GoodRequest(p: Packet, r: ChallengeRequest)
  {
    && Enveloped(p) && p.traceID == r.traceID && p.senderID == r.workerID && p.authToken == ""
    && Says(r.requestID) && Says(r.traceID) && Says(r.workerID) && Says(r.proofKeyID) && Says(r.audience)
    && Says(r.sdkVersion)
    && r.protocolVersion == 1 && (r.purpose == 1 || r.purpose == 2) && r.proofAlgorithm == 1 && |r.clientNonce| == 32
  }

  /** A challenge with all its names, nonces of 32 bytes, and a life of at most 60 seconds. */
  predicate GoodChallenge(c: Challenge)
  {
    && Says(c.requestID) && Says(c.challengeID) && Says(c.traceID) && Says(c.workerID) && Says(c.agentID)
    && Says(c.tenantID) && Says(c.proofKeyID) && Says(c.serverKeyID) && Says(c.audience) && Says(c.sdkVersion)
    && c.protocolVersion == 1 && (c.purpose == 1 || c.purpose == 2) && c.proofAlgorithm == 1
    && |c.clientNonce| == 32 && |c.serverNonce| == 32
    && Instant(c.issuedAt).Some? && Instant(c.expiresAt).Some?
    && Instant(c.issuedAt).value < Instant(c.expiresAt).value <= Instant(c.issuedAt).value + 60_000_000_000
  }

  /** A worker's capabilities for the challenge it answers. */
  predicate GoodCapability(a: Capability, c: Challenge)
  {
    && a.componentID == c.workerID && a.role == 3 && a.sdkVersion == c.sdkVersion && a.supportedVersions == [1]
    && (forall key :: key in a.capabilities ==> a.capabilities[key] && GoodKey(key))
    && (forall i :: 0 <= i < |a.readyTopics| ==> Says(a.readyTopics[i]))
    && (forall i, j :: 0 <= i < j < |a.readyTopics| ==> a.readyTopics[i] != a.readyTopics[j])
  }

  /** A lower-case letter and at most 63 lower-case letters, digits, dots, hyphens and underscores. */
  predicate GoodKey(key: string)
  {
    && 0 < |key| < 65 && 'a' <= key[0] <= 'z'
    && forall i :: 0 < i < |key| ==> 'a' <= key[i] <= 'z' || '0' <= key[i] <= '9' || key[i] in ['.', '-', '_']
  }

  predicate FitsPurpose(purpose: int, token: string)
  {
    if purpose == 1 then token == "" else if purpose == 2 then Word(token, 16384) else true
  }

  predicate GoodAuthenticate(p: Packet, c: Challenge, a: Capability)
  {
    && Enveloped(p) && p.traceID == c.traceID && p.senderID == c.workerID
    && GoodChallenge(c) && GoodCapability(a, c) && FitsPurpose(c.purpose, p.authToken)
  }

  predicate GoodResult(p: Packet, r: HandshakeResult, c: Challenge)
  {
    && Enveloped(p) && p.traceID == c.traceID && GoodChallenge(c)
    && Instant(r.issuedAt).Some?
    && if r.accepted then
         && Word(p.authToken, 16384) && r.reason == 0
         && Instant(r.tokenExpiresAt).Some? && Instant(r.tokenExpiresAt).value > Instant(r.issuedAt).value
       else p.authToken == "" && r.tokenExpiresAt.None? && r.reason in [1, 2, 3, 4, 5, 6, 7, 8, 9]
  }

  lemma ChallengeIff(p: Packet, c: Challenge, topLevel: bool)
    ensures ValidChallenge(p, c, topLevel) <==>
            GoodChallenge(c) && p.traceID == c.traceID && (topLevel ==> p.authToken == "" && p.signature != [])
  {
    hide Blank, Says;
    BlankIff(c.requestID);
    BlankIff(c.challengeID);
    BlankIff(c.traceID);
    BlankIff(c.workerID);
    BlankIff(c.agentID);
    BlankIff(c.tenantID);
    BlankIff(c.proofKeyID);
    BlankIff(c.serverKeyID);
    BlankIff(c.audience);
    BlankIff(c.sdkVersion);
  }

  lemma CapabilityIff(a: Capability, c: Challenge)
    ensures ValidCapability(a, c) <==> GoodCapability(a, c)
  {
    hide Blank, Says;
    forall i | 0 <= i < |a.readyTopics| ensures Blank(a.readyTopics[i]) <==> !Says(a.readyTopics[i]) {
      BlankIff(a.readyTopics[i]);
    }
    forall key ensures CapabilityKey(key) <==> GoodKey(key) {
      KeyIff(key);
    }
  }

  lemma KeyIff(key: string)
    ensures CapabilityKey(key) <==> GoodKey(key)
  {
  }

  lemma RequestIff(p: Packet, r: ChallengeRequest)
    requires p.payload == RequestPayload(Some(r))
    ensures ValidPacket(p) <==> GoodRequest(p, r)
  {
    hide Blank, Says;
    BlankIff(r.requestID);
    BlankIff(r.traceID);
    BlankIff(r.workerID);
    BlankIff(r.proofKeyID);
    BlankIff(r.audience);
    BlankIff(r.sdkVersion);
  }

  lemma TopChallengeIff(p: Packet, c: Challenge)
    requires p.payload == ChallengePayload(Some(c))
    ensures ValidPacket(p) <==> Enveloped(p) && GoodChallenge(c) && p.traceID == c.traceID && p.authToken == ""
  {
    hide ValidChallenge, GoodChallenge;
    ChallengeIff(p, c, true);
  }

  lemma AuthenticateIff(p: Packet, c: Challenge, a: Capability)
    requires p.payload == AuthenticatePayload(Some(Authenticate(Some(c), Some(a))))
    ensures ValidPacket(p) <==> GoodAuthenticate(p, c, a)
  {
    hide ValidChallenge, GoodChallenge, ValidCapability, GoodCapability, ValidToken, Word;
    ChallengeIff(p, c, false);
    CapabilityIff(a, c);
    CanonicalIff(p.authToken);
    PurposeOfGood(c);
  }

  lemma PurposeOfGood(c: Challenge)
    ensures GoodChallenge(c) ==> c.purpose == 1 || c.purpose == 2
  {
  }

  lemma ResultIff(p: Packet, r: HandshakeResult, c: Challenge)
    requires p.payload == ResultPayload(Some(r)) && r.challenge == Some(c)
    ensures ValidPacket(p) <==> GoodResult(p, r, c)
  {
    hide ValidChallenge, GoodChallenge, ValidToken, Word;
    ChallengeIff(p, c, false);
    CanonicalIff(p.authToken);
  }

  // ------------------------------------------------------------------- signatures

  lemma SignatureIff(lib: Library, p: Packet, keys: map<string, Key>, phase: Phase, keyID: string)
    requires SelectPhase(p) == Ok(phase) && KeyID(p) == Ok(keyID) && !p.unknownFields
    ensures SignatureError(lib, p, keys).None? <==>
            keyID != "" && keyID in keys && keys[keyID].p256 && SignedBy(lib, keys[keyID], phase, p)
  {
    hide Domain;
  }

  // ---------------------------------------------------------------- the four steps

  /** The request of a configuration and options, with every field. */
  function RequestPacket(config: Config, options: Options, signature: Bytes): Packet
  {
    Packet(options.traceID, config.workerID, Some(FromTime(options.createdAt)), 1, "", false,
           RequestPayload(Some(ChallengeRequest(
             options.requestID, options.traceID, config.workerID, config.proofKeyID, 1, config.audience,
             options.purpose, options.clientNonce, 1, config.sdkVersion))),
           signature)
  }

  /** The instants that a timestamp can hold, but for the zero time, which stands for none. */
  predicate Datable(t: int)
  {
    -62135596800 * 1_000_000_000 < t < 253402300800 * 1_000_000_000
  }

  /**
   Building the request succeeds exactly for a usable configuration, words as request
   and trace IDs, a purpose, a 32-byte nonce, a creation time that a timestamp can hold,
   and a signature drawn for a packet that marshals; and it yields that packet.
   */
  lemma BuildRequestIff(lib: Library, config: Config, options: Options, drawn: Option<Bytes>)
    ensures var built := BuildRequest(lib, config, options, drawn);
            && (built.Ok? <==>
                && UsableConfig(config)
                && Word(options.requestID, 256) && Word(options.traceID, 256)
                && (options.purpose == 1 || options.purpose == 2) && |options.clientNonce| == 32
                && Datable(options.createdAt)
                && drawn.Some? && drawn.value != []
                && lib.marshal(RequestPacket(config, options, [])).Some?)
            && (built.Ok? ==> built == Ok(RequestPacket(config, options, drawn.value)))
  {
    hide ValidConfig, UsableConfig, Canonical, Word, ValidPacket, GoodRequest, Domain, Frame;
    ConfigIff(config);
    CanonicalIff(options.requestID);
    CanonicalIff(options.traceID);
    TimestampRoundTrip(options.createdAt);
    var bare := RequestPacket(config, options, []);
    var message := bare.payload.request.value;
    assert message == RequestMessage(config, options);
    if drawn.Some? {
      var signed := RequestPacket(config, options, drawn.value);
      RequestIff(signed, message);
      if UsableConfig(config) && Word(options.requestID, 256) && Word(options.traceID, 256) {
        WordsSay(config, options);
        GoodRequestIff(config, options, drawn.value);
      }
    }
    if UsableConfig(config) {
      ProofKeyIsWord(config);
    }
  }

  lemma ProofKeyIsWord(config: Config)
    requires UsableConfig(config)
    ensures config.proofKeyID != "" && ValidPrivateKey(config.proofKey) && config.audience == AUDIENCE
  {
  }

  lemma WordSays(s: string, limit: nat)
    requires Word(s, limit)
    ensures Says(s) && s != ""
  {
    assert !IsSpace(s[0]);
  }

  lemma WordsSay(config: Config, options: Options)
    requires UsableConfig(config) && Word(options.requestID, 256) && Word(options.traceID, 256)
    ensures Says(config.workerID) && Says(config.proofKeyID) && Says(config.audience) && Says(config.sdkVersion)
    ensures Says(options.requestID) && Says(options.traceID) && options.traceID != "" && config.workerID != ""
  {
    hide Word, Says;
    AudienceIsWord();
    WordSays(config.workerID, 256);
    WordSays(config.proofKeyID, 256);
    WordSays(config.audience, 256);
    WordSays(config.sdkVersion, 256);
    WordSays(options.requestID, 256);
    WordSays(options.traceID, 256);
  }

  lemma GoodRequestIff(config: Config, options: Options, signature: Bytes)
    requires Says(config.workerID) && Says(config.proofKeyID) && Says(config.audience) && Says(config.sdkVersion)
    requires Says(options.requestID) && Says(options.traceID) && options.traceID != "" && config.workerID != ""
    ensures var p := RequestPacket(config, options, signature);
            GoodRequest(p, p.payload.request.value) <==>
            && signature != [] && (options.purpose == 1 || options.purpose == 2) && |options.clientNonce| == 32
            && -62135596800 * 1_000_000_000 <= options.createdAt < 253402300800 * 1_000_000_000
  {
    hide Says;
    TimestampRoundTrip(options.createdAt);
  }

  /** The challenge repeats the request, and names the worker's agent and tenant. */
  predicate Answers(config: Config, r: ChallengeRequest, c: Challenge)
  {
    && c.requestID == r.requestID && c.traceID == r.traceID && c.workerID == r.workerID
    && c.proofKeyID == r.proofKeyID && c.proofAlgorithm == r.proofAlgorithm && c.audience == r.audience
    && c.purpose == r.purpose && c.clientNonce == r.clientNonce && c.protocolVersion == r.protocolVersion
    && c.sdkVersion == r.sdkVersion && c.agentID == config.agentID && c.tenantID == config.tenantID
  }

  /** Issued within a minute of now, and not yet expired. */
  predicate Live(c: Challenge, now: int)
  {
    Near(c.issuedAt, now) && Instant(c.expiresAt).Some? && now < Instant(c.expiresAt).value
  }

  /** A reply of the configured scheduler: sent within a minute of now and signed with the pinned key it names. */
  predicate FromScheduler(lib: Library, config: Config, p: Packet, phase: Phase, keyID: string, now: int)
  {
    && p.senderID == config.schedulerID && Near(p.createdAt, now)
    && keyID in config.schedulerKeys && SignedBy(lib, config.schedulerKeys[keyID], phase, p)
  }

  /** The worker's own packet: signed with its proof key, under the name it has for it. */
  predicate Own(lib: Library, config: Config, p: Packet, phase: Phase, keyID: string)
  {
    keyID == config.proofKeyID && SignedBy(lib, config.proofKey.public, phase, p)
  }

  lemma OwnIff(lib: Library, config: Config, p: Packet, phase: Phase, keyID: string)
    requires UsableConfig(config) && SelectPhase(p) == Ok(phase) && KeyID(p) == Ok(keyID) && !p.unknownFields
    ensures SignatureError(lib, p, WorkerKeys(config)).None? <==> Own(lib, config, p, phase, keyID)
  {
    hide SignatureError, SignedBy, Word;
    SignatureIff(lib, p, WorkerKeys(config), phase, keyID);
    ProofKeyIsWord(config);
  }

  lemma SchedulerIff(lib: Library, config: Config, p: Packet, phase: Phase, keyID: string, now: int)
    requires UsableConfig(config) && SelectPhase(p) == Ok(phase) && KeyID(p) == Ok(keyID) && ValidPacket(p)
    ensures SchedulerError(lib, config, p, now).None? <==> FromScheduler(lib, config, p, phase, keyID, now)
  {
    hide SignatureError, SignedBy, Word, WithinSkew, Near;
    assert !p.unknownFields;
    SignatureIff(lib, p, config.schedulerKeys, phase, keyID);
    InstantIs(p.createdAt, now);
    if keyID in config.schedulerKeys {
      WordSays(keyID, 256);
    }
  }

  predicate ChallengeAccepted(lib: Library, config: Config, request: Packet, response: Packet, now: int)
  {
    && UsableConfig(config)
    && request.payload.RequestPayload? && request.payload.request.Some? && ChallengeOf(response).Some?
    && var r, c := request.payload.request.value, ChallengeOf(response).value;
       && GoodRequest(request, r) && Near(request.createdAt, now)
       && Own(lib, config, request, RequestPhase, r.proofKeyID)
       && Enveloped(response) && GoodChallenge(c) && response.traceID == c.traceID && response.authToken == ""
       && FromScheduler(lib, config, response, ChallengePhase, c.serverKeyID, now)
       && Answers(config, r, c) && Live(c, now)
  }

  /**
   The challenge check accepts exactly a good reply of the scheduler that answers the
   worker's own good request in time.
   */
  lemma ChallengeAcceptedIff(lib: Library, config: Config, request: Packet, response: Packet, now: int)
    ensures var answer := VerifyChallenge(lib, config, request, response, now);
            && (answer.Ok? <==> ChallengeAccepted(lib, config, request, response, now))
            && (answer.Ok? ==> answer == Ok(VerifiedChallenge(request, response)))
  {
    hide ValidConfig, UsableConfig, ValidPacket, GoodRequest, GoodChallenge, SignatureError, SchedulerError,
      WithinSkew, Near, FromScheduler, Own, Enveloped;
    ConfigIff(config);
    InstantIs(request.createdAt, now);
    if UsableConfig(config) && request.payload.RequestPayload? && request.payload.request.Some? &&
       ChallengeOf(response).Some? {
      var r, c := request.payload.request.value, ChallengeOf(response).value;
      RequestIff(request, r);
      TopChallengeIff(response, c);
      InstantIs(c.issuedAt, now);
      InstantIs(c.expiresAt, now);
      if GoodRequest(request, r) {
        RequestKey(request, r);
        OwnIff(lib, config, request, RequestPhase, r.proofKeyID);
      }
      if Enveloped(response) && GoodChallenge(c) && response.traceID == c.traceID && response.authToken == "" {
        ChallengeKey(response, c);
        SchedulerIff(lib, config, response, ChallengePhase, c.serverKeyID, now);
      }
      if SchedulerError(lib, config, response, now).None? {
        SchedulerIsValid(lib, config, response, now);
      }
    }
  }

  lemma SchedulerIsValid(lib: Library, config: Config, p: Packet, now: int)
    requires SchedulerError(lib, config, p, now).None?
    ensures ValidPacket(p)
  {
    hide ValidPacket, SignatureError, WithinSkew;
  }

  lemma RequestKey(p: Packet, r: ChallengeRequest)
    requires p.payload == RequestPayload(Some(r)) && GoodRequest(p, r)
    ensures SelectPhase(p) == Ok(RequestPhase) && KeyID(p) == Ok(r.proofKeyID) && !p.unknownFields
  {
  }

  lemma ChallengeKey(p: Packet, c: Challenge)
    requires p.payload == ChallengePayload(Some(c)) && GoodChallenge(c)
    ensures SelectPhase(p) == Ok(ChallengePhase) && KeyID(p) == Ok(c.serverKeyID)
  {
  }

  /**
   Building the authenticate packet succeeds exactly for a usable configuration, a good
   challenge for this worker, good capabilities, a session token that fits the purpose, a
   creation time, and a signature drawn for a packet that marshals; and it yields that
   packet, around that challenge and those capabilities.
   */
  lemma BuildAuthenticateIff(
    lib: Library, config: Config, verified: VerifiedChallenge, capability: Option<Capability>,
    token: string, createdAt: int, drawn: Option<Bytes>)
    ensures var built := BuildAuthenticate(lib, config, verified, capability, token, createdAt, drawn);
            && (built.Ok? <==>
                && UsableConfig(config) && ChallengeOf(verified.response).Some? && capability.Some?
                && var c := ChallengeOf(verified.response).value;
                && c.workerID == config.workerID && c.agentID == config.agentID && c.tenantID == config.tenantID
                && c.proofKeyID == config.proofKeyID && c.audience == config.audience &&
                   c.sdkVersion == config.sdkVersion
                && GoodChallenge(c) && GoodCapability(capability.value, c) && FitsPurpose(c.purpose, token)
                && Datable(createdAt) && drawn.Some? && drawn.value != []
                && lib.marshal(AuthenticatePacket(config, c, capability.value, token, createdAt, [])).Some?)
            && (built.Ok? ==>
                ChallengeOf(verified.response).Some? && capability.Some? && drawn.Some? &&
                built == Ok(AuthenticatePacket(
                  config, ChallengeOf(verified.response).value, capability.value, token, createdAt, drawn.value)))
  {
    hide ValidConfig, UsableConfig, ValidPacket, GoodAuthenticate, GoodChallenge, GoodCapability, ValidCapability,
      ValidToken, Word, Domain, Frame, FitsPurpose, SessionFits;
    ConfigIff(config);
    TimestampRoundTrip(createdAt);
    if UsableConfig(config) && ChallengeOf(verified.response).Some? && capability.Some? {
      var c, a := ChallengeOf(verified.response).value, capability.value;
      ProofKeyIsWord(config);
      WorkerIsWord(config);
      CapabilityIff(a, c);
      FitsIff(c, token);
      if drawn.Some? {
        var signed := AuthenticatePacket(config, c, a, token, createdAt, drawn.value);
        AuthenticateIff(signed, c, a);
        GoodAuthenticateIff(config, c, a, token, createdAt, drawn.value);
      }
      BadAlgorithm(c);
    }
  }

  lemma BadAlgorithm(c: Challenge)
    ensures GoodChallenge(c) ==> c.proofAlgorithm == P256_SHA256 && c.traceID != ""
  {
  }

  lemma WorkerIsWord(config: Config)
    requires UsableConfig(config)
    ensures config.workerID != ""
  {
  }

  lemma FitsIff(c: Challenge, token: string)
    ensures SessionFits(c.purpose, token) <==> FitsPurpose(c.purpose, token)
  {
    hide ValidToken, Word;
    CanonicalIff(token);
  }

  lemma GoodAuthenticateIff(
    config: Config, c: Challenge, a: Capability, token: string, createdAt: int, signature: Bytes)
    requires config.workerID != ""
    ensures GoodAuthenticate(AuthenticatePacket(config, c, a, token, createdAt, signature), c, a) <==>
            && signature != [] && GoodChallenge(c) && GoodCapability(a, c) && FitsPurpose(c.purpose, token)
            && c.workerID == config.workerID
            && -62135596800 * 1_000_000_000 <= createdAt < 253402300800 * 1_000_000_000
  {
    hide GoodChallenge, GoodCapability, FitsPurpose;
    TimestampRoundTrip(createdAt);
    BadAlgorithm(c);
  }

  /** Everything about a result reply and the worker's own packet but whether it was accepted, and its token. */
  predicate ResultBound(
    lib: Library, config: Config, verified: VerifiedChallenge, authenticate: Packet, response: Packet, now: int)
  {
    && UsableConfig(config)
    && ChallengeOf(verified.response).Some? && ResultOf(response).Some?
    && authenticate.payload.AuthenticatePayload? && authenticate.payload.authenticate.Some?
    && var c, r, a :=
       ChallengeOf(verified.response).value, ResultOf(response).value, authenticate.payload.authenticate.value;
       && a.challenge == Some(c) && a.capability.Some? && GoodAuthenticate(authenticate, c, a.capability.value)
       && Own(lib, config, authenticate, AuthenticatePhase, c.proofKeyID)
       && r.challenge == Some(c) && GoodResult(response, r, c)
       && FromScheduler(lib, config, response, ResultPhase, c.serverKeyID, now)
       && Live(c, now) && Near(r.issuedAt, now)
  }

  /**
   The result check yields a session exactly for a good, accepted reply of the scheduler
   over the verified challenge, in time, with a token that is new on renewal; the session
   has that token and the two times of the reply.  It reports the scheduler's reason
   exactly for such a reply that is not accepted.
   */
  lemma SessionIff(
    lib: Library, config: Config, verified: VerifiedChallenge, authenticate: Packet, response: Packet, now: int)
    ensures var answer := VerifyResult(lib, config, verified, authenticate, response, now);
            && (answer.Ok? <==>
                && ResultBound(lib, config, verified, authenticate, response, now)
                && var c, r := ChallengeOf(verified.response).value, ResultOf(response).value;
                && r.accepted && now < Instant(r.tokenExpiresAt).value
                && (c.purpose == 2 ==> response.authToken != authenticate.authToken))
            && (answer.Ok? ==>
                && ResultOf(response).Some?
                && var r := ResultOf(response).value;
                && Instant(r.issuedAt).Some? && Instant(r.tokenExpiresAt).Some?
                && answer.value ==
                   Session(response.authToken, Instant(r.issuedAt).value, Instant(r.tokenExpiresAt).value))
            && (forall reason :: answer == Err(RejectedError(reason)) <==>
                && ResultBound(lib, config, verified, authenticate, response, now)
                && !ResultOf(response).value.accepted && ResultOf(response).value.reason == reason)
  {
    hide ValidConfig, UsableConfig, ValidPacket, GoodAuthenticate, GoodResult, SignatureError, SchedulerError,
      WithinSkew, Near, FromScheduler, Own, Fresh, Live, Instant, CheckedTime;
    ConfigIff(config);
    SchedulerErrorsAreOthers(lib, config, response, now);
    if UsableConfig(config) && ChallengeOf(verified.response).Some? && ResultOf(response).Some?
       && EmbeddedChallenge(authenticate) == ChallengeOf(verified.response)
       && ResultOf(response).value.challenge == ChallengeOf(verified.response)
    {
      var c, r := ChallengeOf(verified.response).value, ResultOf(response).value;
      AuthenticateParts(lib, config, authenticate, c);
      ResultParts(lib, config, response, r, c, now);
      LiveIff(c, now);
      InstantIs(r.issuedAt, now);
      InstantIs(r.tokenExpiresAt, now);
    }
  }

  lemma SchedulerErrorsAreOthers(lib: Library, config: Config, p: Packet, now: int)
    ensures SchedulerError(lib, config, p, now).Some? ==> !SchedulerError(lib, config, p, now).value.RejectedError?
  {
    hide ValidPacket, SignatureError, WithinSkew;
  }

  lemma LiveIff(c: Challenge, now: int)
    ensures Fresh(c, now) <==> Live(c, now)
  {
    hide CheckedTime, Instant, WithinSkew, Near;
    InstantIs(c.issuedAt, now);
    InstantIs(c.expiresAt, now);
  }

  lemma AuthenticateParts(lib: Library, config: Config, p: Packet, c: Challenge)
    requires UsableConfig(config) && EmbeddedChallenge(p) == Some(c)
    ensures p.payload.AuthenticatePayload? && p.payload.authenticate.Some?
    ensures var a := p.payload.authenticate.value;
            && a.challenge == Some(c)
            && (ValidPacket(p) <==> a.capability.Some? && GoodAuthenticate(p, c, a.capability.value))
            && (ValidPacket(p) ==>
                (SignatureError(lib, p, WorkerKeys(config)).None? <==>
                  Own(lib, config, p, AuthenticatePhase, c.proofKeyID)))
  {
    hide UsableConfig, GoodAuthenticate, SignatureError, Own, GoodChallenge, GoodCapability, ValidCapability,
      ValidChallenge;
    var a := p.payload.authenticate.value;
    if a.capability.Some? {
      AuthenticateIff(p, c, a.capability.value);
      if ValidPacket(p) {
        AuthenticateKey(p, c, a.capability.value);
        OwnIff(lib, config, p, AuthenticatePhase, c.proofKeyID);
      }
    }
  }

  lemma AuthenticateKey(p: Packet, c: Challenge, a: Capability)
    requires p.payload == AuthenticatePayload(Some(Authenticate(Some(c), Some(a)))) && GoodAuthenticate(p, c, a)
    ensures SelectPhase(p) == Ok(AuthenticatePhase) && KeyID(p) == Ok(c.proofKeyID) && !p.unknownFields
  {
  }

  lemma ResultParts(lib: Library, config: Config, p: Packet, r: HandshakeResult, c: Challenge, now: int)
    requires UsableConfig(config) && ResultOf(p) == Some(r) && r.challenge == Some(c)
    ensures SchedulerError(lib, config, p, now).None? <==>
            GoodResult(p, r, c) && FromScheduler(lib, config, p, ResultPhase, c.serverKeyID, now)
    ensures GoodResult(p, r, c) ==> Instant(r.issuedAt).Some? && (r.accepted ==> Instant(r.tokenExpiresAt).Some?)
  {
    hide UsableConfig, SchedulerError, FromScheduler, ValidPacket, GoodChallenge, Word, Instant, Enveloped;
    ResultIff(p, r, c);
    if GoodResult(p, r, c) {
      ResultKey(p, r, c);
      SchedulerIff(lib, config, p, ResultPhase, c.serverKeyID, now);
    }
    if SchedulerError(lib, config, p, now).None? {
      SchedulerIsValid(lib, config, p, now);
    }
  }

  lemma ResultKey(p: Packet, r: HandshakeResult, c: Challenge)
    requires p.payload == ResultPayload(Some(r)) && r.challenge == Some(c) && GoodResult(p, r, c)
    ensures SelectPhase(p) == Ok(ResultPhase) && KeyID(p) == Ok(c.serverKeyID)
  {
  }
}
