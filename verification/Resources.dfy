/**
 Production resource references: the generic reference checks, the registry of
 installed backends, and the Externalize and Resolve operations.  Backends, the
 context and the clock act through arguments: each operation takes what they did.
 */
module Resources {
  import opened Bytes
  import opened Clock
  import opened Text
  import opened BoundedRead

  const MAX_IDENTIFIER := 128
  const MAX_AUTHORITY := 255
  const MAX_URI := 2048
  const MAX_MEDIA_TYPE := 127
  const MAX_PURPOSE := 128
  const MAX_RESOURCE_SIZE := 0x4000_0000
  const MAX_TENANT := 128
  const MAX_JOB := 256
  const DIGEST_BYTES := 32

  datatype Error =
    | InvalidRef
    | InvalidRegistry
    | ContextRequired
    | InvalidTrustedContext
    | ResolverUnavailable
    | ExternalizerUnavailable
    | Expired
    | OversizeRef
    | SizeMismatch
    | MediaTypeMismatch
    | DigestMismatch
    | MetadataMismatch
    | Reading(error: ReadError)

  datatype ResourceRef = ResourceRef(
    resolverID: string, uri: string, mediaType: string, purpose: string, sha256: Bytes,
    sizeBytes: nat, expiresAt: Option<Timestamp>, unknownFields: bool)

  // -------------------------------------------------------------- identifiers

  predicate LowerAlnum(c: char)
  {
    'a' <= c <= 'z' || '0' <= c <= '9'
  }

  predicate Alnum(c: char)
  {
    LowerAlnum(c) || 'A' <= c <= 'Z'
  }

  /** A first character from one class and then any number from that class or `extra`. */
  predicate Word(s: string, first: char -> bool, extra: string)
  {
    s != "" && first(s[0]) && forall i :: 0 <= i < |s| ==> first(s[i]) || s[i] in extra
  }

  predicate Identifier(value: string, limit: nat, extra: string)
  {
    |value| <= limit && TrimSpace(value) == value && Word(value, LowerAlnum, extra)
  }

  predicate ValidResolverID(value: string)
  {
    Identifier(value, MAX_IDENTIFIER, "._-")
  }

  predicate ValidPurpose(value: string)
  {
    Identifier(value, MAX_PURPOSE, "._:-")
  }

  /** A type and a subtype around one slash. */
  predicate ValidMediaType(value: string)
  {
    && 0 < |value| <= MAX_MEDIA_TYPE && TrimSpace(value) == value
    && exists k :: 0 <= k < |value| && value[k] == '/'
         && Word(value[..k], LowerAlnum, "!#$&^_.+-") && Word(value[k + 1..], LowerAlnum, "!#$&^_.+-")
  }

  // --------------------------------------------------------------------- URIs

  predicate PrintableAscii(s: string)
  {
    forall i :: 0 <= i < |s| ==> '\U{0021}' <= s[i] <= '\U{007E}'
  }

  predicate NormalizedPath(authorityAndPath: string)
  {
    var parts := Split(authorityAndPath, '/');
    && 0 < |parts[0]| <= MAX_AUTHORITY
    && forall i :: 1 <= i < |parts| ==>
       parts[i] != "" && parts[i] != "." && parts[i] != ".." && !Contains(parts[i], "..")
  }

  predicate SchemeAt(uri: string, k: nat)
  {
    && 1 <= k <= 32 && k + 3 < |uri|
    && 'a' <= uri[0] <= 'z'
    && (forall i :: 1 <= i < k ==> LowerAlnum(uri[i]) || uri[i] in "+.-")
    && uri[k..k + 3] == "://"
  }

  predicate ValidURI(uri: string)
  {
    && 0 < |uri| <= MAX_URI && TrimSpace(uri) == uri && PrintableAscii(uri)
    && exists k :: 0 <= k < |uri| && SchemeAt(uri, k)
         && (forall i :: k + 3 <= i < |uri| ==> uri[i] !in "@?#\\%")
         && NormalizedPath(uri[k + 3..])
  }

  // ---------------------------------------------------------------- references

  predicate Distinct(ids: seq<string>)
  {
    forall i, j :: 0 <= i < j < |ids| ==> ids[i] != ids[j]
  }

  /** ValidateResourceResolvers. */
  predicate ValidResolvers(installed: seq<string>)
  {
    installed != [] && (forall i :: 0 <= i < |installed| ==> ValidResolverID(installed[i])) && Distinct(installed)
  }

  predicate ExpiresAfter(ref: ResourceRef, now: int)
  {
    ref.expiresAt.Some? && ref.expiresAt.value.Valid() && ref.expiresAt.value.AsTime() > now
  }

  /** ValidateResourceRefAt. */
  predicate ValidRefAt(ref: ResourceRef, installed: seq<string>, now: int)
  {
    && ValidResolvers(installed)
    && ValidResolverID(ref.resolverID) && ref.resolverID in installed
    && ValidMediaType(ref.mediaType) && ValidPurpose(ref.purpose)
    && |ref.sha256| == DIGEST_BYTES
    && 0 < ref.sizeBytes <= MAX_RESOURCE_SIZE
    && ValidURI(ref.uri)
    && ExpiresAfter(ref, now)
  }

  // ------------------------------------------------------------------ registry

  datatype TrustedContext = TrustedContext(tenantID: string, jobID: string)

  predicate ValidTrusted(t: TrustedContext)
  {
    && |t.tenantID| <= MAX_TENANT && Word(t.tenantID, Alnum, "._-")
    && |t.jobID| <= MAX_JOB && Word(t.jobID, Alnum, "._:@-[]")
  }

  datatype Backend = Backend(maxBytes: nat)

  datatype Registration = Registration(id: string, maxBytes: nat, resolverNil: bool, externalizerNil: bool)

  type Backends = map<string, Backend>

  predicate Acceptable(backends: Backends, r: Registration)
  {
    && ValidResolverID(r.id) && 0 < r.maxBytes <= MAX_RESOURCE_SIZE
    && !r.resolverNil && !r.externalizerNil && r.id !in backends
  }

  /** Every registry: its IDs are its backends, once each, canonical and bounded. */
  predicate WellInstalled(backends: Backends, ids: seq<string>)
  {
    && Distinct(ids)
    && (forall i :: 0 <= i < |ids| ==> ids[i] in backends)
    && (forall id :: id in backends ==>
       id in ids && ValidResolverID(id) && 0 < backends[id].maxBytes <= MAX_RESOURCE_SIZE)
  }

  class ResourceRegistry {
    var backends: Backends
    var ids: seq<string>

    ghost predicate Valid()
      reads this
    {
      WellInstalled(backends, ids)
    }

    constructor ()
      ensures Valid() && backends == map[] && ids == []
    {
      backends, ids := map[], [];
    }

    /** addRegistration. */
    method AddRegistration(r: Registration) returns (ok: bool)
      requires Valid()
      modifies this
      ensures Valid()
      ensures ok == Acceptable(old(backends), r)
      ensures ok ==> backends == old(backends)[r.id := Backend(r.maxBytes)] && ids == old(ids) + [r.id]
      ensures !ok ==> backends == old(backends) && ids == old(ids)
    {
      if !ValidResolverID(r.id) {
        return false;
      }
      if r.maxBytes == 0 || r.maxBytes > MAX_RESOURCE_SIZE {
        return false;
      }
      if r.resolverNil || r.externalizerNil {
        return false;
      }
      if r.id in backends {
        return false;
      }
      backends := backends[r.id := Backend(r.maxBytes)];
      ids := ids + [r.id];
      return true;
    }
  }

  /** Installing registrations one after the other, from nothing. */
  function Installed(registrations: seq<Registration>): Option<(Backends, seq<string>)>
  {
    if registrations == [] then Some((map[], []))
    else
      var last := |registrations| - 1;
      match Installed(registrations[..last])
      case None => None
      case Some((backends, ids)) =>
        var r := registrations[last];
        if Acceptable(backends, r) then Some((backends[r.id := Backend(r.maxBytes)], ids + [r.id])) else None
  }

  lemma {:induction false} InstalledPrefix(registrations: seq<Registration>, n: nat)
    requires n <= |registrations| && Installed(registrations[..n]).None?
    ensures Installed(registrations).None?
  {
    if n == |registrations| {
      assert registrations[..n] == registrations;
    } else {
      var last := |registrations| - 1;
      assert registrations[..last][..n] == registrations[..n];
      InstalledPrefix(registrations[..last], n);
    }
  }

  predicate AllSound(registrations: seq<Registration>)
  {
    forall i :: 0 <= i < |registrations| ==> Acceptable(map[], registrations[i])
  }

  predicate DistinctIDs(registrations: seq<Registration>)
  {
    forall i, j :: 0 <= i < j < |registrations| ==> registrations[i].id != registrations[j].id
  }

  /** Each registration is installed under its ID with its own bound, and nothing else is. */
  predicate Holds(backends: Backends, ids: seq<string>, registrations: seq<Registration>)
  {
    && |ids| == |registrations|
    && (forall i :: 0 <= i < |ids| ==>
          ids[i] == registrations[i].id && ids[i] in backends && backends[ids[i]] == Backend(registrations[i].maxBytes))
    && (forall id :: id in backends ==> id in ids)
  }

  lemma HoldsOneMore(backends: Backends, ids: seq<string>, rs: seq<Registration>, r: Registration)
    requires Holds(backends, ids, rs) && DistinctIDs(rs)
    ensures Acceptable(backends, r) <==> Acceptable(map[], r) && DistinctIDs(rs + [r])
    ensures Acceptable(backends, r) ==> Holds(backends[r.id := Backend(r.maxBytes)], ids + [r.id], rs + [r])
  {
    hide ValidResolverID;
    var all := rs + [r];
    if r.id in backends {
      var i :| 0 <= i < |ids| && ids[i] == r.id;
      assert all[i].id == all[|rs|].id;
    } else {
      assert forall i :: 0 <= i < |rs| ==> all[i].id != r.id;
    }
  }

  /** A registry comes about exactly for sound registrations with distinct IDs, and then holds just those. */
  lemma {:induction false} InstalledIff(registrations: seq<Registration>)
    ensures Installed(registrations).Some? <==> AllSound(registrations) && DistinctIDs(registrations)
    ensures Installed(registrations).Some? ==>
              Holds(Installed(registrations).value.0, Installed(registrations).value.1, registrations)
  {
    if registrations != [] {
      hide Acceptable, Holds;
      var last := |registrations| - 1;
      var prefix, r := registrations[..last], registrations[last];
      InstalledIff(prefix);
      assert registrations == prefix + [r];
      assert AllSound(registrations) <==> AllSound(prefix) && Acceptable(map[], r);
      assert DistinctIDs(registrations) ==> DistinctIDs(prefix);
      if Installed(prefix).Some? {
        HoldsOneMore(Installed(prefix).value.0, Installed(prefix).value.1, prefix, r);
      }
    }
  }

  /** NewResourceRegistry: installs all registrations or fails. */
  method NewResourceRegistry(registrations: seq<Registration>) returns (registry: ResourceRegistry?)
    ensures registry == null <==> registrations == [] || Installed(registrations).None?
    ensures registry != null ==> fresh(registry) && registry.Valid()
    ensures registry != null ==> (registry.backends, registry.ids) == Installed(registrations).value
  {
    if |registrations| == 0 {
      return null;
    }
    hide WellInstalled, Acceptable;
    var built := new ResourceRegistry();
    for n := 0 to |registrations|
      invariant fresh(built) && built.Valid()
      invariant Installed(registrations[..n]) == Some((built.backends, built.ids))
    {
      var ok := built.AddRegistration(registrations[n]);
      assert registrations[..n + 1][..n] == registrations[..n];
      if !ok {
        InstalledPrefix(registrations, n + 1);
        return null;
      }
    }
    assert registrations[..|registrations|] == registrations;
    return built;
  }

  // ------------------------------------------------------------------- resolve

  /** What the resolver backend returned: an error, or a body to read with a media type. */
  datatype Reply = Refused | Replied(body: Option<Reader>, closeFails: bool, mediaType: string)

  /** What the surroundings did during one Resolve: context, clock and backend. */
  datatype ResolveWorld = ResolveWorld(
    hasContext: bool, cancelledAtStart: bool, now: int, reply: Reply, cancelledAfterReply: bool,
    cancelledAfterRead: bool, later: int)

  datatype Resolved = Resolved(content: Bytes, mediaType: string)

  ghost function ReadAndClose(reply: Reply, limit: nat): Result<Bytes, ReadError>
    requires reply.Replied? && (reply.body.Some? ==> Proper(reply.body.value))
  {
    if reply.body.None? then Err(Unavailable)
    else
      var content := ReadAll(reply.body, limit);
      if content.Err? then content
      else if reply.closeFails then Err(Unavailable)
      else content
  }

  function ContentError(hash: Bytes -> Bytes, ref: ResourceRef, mediaType: string, content: Bytes): Option<Error>
  {
    if mediaType != ref.mediaType then Some(MediaTypeMismatch)
    else if |content| != ref.sizeBytes then Some(SizeMismatch)
    else if hash(content) != ref.sha256 then Some(DigestMismatch)
    else None
  }

  function SnapshotError(backends: Backends, ref: ResourceRef, now: int): Option<Error>
  {
    if ref.unknownFields then Some(InvalidRef)
    else if !ValidRefAt(ref, [ref.resolverID], now) then
      Some(if ref.expiresAt.Some? && ref.expiresAt.value.Valid() && ref.expiresAt.value.AsTime() <= now
           then Expired else InvalidRef)
    else if ref.resolverID !in backends then Some(ResolverUnavailable)
    else if ref.sizeBytes > backends[ref.resolverID].maxBytes then Some(OversizeRef)
    else None
  }

  ghost predicate ProperWorld(world: ResolveWorld)
  {
    world.reply.Replied? && world.reply.body.Some? ==> Proper(world.reply.body.value)
  }

  /** Resolve. */
  ghost function Resolve(
    hash: Bytes -> Bytes, backends: Backends, ref: Option<ResourceRef>, trusted: TrustedContext, world: ResolveWorld):
    Result<Resolved, Error>
    requires ProperWorld(world)
  {
    if backends == map[] then Err(InvalidRegistry)
    else if !world.hasContext then Err(ContextRequired)
    else if world.cancelledAtStart then Err(Reading(Cancelled))
    else if !ValidTrusted(trusted) then Err(InvalidTrustedContext)
    else if ref.None? then Err(InvalidRef)
    else
      var bad := SnapshotError(backends, ref.value, world.now);
      if bad.Some? then Err(bad.value)
      else if world.reply.Refused? then
        Err(Reading(if world.cancelledAfterReply then Cancelled else Unavailable))
      else
        match ReadAndClose(world.reply, ref.value.sizeBytes)
        case Err(e) => Err(Reading(e))
        case Ok(content) =>
          if world.cancelledAfterRead then Err(Reading(Cancelled))
          else if ref.value.expiresAt.value.AsTime() <= world.later then Err(Expired)
          else
            var mismatch := ContentError(hash, ref.value, world.reply.mediaType, content);
            if mismatch.Some? then Err(mismatch.value) else Ok(Resolved(content, world.reply.mediaType))
  }

  // --------------------------------------------------------------- externalize

  /** What the surroundings did during one Externalize; `reply` is the reference the backend returned. */
  datatype ExternalizeWorld = ExternalizeWorld(
    hasContext: bool, cancelledAtStart: bool, now: int, cancelledAfterRead: bool, afterRead: int,
    reply: Result<Option<ResourceRef>, ()>, cancelledAfterReply: bool, afterReply: int)

  datatype ExternalizeCall = ExternalizeCall(
    backendID: string, reader: Option<Reader>, mediaType: string, purpose: string, expiresAt: int,
    trusted: TrustedContext)

  function InputError(backends: Backends, call: ExternalizeCall, world: ExternalizeWorld): Option<Error>
  {
    if backends == map[] then Some(InvalidRegistry)
    else if !world.hasContext then Some(ContextRequired)
    else if world.cancelledAtStart then Some(Reading(Cancelled))
    else if !ValidTrusted(call.trusted) then Some(InvalidTrustedContext)
    else if !ValidResolverID(call.backendID) || call.backendID !in backends then Some(ExternalizerUnavailable)
    else if !ValidMediaType(call.mediaType) || !ValidPurpose(call.purpose) then Some(InvalidRef)
    else if !FromTime(call.expiresAt).Valid() then Some(InvalidRef)
    else if call.expiresAt <= world.now then Some(Expired)
    else None
  }

  /** externalizedMetadataMatches. */
  predicate MetadataMatches(hash: Bytes -> Bytes, ref: ResourceRef, call: ExternalizeCall, content: Bytes)
  {
    && ref.resolverID == call.backendID && ref.mediaType == call.mediaType
    && ref.purpose == call.purpose && ref.sizeBytes == |content|
    && ref.sha256 == hash(content)
    && ref.expiresAt.Some? && ref.expiresAt.value.Valid()
    && ref.expiresAt.value.AsTime() == call.expiresAt
  }

  /** Externalize. */
  ghost function Externalize(
    hash: Bytes -> Bytes, backends: Backends, ids: seq<string>, call: ExternalizeCall, world: ExternalizeWorld):
    Result<ResourceRef, Error>
    requires call.reader.Some? ==> Proper(call.reader.value)
  {
    var bad := InputError(backends, call, world);
    if bad.Some? then Err(bad.value)
    else
      match ReadAll(call.reader, backends[call.backendID].maxBytes)
      case Err(e) => Err(Reading(e))
      case Ok(content) =>
        if world.cancelledAfterRead then Err(Reading(Cancelled))
        else if call.expiresAt <= world.afterRead then Err(Expired)
        else if content == [] then Err(SizeMismatch)
        else if world.reply.Err? then Err(Reading(if world.cancelledAfterReply then Cancelled else Unavailable))
        else if world.cancelledAfterReply then Err(Reading(Cancelled))
        else if call.expiresAt <= world.afterReply then Err(Expired)
        else if world.reply.value.None? then Err(MetadataMismatch)
        else
          var ref := world.reply.value.value;
          if ref.unknownFields then Err(InvalidRef)
          else if !MetadataMatches(hash, ref, call, content) then Err(MetadataMismatch)
          else if !ValidRefAt(ref, ids, world.now) then Err(InvalidRef)
          else Ok(ref)
  }

  // ------------------------------------------------------------------- results

  /** Every resolved resource has the declared type, size and digest, within the installed limit, before expiry. */
  lemma ResolvedIsVerified(
    hash: Bytes -> Bytes, backends: Backends, ref: Option<ResourceRef>, trusted: TrustedContext, world: ResolveWorld)
    requires ProperWorld(world) && Resolve(hash, backends, ref, trusted, world).Ok?
    ensures ref.Some? && ref.value.resolverID in backends
    ensures var r := Resolve(hash, backends, ref, trusted, world).value;
            && r.mediaType == ref.value.mediaType
            && |r.content| == ref.value.sizeBytes <= backends[ref.value.resolverID].maxBytes
            && hash(r.content) == ref.value.sha256
            && ExpiresAfter(ref.value, world.now) && ExpiresAfter(ref.value, world.later)
            && world.reply.Replied? && world.reply.body.Some?
            && Serves(world.reply.body.value, 0, ref.value.sizeBytes, 0, r.content)
  {
    hide ValidURI, ValidMediaType, ValidPurpose, ValidResolverID, ValidTrusted, ReadAll, Serves;
    ReadIffServed(world.reply.body.value, ref.value.sizeBytes,
      Resolve(hash, backends, ref, trusted, world).value.content);
  }

  /** A backend that stored content under a reference and now serves it back undisturbed. */
  ghost predicate ServesStored(world: ResolveWorld, ref: ResourceRef, content: Bytes)
  {
    && world.hasContext && !world.cancelledAtStart && !world.cancelledAfterReply && !world.cancelledAfterRead
    && world.reply.Replied? && !world.reply.closeFails && world.reply.mediaType == ref.mediaType
    && world.reply.body.Some? && Serves(world.reply.body.value, 0, ref.sizeBytes, 0, content)
  }

  lemma ExternalizedIsValid(
    hash: Bytes -> Bytes, backends: Backends, ids: seq<string>, call: ExternalizeCall, world: ExternalizeWorld,
    content: Bytes)
    requires WellInstalled(backends, ids)
    requires call.reader.Some? && Proper(call.reader.value) && call.backendID in backends
    requires Serves(call.reader.value, 0, backends[call.backendID].maxBytes, 0, content)
    requires Externalize(hash, backends, ids, call, world).Ok?
    ensures var ref := Externalize(hash, backends, ids, call, world).value;
            && MetadataMatches(hash, ref, call, content) && ValidRefAt(ref, ids, world.now) && !ref.unknownFields
            && |content| <= backends[call.backendID].maxBytes
  {
    hide ValidURI, ValidMediaType, ValidPurpose, ValidResolverID, ValidTrusted, ReadAll, Serves, ValidRefAt,
      MetadataMatches;
    ReadIffServed(call.reader.value, backends[call.backendID].maxBytes, content);
  }

  lemma ValidForItsOwnResolver(ref: ResourceRef, ids: seq<string>, now: int, later: int)
    requires ValidRefAt(ref, ids, now) && ExpiresAfter(ref, later)
    ensures ValidRefAt(ref, [ref.resolverID], later)
  {
    hide ValidURI, ValidMediaType, ValidPurpose, ValidResolverID;
  }

  /**
   Externalize then Resolve is the identity: content accepted into a backend that
   serves it back comes out byte for byte with its media type, at any time before
   expiry and for any valid trusted context, and is refused from then on.
   */
  lemma ExternalizeThenResolve(
    hash: Bytes -> Bytes, backends: Backends, ids: seq<string>, call: ExternalizeCall, world: ExternalizeWorld,
    content: Bytes,
    trusted: TrustedContext, resolving: ResolveWorld)
    requires WellInstalled(backends, ids)
    requires call.reader.Some? && Proper(call.reader.value) && call.backendID in backends
    requires Serves(call.reader.value, 0, backends[call.backendID].maxBytes, 0, content)
    requires Externalize(hash, backends, ids, call, world).Ok?
    requires ValidTrusted(trusted) && ProperWorld(resolving) && resolving.now <= resolving.later
    requires ServesStored(resolving, Externalize(hash, backends, ids, call, world).value, content)
    ensures var ref := Externalize(hash, backends, ids, call, world).value;
            Resolve(hash, backends, Some(ref), trusted, resolving) ==
            if resolving.later < call.expiresAt then Ok(Resolved(content, call.mediaType)) else Err(Expired)
  {
    hide ValidURI, ValidMediaType, ValidPurpose, ValidResolverID, ValidTrusted, ReadAll, Serves, ValidRefAt,
      Externalize;
    ExternalizedIsValid(hash, backends, ids, call, world, content);
    var ref := Externalize(hash, backends, ids, call, world).value;
    ValidIsNotEmpty(ref, ids, world.now);
    if resolving.now < call.expiresAt {
      ValidForItsOwnResolver(ref, ids, world.now, resolving.now);
      ReadIffServed(resolving.reply.body.value, ref.sizeBytes, content);
    } else {
      ExpiredIsInvalid(ref, resolving.now);
    }
  }

  lemma ValidIsNotEmpty(ref: ResourceRef, ids: seq<string>, now: int)
    requires ValidRefAt(ref, ids, now)
    ensures ref.sizeBytes > 0
  {
  }

  lemma ExpiredIsInvalid(ref: ResourceRef, now: int)
    requires !ExpiresAfter(ref, now)
    ensures !ValidRefAt(ref, [ref.resolverID], now)
  {
  }
}
