/**
 Backends that store by URI: what any sequence of Externalize calls leaves stored, and
 exactly when a reference still resolves to its own content.
 */
module ResourceStore {
  import opened Bytes
  import opened BoundedRead
  import opened Crypto
  import opened Resources

  datatype Stored = Stored(content: Bytes, mediaType: string)

  /** A place in storage: the backend's ID and the URI within it. */
  datatype Place = Place(backendID: string, uri: string)

  type Store = map<Place, Stored>

  /** One Externalize with what its surroundings did. */
  datatype Step = Step(call: ExternalizeCall, world: ExternalizeWorld)

  ghost predicate ProperStep(step: Step)
  {
    step.call.reader.Some? ==> Proper(step.call.reader.value)
  }

  /** The content that gets to the backend, if the call gets that far. */
  ghost function Sent(backends: Backends, step: Step): Option<Bytes>
    requires ProperStep(step)
  {
    if InputError(backends, step.call, step.world).Some? then None
    else
      match ReadAll(step.call.reader, backends[step.call.backendID].maxBytes)
      case Err(_) => None
      case Ok(content) =>
        if step.world.cancelledAfterRead || step.call.expiresAt <= step.world.afterRead || content == [] then None
        else Some(content)
  }

  /**
   What a faithful backend stores: the content under the URI of the reference that it
   returns, whatever the caller makes of it.
   */
  ghost function WriteOf(backends: Backends, step: Step): Option<(Place, Stored)>
    requires ProperStep(step)
  {
    var content := Sent(backends, step);
    if content.Some? && step.world.reply.Ok? && step.world.reply.value.Some? then
      Some((Place(step.call.backendID, step.world.reply.value.value.uri), Stored(content.value, step.call.mediaType)))
    else None
  }

  ghost predicate ProperSteps(steps: seq<Step>)
  {
    forall i :: 0 <= i < |steps| ==> ProperStep(steps[i])
  }

  ghost function StoreAfter(backends: Backends, store: Store, steps: seq<Step>): Store
    requires ProperSteps(steps)
  {
    if steps == [] then store
    else
      var last := |steps| - 1;
      var before := StoreAfter(backends, store, steps[..last]);
      var write := WriteOf(backends, steps[last]);
      if write.Some? then before[write.value.0 := write.value.1] else before
  }

  ghost predicate WritesTo(backends: Backends, step: Step, place: Place)
    requires ProperStep(step)
  {
    WriteOf(backends, step).Some? && WriteOf(backends, step).value.0 == place
  }

  /** Call k is the last that wrote a place. */
  ghost predicate LastWrite(backends: Backends, steps: seq<Step>, k: nat, place: Place)
    requires ProperSteps(steps)
  {
    && k < |steps| && WritesTo(backends, steps[k], place)
    && forall m :: k < m < |steps| ==> !WritesTo(backends, steps[m], place)
  }

  /** The last write to a place decides what it holds. */
  lemma {:induction false} LastDecides(backends: Backends, store: Store, steps: seq<Step>, k: nat, place: Place)
    requires ProperSteps(steps) && LastWrite(backends, steps, k, place)
    ensures var after := StoreAfter(backends, store, steps);
            place in after && WriteOf(backends, steps[k]) == Some((place, after[place]))
  {
    hide WriteOf;
    var last := |steps| - 1;
    if k < last {
      assert !WritesTo(backends, steps[last], place);
      assert forall m :: 0 <= m < last ==> steps[..last][m] == steps[m];
      LastDecides(backends, store, steps[..last], k, place);
    }
  }

  /** A place that was written has a last write, not before any other. */
  lemma {:induction false} HasLastWrite(backends: Backends, steps: seq<Step>, i: nat, place: Place) returns (k: nat)
    requires ProperSteps(steps) && i < |steps| && WritesTo(backends, steps[i], place)
    ensures i <= k && LastWrite(backends, steps, k, place)
    decreases |steps| - i
  {
    hide WriteOf;
    if exists m :: i < m < |steps| && WritesTo(backends, steps[m], place) {
      var m :| i < m < |steps| && WritesTo(backends, steps[m], place);
      k := HasLastWrite(backends, steps, m, place);
    } else {
      k := i;
    }
  }

  /** An accepted reference names the place where its call's content was written. */
  lemma AcceptedIsWritten(hash: Bytes -> Bytes, backends: Backends, ids: seq<string>, step: Step)
    requires ProperStep(step) && Externalize(hash, backends, ids, step.call, step.world).Ok?
    ensures Sent(backends, step).Some?
    ensures var ref := Externalize(hash, backends, ids, step.call, step.world).value;
            && ref.resolverID == step.call.backendID && ref.mediaType == step.call.mediaType
            && ref.sha256 == hash(Sent(backends, step).value) && ref.sizeBytes == |Sent(backends, step).value|
            && WriteOf(backends, step) == Some((PlaceOf(ref), Stored(Sent(backends, step).value, step.call.mediaType)))
  {
    hide ValidURI, ValidMediaType, ValidPurpose, ValidResolverID, ValidTrusted, ReadAll, ValidRefAt;
  }

  function PlaceOf(ref: ResourceRef): Place
  {
    Place(ref.resolverID, ref.uri)
  }

  // ------------------------------------------------------------------- resolving

  /** An undisturbed Resolve of a reference against a store that holds something at its place. */
  ghost predicate Reads(store: Store, ref: ResourceRef, world: ResolveWorld)
  {
    && PlaceOf(ref) in store
    && world.hasContext && !world.cancelledAtStart && !world.cancelledAfterReply && !world.cancelledAfterRead
    && world.reply.Replied? && !world.reply.closeFails && world.reply.mediaType == store[PlaceOf(ref)].mediaType
    && world.reply.body.Some? && Proper(world.reply.body.value)
    && Serves(world.reply.body.value, 0, ref.sizeBytes, 0, store[PlaceOf(ref)].content)
  }

  /** Whatever resolves is what the place holds. */
  lemma ResolvesToStored(
    hash: Bytes -> Bytes, backends: Backends, store: Store, ref: ResourceRef, trusted: TrustedContext,
    world: ResolveWorld)
    requires Reads(store, ref, world) && Resolve(hash, backends, Some(ref), trusted, world).Ok?
    ensures var s := store[PlaceOf(ref)];
            && Resolve(hash, backends, Some(ref), trusted, world) == Ok(Resolved(s.content, s.mediaType))
            && s.mediaType == ref.mediaType && hash(s.content) == ref.sha256
  {
    hide ValidURI, ValidMediaType, ValidPurpose, ValidResolverID, ValidTrusted, ReadAll, Serves;
    ReadIffServed(world.reply.body.value, ref.sizeBytes, store[PlaceOf(ref)].content);
  }

  lemma SentIsServed(backends: Backends, step: Step)
    requires ProperStep(step) && Sent(backends, step).Some?
    ensures step.call.reader.Some? && step.call.backendID in backends
    ensures backends[step.call.backendID].maxBytes > 0 ==>
              Serves(step.call.reader.value, 0, backends[step.call.backendID].maxBytes, 0, Sent(backends, step).value)
  {
    hide ValidMediaType, ValidPurpose, ValidResolverID, ValidTrusted, Serves;
    var limit := backends[step.call.backendID].maxBytes;
    if limit > 0 {
      ReadIffServed(step.call.reader.value, limit, Sent(backends, step).value);
    }
  }

  /**
   Storing by URI.  After any calls, a reference that call i returned resolves before its
   expiry to the content of call i exactly when the last call that wrote its place wrote
   that content with that media type.  With a collision-free hash it never resolves to
   anything else.
   */
  lemma OwnContentIff(
    hash: Bytes -> Bytes, backends: Backends, ids: seq<string>, store: Store, steps: seq<Step>, i: nat, k: nat,
    trusted: TrustedContext, world: ResolveWorld)
    requires WellInstalled(backends, ids) && ProperSteps(steps) && i < |steps|
    requires Externalize(hash, backends, ids, steps[i].call, steps[i].world).Ok?
    requires ValidTrusted(trusted) && world.now <= world.later < steps[i].call.expiresAt
    requires var ref := Externalize(hash, backends, ids, steps[i].call, steps[i].world).value;
             LastWrite(backends, steps, k, PlaceOf(ref)) && Reads(StoreAfter(backends, store, steps), ref, world)
    ensures i <= k && Sent(backends, steps[i]).Some?
    ensures var ref := Externalize(hash, backends, ids, steps[i].call, steps[i].world).value;
            var own := Resolved(Sent(backends, steps[i]).value, steps[i].call.mediaType);
            var answer := Resolve(hash, backends, Some(ref), trusted, world);
            && (answer == Ok(own) <==> WriteOf(backends, steps[k]) == WriteOf(backends, steps[i]))
            && (CollisionFree(hash) && answer.Ok? ==> answer == Ok(own))
  {
    hide ValidTrusted, Serves, Externalize, Resolve, Sent, WriteOf, StoreAfter, CollisionFree;
    var step := steps[i];
    var ref := Externalize(hash, backends, ids, step.call, step.world).value;
    var after := StoreAfter(backends, store, steps);
    AcceptedIsWritten(hash, backends, ids, step);
    LastDecides(backends, store, steps, k, PlaceOf(ref));
    assert i <= k by { assert WritesTo(backends, step, PlaceOf(ref)); }
    var content := Sent(backends, step).value;
    var answer := Resolve(hash, backends, Some(ref), trusted, world);
    if answer.Ok? {
      ResolvesToStored(hash, backends, after, ref, trusted, world);
      if CollisionFree(hash) {
        SameHashSameContent(hash, after[PlaceOf(ref)].content, content);
      }
    }
    if after[PlaceOf(ref)] == Stored(content, step.call.mediaType) {
      SentIsServed(backends, step);
      LimitIsPositive(backends, ids, step.call.backendID);
      ExternalizeThenResolve(hash, backends, ids, step.call, step.world, content, trusted, world);
    }
  }

  lemma SameHashSameContent(hash: Bytes -> Bytes, a: Bytes, b: Bytes)
    requires CollisionFree(hash) && hash(a) == hash(b)
    ensures a == b
  {
  }

  lemma LimitIsPositive(backends: Backends, ids: seq<string>, id: string)
    requires WellInstalled(backends, ids) && id in backends
    ensures backends[id].maxBytes > 0
  {
  }

  /** In particular, a reference resolves to its own content as long as no later call writes its place. */
  lemma KeptUntilRewritten(
    hash: Bytes -> Bytes, backends: Backends, ids: seq<string>, store: Store, steps: seq<Step>, i: nat,
    trusted: TrustedContext, world: ResolveWorld)
    requires WellInstalled(backends, ids) && ProperSteps(steps) && i < |steps|
    requires Externalize(hash, backends, ids, steps[i].call, steps[i].world).Ok?
    requires ValidTrusted(trusted) && world.now <= world.later < steps[i].call.expiresAt
    requires var ref := Externalize(hash, backends, ids, steps[i].call, steps[i].world).value;
             && (forall m :: i < m < |steps| && WritesTo(backends, steps[m], PlaceOf(ref)) ==>
                   WriteOf(backends, steps[m]) == WriteOf(backends, steps[i]))
             && Reads(StoreAfter(backends, store, steps), ref, world)
    ensures Sent(backends, steps[i]).Some?
    ensures var ref := Externalize(hash, backends, ids, steps[i].call, steps[i].world).value;
            Resolve(hash, backends, Some(ref), trusted, world)
            == Ok(Resolved(Sent(backends, steps[i]).value, steps[i].call.mediaType))
  {
    hide ValidTrusted, Serves, Externalize, Resolve, Sent, WriteOf, StoreAfter, Reads, WellInstalled;
    var ref := Externalize(hash, backends, ids, steps[i].call, steps[i].world).value;
    AcceptedIsWritten(hash, backends, ids, steps[i]);
    var k := HasLastWrite(backends, steps, i, PlaceOf(ref));
    OwnContentIff(hash, backends, ids, store, steps, i, k, trusted, world);
  }
}
