/**
 Exactly when Externalize and Resolve succeed and with what, told field by field
 and character by character, and what every error they report means.
 */
module ResourceExact {
  import opened Bytes
  import opened BoundedRead
  import opened Clock
  import opened Resources
  import opened Text

  // ------------------------------------------------------------------- grammars

  predicate Plain(c: char, upper: bool)
  {
    'a' <= c <= 'z' || '0' <= c <= '9' || (upper && 'A' <= c <= 'Z')
  }

  /** At most `limit` characters: letters and digits and, after the first, those of `extra`. */
  predicate Token(s: string, limit: nat, upper: bool, extra: string)
  {
    1 <= |s| <= limit && Plain(s[0], upper) && forall i :: 0 <= i < |s| ==> Plain(s[i], upper) || s[i] in extra
  }

  predicate GoodID(s: string)
  {
    Token(s, 128, false, "._-")
  }

  predicate GoodPurpose(s: string)
  {
    Token(s, 128, false, "._:-")
  }

  predicate GoodTrusted(t: TrustedContext)
  {
    Token(t.tenantID, 128, true, "._-") && Token(t.jobID, 256, true, "._:@-[]")
  }

  /** Two tokens around the slash at k. */
  predicate MediaAt(s: string, k: nat)
  {
    && 0 < k < |s| - 1 && s[k] == '/' && Plain(s[0], false) && Plain(s[k + 1], false)
    && forall i :: 0 <= i < |s| && i != k ==> Plain(s[i], false) || s[i] in "!#$&^_.+-"
  }

  ghost predicate GoodMedia(s: string)
  {
    |s| <= 127 && exists k: nat :: MediaAt(s, k)
  }

  lemma TokenIff(s: string, limit: nat, extra: string)
    requires forall c :: c in extra ==> !IsSpace(c)
    ensures Identifier(s, limit, extra) <==> Token(s, limit, false, extra)
  {
    if Token(s, limit, false, extra) {
      assert !IsSpace(s[0]) && !IsSpace(s[|s| - 1]);
      TrimOfTight(s);
    }
  }

  lemma TokensIff(s: string)
    ensures ValidResolverID(s) <==> GoodID(s)
    ensures ValidPurpose(s) <==> GoodPurpose(s)
  {
    TokenIff(s, 128, "._-");
    TokenIff(s, 128, "._:-");
  }

  lemma TrustedIff(t: TrustedContext)
    ensures ValidTrusted(t) <==> GoodTrusted(t)
  {
  }

  lemma WordsAround(s: string, k: nat)
    requires k < |s| && s[k] == '/'
    ensures Word(s[..k], LowerAlnum, "!#$&^_.+-") && Word(s[k + 1..], LowerAlnum, "!#$&^_.+-") <==> MediaAt(s, k)
  {
    var a, b := s[..k], s[k + 1..];
    if Word(a, LowerAlnum, "!#$&^_.+-") && Word(b, LowerAlnum, "!#$&^_.+-") {
      assert a[0] == s[0] && b[0] == s[k + 1];
      forall i | 0 <= i < |s| && i != k
        ensures Plain(s[i], false) || s[i] in "!#$&^_.+-"
      {
        assert if i < k then s[i] == a[i] else s[i] == b[i - k - 1];
      }
    }
  }

  lemma MediaIff(s: string)
    ensures ValidMediaType(s) <==> GoodMedia(s)
  {
    hide Word, TrimSpace, IsSpace;
    if ValidMediaType(s) {
      var k :| 0 <= k < |s| && s[k] == '/'
               && Word(s[..k], LowerAlnum, "!#$&^_.+-") && Word(s[k + 1..], LowerAlnum, "!#$&^_.+-");
      WordsAround(s, k);
    }
    if GoodMedia(s) {
      var k: nat :| MediaAt(s, k);
      WordsAround(s, k);
      MediaIsTight(s);
    }
  }

  lemma MediaIsTight(s: string)
    requires GoodMedia(s)
    ensures TrimSpace(s) == s
  {
    assert !IsSpace(s[|s| - 1]);
    TrimOfTight(s);
  }

  // ----------------------------------------------------------------------- paths

  /** The character at i and the next are the same, both slashes or both dots. */
  predicate TwinAt(p: string, i: nat)
  {
    i + 1 < |p| && p[i] == p[i + 1] && (p[i] == '/' || p[i] == '.')
  }

  /** A dot with a slash or an end of the path on either side. */
  predicate LoneDotAt(p: string, i: nat)
  {
    i < |p| && p[i] == '.' && (i == 0 || p[i - 1] == '/') && (i == |p| - 1 || p[i + 1] == '/')
  }

  /** No empty or single-dot segment and no two dots in a row, told by neighbouring characters. */
  predicate CleanPath(p: string)
  {
    && p != "" && p[0] != '/' && p[|p| - 1] != '/'
    && (forall i: nat :: i < |p| ==> !TwinAt(p, i)) && forall i: nat :: i < |p| ==> !LoneDotAt(p, i)
  }

  predicate CleanSegment(s: string)
  {
    s != "" && s != "." && s != ".." && !Contains(s, "..")
  }

  predicate TwoDotsAt(s: string, i: nat)
  {
    i + 1 < |s| && s[i] == '.' && s[i + 1] == '.'
  }

  lemma {:induction false} TwoDots(s: string)
    ensures Contains(s, "..") <==> exists i: nat :: TwoDotsAt(s, i)
  {
    if s != "" {
      var t := s[1..];
      TwoDots(t);
      assert forall i: nat :: TwoDotsAt(t, i) ==> TwoDotsAt(s, i + 1);
      assert forall i: nat :: TwoDotsAt(s, i) && i > 0 ==> TwoDotsAt(t, i - 1);
      assert TwoDotsAt(s, 0) <==> ".." <= s;
    }
  }

  lemma SegmentIff(s: string)
    requires '/' !in s
    ensures CleanSegment(s) <==> CleanPath(s)
  {
    hide Contains;
    TwoDots(s);
    assert forall i: nat :: TwinAt(s, i) <==> TwoDotsAt(s, i);
    assert forall i: nat :: LoneDotAt(s, i) ==> i == 0 && s == ".";
    assert s == "." ==> LoneDotAt(s, 0);
    assert s == ".." ==> TwinAt(s, 0);
    if s != "" {
      assert s[0] in s && s[|s| - 1] in s;
    }
  }

  /** Where the twins and lone dots of two parts around a slash are. */
  lemma AroundSlash(a: string, q: string)
    requires '/' !in a && a != "" && q != "" && q[0] != '/'
    ensures var p := a + "/" + q;
            && (forall i: nat :: i < |a| ==> (TwinAt(p, i) <==> TwinAt(a, i)) && (LoneDotAt(p, i) <==> LoneDotAt(a, i)))
            && !TwinAt(p, |a|) && !LoneDotAt(p, |a|)
            && (forall i: nat :: i < |q| ==> (TwinAt(p, |a| + 1 + i) <==> TwinAt(q, i)))
            && (forall i: nat :: i < |q| ==> (LoneDotAt(p, |a| + 1 + i) <==> LoneDotAt(q, i)))
  {
    var p := a + "/" + q;
    assert p[|a|] == '/' && p[..|a|] == a && p[|a| + 1..] == q;
    assert forall i :: 0 <= i < |a| ==> p[i] == a[i] && a[i] != '/';
    assert forall i :: 0 <= i < |q| ==> p[|a| + 1 + i] == q[i];
  }

  lemma CleanAroundSlash(a: string, q: string)
    requires '/' !in a
    ensures CleanPath(a + "/" + q) <==> CleanPath(a) && CleanPath(q)
  {
    var p := a + "/" + q;
    assert p[|a|] == '/' && p[|p| - 1] == if q == "" then '/' else q[|q| - 1];
    if a != "" && q != "" && q[0] != '/' {
      AroundSlash(a, q);
      hide TwinAt, LoneDotAt;
      assert a[0] in a && a[|a| - 1] in a && p[0] == a[0];
      if CleanPath(p) {
        forall i: nat | i < |q|
          ensures !TwinAt(q, i) && !LoneDotAt(q, i)
        {
          assert !TwinAt(p, |a| + 1 + i) && !LoneDotAt(p, |a| + 1 + i);
        }
      }
      if CleanPath(a) && CleanPath(q) {
        forall i: nat | i < |p|
          ensures !TwinAt(p, i) && !LoneDotAt(p, i)
        {
          if i > |a| {
            assert p[i] == q[i - |a| - 1];
            var j: nat := i - |a| - 1;
            assert !TwinAt(q, j) && !LoneDotAt(q, j) && i == |a| + 1 + j;
          }
        }
      }
    } else if q != "" && a != "" {
      assert TwinAt(p, |a|);
    }
  }

  /** A string up to its first slash. */
  lemma {:induction false} CutAtSlash(s: string) returns (n: nat)
    ensures n <= |s| && '/' !in s[..n] && (n < |s| ==> s[n] == '/')
    ensures n == |s| ==> Split(s, '/') == [s]
    ensures n < |s| ==> s == s[..n] + "/" + s[n + 1..] && Split(s, '/') == [s[..n]] + Split(s[n + 1..], '/')
  {
    if s == "" || s[0] == '/' {
      n := 0;
      if s != "" {
        SplitOfFree("", s[1..], '/');
        assert s == "" + "/" + s[1..];
      }
    } else {
      var m := CutAtSlash(s[1..]);
      n := m + 1;
      assert s[..n] == [s[0]] + s[1..][..m];
      if n < |s| {
        assert s == s[..n] + "/" + s[n + 1..];
        SplitOfFree(s[..n], s[n + 1..], '/');
      } else {
        assert s[..n] == s;
        SplitOfFree(s, "", '/');
      }
    }
  }

  lemma {:induction false} PathIff(p: string)
    ensures (forall i :: 0 <= i < |Split(p, '/')| ==> CleanSegment(Split(p, '/')[i])) <==> CleanPath(p)
    decreases |p|
  {
    hide CleanSegment, CleanPath;
    var n := CutAtSlash(p);
    var parts := Split(p, '/');
    if n == |p| {
      assert p[..n] == p;
      SegmentIff(p);
      assert parts[0] == p;
    } else {
      var a, q := p[..n], p[n + 1..];
      PathIff(q);
      SegmentIff(a);
      assert parts[0] == a;
      assert parts[1..] == Split(q, '/');
      assert (forall i :: 0 <= i < |parts| ==> CleanSegment(parts[i])) <==>
             CleanSegment(a) && forall i :: 0 <= i < |parts[1..]| ==> CleanSegment(parts[1..][i]) by {
        if CleanSegment(a) && forall i :: 0 <= i < |parts[1..]| ==> CleanSegment(parts[1..][i]) {
          forall i | 0 <= i < |parts|
            ensures CleanSegment(parts[i])
          {
            if i > 0 { assert parts[i] == parts[1..][i - 1]; }
          }
        }
      }
      CleanAroundSlash(a, q);
    }
  }

  /** An authority of n characters, alone or before a clean path. */
  predicate PlaceAt(s: string, n: nat)
  {
    1 <= n <= 255 && n <= |s| && '/' !in s[..n] && (n == |s| || (s[n] == '/' && CleanPath(s[n + 1..])))
  }

  ghost predicate GoodPlace(s: string)
  {
    exists n: nat :: PlaceAt(s, n)
  }

  lemma PlaceIff(s: string)
    ensures NormalizedPath(s) <==> GoodPlace(s)
  {
    hide CleanPath, Contains;
    var n := CutAtSlash(s);
    var parts := Split(s, '/');
    if n == |s| {
      assert s[..n] == s;
    } else {
      PathIff(s[n + 1..]);
      var rest := Split(s[n + 1..], '/');
      assert parts[1..] == rest;
      assert forall i :: 1 <= i < |parts| ==> parts[i] == rest[i - 1];
      assert forall i :: 0 <= i < |rest| ==> rest[i] == parts[i + 1];
    }
    if NormalizedPath(s) {
      assert PlaceAt(s, n);
    }
    if GoodPlace(s) {
      var m: nat :| PlaceAt(s, m);
      assert m == n;
    }
  }

  /** A lower-case scheme of k characters and then a place without credentials, query, fragment or escapes. */
  ghost predicate UriAt(uri: string, k: nat)
  {
    && 1 <= k <= 32 && k + 3 < |uri| && 'a' <= uri[0] <= 'z'
    && (forall i :: 0 <= i < k ==> Plain(uri[i], false) || uri[i] in "+.-")
    && uri[k] == ':' && uri[k + 1] == '/' && uri[k + 2] == '/'
    && (forall i :: k + 3 <= i < |uri| ==> uri[i] !in "@?#\\%") && GoodPlace(uri[k + 3..])
  }

  ghost predicate GoodURI(uri: string)
  {
    |uri| <= 2048 && (forall i :: 0 <= i < |uri| ==> '!' <= uri[i] <= '~') && exists k: nat :: UriAt(uri, k)
  }

  lemma UriAtIff(uri: string, k: nat)
    requires k < |uri|
    ensures SchemeAt(uri, k) && (forall i :: k + 3 <= i < |uri| ==> uri[i] !in "@?#\\%") && NormalizedPath(uri[k + 3..])
            <==> UriAt(uri, k)
  {
    hide NormalizedPath, GoodPlace;
    if 1 <= k && k + 3 < |uri| {
      PlaceIff(uri[k + 3..]);
      var cut := uri[k..k + 3];
      assert cut[0] == uri[k] && cut[1] == uri[k + 1] && cut[2] == uri[k + 2];
      assert cut == "://" <==> cut[0] == ':' && cut[1] == '/' && cut[2] == '/';
    }
  }

  lemma UriIff(uri: string)
    ensures ValidURI(uri) <==> GoodURI(uri)
  {
    hide NormalizedPath, UriAt, TrimSpace;
    if uri != "" && forall i :: 0 <= i < |uri| ==> '!' <= uri[i] <= '~' {
      PrintableIsTight(uri);
    }
    if ValidURI(uri) {
      var k :| 0 <= k < |uri| && SchemeAt(uri, k)
               && (forall i :: k + 3 <= i < |uri| ==> uri[i] !in "@?#\\%") && NormalizedPath(uri[k + 3..]);
      UriAtIff(uri, k);
    }
    if GoodURI(uri) {
      var k: nat :| UriAt(uri, k);
      UriIsLonger(uri, k);
      UriAtIff(uri, k);
    }
  }

  lemma UriIsLonger(uri: string, k: nat)
    requires UriAt(uri, k)
    ensures k < |uri|
  {
  }

  lemma PrintableIsTight(s: string)
    requires s != "" && forall i :: 0 <= i < |s| ==> '!' <= s[i] <= '~'
    ensures TrimSpace(s) == s
  {
    assert !IsSpace(s[0]) && !IsSpace(s[|s| - 1]);
    TrimOfTight(s);
  }

  // ---------------------------------------------------------------- the operations

  lemma ExpiryIff(expiry: Option<Timestamp>, t: int)
    ensures FromTime(t).Valid() <==> -62135596800 * 1_000_000_000 <= t < 253402300800 * 1_000_000_000
    ensures FromTime(t).Valid() ==>
              (expiry.Some? && expiry.value.Valid() && expiry.value.AsTime() == t <==>
               expiry == Some(Timestamp(t / 1_000_000_000, t % 1_000_000_000)))
  {
    TimestampRoundTrip(t);
  }

  /** What a call to Externalize may ask for. */
  ghost predicate GoodCall(backends: Backends, call: ExternalizeCall)
  {
    && GoodTrusted(call.trusted) && call.backendID in backends
    && GoodMedia(call.mediaType) && GoodPurpose(call.purpose)
    && -62135596800 * 1_000_000_000 <= call.expiresAt < 253402300800 * 1_000_000_000
  }

  lemma InstalledIsGood(backends: Backends, ids: seq<string>)
    requires WellInstalled(backends, ids)
    ensures forall id :: id in backends ==> ValidResolverID(id) && 0 < backends[id].maxBytes <= 0x4000_0000
    ensures backends != map[] ==> ValidResolvers(ids)
    ensures forall id :: id in ids <==> id in backends
  {
    hide ValidResolverID;
    if backends != map[] {
      var id :| id in backends;
      assert id in ids;
    }
  }

  lemma InputIff(backends: Backends, ids: seq<string>, call: ExternalizeCall, world: ExternalizeWorld)
    requires WellInstalled(backends, ids)
    ensures InputError(backends, call, world).None? <==>
            GoodCall(backends, call) && world.hasContext && !world.cancelledAtStart && world.now < call.expiresAt
  {
    hide ValidResolverID, ValidMediaType, ValidPurpose, ValidTrusted, WellInstalled, GoodTrusted, GoodMedia,
      GoodPurpose;
    InstalledIsGood(backends, ids);
    TrustedIff(call.trusted);
    MediaIff(call.mediaType);
    TokensIff(call.purpose);
    ExpiryIff(None, call.expiresAt);
  }

  /** The reference has the call's backend, media type, purpose and expiry, and the content's size and hash. */
  predicate Describes(hash: Bytes -> Bytes, ref: ResourceRef, call: ExternalizeCall, content: Bytes)
  {
    && ref.resolverID == call.backendID && ref.mediaType == call.mediaType && ref.purpose == call.purpose
    && ref.expiresAt == Some(Timestamp(call.expiresAt / 1_000_000_000, call.expiresAt % 1_000_000_000))
    && ref.sizeBytes == |content| && ref.sha256 == hash(content)
  }

  lemma ReturnedIff(
    hash: Bytes -> Bytes, backends: Backends, ids: seq<string>, call: ExternalizeCall, content: Bytes, ref: ResourceRef,
    now: int)
    requires WellInstalled(backends, ids) && GoodCall(backends, call) && now < call.expiresAt
    requires 0 < |content| <= backends[call.backendID].maxBytes
    ensures MetadataMatches(hash, ref, call, content) <==> Describes(hash, ref, call, content)
    ensures Describes(hash, ref, call, content) ==>
              (ValidRefAt(ref, ids, now) <==> |ref.sha256| == 32 && GoodURI(ref.uri))
  {
    hide ValidResolverID, ValidMediaType, ValidPurpose, ValidURI, WellInstalled, GoodTrusted, GoodMedia, GoodPurpose,
      GoodURI, ValidResolvers;
    InstalledIsGood(backends, ids);
    MediaIff(call.mediaType);
    TokensIff(call.purpose);
    ExpiryIff(ref.expiresAt, call.expiresAt);
    UriIff(ref.uri);
  }

  /**
   Externalize returns a reference exactly when the call is good, the context is live
   throughout, the call's expiry is still ahead at all three looks at the clock, the
   reader serves some content within the installed bound, and the backend replied that
   very reference, without unknown fields, at a good URI, and describing that content.
   */
  lemma ExternalizesIff(
    hash: Bytes -> Bytes, backends: Backends, ids: seq<string>, call: ExternalizeCall, world: ExternalizeWorld,
    ref: ResourceRef)
    requires WellInstalled(backends, ids) && (call.reader.Some? ==> Proper(call.reader.value))
    ensures Externalize(hash, backends, ids, call, world) == Ok(ref) <==>
            && GoodCall(backends, call)
            && world.hasContext && !world.cancelledAtStart && !world.cancelledAfterRead && !world.cancelledAfterReply
            && world.now < call.expiresAt && world.afterRead < call.expiresAt && world.afterReply < call.expiresAt
            && world.reply == Ok(Some(ref))
            && !ref.unknownFields && |ref.sha256| == 32 && GoodURI(ref.uri)
            && call.reader.Some?
            && exists content ::
                 && Serves(call.reader.value, 0, backends[call.backendID].maxBytes, 0, content)
                 && 0 < |content| <= backends[call.backendID].maxBytes && Describes(hash, ref, call, content)
  {
    hide ReadAll, Serves, MetadataMatches, ValidRefAt, Describes, GoodURI, GoodCall, InputError, WellInstalled;
    InputIff(backends, ids, call, world);
    if InputError(backends, call, world).None? && call.reader.Some? {
      CallIsInstalled(backends, ids, call);
      var limit := backends[call.backendID].maxBytes;
      forall content
        ensures ReadAll(call.reader, limit) == Ok(content) <==>
                Serves(call.reader.value, 0, limit, 0, content) && |content| <= limit
      {
        ReadIffServed(call.reader.value, limit, content);
      }
      if ReadAll(call.reader, limit).Ok? {
        var content := ReadAll(call.reader, limit).value;
        if content != [] {
          ReturnedIff(hash, backends, ids, call, content, ref, world.now);
        }
      }
    } else if call.reader.None? && InputError(backends, call, world).None? {
      NothingToRead(backends, call);
    }
  }

  lemma CallIsInstalled(backends: Backends, ids: seq<string>, call: ExternalizeCall)
    requires WellInstalled(backends, ids) && GoodCall(backends, call)
    ensures call.backendID in backends && backends[call.backendID].maxBytes > 0
  {
  }

  lemma NothingToRead(backends: Backends, call: ExternalizeCall)
    requires GoodCall(backends, call)
    ensures call.backendID in backends && ReadAll(None, backends[call.backendID].maxBytes).Err?
  {
  }

  /** What every error that Externalize reports means. */
  lemma ExternalizeErrors(
    hash: Bytes -> Bytes, backends: Backends, ids: seq<string>, call: ExternalizeCall, world: ExternalizeWorld)
    requires WellInstalled(backends, ids) && (call.reader.Some? ==> Proper(call.reader.value))
    requires Externalize(hash, backends, ids, call, world).Err?
    ensures match Externalize(hash, backends, ids, call, world).error
            case InvalidRegistry => backends == map[]
            case ContextRequired => !world.hasContext
            case InvalidTrustedContext => !GoodTrusted(call.trusted)
            case ExternalizerUnavailable => call.backendID !in backends
            case Expired =>
              call.expiresAt <= world.now || call.expiresAt <= world.afterRead || call.expiresAt <= world.afterReply
            case SizeMismatch =>
              call.backendID in backends && ReadAll(call.reader, backends[call.backendID].maxBytes) == Ok([])
            case MetadataMismatch =>
              && call.backendID in backends && ReadAll(call.reader, backends[call.backendID].maxBytes).Ok?
              && world.reply.Ok?
              && (world.reply.value.Some? ==>
                    var content := ReadAll(call.reader, backends[call.backendID].maxBytes).value;
                    !Describes(hash, world.reply.value.value, call, content))
            case InvalidRef =>
              || !GoodMedia(call.mediaType) || !GoodPurpose(call.purpose)
              || !(-62135596800 * 1_000_000_000 <= call.expiresAt < 253402300800 * 1_000_000_000)
              || (&& world.reply.Ok? && world.reply.value.Some?
                  && var ref := world.reply.value.value;
                     ref.unknownFields || |ref.sha256| != 32 || !GoodURI(ref.uri))
            case Reading(e) =>
              || (e == Cancelled && (world.cancelledAtStart || world.cancelledAfterRead || world.cancelledAfterReply))
              || (e == Unavailable && world.reply.Err?)
              || (call.backendID in backends && ReadAll(call.reader, backends[call.backendID].maxBytes) == Err(e))
            case _ => false
  {
    hide ReadAll, ValidRefAt, MetadataMatches, Describes, GoodURI, WellInstalled, ValidResolverID, ValidMediaType,
      ValidPurpose, ValidTrusted, GoodTrusted, GoodMedia, GoodPurpose;
    InstalledIsGood(backends, ids);
    TrustedIff(call.trusted);
    MediaIff(call.mediaType);
    TokensIff(call.purpose);
    ExpiryIff(None, call.expiresAt);
    if InputError(backends, call, world).None? && world.reply.Ok? && world.reply.value.Some? {
      var limit := backends[call.backendID].maxBytes;
      if ReadAll(call.reader, limit).Ok? && ReadAll(call.reader, limit).value != [] {
        ReadIsBounded(call.reader, limit);
        ReturnedIff(hash, backends, ids, call, ReadAll(call.reader, limit).value, world.reply.value.value, world.now);
      }
    }
  }

  lemma ReadIsBounded(reader: Option<Reader>, limit: nat)
    requires reader.Some? ==> Proper(reader.value)
    ensures ReadAll(reader, limit).Ok? ==> |ReadAll(reader, limit).value| <= limit
  {
  }

  /** A reference that Resolve takes at this time. */
  ghost predicate GoodRef(ref: ResourceRef, now: int)
  {
    && !ref.unknownFields && GoodID(ref.resolverID) && GoodMedia(ref.mediaType) && GoodPurpose(ref.purpose)
    && |ref.sha256| == 32 && 0 < ref.sizeBytes <= 0x4000_0000 && GoodURI(ref.uri)
    && ref.expiresAt.Some? && Dated(ref.expiresAt.value) && now < TimeOf(ref.expiresAt.value)
  }

  predicate Dated(t: Timestamp)
  {
    -62135596800 <= t.seconds <= 253402300799 && 0 <= t.nanos <= 999_999_999
  }

  function TimeOf(t: Timestamp): int
  {
    t.seconds * 1_000_000_000 + t.nanos
  }

  lemma RefIff(ref: ResourceRef, now: int)
    ensures !ref.unknownFields && ValidRefAt(ref, [ref.resolverID], now) <==> GoodRef(ref, now)
  {
    hide ValidResolverID, ValidMediaType, ValidPurpose, ValidURI, GoodID, GoodMedia, GoodPurpose, GoodURI;
    TokensIff(ref.resolverID);
    TokensIff(ref.purpose);
    MediaIff(ref.mediaType);
    UriIff(ref.uri);
  }

  /**
   Resolve returns content and a media type exactly when the context is live, the
   trusted context and the reference are good, the reference's backend is installed and
   takes its size, the expiry is still ahead at both looks at the clock, and the backend
   served that content, with the size, digest and media type of the reference.
   */
  lemma ResolvesIff(
    hash: Bytes -> Bytes, backends: Backends, ref: Option<ResourceRef>, trusted: TrustedContext, world: ResolveWorld,
    resolved: Resolved)
    requires ProperWorld(world)
    ensures Resolve(hash, backends, ref, trusted, world) == Ok(resolved) <==>
            && world.hasContext && !world.cancelledAtStart && !world.cancelledAfterRead && GoodTrusted(trusted)
            && ref.Some? && GoodRef(ref.value, world.now) && world.later < TimeOf(ref.value.expiresAt.value)
            && ref.value.resolverID in backends && ref.value.sizeBytes <= backends[ref.value.resolverID].maxBytes
            && world.reply.Replied? && !world.reply.closeFails && world.reply.body.Some?
            && Serves(world.reply.body.value, 0, ref.value.sizeBytes, 0, resolved.content)
            && |resolved.content| == ref.value.sizeBytes && hash(resolved.content) == ref.value.sha256
            && resolved.mediaType == world.reply.mediaType == ref.value.mediaType
  {
    hide ReadAll, Serves, ValidRefAt, GoodURI, ValidTrusted, GoodTrusted, GoodID, GoodMedia, GoodPurpose;
    TrustedIff(trusted);
    if ref.Some? {
      RefIff(ref.value, world.now);
      if GoodRef(ref.value, world.now) && world.reply.Replied? && world.reply.body.Some? {
        ReadIffServed(world.reply.body.value, ref.value.sizeBytes, resolved.content);
      }
    }
  }

  /** What every error that Resolve reports means. */
  lemma ResolveErrors(
    hash: Bytes -> Bytes, backends: Backends, ref: Option<ResourceRef>, trusted: TrustedContext, world: ResolveWorld)
    requires ProperWorld(world) && Resolve(hash, backends, ref, trusted, world).Err?
    ensures match Resolve(hash, backends, ref, trusted, world).error
            case InvalidRegistry => backends == map[]
            case ContextRequired => !world.hasContext
            case InvalidTrustedContext => !GoodTrusted(trusted)
            case InvalidRef => ref.Some? ==> !GoodRef(ref.value, world.now)
            case ResolverUnavailable => ref.Some? && ref.value.resolverID !in backends
            case OversizeRef =>
              && ref.Some? && ref.value.resolverID in backends
              && backends[ref.value.resolverID].maxBytes < ref.value.sizeBytes
            case Expired =>
              && ref.Some? && ref.value.expiresAt.Some? && Dated(ref.value.expiresAt.value)
              && (TimeOf(ref.value.expiresAt.value) <= world.now || TimeOf(ref.value.expiresAt.value) <= world.later)
            case MediaTypeMismatch =>
              ref.Some? && world.reply.Replied? && world.reply.mediaType != ref.value.mediaType
            case SizeMismatch =>
              && ref.Some? && world.reply.Replied? && ReadAll(world.reply.body, ref.value.sizeBytes).Ok?
              && |ReadAll(world.reply.body, ref.value.sizeBytes).value| < ref.value.sizeBytes
            case DigestMismatch =>
              && ref.Some? && world.reply.Replied? && ReadAll(world.reply.body, ref.value.sizeBytes).Ok?
              && hash(ReadAll(world.reply.body, ref.value.sizeBytes).value) != ref.value.sha256
            case Reading(e) =>
              || (e == Cancelled && (world.cancelledAtStart || world.cancelledAfterReply || world.cancelledAfterRead))
              || (e == Unavailable && (world.reply.Refused? || world.reply.body.None? || world.reply.closeFails))
              || (ref.Some? && world.reply.Replied? && ReadAll(world.reply.body, ref.value.sizeBytes) == Err(e))
            case _ => false
  {
    hide ReadAll, ValidRefAt, GoodURI, ValidTrusted, GoodTrusted, GoodID, GoodMedia, GoodPurpose;
    TrustedIff(trusted);
    if ref.Some? {
      RefIff(ref.value, world.now);
      if world.reply.Replied? {
        ReadIsBounded(world.reply.body, ref.value.sizeBytes);
      }
    }
  }

  /**
   A registry comes about exactly for registrations with good, distinct IDs, a bound up to
   1 GiB and both backends.
   */
  lemma InstallsIff(registrations: seq<Registration>)
    ensures Installed(registrations).Some? <==>
            && (forall i :: 0 <= i < |registrations| ==>
                  && GoodID(registrations[i].id) && 0 < registrations[i].maxBytes <= 0x4000_0000
                  && !registrations[i].resolverNil && !registrations[i].externalizerNil)
            && forall i, j :: 0 <= i < j < |registrations| ==> registrations[i].id != registrations[j].id
  {
    hide Installed, ValidResolverID, GoodID, Holds;
    InstalledIff(registrations);
    forall i | 0 <= i < |registrations|
      ensures ValidResolverID(registrations[i].id) <==> GoodID(registrations[i].id)
    {
      TokensIff(registrations[i].id);
    }
  }
}
