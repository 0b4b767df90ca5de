/**
 The in-memory replay store: a purging map from length-prefixed tuple keys to
 the digest first admitted and its expiry.  A run is a sequence of calls in the
 order in which they hold the lock, each with the clock reading it took.
 */
module Replay {
  import opened Bytes

  const UINT32_LIMIT := 0x1_0000_0000
  const MESSAGE_ID_BYTES := 16

  datatype Outcome = First | Duplicate | Conflict | Unavailable

  datatype Entry = Entry(digest: Bytes, expires: int)

  type Entries = map<Bytes, Entry>

  datatype Tuple = Tuple(tenant: Bytes, audience: Bytes, sender: Bytes, messageID: Bytes)

  datatype Call = Call(now: int, tuple: Tuple, digest: Bytes, expires: int)

  // -------------------------------------------------------------------- keys

  /** binary.BigEndian.PutUint32 of a length: it keeps the length modulo 2^32. */
  function BigEndian32(n: nat): (r: Bytes)
    ensures |r| == 4
  {
    var m := n % UINT32_LIMIT;
    [m / 256 / 256 / 256, m / 256 / 256 % 256, m / 256 % 256, m % 256]
  }

  function KeyOf(parts: seq<Bytes>): Bytes
  {
    if parts == [] then [] else BigEndian32(|parts[0]|) + parts[0] + KeyOf(parts[1..])
  }

  lemma {:induction false} KeySnoc(parts: seq<Bytes>, part: Bytes)
    ensures KeyOf(parts + [part]) == KeyOf(parts) + BigEndian32(|part|) + part
  {
    if parts == [] {
      assert KeyOf([part]) == BigEndian32(|part|) + part + KeyOf([]);
    } else {
      assert (parts + [part])[1..] == parts[1..] + [part];
      KeySnoc(parts[1..], part);
    }
  }

  /** replayTupleKey. */
  method ReplayTupleKey(parts: seq<Bytes>) returns (key: Bytes)
    ensures key == KeyOf(parts)
  {
    key := [];
    for i := 0 to |parts|
      invariant key == KeyOf(parts[..i])
    {
      key := key + BigEndian32(|parts[i]|);
      key := key + parts[i];
      KeySnoc(parts[..i], parts[i]);
      assert parts[..i + 1] == parts[..i] + [parts[i]];
    }
    assert parts[..|parts|] == parts;
  }

  lemma FromBigEndian(n: nat)
    ensures var b := BigEndian32(n); n % UINT32_LIMIT == ((b[0] as int * 256 + b[1]) * 256 + b[2]) * 256 + b[3]
  {
    var m := n % UINT32_LIMIT;
    assert m == m / 256 * 256 + m % 256;
    assert m / 256 == m / 256 / 256 * 256 + m / 256 % 256;
    assert m / 256 / 256 == m / 256 / 256 / 256 * 256 + m / 256 / 256 % 256;
  }

  /** A prefix determines a length among any 2^32 consecutive ones. */
  lemma BigEndianInjective(m: nat, n: nat, low: nat)
    requires low <= m < low + UINT32_LIMIT && low <= n < low + UINT32_LIMIT && BigEndian32(m) == BigEndian32(n)
    ensures m == n
  {
    hide BigEndian32;
    FromBigEndian(m);
    FromBigEndian(n);
  }

  /** All parts have one of the 2^32 lengths from `low` on. */
  predicate Within(parts: seq<Bytes>, low: nat)
  {
    forall i :: 0 <= i < |parts| ==> low <= |parts[i]| < low + UINT32_LIMIT
  }

  /** Length prefixes make the key of a list of parts determine the list. */
  lemma {:induction false} KeyInjective(ps: seq<Bytes>, qs: seq<Bytes>, low: nat)
    requires Within(ps, low) && Within(qs, low) && KeyOf(ps) == KeyOf(qs)
    ensures ps == qs
  {
    if ps != [] && qs != [] {
      hide BigEndian32;
      var p, q, restP, restQ := ps[0], qs[0], KeyOf(ps[1..]), KeyOf(qs[1..]);
      var key := KeyOf(ps);
      assert key == BigEndian32(|p|) + (p + restP) && key == BigEndian32(|q|) + (q + restQ);
      assert BigEndian32(|p|) == key[..4] == BigEndian32(|q|);
      BigEndianInjective(|p|, |q|, low);
      assert p + restP == key[4..] == q + restQ;
      assert p == key[4..][..|p|] && restP == key[4..][|p|..] && restQ == key[4..][|q|..];
      KeyInjective(ps[1..], qs[1..], low);
      assert ps == [p] + ps[1..] && qs == [q] + qs[1..];
    }
  }

  /** A part of 2^32 bytes is framed like an empty one. */
  lemma LongPartsCollide(q: Bytes)
    requires |q| == UINT32_LIMIT - 4
    ensures KeyOf([BigEndian32(|q|) + q]) == KeyOf([[], q])
  {
    var p: Bytes := BigEndian32(|q|) + q;
    assert BigEndian32(|p|) == BigEndian32(0);
    assert KeyOf([p]) == BigEndian32(|p|) + p + KeyOf([]);
    assert [[], q][1..] == [q];
    assert KeyOf([q]) == BigEndian32(|q|) + q + KeyOf([]);
  }

  predicate ShorterThan(parts: seq<Bytes>, n: nat)
  {
    forall i :: 0 <= i < |parts| ==> |parts[i]| < n
  }

  ghost predicate Determines(n: nat)
  {
    forall ps, qs :: ShorterThan(ps, n) && ShorterThan(qs, n) && KeyOf(ps) == KeyOf(qs) ==> ps == qs
  }

  /** Keys determine all lists of parts shorter than a bound exactly when the bound is at most 2^32. */
  lemma KeyInjectiveIff(n: nat)
    ensures Determines(n) <==> n <= UINT32_LIMIT
  {
    if n <= UINT32_LIMIT {
      forall ps, qs | ShorterThan(ps, n) && ShorterThan(qs, n) && KeyOf(ps) == KeyOf(qs) ensures ps == qs {
        KeyInjective(ps, qs, 0);
      }
    } else {
      hide KeyOf, BigEndian32;
      var q: Bytes := seq(UINT32_LIMIT - 4, _ => 0);
      LongPartsCollide(q);
      var ps, qs := [BigEndian32(|q|) + q], [[], q];
      assert |ps| != |qs| && ShorterThan(ps, n) && ShorterThan(qs, n);
    }
  }

  // ------------------------------------------------------------- keys of tuples

  function Parts(t: Tuple): seq<Bytes>
  {
    [t.tenant, t.audience, t.sender, t.messageID]
  }

  function TupleKey(t: Tuple): Bytes
  {
    KeyOf(Parts(t))
  }

  /** What Admit asks of a tuple. */
  predicate Proper(t: Tuple)
  {
    t.tenant != [] && t.audience != [] && t.sender != [] && |t.messageID| == MESSAGE_ID_BYTES
  }

  /** No part is longer than 2^32 bytes. */
  predicate ShortTuple(t: Tuple)
  {
    |t.tenant| <= UINT32_LIMIT && |t.audience| <= UINT32_LIMIT && |t.sender| <= UINT32_LIMIT
  }

  lemma TupleKeyInjective(s: Tuple, t: Tuple)
    requires Proper(s) && Proper(t) && ShortTuple(s) && ShortTuple(t)
    ensures TupleKey(s) == TupleKey(t) <==> s == t
  {
    if TupleKey(s) == TupleKey(t) {
      var ps, qs := Parts(s), Parts(t);
      KeyInjective(ps, qs, 1);
      assert ps[0] == qs[0] && ps[1] == qs[1] && ps[2] == qs[2] && ps[3] == qs[3];
    }
  }

  lemma KeyOfFour(a: Bytes, b: Bytes, c: Bytes, d: Bytes)
    ensures KeyOf([a, b, c, d]) ==
            BigEndian32(|a|) + a + (BigEndian32(|b|) + b + (BigEndian32(|c|) + c + (BigEndian32(|d|) + d)))
  {
    hide BigEndian32;
    assert [a, b, c, d][1..] == [b, c, d] && [b, c, d][1..] == [c, d] && [c, d][1..] == [d] && [d][1..] == [];
    assert KeyOf([d]) == BigEndian32(|d|) + d;
    assert KeyOf([c, d]) == BigEndian32(|c|) + c + KeyOf([d]);
    assert KeyOf([b, c, d]) == BigEndian32(|b|) + b + KeyOf([c, d]);
  }

  lemma BigEndianWraps(n: nat)
    ensures BigEndian32(n + UINT32_LIMIT) == BigEndian32(n)
  {
    assert (n + UINT32_LIMIT) % UINT32_LIMIT == n % UINT32_LIMIT;
  }

  /**
   Two different tuples of the kind that Admit takes, with one key: the bytes shift from
   the tenant to the audience.
   */
  lemma LongTuplesCollide(a: Bytes, b: Bytes, x: Bytes, sender: Bytes, messageID: Bytes)
    requires |x| == UINT32_LIMIT - 4
    ensures TupleKey(Tuple(a + BigEndian32(|b|) + x, b, sender, messageID))
         == TupleKey(Tuple(a, x + BigEndian32(|b|) + b, sender, messageID))
    ensures a + BigEndian32(|b|) + x != a
  {
    hide BigEndian32, KeyOf;
    var p := BigEndian32(|b|);
    var tenant, audience := a + p + x, x + p + b;
    KeyOfFour(tenant, b, sender, messageID);
    KeyOfFour(a, audience, sender, messageID);
    BigEndianWraps(|a|);
    BigEndianWraps(|b|);
    assert |tenant| == |a| + UINT32_LIMIT && |audience| == |b| + UINT32_LIMIT;
    var rest := BigEndian32(|sender|) + sender + (BigEndian32(|messageID|) + messageID);
    assert BigEndian32(|a|) + tenant + (p + b + rest) == BigEndian32(|a|) + a + (p + audience + rest);
  }

  /** A tuple that Admit takes, with parts shorter than n. */
  predicate Admissible(t: Tuple, n: nat)
  {
    Proper(t) && ShorterThan(Parts(t), n)
  }

  ghost predicate TuplesDetermined(n: nat)
  {
    forall s, t :: Admissible(s, n) && Admissible(t, n) && TupleKey(s) == TupleKey(t) ==> s == t
  }

  /**
   Among the tuples that Admit takes, keys determine those with all parts shorter than
   a bound exactly when the bound is at most 2^32 + 1: without empty parts, a length of
   2^32 is still told from every other.
   */
  lemma TupleKeyInjectiveIff(n: nat)
    ensures TuplesDetermined(n) <==> n <= UINT32_LIMIT + 1
  {
    hide KeyOf, BigEndian32, TupleKey;
    if n <= UINT32_LIMIT + 1 {
      forall s, t | Admissible(s, n) && Admissible(t, n) && TupleKey(s) == TupleKey(t) ensures s == t {
        ShortFromParts(s, n);
        ShortFromParts(t, n);
        TupleKeyInjective(s, t);
      }
    } else {
      var x: Bytes := seq(UINT32_LIMIT - 4, _ => 0);
      var a, messageID: Bytes := [0], seq(MESSAGE_ID_BYTES, _ => 0);
      var s, t := Tuple(a + BigEndian32(|a|) + x, a, a, messageID), Tuple(a, x + BigEndian32(|a|) + a, a, messageID);
      LongTuplesCollide(a, a, x, a, messageID);
      assert s != t && Admissible(s, n) && Admissible(t, n);
    }
  }

  lemma ShortFromParts(t: Tuple, n: nat)
    requires ShorterThan(Parts(t), n) && n <= UINT32_LIMIT + 1
    ensures ShortTuple(t)
  {
    var parts := Parts(t);
    assert parts[0] == t.tenant && parts[1] == t.audience && parts[2] == t.sender;
  }

  // ------------------------------------------------------------------- admit

  predicate WellFormed(c: Call)
  {
    && Proper(c.tuple)
    && c.digest != []
    && c.expires > c.now
  }

  function Purge(entries: Entries, now: int): Entries
  {
    map k | k in entries && entries[k].expires > now :: entries[k]
  }

  function Admitted(entries: Entries, c: Call): (Entries, Outcome)
  {
    if !WellFormed(c) then (entries, Unavailable)
    else
      var kept := Purge(entries, c.now);
      var key := TupleKey(c.tuple);
      if key in kept then (kept, if kept[key].digest == c.digest then Duplicate else Conflict)
      else (kept[key := Entry(c.digest, c.expires)], First)
  }

  class InMemoryReplayStore {
    var entries: Entries

    constructor ()
      ensures entries == map[]
    {
      entries := map[];
    }

    /** Admit, holding the lock; `c.now` is the reading taken before the lock. */
    method Admit(c: Call) returns (outcome: Outcome)
      modifies this
      ensures (entries, outcome) == Admitted(old(entries), c)
    {
      if !WellFormed(c) {
        return Unavailable;
      }
      var key := ReplayTupleKey([c.tuple.tenant, c.tuple.audience, c.tuple.sender, c.tuple.messageID]);
      var candidates := entries.Keys;
      while candidates != {}
        invariant candidates <= old(entries).Keys
        invariant entries.Keys == set k | k in old(entries) && (k in candidates || old(entries)[k].expires > c.now)
        invariant forall k :: k in entries ==> entries[k] == old(entries)[k]
        decreases |candidates|
      {
        var candidate :| candidate in candidates;
        if entries[candidate].expires <= c.now {
          entries := entries - {candidate};
        }
        candidates := candidates - {candidate};
      }
      assert entries == Purge(old(entries), c.now);
      if key in entries {
        if entries[key].digest == c.digest {
          return Duplicate;
        }
        return Conflict;
      }
      entries := entries[key := Entry(c.digest, c.expires)];
      return First;
    }
  }
}
