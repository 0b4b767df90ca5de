/**
 The base-128 varints of the Protocol Buffers wire format, as the protowire
 package appends and consumes them: little-endian groups of seven bits, at most
 ten bytes, values below 2^64.  Consuming also accepts over-long spellings; only
 the shortest spelling is what appending produces.
 */
module Varint {
  import opened Bytes

  const UINT64_LIMIT := 0x1_0000_0000_0000_0000

  datatype Consumed =
    | Truncated
    | Overflow
    | Parsed(value: nat, size: nat)

  function AppendVarint(v: nat): (r: Bytes)
    ensures |r| >= 1
  {
    if v < 128 then [v] else [v % 128 + 128] + AppendVarint(v / 128)
  }

  /** The bound on what is still representable after `depth` groups. */
  function Weight(depth: nat): (w: nat)
    requires depth <= 9
    ensures w >= 2
    decreases 9 - depth
  {
    if depth == 9 then 2 else 128 * Weight(depth + 1)
  }

  lemma WeightOfWholeVarint()
    ensures Weight(0) == UINT64_LIMIT
  {
    assert Weight(7) == 128 * Weight(8) == 128 * (128 * 2);
    assert Weight(5) == 128 * Weight(6) == 128 * (128 * Weight(7));
    assert Weight(3) == 128 * Weight(4) == 128 * (128 * Weight(5));
    assert Weight(1) == 128 * Weight(2) == 128 * (128 * Weight(3));
  }

  /** Consumes the groups from position `depth` on; the tenth byte may only be 0 or 1. */
  function ConsumeFrom(b: Bytes, depth: nat): (r: Consumed)
    requires depth <= 9
    ensures r.Parsed? ==> 1 <= r.size <= |b| && r.size <= 10 - depth && r.value < Weight(depth)
    decreases 9 - depth
  {
    if b == [] then Truncated
    else if depth == 9 then
      if b[0] < 2 then Parsed(b[0], 1) else Overflow
    else if b[0] < 128 then Parsed(b[0], 1)
    else
      match ConsumeFrom(b[1..], depth + 1)
      case Parsed(v, n) => Parsed(b[0] - 128 + 128 * v, n + 1)
      case other => other
  }

  function ConsumeVarint(b: Bytes): (r: Consumed)
    ensures r.Parsed? ==> 1 <= r.size <= |b| && r.size <= 10 && r.value < UINT64_LIMIT
  {
    WeightOfWholeVarint();
    ConsumeFrom(b, 0)
  }

  lemma {:induction false} ConsumeAppendFrom(v: nat, rest: Bytes, depth: nat)
    requires depth <= 9 && v < Weight(depth)
    ensures ConsumeFrom(AppendVarint(v) + rest, depth) == Parsed(v, |AppendVarint(v)|)
    decreases 9 - depth
  {
    var b := AppendVarint(v) + rest;
    if depth < 9 && v >= 128 {
      assert b[1..] == AppendVarint(v / 128) + rest;
      ConsumeAppendFrom(v / 128, rest, depth + 1);
    }
  }

  /** Consuming undoes appending, whatever bytes follow. */
  lemma ConsumeUndoesAppend(v: nat, rest: Bytes)
    requires v < UINT64_LIMIT
    ensures ConsumeVarint(AppendVarint(v) + rest) == Parsed(v, |AppendVarint(v)|)
  {
    WeightOfWholeVarint();
    ConsumeAppendFrom(v, rest, 0);
  }

  /** No spelling of a value below the limit is a prefix of another value's. */
  lemma AppendIsPrefixFree(v: nat, w: nat, restV: Bytes, restW: Bytes)
    requires v < UINT64_LIMIT && w < UINT64_LIMIT
    requires AppendVarint(v) + restV == AppendVarint(w) + restW
    ensures v == w && restV == restW
  {
    ConsumeUndoesAppend(v, restV);
    ConsumeUndoesAppend(w, restW);
    assert restV == (AppendVarint(v) + restV)[|AppendVarint(v)|..];
    assert restW == (AppendVarint(w) + restW)[|AppendVarint(w)|..];
  }

  lemma {:induction false} ConsumePrefixFrom(b: Bytes, depth: nat)
    requires depth <= 9 && ConsumeFrom(b, depth).Parsed?
    ensures ConsumeFrom(b[..ConsumeFrom(b, depth).size], depth) == ConsumeFrom(b, depth)
    decreases 9 - depth
  {
    if depth < 9 && b[0] >= 128 {
      ConsumePrefixFrom(b[1..], depth + 1);
      var n := ConsumeFrom(b, depth).size;
      assert b[..n][1..] == b[1..][..n - 1];
    }
  }

  /** canonicalVarint: the `size` leading bytes are the shortest spelling of what they denote. */
  predicate CanonicalVarint(raw: Bytes, size: int)
  {
    0 < size <= |raw|
    && match ConsumeVarint(raw[..size])
       case Parsed(v, _) => AppendVarint(v) == raw[..size]
       case _ => AppendVarint(0) == raw[..size]
  }

  /** How protowire reports a failure: a negative size. */
  function SizeOf(c: Consumed): int
  {
    match c
    case Truncated => -1
    case Overflow => -3
    case Parsed(_, n) => n
  }

  lemma CanonicalIsAppended(raw: Bytes)
    requires CanonicalVarint(raw, SizeOf(ConsumeVarint(raw)))
    ensures ConsumeVarint(raw).Parsed?
    ensures AppendVarint(ConsumeVarint(raw).value) == raw[..ConsumeVarint(raw).size]
  {
    ConsumePrefixFrom(raw, 0);
  }

  /** The canonicity test accepts exactly the bytes that start with an appended varint. */
  lemma CanonicalIffAppended(raw: Bytes)
    ensures CanonicalVarint(raw, SizeOf(ConsumeVarint(raw)))
       <==> exists v: nat :: v < UINT64_LIMIT && AppendVarint(v) <= raw
  {
    var c := ConsumeVarint(raw);
    if exists v: nat :: v < UINT64_LIMIT && AppendVarint(v) <= raw {
      var v: nat :| v < UINT64_LIMIT && AppendVarint(v) <= raw;
      var rest := raw[|AppendVarint(v)|..];
      assert raw == AppendVarint(v) + rest;
      ConsumeUndoesAppend(v, rest);
      ConsumeUndoesAppend(v, []);
      assert AppendVarint(v) + [] == raw[..c.size];
    }
    if CanonicalVarint(raw, SizeOf(c)) {
      CanonicalIsAppended(raw);
      assert AppendVarint(c.value) <= raw;
    }
  }
}
