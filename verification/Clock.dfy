/**
 Instants are nanoseconds since the Unix epoch.  Protobuf timestamps are checked
 against the range of years 1 to 9999, and differences saturate like time.Sub.
 */
module Clock {
  const SECOND := 1_000_000_000
  const MINUTE := 60 * SECOND
  const MAX_DURATION := 0x7fff_ffff_ffff_ffff
  const MIN_DURATION := -0x8000_0000_0000_0000

  const MIN_SECONDS := -62135596800
  const MAX_SECONDS := 253402300799

  datatype Timestamp = Timestamp(seconds: int, nanos: int)
  {
    /** CheckValid. */
    predicate Valid()
    {
      MIN_SECONDS <= seconds <= MAX_SECONDS && 0 <= nanos < SECOND
    }

    function AsTime(): int
    {
      seconds * SECOND + nanos
    }
  }

  /** timestamppb.New. */
  function FromTime(t: int): Timestamp
  {
    Timestamp(t / SECOND, t % SECOND)
  }

  /** The instants that have a valid timestamp. */
  predicate Representable(t: int)
  {
    MIN_SECONDS * SECOND <= t < (MAX_SECONDS + 1) * SECOND
  }

  lemma TimestampRoundTrip(t: int)
    ensures FromTime(t).AsTime() == t
    ensures FromTime(t).Valid() <==> Representable(t)
  {
    assert t == t / SECOND * SECOND + t % SECOND;
  }

  /** time.Time.Sub. */
  function Sub(a: int, b: int): int
  {
    if a - b > MAX_DURATION then MAX_DURATION
    else if a - b < MIN_DURATION then MIN_DURATION
    else a - b
  }
}
