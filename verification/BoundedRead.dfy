/**
 The bounded read loop against an arbitrary reader.  A reader is a function from
 the number of the call and the length of the chunk it is given to what it does:
 the count it reports, the chunk it leaves behind, how it ends, and whether the
 context is cancelled before or after.
 */
module BoundedRead {
  import opened Bytes

  const CHUNK := 32 * 1024

  datatype Ending = More | Eof | Failed

  datatype Step = Step(count: int, chunk: Bytes, ending: Ending, cancelledBefore: bool, cancelledAfter: bool)

  type Reader = (nat, nat) -> Step

  datatype ReadError = Cancelled | Unavailable | TooLarge

  /** A reader cannot resize the slice it is given. */
  ghost predicate Proper(reader: Reader)
  {
    forall call, length :: |reader(call, length).chunk| == length
  }

  function ChunkLength(taken: nat, limit: nat): (n: nat)
    requires taken <= limit
    ensures 1 <= n <= limit + 1 - taken
  {
    var remaining := limit + 1 - taken;
    if CHUNK > remaining then remaining else CHUNK
  }

  /** What the loop returns from here, and how many bytes it has taken in all. */
  datatype Outcome = Outcome(result: Result<Bytes, ReadError>, taken: nat)

  ghost function ReadFrom(reader: Reader, call: nat, limit: nat, output: Bytes): (r: Outcome)
    requires Proper(reader) && |output| <= limit
    ensures r.taken <= limit + 1
    ensures r.result.Ok? ==> output <= r.result.value && |r.result.value| == r.taken <= limit
    ensures r.result == Err(TooLarge) ==> r.taken == limit + 1
    decreases limit - |output|
  {
    var n := ChunkLength(|output|, limit);
    var step := reader(call, n);
    if step.cancelledBefore then Outcome(Err(Cancelled), |output|)
    else if step.cancelledAfter then Outcome(Err(Cancelled), |output|)
    else if step.count < 0 || step.count > n then Outcome(Err(Unavailable), |output|)
    else
      var more := output + step.chunk[..step.count];
      if |more| > limit then Outcome(Err(TooLarge), |more|)
      else if step.ending == Eof then Outcome(Ok(more), |more|)
      else if step.ending == Failed || step.count == 0 then Outcome(Err(Unavailable), |more|)
      else ReadFrom(reader, call + 1, limit, more)
  }

  ghost function ReadAll(reader: Option<Reader>, limit: nat): Result<Bytes, ReadError>
    requires reader.Some? ==> Proper(reader.value)
  {
    if reader.None? || limit == 0 then Err(Unavailable) else ReadFrom(reader.value, 0, limit, []).result
  }

  /** readBounded.  The statement after its loop is never reached. */
  method ReadBounded(reader: Option<Reader>, limit: nat) returns (r: Result<Bytes, ReadError>, ghost taken: nat)
    requires reader.Some? ==> Proper(reader.value)
    ensures r == ReadAll(reader, limit)
    ensures taken <= limit + 1
    ensures r.Ok? ==> |r.value| == taken <= limit
  {
    if reader.None? || limit == 0 {
      return Err(Unavailable), 0;
    }
    var output: Bytes := [];
    var call := 0;
    r, taken := Err(TooLarge), 0;
    while |output| <= limit
      invariant |output| <= limit
      invariant ReadFrom(reader.value, call, limit, output) == ReadFrom(reader.value, 0, limit, [])
      decreases limit - |output|
    {
      var remaining := limit + 1 - |output|;
      var length := if CHUNK > remaining then remaining else CHUNK;
      var step := reader.value(call, length);
      if step.cancelledBefore || step.cancelledAfter {
        return Err(Cancelled), |output|;
      }
      if step.count < 0 || step.count > length {
        return Err(Unavailable), |output|;
      }
      if step.count > 0 {
        output := output + step.chunk[..step.count];
        if |output| > limit {
          return Err(TooLarge), |output|;
        }
      }
      assert step.count == 0 ==> output + step.chunk[..0] == output;
      if step.ending == Eof {
        return Ok(output), |output|;
      }
      if step.ending == Failed || step.count == 0 {
        return Err(Unavailable), |output|;
      }
      call := call + 1;
    }
    assert false;
  }

  /**
   From this call on, the reader hands out exactly `content` in order, in chunks of
   its own choosing, and ends with it; it never stalls, fails or is cancelled.
   */
  ghost predicate Serves(reader: Reader, call: nat, limit: nat, taken: nat, content: Bytes)
    requires taken <= limit
    decreases limit - taken
  {
    var n := ChunkLength(taken, limit);
    var step := reader(call, n);
    && !step.cancelledBefore && !step.cancelledAfter
    && 0 <= step.count <= n && |step.chunk| == n
    && step.chunk[..step.count] <= content
    && step.ending != Failed
    && (step.ending == Eof ==> step.count == |content|)
    && (step.ending == More ==> step.count > 0)
    && (step.ending == More && taken + step.count <= limit ==>
          Serves(reader, call + 1, limit, taken + step.count, content[step.count..]))
  }

  /** Whatever the chunking, serving content within the limit reads that content, and more than the limit is refused. */
  lemma {:induction false} ServedIsRead(reader: Reader, call: nat, limit: nat, output: Bytes, content: Bytes)
    requires Proper(reader) && |output| <= limit && Serves(reader, call, limit, |output|, content)
    ensures ReadFrom(reader, call, limit, output).result ==
            if |output| + |content| <= limit then Ok(output + content) else Err(TooLarge)
    decreases limit - |output|
  {
    var n := ChunkLength(|output|, limit);
    var step := reader(call, n);
    var more := output + step.chunk[..step.count];
    if step.ending == Eof {
      assert step.chunk[..step.count] == content;
    } else if |more| <= limit {
      var rest := content[step.count..];
      ServedIsRead(reader, call + 1, limit, more, rest);
      assert content == step.chunk[..step.count] + rest;
      assert more + rest == output + content;
    }
  }

  /** Conversely, whatever is read in full is what the reader served. */
  lemma {:induction false} ReadIsServed(reader: Reader, call: nat, limit: nat, output: Bytes)
    requires Proper(reader) && |output| <= limit && ReadFrom(reader, call, limit, output).result.Ok?
    ensures Serves(reader, call, limit, |output|, ReadFrom(reader, call, limit, output).result.value[|output|..])
    decreases limit - |output|
  {
    var n := ChunkLength(|output|, limit);
    var step := reader(call, n);
    var more := output + step.chunk[..step.count];
    var all := ReadFrom(reader, call, limit, output).result.value;
    var content := all[|output|..];
    if step.ending != Eof {
      ReadIsServed(reader, call + 1, limit, more);
      assert more <= all;
      assert content[step.count..] == all[|more|..];
    }
    assert step.chunk[..step.count] == more[|output|..];
  }

  /** The bounded read returns content exactly when the reader serves that content and it is within the limit. */
  lemma ReadIffServed(reader: Reader, limit: nat, content: Bytes)
    requires Proper(reader) && limit > 0
    ensures ReadAll(Some(reader), limit) == Ok(content) <==> Serves(reader, 0, limit, 0, content) && |content| <= limit
    ensures Serves(reader, 0, limit, 0, content) && |content| > limit ==> ReadAll(Some(reader), limit) == Err(TooLarge)
  {
    if Serves(reader, 0, limit, 0, content) {
      ServedIsRead(reader, 0, limit, [], content);
      assert [] + content == content;
    }
    if ReadAll(Some(reader), limit) == Ok(content) {
      ReadIsServed(reader, 0, limit, []);
      assert content[0..] == content;
    }
  }
}
