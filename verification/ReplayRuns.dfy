/**
 Whole runs of the replay store against logs that never forget.

 The store answers every run exactly as a log in which an admission is retired by
 the first later clock reading that reaches its expiry.  That is the plain log of all
 admissions, for every choice of messages, exactly when no reading reaches an expiry
 and a later one is before it again.
 */
module ReplayRuns {
  import opened Bytes
  import opened Replay

  datatype Event = Event(call: Call, outcome: Outcome)

  type History = seq<Event>

  /** The store's own history on a sequence of calls, from an empty store. */
  function Run(calls: seq<Call>): (Entries, History)
  {
    if calls == [] then (map[], [])
    else
      var last := |calls| - 1;
      var (entries, h) := Run(calls[..last]);
      var (next, outcome) := Admitted(entries, calls[last]);
      (next, h + [Event(calls[last], outcome)])
  }

  /** The well-formed calls have no part longer than 2^32 bytes. */
  predicate ShortCalls(calls: seq<Call>)
  {
    forall i :: 0 <= i < |calls| ==> ShortCall(calls[i])
  }

  predicate ShortCall(c: Call)
  {
    WellFormed(c) ==> ShortTuple(c.tuple)
  }

  /** Only well-formed calls with short tuples were admitted. */
  predicate SoundHistory(h: History)
  {
    forall i :: 0 <= i < |h| && h[i].outcome == First ==> WellFormed(h[i].call) && ShortTuple(h[i].call.tuple)
  }

  // ------------------------------------------------------- the retiring log

  /** Admission `i` was a first one and no later well-formed call has read a clock at or past its expiry. */
  ghost predicate Standing(h: History, i: nat)
  {
    && i < |h|
    && h[i].outcome == First
    && forall k :: i < k < |h| && WellFormed(h[k].call) ==> h[k].call.now < h[i].call.expires
  }

  ghost predicate Blocks(h: History, i: nat, c: Call)
  {
    Standing(h, i) && h[i].call.tuple == c.tuple && c.now < h[i].call.expires
  }

  ghost function RetiringAnswer(h: History, c: Call): Outcome
  {
    if !WellFormed(c) then Unavailable
    else if exists i: nat :: Blocks(h, i, c) && h[i].call.digest == c.digest then Duplicate
    else if exists i: nat :: Blocks(h, i, c) then Conflict
    else First
  }

  // ----------------------------------------------------------- the plain log

  ghost predicate Unexpired(h: History, i: nat, c: Call)
  {
    i < |h| && h[i].outcome == First && h[i].call.tuple == c.tuple && c.now < h[i].call.expires
  }

  ghost function LogAnswer(h: History, c: Call): Outcome
  {
    if !WellFormed(c) then Unavailable
    else if exists i: nat :: Unexpired(h, i, c) && h[i].call.digest == c.digest then Duplicate
    else if exists i: nat :: Unexpired(h, i, c) then Conflict
    else First
  }

  /** The never-purged log's history on the same calls. */
  ghost function LogRun(calls: seq<Call>): History
  {
    if calls == [] then []
    else
      var last := |calls| - 1;
      var h := LogRun(calls[..last]);
      h + [Event(calls[last], LogAnswer(h, calls[last]))]
  }

  ghost function RetiringRun(calls: seq<Call>): History
  {
    if calls == [] then []
    else
      var last := |calls| - 1;
      var h := RetiringRun(calls[..last]);
      h + [Event(calls[last], RetiringAnswer(h, calls[last]))]
  }

  // -------------------------------------------------------------- refinement

  /** The entries are exactly the standing admissions. */
  ghost predicate Represents(entries: Entries, h: History)
  {
    && (forall i: nat :: Standing(h, i) ==>
          var key := TupleKey(h[i].call.tuple);
          key in entries && entries[key] == Entry(h[i].call.digest, h[i].call.expires))
    && (forall k :: k in entries ==> exists i: nat :: Standing(h, i) && TupleKey(h[i].call.tuple) == k)
  }

  lemma StandingStep(h: History, e: Event, i: nat)
    ensures i < |h| ==> (Standing(h + [e], i) <==>
              Standing(h, i) && (WellFormed(e.call) ==> e.call.now < h[i].call.expires))
    ensures Standing(h + [e], |h|) <==> e.outcome == First
  {
    var g := h + [e];
    if i < |h| && Standing(h, i) && (WellFormed(e.call) ==> e.call.now < h[i].call.expires) {
      forall k | i < k < |g| && WellFormed(g[k].call) ensures g[k].call.now < g[i].call.expires {
        if k < |h| { assert g[k] == h[k]; }
      }
    }
    if i < |h| && Standing(g, i) {
      assert g[|h|] == e;
      forall k | i < k < |h| && WellFormed(h[k].call) ensures h[k].call.now < h[i].call.expires {
        assert g[k] == h[k];
      }
    }
  }

  /** On a represented store the answer is the retiring log's. */
  lemma AnswerAgrees(entries: Entries, h: History, c: Call)
    requires Represents(entries, h) && SoundHistory(h) && ShortCall(c)
    ensures Admitted(entries, c).1 == RetiringAnswer(h, c)
  {
    hide TupleKey, ShortTuple;
    var key := TupleKey(c.tuple);
    var kept := Purge(entries, c.now);
    forall i: nat | Blocks(h, i, c)
      ensures key in kept && kept[key] == Entry(h[i].call.digest, h[i].call.expires)
    {
      assert Standing(h, i);
    }
    if WellFormed(c) && key in kept {
      var i: nat :| Standing(h, i) && TupleKey(h[i].call.tuple) == key;
      TupleKeyInjective(h[i].call.tuple, c.tuple);
      assert Blocks(h, i, c);
    }
  }

  /** After the call the store is represented by the history with the call appended. */
  lemma StepRepresents(entries: Entries, h: History, c: Call)
    requires Represents(entries, h)
    ensures Represents(Admitted(entries, c).0, h + [Event(c, Admitted(entries, c).1)])
  {
    hide TupleKey, ShortTuple, WellFormed;
    var (next, outcome) := Admitted(entries, c);
    var e := Event(c, outcome);
    var g := h + [e];
    StandingStep(h, e, 0);
    forall i: nat | Standing(g, i)
      ensures var key := TupleKey(g[i].call.tuple);
              key in next && next[key] == Entry(g[i].call.digest, g[i].call.expires)
    {
      StandingStep(h, e, i);
      if i < |h| { assert g[i] == h[i]; }
    }
    forall k | k in next ensures exists i: nat :: Standing(g, i) && TupleKey(g[i].call.tuple) == k
    {
      if outcome == First && k == TupleKey(c.tuple) {
        assert Standing(g, |h|) && g[|h|] == e;
      } else {
        assert k in entries;
        var i: nat :| Standing(h, i) && TupleKey(h[i].call.tuple) == k;
        StandingStep(h, e, i);
        assert Standing(g, i) && g[i] == h[i];
      }
    }
  }

  lemma FirstIsWellFormed(entries: Entries, c: Call)
    ensures Admitted(entries, c).1 == First ==> WellFormed(c)
  {
  }

  predicate HistoryOf(h: History, calls: seq<Call>)
  {
    |h| == |calls| && forall i :: 0 <= i < |h| ==> h[i].call == calls[i]
  }

  /** Every run, whatever the clock does: the store answers as the retiring log. */
  lemma {:induction false} StoreRefinesRetiringLog(calls: seq<Call>)
    requires ShortCalls(calls)
    ensures Run(calls).1 == RetiringRun(calls)
    ensures Represents(Run(calls).0, Run(calls).1)
    ensures SoundHistory(Run(calls).1) && HistoryOf(Run(calls).1, calls)
  {
    hide Represents, Admitted, RetiringAnswer, ShortTuple, WellFormed;
    if calls == [] {
      NothingRepresented();
    } else {
      var last := |calls| - 1;
      StoreRefinesRetiringLog(calls[..last]);
      var (entries, h) := Run(calls[..last]);
      assert forall i :: 0 <= i < last ==> calls[..last][i] == calls[i];
      AnswerAgrees(entries, h, calls[last]);
      StepRepresents(entries, h, calls[last]);
      FirstIsWellFormed(entries, calls[last]);
    }
  }

  lemma NothingRepresented()
    ensures Represents(map[], [])
  {
  }

  // ------------------------------------------------- readings that cross an expiry

  /** The reading of call k reaches the expiry of call i, and the later reading of call j is before it again. */
  predicate CrossesAt(calls: seq<Call>, i: nat, k: nat, j: nat)
  {
    && i < k < j < |calls|
    && WellFormed(calls[i]) && WellFormed(calls[k]) && WellFormed(calls[j])
    && calls[k].now >= calls[i].expires > calls[j].now
  }

  ghost predicate Crosses(calls: seq<Call>)
  {
    exists i, k, j :: CrossesAt(calls, i, k, j)
  }

  lemma {:induction false} LogIsSound(calls: seq<Call>)
    ensures HistoryOf(LogRun(calls), calls)
    ensures forall i :: 0 <= i < |calls| && LogRun(calls)[i].outcome == First ==> WellFormed(calls[i])
  {
    if calls != [] {
      LogIsSound(calls[..|calls| - 1]);
    }
  }

  lemma AnswersCoincide(h: History, calls: seq<Call>, c: Call)
    requires HistoryOf(h, calls) && !Crosses(calls + [c])
    requires forall i :: 0 <= i < |h| && h[i].outcome == First ==> WellFormed(h[i].call)
    ensures RetiringAnswer(h, c) == LogAnswer(h, c)
  {
    hide WellFormed;
    var all := calls + [c];
    if WellFormed(c) {
      forall i: nat ensures Blocks(h, i, c) <==> Unexpired(h, i, c) {
        if Unexpired(h, i, c) {
          forall k | i < k < |h| && WellFormed(h[k].call) ensures h[k].call.now < h[i].call.expires {
            assert all[i] == h[i].call && all[k] == h[k].call && all[|calls|] == c;
            assert !CrossesAt(all, i, k, |calls|);
          }
        }
      }
    }
  }

  lemma CrossesPrefix(calls: seq<Call>, n: nat)
    requires n <= |calls| && Crosses(calls[..n])
    ensures Crosses(calls)
  {
    hide WellFormed;
    var i, k, j :| CrossesAt(calls[..n], i, k, j);
    assert CrossesAt(calls, i, k, j);
  }

  lemma {:induction false} LogsCoincide(calls: seq<Call>)
    requires !Crosses(calls)
    ensures RetiringRun(calls) == LogRun(calls)
  {
    hide Crosses, LogAnswer, RetiringAnswer, WellFormed;
    if calls != [] {
      var last := |calls| - 1;
      if Crosses(calls[..last]) {
        CrossesPrefix(calls, last);
        assert false;
      }
      LogsCoincide(calls[..last]);
      LogIsSound(calls[..last]);
      assert calls == calls[..last] + [calls[last]];
      AnswersCoincide(LogRun(calls[..last]), calls[..last], calls[last]);
    }
  }

  /** Unless a reading crosses an expiry, purging is unobservable. */
  lemma StoreRefinesLog(calls: seq<Call>)
    requires ShortCalls(calls) && !Crosses(calls)
    ensures Run(calls).1 == LogRun(calls)
  {
    StoreRefinesRetiringLog(calls);
    LogsCoincide(calls);
  }

  /** In particular, with a clock that never goes back. */
  lemma SteadyClock(calls: seq<Call>)
    requires ShortCalls(calls) && forall i, j :: 0 <= i < j < |calls| ==> calls[i].now <= calls[j].now
    ensures !Crosses(calls) && Run(calls).1 == LogRun(calls)
  {
    hide WellFormed, Run, LogRun, ShortCalls;
    StoreRefinesLog(calls);
  }

  lemma {:induction false} RunPrefix(calls: seq<Call>, n: nat)
    requires n <= |calls|
    ensures |Run(calls).1| == |calls| && Run(calls).1[..n] == Run(calls[..n]).1
  {
    if n < |calls| {
      var last := |calls| - 1;
      RunPrefix(calls[..last], n);
      assert calls[..last][..n] == calls[..n];
    } else if calls != [] {
      assert calls[..n] == calls;
      RunPrefix(calls[..n - 1], n - 1);
    }
  }

  lemma RunSnoc(calls: seq<Call>, j: nat)
    requires j < |calls| && |Run(calls).1| == |calls|
    requires Run(calls).1[..j + 1] == Run(calls[..j + 1]).1 && |Run(calls[..j]).1| == j
    ensures Run(calls).1[j].outcome == Admitted(Run(calls[..j]).0, calls[j]).1
  {
    assert calls[..j + 1][..j] == calls[..j];
    assert Run(calls).1[j] == Run(calls).1[..j + 1][j];
  }

  /** The outcome of a call, told by the calls before it. */
  lemma OutcomeAt(calls: seq<Call>, j: nat)
    requires ShortCalls(calls) && j < |calls|
    ensures |Run(calls).1| == |calls| && HistoryOf(Run(calls).1[..j], calls[..j]) && SoundHistory(Run(calls).1[..j])
    ensures Run(calls).1[j] == Event(calls[j], RetiringAnswer(Run(calls).1[..j], calls[j]))
  {
    hide WellFormed, ShortTuple, RetiringAnswer;
    RunPrefix(calls, j);
    RunPrefix(calls, j + 1);
    StoreRefinesRetiringLog(calls[..j]);
    StoreRefinesRetiringLog(calls[..j + 1]);
    assert calls[..j + 1][..j] == calls[..j];
    assert Run(calls).1[j] == Run(calls).1[..j + 1][j];
  }

  /** No reading from call i + 1 up to call j reaches the expiry of call i. */
  predicate Unreached(calls: seq<Call>, i: nat, j: nat)
    requires i < j < |calls|
  {
    forall k :: i < k <= j && WellFormed(calls[k]) ==> calls[k].now < calls[i].expires
  }

  lemma UnlessCrossing(calls: seq<Call>, i: nat, j: nat)
    requires !Crosses(calls) && i < j < |calls|
    requires WellFormed(calls[i]) && WellFormed(calls[j]) && calls[j].now < calls[i].expires
    ensures Unreached(calls, i, j)
  {
    hide WellFormed;
    forall k | i < k <= j && WellFormed(calls[k]) ensures calls[k].now < calls[i].expires {
      assert !CrossesAt(calls, i, k, j);
    }
  }

  /**
   From a first admission until some clock reading reaches its expiry, the same
   tuple is a duplicate with the same digest and a conflict with any other; it is
   never admitted again.
   */
  lemma OnceUntilExpiry(calls: seq<Call>, i: nat, j: nat)
    requires ShortCalls(calls) && i < j < |calls|
    requires |Run(calls).1| == |calls| && Run(calls).1[i].outcome == First
    requires calls[j].tuple == calls[i].tuple && WellFormed(calls[j]) && Unreached(calls, i, j)
    ensures Run(calls).1[j].outcome == if calls[j].digest == calls[i].digest then Duplicate else Conflict
  {
    hide WellFormed, TupleKey, ShortTuple, Represents, RetiringRun, Run;
    var c := calls[j];
    OutcomeAt(calls, j);
    var h := Run(calls).1[..j];
    forall k | 0 <= k < |h| ensures h[k].call == calls[k] {
      assert calls[..j][k] == calls[k];
    }
    assert Blocks(h, i, c);
    forall m: nat | Blocks(h, m, c) ensures m == i {
      OneStanding(calls, i, m, j);
    }
  }

  /** At most one admission of a tuple stands at a time. */
  lemma OneStanding(calls: seq<Call>, i: nat, m: nat, j: nat)
    requires ShortCalls(calls) && j < |calls| && |Run(calls).1| == |calls|
    requires Standing(Run(calls).1[..j], i) && Standing(Run(calls).1[..j], m)
    requires calls[i].tuple == calls[m].tuple
    ensures i == m
  {
    hide WellFormed, TupleKey, ShortTuple, Represents, RetiringRun, Run;
    if i < m {
      StandingBlocks(calls, i, m, j);
    } else if m < i {
      StandingBlocks(calls, m, i, j);
    }
  }

  /** While an admission stands, its tuple is not admitted. */
  lemma StandingBlocks(calls: seq<Call>, i: nat, m: nat, j: nat)
    requires ShortCalls(calls) && i < m < j < |calls| && |Run(calls).1| == |calls|
    requires Standing(Run(calls).1[..j], i) && calls[i].tuple == calls[m].tuple
    ensures Run(calls).1[m].outcome != First
  {
    hide WellFormed, TupleKey, ShortTuple, Represents, RetiringRun, Run;
    OutcomeAt(calls, m);
    OutcomeAt(calls, j);
    var g, h := Run(calls).1[..m], Run(calls).1[..j];
    assert forall k :: 0 <= k < m ==> g[k] == h[k];
    assert calls[..m][i] == calls[i] && h[m].call == calls[..j][m] == calls[m];
    if WellFormed(calls[m]) {
      assert Blocks(g, i, calls[m]);
    }
  }

  /**
   Exactly when a tuple is admitted again: call i is its latest admission before call
   j, and some reading after i, up to that of j, has reached its expiry.
   */
  lemma AgainIff(calls: seq<Call>, i: nat, j: nat)
    requires ShortCalls(calls) && i < j < |calls|
    requires |Run(calls).1| == |calls| && Run(calls).1[i].outcome == First
    requires calls[j].tuple == calls[i].tuple && WellFormed(calls[j])
    requires forall m :: i < m < j && calls[m].tuple == calls[i].tuple ==> Run(calls).1[m].outcome != First
    ensures Run(calls).1[j].outcome == First <==> !Unreached(calls, i, j)
  {
    hide WellFormed, TupleKey, ShortTuple, Represents, RetiringRun, Run;
    if Unreached(calls, i, j) {
      OnceUntilExpiry(calls, i, j);
    } else {
      OutcomeAt(calls, j);
      var h, c := Run(calls).1[..j], calls[j];
      forall k | 0 <= k < |h| ensures h[k].call == calls[k] {
        assert calls[..j][k] == calls[k];
      }
      forall m: nat ensures !Blocks(h, m, c) {
        if Blocks(h, m, c) && m < i {
          StandingBlocks(calls, m, i, j);
          assert false;
        }
      }
    }
  }

  lemma {:induction false} LogPrefix(calls: seq<Call>, n: nat)
    requires n <= |calls|
    ensures |LogRun(calls)| == |calls| && LogRun(calls)[..n] == LogRun(calls[..n])
  {
    hide LogAnswer;
    if n < |calls| {
      var last := |calls| - 1;
      LogPrefix(calls[..last], n);
      assert calls[..last][..n] == calls[..n];
    } else if calls != [] {
      assert calls[..n] == calls;
      LogPrefix(calls[..n - 1], n - 1);
    }
  }

  lemma LogOutcomeAt(calls: seq<Call>, j: nat)
    requires j < |calls|
    ensures |LogRun(calls)| == |calls| && HistoryOf(LogRun(calls)[..j], calls[..j])
    ensures LogRun(calls)[j] == Event(calls[j], LogAnswer(LogRun(calls)[..j], calls[j]))
  {
    hide LogAnswer, WellFormed;
    LogPrefix(calls, j);
    LogPrefix(calls, j + 1);
    LogIsSound(calls[..j]);
    assert calls[..j + 1][..j] == calls[..j];
    assert LogRun(calls)[j] == LogRun(calls)[..j + 1][j];
  }

  /** A tuple that no earlier call has is admitted, by the store and by the log. */
  lemma FreshIsFirst(calls: seq<Call>, i: nat)
    requires ShortCalls(calls) && i < |calls| && WellFormed(calls[i])
    requires forall m :: 0 <= m < i ==> calls[m].tuple != calls[i].tuple
    ensures |Run(calls).1| == |calls| == |LogRun(calls)|
    ensures Run(calls).1[i].outcome == First && LogRun(calls)[i].outcome == First
  {
    hide WellFormed, ShortTuple, Run, LogRun;
    OutcomeAt(calls, i);
    LogOutcomeAt(calls, i);
    assert forall m :: 0 <= m < i ==> calls[..i][m] == calls[m];
  }

  /** Where a reading crosses an expiry, a message of that schedule is admitted twice where the log knows it. */
  lemma CrossingShows(calls: seq<Call>, i: nat, k: nat, j: nat)
    requires ShortCalls(calls) && CrossesAt(calls, i, k, j)
    requires calls[j].tuple == calls[i].tuple && calls[j].digest == calls[i].digest
    requires forall m :: 0 <= m < j && m != i ==> calls[m].tuple != calls[i].tuple
    ensures |Run(calls).1| == |calls| == |LogRun(calls)|
    ensures Run(calls).1[j].outcome == First && LogRun(calls)[j].outcome == Duplicate
  {
    hide WellFormed, ShortTuple, Run, LogRun;
    FreshIsFirst(calls, i);
    AgainIff(calls, i, j);
    LogOutcomeAt(calls, j);
    var h := LogRun(calls)[..j];
    assert h[i].call == calls[..j][i] == calls[i];
    assert Unexpired(h, i, calls[j]);
  }

  // ------------------------------------------------------------------- schedules

  /** The clock reading and the expiry of a call. */
  datatype Times = Times(now: int, expires: int)

  function ScheduleOf(calls: seq<Call>): seq<Times>
  {
    seq(|calls|, i requires 0 <= i < |calls| => Times(calls[i].now, calls[i].expires))
  }

  predicate TimesCrossAt(s: seq<Times>, i: nat, k: nat, j: nat)
  {
    && i < k < j < |s|
    && s[i].expires > s[i].now && s[k].expires > s[k].now && s[j].expires > s[j].now
    && s[k].now >= s[i].expires > s[j].now
  }

  ghost predicate TimesCross(s: seq<Times>)
  {
    exists i, k, j :: TimesCrossAt(s, i, k, j)
  }

  ghost predicate AlwaysAgrees(s: seq<Times>)
  {
    forall calls :: ShortCalls(calls) && ScheduleOf(calls) == s ==> Run(calls).1 == LogRun(calls)
  }

  /** Calls of a schedule in which only calls i and j are for the same message. */
  function Labelled(s: seq<Times>, i: nat, j: nat): (calls: seq<Call>)
    ensures |calls| == |s|
  {
    var one: Bytes := [1];
    seq(|s|, n requires 0 <= n < |s| =>
      Call(s[n].now, Tuple(one, one, one, seq(MESSAGE_ID_BYTES, _ => if n == i || n == j then 1 else 0)), one,
        s[n].expires))
  }

  lemma LabelledIs(s: seq<Times>, i: nat, j: nat)
    requires i < |s| && j < |s|
    ensures var calls := Labelled(s, i, j);
            && ScheduleOf(calls) == s && ShortCalls(calls)
            && calls[j].tuple == calls[i].tuple && calls[j].digest == calls[i].digest
            && (forall m :: 0 <= m < |s| && m != i && m != j ==> calls[m].tuple != calls[i].tuple)
            && (forall m :: 0 <= m < |s| ==> (WellFormed(calls[m]) <==> s[m].expires > s[m].now))
  {
    var calls := Labelled(s, i, j);
    forall m | 0 <= m < |s| && m != i && m != j ensures calls[m].tuple != calls[i].tuple {
      assert calls[m].tuple.messageID[0] == 0 && calls[i].tuple.messageID[0] == 1;
    }
  }

  /**
   The store answers as the never-purged log, whatever the messages are, on exactly the
   schedules of readings and expiries in which no reading reaches an expiry and a later
   one is before it again.
   */
  lemma AgreesIff(s: seq<Times>)
    ensures AlwaysAgrees(s) <==> !TimesCross(s)
  {
    hide WellFormed, ShortTuple, Run, LogRun, Labelled, ScheduleOf;
    if !TimesCross(s) {
      forall calls | ShortCalls(calls) && ScheduleOf(calls) == s ensures Run(calls).1 == LogRun(calls) {
        CrossesInTime(calls);
        StoreRefinesLog(calls);
      }
    } else {
      var i, k, j :| TimesCrossAt(s, i, k, j);
      var calls := Labelled(s, i, j);
      LabelledIs(s, i, j);
      ScheduleIs(calls);
      CrossingShows(calls, i, k, j);
    }
  }

  lemma ScheduleIs(calls: seq<Call>)
    ensures |ScheduleOf(calls)| == |calls|
    ensures forall m :: 0 <= m < |calls| ==> ScheduleOf(calls)[m] == Times(calls[m].now, calls[m].expires)
  {
  }

  lemma CrossesInTime(calls: seq<Call>)
    ensures Crosses(calls) ==> TimesCross(ScheduleOf(calls))
  {
    if Crosses(calls) {
      var i, k, j :| CrossesAt(calls, i, k, j);
      assert TimesCrossAt(ScheduleOf(calls), i, k, j);
    }
  }

  /** An unexpired entry keeps its digest and expiry through every call, admitted or not. */
  lemma LiveEntriesKept(entries: Entries, c: Call, key: Bytes)
    requires key in entries && entries[key].expires > c.now
    ensures key in Admitted(entries, c).0 && Admitted(entries, c).0[key] == entries[key]
  {
  }

  /**
   If a clock reading may be older than one already acted on, the store can admit
   a tuple again before the expiry it was first admitted with.
   */
  lemma ClockGoingBack(scope: Bytes, idA: Bytes, idB: Bytes, digest: Bytes)
    requires 0 < |scope| <= UINT32_LIMIT && |idA| == |idB| == MESSAGE_ID_BYTES && idA != idB && digest != []
    ensures var a, b := Tuple(scope, scope, scope, idA), Tuple(scope, scope, scope, idB);
            var calls := [Call(1, a, digest, 10), Call(11, b, digest, 20), Call(5, a, digest, 10)];
            && |Run(calls).1| == 3 && |LogRun(calls)| == 3
            && Run(calls).1[2].outcome == First
            && LogRun(calls)[2].outcome == Duplicate
  {
    var a, b := Tuple(scope, scope, scope, idA), Tuple(scope, scope, scope, idB);
    CrossingShows([Call(1, a, digest, 10), Call(11, b, digest, 20), Call(5, a, digest, 10)], 0, 1, 2);
  }
}
