/** What holds of every run of the adapter driver, whatever the interleaving. */
module AdapterProperties {
  import opened Bytes
  import opened Adapter

  // ----------------------------------------------------- appending one command

  lemma {:induction false} DemandSnoc(tooLong: Command -> bool, commands: seq<Command>, c: Command)
    ensures Demand(tooLong, commands + [c]) == Demand(tooLong, commands) + if tooLong(c) then 0 else 1
  {
    if commands != [] {
      assert (commands + [c])[1..] == commands[1..] + [c];
      DemandSnoc(tooLong, commands[1..], c);
    }
  }

  lemma {:induction false} ServedNothing(
    tooLong: Command -> bool, commands: seq<Command>, messages: seq<Message>, c: Command)
    requires tooLong(c) || |messages| <= Demand(tooLong, commands)
    ensures Served(tooLong, commands + [c], messages) == Served(tooLong, commands, messages) + [None]
    decreases |commands|
  {
    hide Grade;
    if commands != [] {
      assert (commands + [c])[1..] == commands[1..] + [c];
      var rest := if tooLong(commands[0]) || messages == [] then messages else messages[1..];
      ServedNothing(tooLong, commands[1..], rest, c);
    }
  }

  lemma {:induction false} ServedNext(
    tooLong: Command -> bool, commands: seq<Command>, messages: seq<Message>, c: Command, m: Message)
    requires !tooLong(c) && |messages| == Demand(tooLong, commands)
    ensures Served(tooLong, commands + [c], messages + [m]) ==
            Served(tooLong, commands, messages) + [Accepted(Grade(c, m))]
    decreases |commands|
  {
    hide Grade;
    if commands == [] {
      assert messages + [m] == [m] && [c][1..] == [];
    } else {
      assert (commands + [c])[1..] == commands[1..] + [c];
      if tooLong(commands[0]) {
        ServedNext(tooLong, commands[1..], messages, c, m);
      } else {
        assert (messages + [m])[1..] == messages[1..] + [m];
        ServedNext(tooLong, commands[1..], messages[1..], c, m);
      }
    }
  }

  // -------------------------------------------------------------- the invariant

  /**
   The messages taken are a prefix of those decoded, with at most one more on offer;
   the answers are what the sequential meaning gives for the messages taken; and a
   call that may still get a message is the first that the next message can serve.
   */
  ghost predicate Inv(tooLong: Command -> bool, s: State)
  {
    && s.consumed <= |s.decoded| <= s.consumed + 1
    && (s.reader.Decoding? ==> s.consumed == |s.decoded|)
    && (s.reader.Holding? ==> s.decoded == s.decoded[..s.consumed] + [s.reader.m])
    && Answers(s.log) == Served(tooLong, Commands(s.log), s.decoded[..s.consumed])
    && s.consumed <= Demand(tooLong, Commands(s.log))
    && (s.caller.Waiting? ==> !tooLong(s.caller.command))
    && ((s.stdin.Open? || s.caller.Waiting?) && !s.reader.Stopped? ==> s.consumed == Demand(tooLong, Commands(s.log)))
  }

  lemma LogSnoc(log: seq<Entry>, e: Entry)
    ensures Commands(log + [e]) == Commands(log) + [e.command]
    ensures Answers(log + [e]) == Answers(log) + [Accepted(e.result)]
  {
  }

  /** A call that ends without a message. */
  lemma FailKeeps(tooLong: Command -> bool, s: State, command: Command, fault: Fault)
    requires Inv(tooLong, s)
    requires tooLong(command) || s.reader.Stopped? || !s.stdin.Open?
    ensures Inv(tooLong, Finish(s, command, Err(fault)))
  {
    hide Served, Demand, Answers, Commands;
    LogSnoc(s.log, Entry(command, Err(fault)));
    DemandSnoc(tooLong, Commands(s.log), command);
    ServedNothing(tooLong, Commands(s.log), s.decoded[..s.consumed], command);
  }

  /** A call that takes the message on offer. */
  lemma ReceiveKeeps(tooLong: Command -> bool, s: State)
    requires Inv(tooLong, s) && s.caller.Waiting? && s.reader.Holding?
    ensures Inv(tooLong, Apply(tooLong, s, Receive))
  {
    hide Served, Demand, Answers, Commands, Grade;
    var c, m := s.caller.command, s.reader.m;
    LogSnoc(s.log, Entry(c, Grade(c, m)));
    DemandSnoc(tooLong, Commands(s.log), c);
    ServedNext(tooLong, Commands(s.log), s.decoded[..s.consumed], c, m);
    assert s.decoded[..s.consumed + 1] == s.decoded;
  }

  lemma StepKeeps(tooLong: Command -> bool, s: State, e: Event)
    requires Inv(tooLong, s) && Enabled(s, e)
    ensures Inv(tooLong, Apply(tooLong, s, e))
  {
    hide Served, Demand, Answers, Commands, Grade;
    match e
    case Decode(m) =>
      assert (s.decoded + [m])[..s.consumed] == s.decoded[..s.consumed];
    case Call(command) =>
      if tooLong(command) {
        FailKeeps(tooLong, s, command, LineTooLong);
      } else if s.stdin != Open {
        FailKeeps(tooLong, s, command, StdinGone);
      }
    case Receive => ReceiveKeeps(tooLong, s);
    case SeeReaderGone => FailKeeps(tooLong, s, s.caller.command, ReaderGone);
    case Deadline => FailKeeps(tooLong, s.(stdin := Closed), s.caller.command, TimedOut);
    case Cancel => FailKeeps(tooLong, s.(stdin := Closed), s.caller.command, Canceled);
    case _ =>
  }

  lemma {:induction false} RunKeeps(tooLong: Command -> bool, s: State, events: seq<Event>)
    requires Inv(tooLong, s) && Possible(tooLong, s, events)
    ensures Inv(tooLong, After(tooLong, s, events))
    decreases |events|
  {
    hide Inv, Apply, Enabled;
    if events != [] {
      StepKeeps(tooLong, s, events[0]);
      RunKeeps(tooLong, Apply(tooLong, s, events[0]), events[1..]);
    }
  }

  /**
   Refinement.  In every interleaving, what the calls return is what a sequential
   reading gives: messages are taken once each, in the order decoded, each by the
   next command that was sent, and after the last one taken every call fails.
   */
  lemma RunsAreSequential(tooLong: Command -> bool, events: seq<Event>)
    requires Possible(tooLong, Started(), events)
    ensures var s := After(tooLong, Started(), events);
            && s.consumed <= |s.decoded| <= s.consumed + 1
            && Answers(s.log) == Served(tooLong, Commands(s.log), s.decoded[..s.consumed])
  {
    RunKeeps(tooLong, Started(), events);
  }

  // ---------------------------------------------------------- absorbing failures

  /** No message can be handed to any call from here on. */
  predicate Doomed(s: State)
  {
    s.reader.Stopped? || (!s.stdin.Open? && !s.caller.Waiting?)
  }

  lemma DoomedStep(tooLong: Command -> bool, s: State, e: Event)
    requires Doomed(s) && Enabled(s, e)
    ensures var t := Apply(tooLong, s, e);
            && Doomed(t) && t.consumed == s.consumed
            && |s.log| <= |t.log| && t.log[..|s.log|] == s.log
            && forall i :: |s.log| <= i < |t.log| ==> t.log[i].result.Err?
  {
  }

  lemma {:induction false} DoomedRun(tooLong: Command -> bool, s: State, events: seq<Event>)
    requires Doomed(s) && Possible(tooLong, s, events)
    ensures var t := After(tooLong, s, events);
            && Doomed(t) && t.consumed == s.consumed
            && |s.log| <= |t.log| && t.log[..|s.log|] == s.log
            && forall i :: |s.log| <= i < |t.log| ==> t.log[i].result.Err?
    decreases |events|
  {
    hide Doomed, Apply, Enabled;
    if events != [] {
      DoomedStep(tooLong, s, events[0]);
      DoomedRun(tooLong, Apply(tooLong, s, events[0]), events[1..]);
    }
  }

  /** The faults after which the driver hands out no more messages. */
  predicate Fatal(fault: Fault)
  {
    fault.StdinGone? || fault.ReaderGone? || fault.TimedOut? || fault.Canceled?
  }

  lemma FatalDooms(tooLong: Command -> bool, s: State, e: Event)
    requires Enabled(s, e)
    requires var t := Apply(tooLong, s, e);
             |t.log| == |s.log| + 1 && t.log[|s.log|].result.Err? && Fatal(t.log[|s.log|].result.error)
    ensures Doomed(Apply(tooLong, s, e))
  {
    hide Grade;
    if e.Receive? { GradeFault(s.caller.command, s.reader.m); }
  }

  lemma GradeFault(command: Command, m: Message)
    ensures Grade(command, m).Err? ==> Grade(command, m).error == Violation
  {
  }

  /** A log only grows, by at most one entry a step. */
  lemma StepLog(tooLong: Command -> bool, s: State, e: Event)
    requires Enabled(s, e)
    ensures var t := Apply(tooLong, s, e);
            |s.log| <= |t.log| <= |s.log| + 1 && t.log[..|s.log|] == s.log
  {
  }

  lemma {:induction false} RunLog(tooLong: Command -> bool, s: State, events: seq<Event>)
    requires Possible(tooLong, s, events)
    ensures var t := After(tooLong, s, events); |s.log| <= |t.log| && t.log[..|s.log|] == s.log
    decreases |events|
  {
    hide Apply, Enabled;
    if events != [] {
      StepLog(tooLong, s, events[0]);
      RunLog(tooLong, Apply(tooLong, s, events[0]), events[1..]);
    }
  }

  /**
   Once a call has failed for want of the reader or the child's input, or at its deadline,
   so does every later one.
   */
  lemma {:induction false} FailuresAbsorb(tooLong: Command -> bool, s: State, events: seq<Event>, i: nat, j: nat)
    requires Possible(tooLong, s, events)
    requires var log := After(tooLong, s, events).log;
             |s.log| <= i < j < |log| && log[i].result.Err? && Fatal(log[i].result.error)
    ensures After(tooLong, s, events).log[j].result.Err?
    decreases |events|
  {
    hide Apply, Enabled, Doomed, Fatal;
    if events != [] {
      var next := Apply(tooLong, s, events[0]);
      StepLog(tooLong, s, events[0]);
      RunLog(tooLong, next, events[1..]);
      if i < |next.log| {
        assert next.log[i] == After(tooLong, s, events).log[..|next.log|][i];
        FatalDooms(tooLong, s, events[0]);
        DoomedRun(tooLong, next, events[1..]);
      } else {
        FailuresAbsorb(tooLong, next, events[1..], i, j);
      }
    }
  }

  predicate ShutDownDone(s: State)
  {
    s.caller.Closing? && s.shutdown && s.stdin.Closed?
  }

  function ReaderSteps(r: Reader): nat
  {
    match r case Decoding => 2 case Holding(_) => 1 case Stopped => 0
  }

  lemma ClosingStep(tooLong: Command -> bool, s: State, e: Event)
    requires ShutDownDone(s) && Enabled(s, e) && e != CloseReturns
    ensures var t := Apply(tooLong, s, e); ShutDownDone(t) && ReaderSteps(t.reader) < ReaderSteps(s.reader)
  {
  }

  /**
   Close never hangs: once it has shut down, at most two more steps come before its return,
   and there always is a next one.
   */
  lemma {:induction false} CloseReturnsSoon(tooLong: Command -> bool, s: State, events: seq<Event>)
    requires ShutDownDone(s) && Possible(tooLong, s, events) && CloseReturns !in events
    ensures |events| + ReaderSteps(After(tooLong, s, events).reader) <= ReaderSteps(s.reader) <= 2
    ensures var t := After(tooLong, s, events);
            Enabled(t, DecodeFails) || Enabled(t, ReaderQuits) || Enabled(t, CloseReturns)
    decreases |events|
  {
    hide Apply;
    if events != [] {
      ClosingStep(tooLong, s, events[0]);
      CloseReturnsSoon(tooLong, Apply(tooLong, s, events[0]), events[1..]);
    }
  }

  // ----------------------------------------------------------------- own message

  /**
   A command that is answered took its own message: the one as far down the stream as
   commands were sent before it.
   */
  lemma {:induction false} AnsweredIff(tooLong: Command -> bool, commands: seq<Command>, messages: seq<Message>, i: nat)
    requires i < |commands|
    ensures |Served(tooLong, commands, messages)| == |commands|
    ensures var slot := Demand(tooLong, commands[..i]);
            Served(tooLong, commands, messages)[i] ==
            if !tooLong(commands[i]) && slot < |messages| then Accepted(Grade(commands[i], messages[slot])) else None
    decreases |commands|
  {
    hide Grade;
    if |commands| > 1 {
      var rest := if tooLong(commands[0]) || messages == [] then messages else messages[1..];
      AnsweredIff(tooLong, commands[1..], rest, if i == 0 then 0 else i - 1);
    }
    if i > 0 {
      assert commands[..i][1..] == commands[1..][..i - 1];
    }
  }
}
