/**
 A conformance run told by the scenarios and the messages alone: when Start accepts,
 what is sent, and what every case, count and element of the report is.
 */
module ConformanceExact {
  import opened Bytes
  import opened Adapter
  import opened AdapterProperties
  import opened KeyedSort
  import opened Suite
  import opened Report
  import opened Conformance

  // --------------------------------------------------------------------- answers

  /** A message that answers a command. */
  predicate GoodAnswer(command: Command, m: Message)
  {
    match command
    case Hello => m.kind == Handshake && m.version == 1 && (m.role == Worker || m.role == ControlPlane)
    case Run(id, _) =>
      m.kind == ResultMessage && m.id == id && m.status in {Pass, Fail, Error, Unsupported, NA}
  }

  lemma GradeIff(command: Command, m: Message)
    ensures Grade(command, m) == if GoodAnswer(command, m) then Ok(m) else Err(Violation)
  {
  }

  /**
   In every interleaving, a call returns a message exactly when its command fits a line,
   the message stands as far down the stream as commands that fit were sent before, it was
   taken, and it is a good answer to the command.
   */
  lemma ReturnsIff(tooLong: Command -> bool, events: seq<Event>, i: nat, m: Message)
    requires Possible(tooLong, Started(), events) && i < |After(tooLong, Started(), events).log|
    ensures var s := After(tooLong, Started(), events);
            var slot := |FittingBefore(tooLong, s.log, i)|;
            && s.consumed <= |s.decoded|
            && (s.log[i].result == Ok(m) <==>
                && !tooLong(s.log[i].command) && slot < s.consumed && s.decoded[slot] == m
                && GoodAnswer(s.log[i].command, m))
  {
    hide Served, Demand, Possible, After, Answers, Commands, Grade, GoodAnswer, FittingBefore;
    var s := After(tooLong, Started(), events);
    RunsAreSequential(tooLong, events);
    LogLength(s.log);
    LogAt(s.log, i);
    AnsweredIff(tooLong, Commands(s.log), s.decoded[..s.consumed], i);
    DemandCounts(tooLong, s.log, i);
    var slot := |FittingBefore(tooLong, s.log, i)|;
    if slot < s.consumed {
      GradeIff(s.log[i].command, s.decoded[slot]);
    }
  }

  lemma LogAt(log: seq<Entry>, i: nat)
    requires i < |log|
    ensures |Answers(log)| == |Commands(log)| == |log|
    ensures Answers(log)[i] == Accepted(log[i].result) && Commands(log)[i] == log[i].command
  {
  }

  /** The calls before the i-th whose commands fit a line. */
  function FittingBefore(tooLong: Command -> bool, log: seq<Entry>, i: nat): set<int>
    requires i <= |log|
  {
    set j | 0 <= j < i && !tooLong(log[j].command)
  }

  lemma FittingGrows(tooLong: Command -> bool, log: seq<Entry>, i: nat)
    requires i < |log|
    ensures FittingBefore(tooLong, log, 0) == {}
    ensures |FittingBefore(tooLong, log, i + 1)| ==
            |FittingBefore(tooLong, log, i)| + if tooLong(log[i].command) then 0 else 1
  {
    var before := FittingBefore(tooLong, log, i);
    assert FittingBefore(tooLong, log, i + 1) == if tooLong(log[i].command) then before else before + {i};
  }

  lemma {:induction false} DemandCounts(tooLong: Command -> bool, log: seq<Entry>, i: nat)
    requires i < |log| && |Commands(log)| == |log|
    ensures Demand(tooLong, Commands(log)[..i]) == |FittingBefore(tooLong, log, i)|
  {
    hide FittingBefore;
    FittingGrows(tooLong, log, i);
    if i > 0 {
      var commands := Commands(log);
      DemandCounts(tooLong, log, i - 1);
      FittingGrows(tooLong, log, i - 1);
      assert commands[..i] == commands[..i - 1] + [commands[i - 1]];
      DemandSnoc(tooLong, commands[..i - 1], commands[i - 1]);
    }
  }

  // ------------------------------------------------------------------ what is sent

  /** The scenarios before the i-th that the role owns. */
  function OwnedBefore(scenarios: seq<Scenario>, role: Role, i: nat): set<int>
    requires i <= |scenarios|
  {
    set j | 0 <= j < i && scenarios[j].role == role
  }

  lemma OwnedBeforeGrows(scenarios: seq<Scenario>, role: Role, i: nat)
    requires i < |scenarios|
    ensures OwnedBefore(scenarios, role, 0) == {}
    ensures |OwnedBefore(scenarios, role, i + 1)| ==
            |OwnedBefore(scenarios, role, i)| + if scenarios[i].role == role then 1 else 0
  {
    var before := OwnedBefore(scenarios, role, i);
    assert OwnedBefore(scenarios, role, i + 1) == if scenarios[i].role == role then before + {i} else before;
  }

  lemma OwnedSnoc(scenarios: seq<Scenario>, role: Role, i: nat)
    requires i < |scenarios|
    ensures |Owned(scenarios[..i + 1], role)| ==
            |Owned(scenarios[..i], role)| + if scenarios[i].role == role then 1 else 0
  {
    assert scenarios[..i + 1][..i] == scenarios[..i];
  }

  lemma {:induction false} OwnedCount(scenarios: seq<Scenario>, role: Role, i: nat)
    requires i <= |scenarios|
    ensures |Owned(scenarios[..i], role)| == |OwnedBefore(scenarios, role, i)|
  {
    hide OwnedBefore;
    if i > 0 {
      hide Owned;
      OwnedCount(scenarios, role, i - 1);
      OwnedSnoc(scenarios, role, i - 1);
      OwnedBeforeGrows(scenarios, role, i - 1);
    } else if scenarios != [] {
      OwnedBeforeGrows(scenarios, role, 0);
    } else {
      assert OwnedBefore(scenarios, role, 0) == {} by { NoneBefore(role); }
    }
  }

  lemma NoneBefore(role: Role)
    ensures OwnedBefore([], role, 0) == {}
  {
  }

  /** Each owned scenario is sent, in order, with its ID and parameters, and nothing else is after the handshake. */
  lemma SentExactly(
    tooLong: Command -> bool, events: seq<Event>, scenarios: seq<Scenario>, role: Role, cases: seq<CaseResult>)
    requires WholeRun(tooLong, events, scenarios, role, cases)
    ensures var log := After(tooLong, Started(), events).log;
            && |log| == 1 + |OwnedBefore(scenarios, role, |scenarios|)| && log[0].command == Hello
            && forall i :: 0 <= i < |scenarios| && scenarios[i].role == role ==>
                 var k := 1 + |OwnedBefore(scenarios, role, i)|;
                 k < |log| && log[k].command == Run(scenarios[i].id, scenarios[i].params)
  {
    hide Owned, Possible, After, IsRun, OwnedBefore;
    var log := After(tooLong, Started(), events).log;
    OwnedCount(scenarios, role, |scenarios|);
    assert scenarios[..|scenarios|] == scenarios;
    LogAt(log, 0);
    forall i | 0 <= i < |scenarios| && scenarios[i].role == role
      ensures var k := 1 + |OwnedBefore(scenarios, role, i)|;
              k < |log| && log[k].command == Run(scenarios[i].id, scenarios[i].params)
    {
      OwnedCount(scenarios, role, i);
      CommandsAt(scenarios, role, i);
      LogAt(log, 1 + |OwnedBefore(scenarios, role, i)|);
    }
  }

  /**
   Start accepts exactly a handshake of protocol version 1 with one of the two roles,
   which has to be the first message.
   */
  lemma StartsIff(tooLong: Command -> bool, events: seq<Event>, m: Message)
    requires Possible(tooLong, Started(), events)
    requires var log := After(tooLong, Started(), events).log; log != [] && log[0].command == Hello
    ensures var s := After(tooLong, Started(), events);
            s.log[0].result == Ok(m) <==>
            && !tooLong(Hello) && 0 < s.consumed <= |s.decoded| && s.decoded[0] == m
            && m.kind == Handshake && m.version == 1 && (m.role == Worker || m.role == ControlPlane)
  {
    hide Possible, After, FittingBefore;
    var log := After(tooLong, Started(), events).log;
    FittingGrows(tooLong, log, 0);
    ReturnsIff(tooLong, events, 0, m);
  }

  // ------------------------------------------------------------------------- cases

  /** The owned scenarios before the i-th whose commands fit a line. */
  function Fitting(tooLong: Command -> bool, scenarios: seq<Scenario>, role: Role, i: nat): set<int>
    requires i <= |scenarios|
  {
    set j | 0 <= j < i && scenarios[j].role == role && !tooLong(Run(scenarios[j].id, scenarios[j].params))
  }

  lemma FittingMore(tooLong: Command -> bool, scenarios: seq<Scenario>, role: Role, i: nat)
    requires i < |scenarios|
    ensures Fitting(tooLong, scenarios, role, 0) == {}
    ensures |Fitting(tooLong, scenarios, role, i + 1)| == |Fitting(tooLong, scenarios, role, i)|
            + if scenarios[i].role == role && !tooLong(Run(scenarios[i].id, scenarios[i].params)) then 1 else 0
  {
    var before := Fitting(tooLong, scenarios, role, i);
    assert Fitting(tooLong, scenarios, role, i + 1) ==
           if scenarios[i].role == role &&
              !tooLong(Run(scenarios[i].id, scenarios[i].params)) then before + {i} else before;
  }

  lemma SlotMore(tooLong: Command -> bool, scenarios: seq<Scenario>, role: Role, i: nat)
    requires i + 1 < |scenarios|
    ensures Slot(tooLong, scenarios, role, i + 1) == Slot(tooLong, scenarios, role, i)
            + if scenarios[i].role == role && !tooLong(Run(scenarios[i].id, scenarios[i].params)) then 1 else 0
  {
    assert scenarios[..i + 1][..i] == scenarios[..i];
    var sc := scenarios[i];
    var earlier := [Hello] + CommandsOf(scenarios[..i], role);
    if sc.role == role {
      assert [Hello] + CommandsOf(scenarios[..i + 1], role) == earlier + [CommandOf(sc)];
      DemandSnoc(tooLong, earlier, CommandOf(sc));
    } else {
      assert CommandsOf(scenarios[..i + 1], role) == CommandsOf(scenarios[..i], role);
    }
  }

  lemma {:induction false} SlotCounts(tooLong: Command -> bool, scenarios: seq<Scenario>, role: Role, i: nat)
    requires i < |scenarios| && !tooLong(Hello)
    ensures Slot(tooLong, scenarios, role, i) == 1 + |Fitting(tooLong, scenarios, role, i)|
  {
    hide Fitting;
    if i > 0 {
      SlotCounts(tooLong, scenarios, role, i - 1);
      SlotMore(tooLong, scenarios, role, i - 1);
      FittingMore(tooLong, scenarios, role, i - 1);
    } else {
      FittingMore(tooLong, scenarios, role, 0);
      FirstSlot(tooLong, scenarios, role);
    }
  }

  lemma FirstSlot(tooLong: Command -> bool, scenarios: seq<Scenario>, role: Role)
    requires scenarios != [] && !tooLong(Hello)
    ensures Slot(tooLong, scenarios, role, 0) == 1
  {
    assert [Hello] + CommandsOf(scenarios[..0], role) == [Hello];
    assert [Hello][1..] == [];
  }

  /**
   An owned scenario is answered by a message: the one after the handshake and the answers
   to the earlier owned scenarios that fit, if it is a result with the scenario's ID and one
   of the five statuses.
   */
  predicate AnsweredBy(tooLong: Command -> bool, s: State, scenarios: seq<Scenario>, role: Role, i: nat, m: Message)
    requires i < |scenarios|
  {
    var slot := 1 + |Fitting(tooLong, scenarios, role, i)|;
    && scenarios[i].role == role && !tooLong(Run(scenarios[i].id, scenarios[i].params))
    && slot < s.consumed <= |s.decoded| && s.decoded[slot] == m
    && m.kind == ResultMessage && m.id == scenarios[i].id && m.status in {Pass, Fail, Error, Unsupported, NA}
  }

  ghost predicate Answered(tooLong: Command -> bool, s: State, scenarios: seq<Scenario>, role: Role, i: nat)
    requires i < |scenarios|
  {
    exists m :: AnsweredBy(tooLong, s, scenarios, role, i, m)
  }

  /** What the case of a scenario is, given the message that answers it, if there is one. */
  predicate CaseTells(sc: Scenario, role: Role, answer: Option<Message>, c: CaseResult)
  {
    && c.id == sc.id && c.profile == sc.profile && c.role == sc.role && c.required == sc.required
    && (c.applicable <==> sc.role == role)
    && (sc.role != role ==> c.status == NA && c.detail == NotOwned && c.evidence == map[])
    && (sc.role == role && answer.None? ==> c.status == Error && c.detail.Faulted? && c.evidence == map[])
    && (sc.role == role && answer.Some? ==>
          c.status == answer.value.status && c.detail == Reported(answer.value.detail)
          && c.evidence == answer.value.evidence)
  }

  lemma HelloFits(
    tooLong: Command -> bool, events: seq<Event>, scenarios: seq<Scenario>, role: Role, cases: seq<CaseResult>)
    requires WholeRun(tooLong, events, scenarios, role, cases)
    ensures !tooLong(Hello)
  {
    hide Possible, After, IsRun, CommandsOf;
    var log := After(tooLong, Started(), events).log;
    LogAt(log, 0);
    StartsIff(tooLong, events, log[0].result.value);
  }

  /** In every interleaving, each case tells what its scenario and the message that answers it say. */
  lemma CaseIs(
    tooLong: Command -> bool, events: seq<Event>, scenarios: seq<Scenario>, role: Role, cases: seq<CaseResult>, i: nat)
    requires WholeRun(tooLong, events, scenarios, role, cases) && i < |scenarios|
    ensures |cases| == |scenarios|
    ensures var s := After(tooLong, Started(), events);
            && (!Answered(tooLong, s, scenarios, role, i) ==> CaseTells(scenarios[i], role, None, cases[i]))
            && (forall m :: AnsweredBy(tooLong, s, scenarios, role, i, m) ==>
                  CaseTells(scenarios[i], role, Some(m), cases[i]))
  {
    hide Owned, CommandsOf, Possible, After, RunResults, Slot, Fitting, Grade, Started;
    var s := After(tooLong, Started(), events);
    var sc := scenarios[i];
    assert CaseFits(scenarios, role, RunResults(s.log), cases[i], i);
    if sc.role == role {
      HelloFits(tooLong, events, scenarios, role, cases);
      SlotCounts(tooLong, scenarios, role, i);
      ResultOf(tooLong, events, scenarios, role, cases, i);
      var slot := Slot(tooLong, scenarios, role, i);
      if slot < s.consumed {
        GradeIff(CommandOf(sc), s.decoded[slot]);
        assert !tooLong(CommandOf(sc)) && GoodAnswer(CommandOf(sc), s.decoded[slot]) <==>
               AnsweredBy(tooLong, s, scenarios, role, i, s.decoded[slot]);
      }
    }
  }

  // ------------------------------------------------------------------------ report

  /** The scenario is answered with this status. */
  ghost predicate Says(
    tooLong: Command -> bool, s: State, scenarios: seq<Scenario>, role: Role, i: nat, status: Status)
    requires i < |scenarios|
  {
    exists m :: AnsweredBy(tooLong, s, scenarios, role, i, m) && m.status == status
  }

  /** Each status of a case, by its scenario and its answer. */
  lemma StatusIs(
    tooLong: Command -> bool, events: seq<Event>, scenarios: seq<Scenario>, role: Role, cases: seq<CaseResult>, i: nat)
    requires WholeRun(tooLong, events, scenarios, role, cases) && i < |scenarios|
    ensures |cases| == |scenarios|
    ensures var s, c := After(tooLong, Started(), events), cases[i];
            && (c.applicable <==> scenarios[i].role == role) && c.required == scenarios[i].required
            && (c.status == Pass <==> Says(tooLong, s, scenarios, role, i, Pass))
            && (c.status == Fail <==> Says(tooLong, s, scenarios, role, i, Fail))
            && (c.status == Unsupported <==> Says(tooLong, s, scenarios, role, i, Unsupported))
            && (c.status == NA <==> scenarios[i].role != role || Says(tooLong, s, scenarios, role, i, NA))
            && (c.status == Error <==>
                && scenarios[i].role == role
                && (Answered(tooLong, s, scenarios, role, i) ==> Says(tooLong, s, scenarios, role, i, Error)))
            && ValidStatus(c.status)
  {
    hide WholeRun, Possible, After, Fitting, Started;
    CaseIs(tooLong, events, scenarios, role, cases, i);
  }

  lemma SaysAnswered(tooLong: Command -> bool, s: State, scenarios: seq<Scenario>, role: Role, i: nat, status: Status)
    requires i < |scenarios|
    ensures Says(tooLong, s, scenarios, role, i, status) ==>
              scenarios[i].role == role && Answered(tooLong, s, scenarios, role, i)
  {
    hide Fitting;
  }

  /** Each JUnit element, by its scenario and its answer. */
  lemma ElementIs(
    tooLong: Command -> bool, events: seq<Event>, scenarios: seq<Scenario>, role: Role, cases: seq<CaseResult>, i: nat)
    requires WholeRun(tooLong, events, scenarios, role, cases) && i < |scenarios|
    ensures |cases| == |scenarios|
    ensures var s, sc, e := After(tooLong, Started(), events), scenarios[i], ElementOf(cases[i]);
            && (e == NoChild <==> Says(tooLong, s, scenarios, role, i, Pass))
            && (e == SkippedChild <==>
                sc.role != role || (!sc.required && Says(tooLong, s, scenarios, role, i, NA)))
            && (e == ErrorChild <==>
                && sc.role == role
                && (Answered(tooLong, s, scenarios, role, i) ==> Says(tooLong, s, scenarios, role, i, Error)))
            && (e == FailureChild <==>
                || Says(tooLong, s, scenarios, role, i, Fail) || Says(tooLong, s, scenarios, role, i, Unsupported)
                || (sc.required && Says(tooLong, s, scenarios, role, i, NA)))
  {
    hide Possible, After, Says, Answered, IsRun, CommandsOf, RunResults, Commands;
    StatusIs(tooLong, events, scenarios, role, cases, i);
    SaysAnswered(tooLong, After(tooLong, Started(), events), scenarios, role, i, NA);
  }

  function WithStatus(cases: seq<CaseResult>, status: Status, n: nat): set<int>
    requires n <= |cases|
  {
    set i | 0 <= i < n && cases[i].status == status
  }

  lemma StatusMore(cases: seq<CaseResult>, status: Status, n: nat)
    requires n < |cases|
    ensures |WithStatus(cases, status, n + 1)| ==
            |WithStatus(cases, status, n)| + if cases[n].status == status then 1 else 0
  {
    var before := WithStatus(cases, status, n);
    assert WithStatus(cases, status, n + 1) == if cases[n].status == status then before + {n} else before;
  }

  lemma {:induction false} TallyCounts(cases: seq<CaseResult>, status: Status, n: nat)
    requires n <= |cases|
    ensures Tally(cases[..n], status) == |WithStatus(cases, status, n)|
  {
    if n > 0 {
      hide WithStatus;
      TallyCounts(cases, status, n - 1);
      StatusMore(cases, status, n - 1);
      assert cases[..n][..n - 1] == cases[..n - 1];
    }
  }

  function WithElement(elements: seq<Element>, e: Element, n: nat): set<int>
    requires n <= |elements|
  {
    set i | 0 <= i < n && elements[i] == e
  }

  lemma ElementMore(elements: seq<Element>, e: Element, n: nat)
    requires n < |elements|
    ensures |WithElement(elements, e, n + 1)| == |WithElement(elements, e, n)| + if elements[n] == e then 1 else 0
  {
    var before := WithElement(elements, e, n);
    assert WithElement(elements, e, n + 1) == if elements[n] == e then before + {n} else before;
  }

  lemma {:induction false} AmountCounts(elements: seq<Element>, e: Element, n: nat)
    requires n <= |elements|
    ensures Amount(elements[..n], e) == |WithElement(elements, e, n)|
  {
    if n > 0 {
      hide WithElement;
      AmountCounts(elements, e, n - 1);
      ElementMore(elements, e, n - 1);
      assert elements[..n][..n - 1] == elements[..n - 1];
    }
  }

  /** The scenarios that are answered with this status. */
  ghost function Saying(
    tooLong: Command -> bool, s: State, scenarios: seq<Scenario>, role: Role, status: Status): set<int>
  {
    set i | 0 <= i < |scenarios| && Says(tooLong, s, scenarios, role, i, status)
  }

  /** The scenarios that the role does not own. */
  function Foreign(scenarios: seq<Scenario>, role: Role): set<int>
  {
    set i | 0 <= i < |scenarios| && scenarios[i].role != role
  }

  /** The scenarios that the role owns and that no message answers. */
  ghost function Unanswered(tooLong: Command -> bool, s: State, scenarios: seq<Scenario>, role: Role): set<int>
  {
    set i | 0 <= i < |scenarios| && scenarios[i].role == role && !Answered(tooLong, s, scenarios, role, i)
  }

  lemma StatusSets(
    tooLong: Command -> bool, events: seq<Event>, scenarios: seq<Scenario>, role: Role, cases: seq<CaseResult>)
    requires WholeRun(tooLong, events, scenarios, role, cases)
    ensures |cases| == |scenarios|
    ensures var s, n := After(tooLong, Started(), events), |scenarios|;
            && WithStatus(cases, Pass, n) == Saying(tooLong, s, scenarios, role, Pass)
            && WithStatus(cases, Fail, n) == Saying(tooLong, s, scenarios, role, Fail)
            && WithStatus(cases, Unsupported, n) == Saying(tooLong, s, scenarios, role, Unsupported)
            && WithStatus(cases, NA, n) == Saying(tooLong, s, scenarios, role, NA) + Foreign(scenarios, role)
            && WithStatus(cases, Error, n) ==
               Saying(tooLong, s, scenarios, role, Error) + Unanswered(tooLong, s, scenarios, role)
  {
    hide Possible, After, Says, Answered, CaseFits, CommandsOf, RunResults, Commands;
    var s := After(tooLong, Started(), events);
    forall i | 0 <= i < |scenarios|
      ensures cases[i].status == Pass <==> Says(tooLong, s, scenarios, role, i, Pass)
      ensures cases[i].status == Fail <==> Says(tooLong, s, scenarios, role, i, Fail)
      ensures cases[i].status == Unsupported <==> Says(tooLong, s, scenarios, role, i, Unsupported)
      ensures cases[i].status == NA <==> scenarios[i].role != role || Says(tooLong, s, scenarios, role, i, NA)
      ensures cases[i].status == Error <==>
              || Says(tooLong, s, scenarios, role, i, Error)
              || (scenarios[i].role == role && !Answered(tooLong, s, scenarios, role, i))
    {
      StatusIs(tooLong, events, scenarios, role, cases, i);
      SaysAnswered(tooLong, s, scenarios, role, i, Error);
    }
  }

  /**
   The summary and the rendered report, by the scenarios and the messages: what each of
   the five counts and the three JUnit counters counts.
   */
  lemma ReportTells(
    tooLong: Command -> bool, events: seq<Event>, scenarios: seq<Scenario>, role: Role, cases: seq<CaseResult>,
    r: Report, j: JUnit)
    requires StrictBy(IDOf, scenarios) && WholeRun(tooLong, events, scenarios, role, cases)
    requires r.cases == SortBy(CaseID, cases) && Counts(r.summary, r.cases) && Shows(j, r)
    ensures var s, sum, n := After(tooLong, Started(), events), r.summary, |scenarios|;
            && sum.pass == |Saying(tooLong, s, scenarios, role, Pass)|
            && sum.fail == |Saying(tooLong, s, scenarios, role, Fail)|
            && sum.unsupported == |Saying(tooLong, s, scenarios, role, Unsupported)|
            && sum.na == |Saying(tooLong, s, scenarios, role, NA) + Foreign(scenarios, role)|
            && sum.error == |Saying(tooLong, s, scenarios, role, Error) + Unanswered(tooLong, s, scenarios, role)|
            && |j.elements| == |cases| == n && (forall i :: 0 <= i < n ==> j.elements[i] == ElementOf(cases[i]))
            && j.failures == |WithElement(j.elements, FailureChild, n)|
            && j.errors == |WithElement(j.elements, ErrorChild, n)|
            && j.skipped == |WithElement(j.elements, SkippedChild, n)|
  {
    hide Possible, After, Tally, Amount, SortBy, StrictBy, DistinctBy, WholeRun, WithStatus, WithElement, Saying,
      Foreign,
      Unanswered, ElementOf, Conformant;
    CasesCarryIDs(tooLong, events, scenarios, role, cases);
    SortedAlready(cases);
    StatusSets(tooLong, events, scenarios, role, cases);
    var n := |scenarios|;
    assert cases[..n] == cases && j.elements[..n] == j.elements;
    TallyCounts(cases, Pass, n);
    TallyCounts(cases, Fail, n);
    TallyCounts(cases, Error, n);
    TallyCounts(cases, Unsupported, n);
    TallyCounts(cases, NA, n);
    AmountCounts(j.elements, FailureChild, n);
    AmountCounts(j.elements, ErrorChild, n);
    AmountCounts(j.elements, SkippedChild, n);
  }
}
