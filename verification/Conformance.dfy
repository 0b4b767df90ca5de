/** From the wire to the verdict: what a conformance run says about the messages that the adapter sent. */
module Conformance {
  import opened Bytes
  import opened Adapter
  import opened AdapterProperties
  import opened KeyedSort
  import opened Ordering
  import opened Suite
  import opened Report

  /** The results of the scenario calls of a log that starts with the handshake. */
  function RunResults(log: seq<Entry>): seq<Result<Message, Fault>>
  {
    if log == [] then [] else seq(|log| - 1, i requires 0 <= i < |log| - 1 => log[i + 1].result)
  }

  /**
   A whole conformance run: some interleaving of the driver in which Start accepted a
   handshake of this role and the runner's commands followed, and the cases recorded.
   */
  ghost predicate WholeRun(
    tooLong: Command -> bool, events: seq<Event>, scenarios: seq<Scenario>, role: Role, cases: seq<CaseResult>)
  {
    && Possible(tooLong, Started(), events)
    && var log := After(tooLong, Started(), events).log;
    && Commands(log) == [Hello] + CommandsOf(scenarios, role)
    && log != [] && log[0].result.Ok? && log[0].result.value.role == role
    && IsRun(scenarios, role, RunResults(log), cases)
  }

  /** Where in the decoded messages the answer to an owned scenario has to stand. */
  function Slot(tooLong: Command -> bool, scenarios: seq<Scenario>, role: Role, i: nat): nat
    requires i < |scenarios|
  {
    Demand(tooLong, [Hello] + CommandsOf(scenarios[..i], role))
  }

  /** The message at the scenario's own place is a result for it with this status. */
  predicate Reports(tooLong: Command -> bool, s: State, scenarios: seq<Scenario>, role: Role, i: nat, status: Status)
    requires i < |scenarios|
  {
    var slot := Slot(tooLong, scenarios, role, i);
    && !tooLong(CommandOf(scenarios[i]))
    && slot < s.consumed <= |s.decoded|
    && s.decoded[slot].kind == ResultMessage
    && s.decoded[slot].id == scenarios[i].id
    && s.decoded[slot].status == status
    && ValidStatus(status)
  }

  lemma CommandsAt(scenarios: seq<Scenario>, role: Role, i: nat)
    requires i < |scenarios| && scenarios[i].role == role
    ensures var all, k := [Hello] + CommandsOf(scenarios, role), |Owned(scenarios[..i], role)| + 1;
            k < |all| && all[k] == CommandOf(scenarios[i]) && all[..k] == [Hello] + CommandsOf(scenarios[..i], role)
  {
    hide Owned;
    OwnedAt(scenarios, role, i);
    OwnedGrows(scenarios, role, i);
  }

  lemma ResultAt(log: seq<Entry>, k: nat)
    requires 0 < k < |log|
    ensures k - 1 < |RunResults(log)| && RunResults(log)[k - 1] == log[k].result
    ensures |Answers(log)| == |Commands(log)| == |log|
    ensures Answers(log)[k] == Accepted(log[k].result) && Commands(log)[k] == log[k].command
  {
  }

  /** The result of an owned scenario's call, in terms of the decoded messages alone. */
  lemma ResultOf(
    tooLong: Command -> bool, events: seq<Event>, scenarios: seq<Scenario>, role: Role, cases: seq<CaseResult>, i: nat)
    requires WholeRun(tooLong, events, scenarios, role, cases) && i < |scenarios| && scenarios[i].role == role
    ensures var s, k := After(tooLong, Started(), events), |Owned(scenarios[..i], role)|;
            && s.consumed <= |s.decoded| && k < |RunResults(s.log)|
            && var slot := Slot(tooLong, scenarios, role, i);
            Accepted(RunResults(s.log)[k]) ==
            if !tooLong(CommandOf(scenarios[i])) && slot < s.consumed
            then Accepted(Grade(CommandOf(scenarios[i]), s.decoded[slot])) else None
  {
    hide Owned, CommandsOf, Served, Grade, Demand, Possible, After, Answers, Commands, RunResults, IsRun;
    var s := After(tooLong, Started(), events);
    RunsAreSequential(tooLong, events);
    var k := |Owned(scenarios[..i], role)| + 1;
    CommandsAt(scenarios, role, i);
    LogLength(s.log);
    ResultAt(s.log, k);
    AnsweredIff(tooLong, Commands(s.log), s.decoded[..s.consumed], k);
  }

  lemma LogLength(log: seq<Entry>)
    ensures |Commands(log)| == |log|
  {
  }

  /** An owned scenario has a status other than ERROR exactly when the message at its own place says so. */
  lemma StatusIff(
    tooLong: Command -> bool, events: seq<Event>, scenarios: seq<Scenario>, role: Role, cases: seq<CaseResult>, i: nat,
    status: Status)
    requires WholeRun(tooLong, events, scenarios, role, cases) && i < |scenarios| && scenarios[i].role == role
    requires status != Error
    ensures |cases| == |scenarios| && cases[i].id == scenarios[i].id && cases[i].applicable
    ensures cases[i].status == status <==>
            Reports(tooLong, After(tooLong, Started(), events), scenarios, role, i, status)
  {
    hide Owned, CommandsOf, Served, Demand, Slot, Possible, After, Answers, Commands, RunResults;
    ResultOf(tooLong, events, scenarios, role, cases, i);
    assert CaseFits(scenarios, role, RunResults(After(tooLong, Started(), events).log), cases[i], i);
  }

  /**
   The verdict.  In every interleaving, a run is conformant exactly when, for each
   required scenario that the adapter's role owns, the message at that scenario's own
   place among those taken is a PASS carrying that scenario's ID.
   */
  lemma VerdictIff(
    tooLong: Command -> bool, events: seq<Event>, scenarios: seq<Scenario>, role: Role, cases: seq<CaseResult>)
    requires WholeRun(tooLong, events, scenarios, role, cases)
    ensures Conformant(cases) <==>
            forall i :: 0 <= i < |scenarios| && scenarios[i].role == role && scenarios[i].required ==>
              Reports(tooLong, After(tooLong, Started(), events), scenarios, role, i, Pass)
  {
    hide Owned, CommandsOf, Possible, After, Answers, Commands, RunResults, Reports;
    var results := RunResults(After(tooLong, Started(), events).log);
    forall i | 0 <= i < |scenarios|
      ensures Breaks(cases[i]) <==>
              scenarios[i].role == role && scenarios[i].required &&
              !Reports(tooLong, After(tooLong, Started(), events), scenarios, role, i, Pass)
    {
      assert CaseFits(scenarios, role, results, cases[i], i);
      if scenarios[i].role == role {
        StatusIff(tooLong, events, scenarios, role, cases, i, Pass);
      }
    }
  }

  lemma {:induction false} SlotsGrow(tooLong: Command -> bool, scenarios: seq<Scenario>, role: Role, i: nat, j: nat)
    requires i < j < |scenarios| && scenarios[i].role == role && !tooLong(CommandOf(scenarios[i]))
    ensures Slot(tooLong, scenarios, role, i) < Slot(tooLong, scenarios, role, j)
    decreases j
  {
    var before := scenarios[..j - 1];
    assert scenarios[..j][..j - 1] == before;
    var sc := scenarios[j - 1];
    var earlier := [Hello] + CommandsOf(before, role);
    if sc.role == role {
      assert [Hello] + CommandsOf(scenarios[..j], role) == earlier + [CommandOf(sc)];
      DemandSnoc(tooLong, earlier, CommandOf(sc));
    } else {
      assert CommandsOf(scenarios[..j], role) == CommandsOf(before, role);
    }
    if i < j - 1 {
      SlotsGrow(tooLong, scenarios, role, i, j - 1);
    }
  }

  /** Two scenarios that pass do so by two different messages, in the order of the scenarios. */
  lemma PassesAreOwn(
    tooLong: Command -> bool, events: seq<Event>, scenarios: seq<Scenario>, role: Role, cases: seq<CaseResult>, i: nat,
    j: nat)
    requires WholeRun(tooLong, events, scenarios, role, cases) && i < j < |scenarios| == |cases|
    requires cases[i].status == Pass && cases[j].status == Pass
    ensures var s := After(tooLong, Started(), events);
            && Reports(tooLong, s, scenarios, role, i, Pass) && Reports(tooLong, s, scenarios, role, j, Pass)
            && Slot(tooLong, scenarios, role, i) < Slot(tooLong, scenarios, role, j)
  {
    hide Owned, CommandsOf, Slot, Possible, After, Answers, Commands, RunResults;
    var results := RunResults(After(tooLong, Started(), events).log);
    assert CaseFits(scenarios, role, results, cases[i], i) && CaseFits(scenarios, role, results, cases[j], j);
    StatusIff(tooLong, events, scenarios, role, cases, i, Pass);
    StatusIff(tooLong, events, scenarios, role, cases, j, Pass);
    SlotsGrow(tooLong, scenarios, role, i, j);
  }

  // ------------------------------------------------------------------ accounting

  lemma RunStatusesValid(
    tooLong: Command -> bool, events: seq<Event>, scenarios: seq<Scenario>, role: Role, cases: seq<CaseResult>)
    requires WholeRun(tooLong, events, scenarios, role, cases)
    ensures forall i :: 0 <= i < |cases| ==> ValidStatus(cases[i].status)
  {
    hide Owned, CommandsOf, Possible, After, Answers, Commands, RunResults, Reports;
    var results := RunResults(After(tooLong, Started(), events).log);
    forall i | 0 <= i < |cases| ensures ValidStatus(cases[i].status) {
      assert CaseFits(scenarios, role, results, cases[i], i);
      if scenarios[i].role == role && cases[i].status != Error {
        StatusIff(tooLong, events, scenarios, role, cases, i, cases[i].status);
        assert Reports(tooLong, After(tooLong, Started(), events), scenarios, role, i, cases[i].status);
        ReportsValid(tooLong, After(tooLong, Started(), events), scenarios, role, i, cases[i].status);
      }
    }
  }

  lemma ReportsValid(tooLong: Command -> bool, s: State, scenarios: seq<Scenario>, role: Role, i: nat, status: Status)
    requires i < |scenarios| && Reports(tooLong, s, scenarios, role, i, status)
    ensures ValidStatus(status)
  {
  }

  lemma SortedCasesAgree(cases: seq<CaseResult>)
    ensures forall c :: c in SortBy(CaseID, cases) <==> c in cases
    ensures |SortBy(CaseID, cases)| == |cases|
    ensures Conformant(SortBy(CaseID, cases)) <==> Conformant(cases)
  {
    hide SortBy;
    var sorted := SortBy(CaseID, cases);
    SortByKeeps(CaseID, cases);
    assert |sorted| == |multiset(sorted)| == |multiset(cases)| == |cases|;
    forall c ensures c in sorted <==> c in cases {
      assert c in sorted <==> c in multiset(sorted);
    }
    if Conformant(cases) {
      forall i | 0 <= i < |sorted| ensures !Breaks(sorted[i]) {
        assert sorted[i] in cases;
      }
    }
    if Conformant(sorted) {
      forall i | 0 <= i < |cases| ensures !Breaks(cases[i]) {
        assert cases[i] in sorted;
      }
    }
  }

  /**
   Accounting of a whole run: the five counts add up to the number of scenarios, and
   the report's verdict is the one on the wire.
   */
  lemma ReportAccounts(
    tooLong: Command -> bool, events: seq<Event>, scenarios: seq<Scenario>, role: Role, cases: seq<CaseResult>,
    r: Report)
    requires WholeRun(tooLong, events, scenarios, role, cases)
    requires r.cases == SortBy(CaseID, cases) && Counts(r.summary, r.cases)
    ensures var s := r.summary;
            s.pass + s.fail + s.error + s.unsupported + s.na == s.total == |scenarios|
    ensures r.summary.conformant <==>
            forall i :: 0 <= i < |scenarios| && scenarios[i].role == role && scenarios[i].required ==>
              Reports(tooLong, After(tooLong, Started(), events), scenarios, role, i, Pass)
  {
    hide SortBy, Possible, After, Reports, CommandsOf, Owned, Tally, Conformant, CaseFits;
    RunStatusesValid(tooLong, events, scenarios, role, cases);
    SortedCasesAgree(cases);
    forall i | 0 <= i < |r.cases| ensures ValidStatus(r.cases[i].status) {
      assert r.cases[i] in cases;
    }
    CountsAddUp(r.cases);
    VerdictIff(tooLong, events, scenarios, role, cases);
  }

  /** The cases of a run carry the scenarios' IDs, in order. */
  lemma CasesCarryIDs(
    tooLong: Command -> bool, events: seq<Event>, scenarios: seq<Scenario>, role: Role, cases: seq<CaseResult>)
    requires WholeRun(tooLong, events, scenarios, role, cases) && StrictBy(IDOf, scenarios)
    ensures |cases| == |scenarios| && StrictBy(CaseID, cases) && DistinctBy(CaseID, cases)
    ensures forall i :: 0 <= i < |cases| ==>
      (cases[i].applicable <==> scenarios[i].role == role) && cases[i].required == scenarios[i].required
  {
    hide Owned, CommandsOf, Possible, After, Commands, RunResults, Less;
    var results := RunResults(After(tooLong, Started(), events).log);
    forall i | 0 <= i < |cases|
      ensures CaseID(cases[i]) == IDOf(scenarios[i])
      ensures (cases[i].applicable <==> scenarios[i].role == role) && cases[i].required == scenarios[i].required
    {
      assert CaseFits(scenarios, role, results, cases[i], i);
    }
    forall i, j | 0 <= i < j < |cases| ensures CaseID(cases[i]) != CaseID(cases[j]) {
      assert Less(IDOf(scenarios[i]), IDOf(scenarios[j]));
      LessIsTotal(CaseID(cases[i]), CaseID(cases[j]));
    }
  }

  lemma SortedAlready(cases: seq<CaseResult>)
    requires StrictBy(CaseID, cases) && DistinctBy(CaseID, cases)
    ensures SortBy(CaseID, cases) == cases
  {
    SortByOrders(CaseID, cases);
    SortByKeeps(CaseID, cases);
    StrictIsUnique(CaseID, SortBy(CaseID, cases), cases);
  }

  /**
   From a selected suite to the rendered report, in every interleaving.  The report has
   the cases in scenario order; the elements, by class, and the status counts each add up
   to the number of scenarios; and the verdict, the elements of the required scenarios
   that the role owns, and the messages on the wire say the same.
   */
  lemma WholeReport(
    tooLong: Command -> bool, events: seq<Event>, scenarios: seq<Scenario>, role: Role, cases: seq<CaseResult>,
    r: Report, j: JUnit)
    requires StrictBy(IDOf, scenarios) && WholeRun(tooLong, events, scenarios, role, cases)
    requires r.cases == SortBy(CaseID, cases) && Counts(r.summary, r.cases) && Shows(j, r)
    ensures r.cases == cases && j.tests == |j.elements| == |scenarios|
    ensures j.failures + j.errors + j.skipped + Amount(j.elements, NoChild) == |scenarios|
    ensures var s := r.summary; s.pass + s.fail + s.error + s.unsupported + s.na == |scenarios|
    ensures r.summary.conformant <==>
            forall i :: 0 <= i < |scenarios| && scenarios[i].role == role && scenarios[i].required ==>
              j.elements[i] != FailureChild && j.elements[i] != ErrorChild
    ensures r.summary.conformant <==>
            forall i :: 0 <= i < |scenarios| && scenarios[i].role == role && scenarios[i].required ==>
              Reports(tooLong, After(tooLong, Started(), events), scenarios, role, i, Pass)
  {
    hide Possible, After, Reports, CommandsOf, Owned, Tally, CaseFits, Amount, SortBy, StrictBy, DistinctBy, WholeRun;
    CasesCarryIDs(tooLong, events, scenarios, role, cases);
    SortedAlready(cases);
    ReportAccounts(tooLong, events, scenarios, role, cases, r);
    ElementsAddUp(j.elements);
    forall i | 0 <= i < |cases|
      ensures Breaks(cases[i]) <==>
              scenarios[i].role == role && scenarios[i].required &&
                (j.elements[i] == FailureChild || j.elements[i] == ErrorChild)
    {
    }
  }

  /** With distinct case IDs, the report does not depend on the order of the cases. */
  lemma ReportIsCanonical(a: seq<CaseResult>, b: seq<CaseResult>, ra: Report, rb: Report)
    requires DistinctBy(CaseID, a) && DistinctBy(CaseID, b) && multiset(a) == multiset(b)
    requires ra.cases == SortBy(CaseID, a) && Counts(ra.summary, ra.cases)
    requires rb.cases == SortBy(CaseID, b) && Counts(rb.summary, rb.cases)
    ensures ra == rb
  {
    hide SortBy, DistinctBy, Tally, Conformant;
    SortByIsCanonical(CaseID, a, b);
  }

  // --------------------------------------------------------------- honest adapter

  /** The reply of an adapter that passes every scenario. */
  function HonestReply(role: Role, command: Command): Message
  {
    match command
    case Hello => Message(Handshake, "", PROTOCOL_VERSION, role, Pass, "", map[])
    case Run(id, _) => Message(ResultMessage, id, 0, role, Pass, "", map[])
  }

  function HonestEvents(role: Role, commands: seq<Command>): seq<Event>
    decreases |commands|
  {
    if commands == [] then []
    else [Call(commands[0]), Decode(HonestReply(role, commands[0])), Receive] + HonestEvents(role, commands[1..])
  }

  function HonestLog(role: Role, commands: seq<Command>): (log: seq<Entry>)
    ensures |log| == |commands|
    ensures forall i :: 0 <= i < |log| ==> log[i] == Entry(commands[i], Ok(HonestReply(role, commands[i])))
  {
    seq(|commands|, i requires 0 <= i < |commands| => Entry(commands[i], Ok(HonestReply(role, commands[i]))))
  }

  predicate Ready(s: State)
  {
    s.stdin.Open? && s.reader.Decoding? && s.caller.Idle?
  }

  lemma EventFirst(tooLong: Command -> bool, s: State, e: Event, rest: seq<Event>)
    requires Enabled(s, e) && Possible(tooLong, Apply(tooLong, s, e), rest)
    ensures Possible(tooLong, s, [e] + rest)
    ensures After(tooLong, s, [e] + rest) == After(tooLong, Apply(tooLong, s, e), rest)
  {
    hide Apply, Enabled;
    assert ([e] + rest)[1..] == rest;
  }

  /** The state after one command has been answered honestly. */
  function Answered(s: State, role: Role, c: Command): State
  {
    var m := HonestReply(role, c);
    s.(decoded := s.decoded + [m], consumed := s.consumed + 1, log := s.log + [Entry(c, Ok(m))])
  }

  lemma HonestApply(tooLong: Command -> bool, s: State, role: Role, c: Command)
    requires Ready(s) && ValidRole(role) && !tooLong(c) && (c.Hello? ==> s.log == [])
    ensures Enabled(s, Call(c))
    ensures var t := Apply(tooLong, s, Call(c)); Enabled(t, Decode(HonestReply(role, c)))
    ensures var t := Apply(tooLong, s, Call(c));
            var u := Apply(tooLong, t, Decode(HonestReply(role, c)));
            Enabled(u, Receive) && Apply(tooLong, u, Receive) == Answered(s, role, c)
  {
  }

  lemma HonestStep(tooLong: Command -> bool, s: State, role: Role, c: Command, rest: seq<Event>)
    requires Ready(s) && ValidRole(role) && !tooLong(c) && (c.Hello? ==> s.log == [])
    requires Possible(tooLong, Answered(s, role, c), rest)
    ensures var all := [Call(c), Decode(HonestReply(role, c)), Receive] + rest;
            Possible(tooLong, s, all) && After(tooLong, s, all) == After(tooLong, Answered(s, role, c), rest)
  {
    hide *;
    var m := HonestReply(role, c);
    HonestApply(tooLong, s, role, c);
    var t := Apply(tooLong, s, Call(c));
    var u := Apply(tooLong, t, Decode(m));
    EventFirst(tooLong, u, Receive, rest);
    EventFirst(tooLong, t, Decode(m), [Receive] + rest);
    EventFirst(tooLong, s, Call(c), [Decode(m)] + ([Receive] + rest));
    assert [Call(c)] + ([Decode(m)] + ([Receive] + rest)) == [Call(c), Decode(m), Receive] + rest;
  }

  lemma HonestLogFirst(role: Role, commands: seq<Command>)
    requires commands != []
    ensures HonestLog(role, commands) ==
            [Entry(commands[0], Ok(HonestReply(role, commands[0])))] + HonestLog(role, commands[1..])
  {
  }

  lemma HonestUnfold(tooLong: Command -> bool, s: State, role: Role, commands: seq<Command>)
    ensures commands == [] ==>
              HonestEvents(role, commands) == [] && HonestLog(role, commands) == [] && Possible(tooLong, s, []) &&
                After(tooLong, s, []) == s
    ensures commands != [] ==>
              HonestEvents(role, commands) ==
              [Call(commands[0]), Decode(HonestReply(role, commands[0])), Receive] + HonestEvents(role, commands[1..])
  {
  }

  lemma AnsweredReady(s: State, role: Role, c: Command)
    ensures Ready(s) ==> Ready(Answered(s, role, c))
    ensures Answered(s, role, c).log == s.log + [Entry(c, Ok(HonestReply(role, c)))]
  {
  }

  lemma {:induction false} HonestRun(tooLong: Command -> bool, s: State, role: Role, commands: seq<Command>)
    requires Ready(s) && ValidRole(role)
    requires forall i :: 0 <= i < |commands| ==> !tooLong(commands[i]) && (commands[i].Hello? ==> i == 0 && s.log == [])
    ensures Possible(tooLong, s, HonestEvents(role, commands))
    ensures After(tooLong, s, HonestEvents(role, commands)).log == s.log + HonestLog(role, commands)
    decreases |commands|
  {
    hide *;
    HonestUnfold(tooLong, s, role, commands);
    if commands != [] {
      AnsweredReady(s, role, commands[0]);
      HonestRun(tooLong, Answered(s, role, commands[0]), role, commands[1..]);
      HonestStep(tooLong, s, role, commands[0], HonestEvents(role, commands[1..]));
      HonestLogFirst(role, commands);
    }
  }

  lemma HonestCases(scenarios: seq<Scenario>, role: Role, cases: seq<CaseResult>)
    requires IsRun(scenarios, role, RunResults(HonestLog(role, [Hello] + CommandsOf(scenarios, role))), cases)
    ensures Conformant(cases)
  {
    hide Owned;
    var log := HonestLog(role, [Hello] + CommandsOf(scenarios, role));
    forall i | 0 <= i < |cases| ensures !Breaks(cases[i]) {
      assert CaseFits(scenarios, role, RunResults(log), cases[i], i);
      if scenarios[i].role == role {
        CommandsAt(scenarios, role, i);
      }
    }
  }

  /**
   Conversely, an adapter that answers in turn with a PASS for each scenario is found
   conformant, in a run that can happen.
   */
  lemma HonestAdapterConforms(tooLong: Command -> bool, scenarios: seq<Scenario>, role: Role, cases: seq<CaseResult>)
    requires ValidRole(role) && !tooLong(Hello)
    requires forall i :: 0 <= i < |scenarios| ==> !tooLong(CommandOf(scenarios[i]))
    requires IsRun(scenarios, role, RunResults(HonestLog(role, [Hello] + CommandsOf(scenarios, role))), cases)
    ensures WholeRun(tooLong, HonestEvents(role, [Hello] + CommandsOf(scenarios, role)), scenarios, role, cases)
    ensures Conformant(cases)
  {
    hide *;
    var commands := [Hello] + CommandsOf(scenarios, role);
    var log := HonestLog(role, commands);
    SentFit(tooLong, scenarios, role);
    ReadyAtStart();
    HonestRun(tooLong, Started(), role, commands);
    assert [] + log == log;
    HonestCommands(role, commands);
    MakeWhole(tooLong, HonestEvents(role, commands), scenarios, role, cases);
    HonestCases(scenarios, role, cases);
  }

  lemma ReadyAtStart()
    ensures Ready(Started()) && Started().log == []
  {
  }

  lemma HonestCommands(role: Role, commands: seq<Command>)
    requires commands != [] && commands[0] == Hello
    ensures Commands(HonestLog(role, commands)) == commands
    ensures HonestLog(role, commands)[0].result == Ok(HonestReply(role, Hello)) && HonestReply(role, Hello).role == role
  {
    assert forall i :: 0 <= i < |commands| ==> Commands(HonestLog(role, commands))[i] == commands[i];
  }

  lemma MakeWhole(
    tooLong: Command -> bool, events: seq<Event>, scenarios: seq<Scenario>, role: Role, cases: seq<CaseResult>)
    requires Possible(tooLong, Started(), events)
    requires var log := After(tooLong, Started(), events).log;
             && Commands(log) == [Hello] + CommandsOf(scenarios, role)
             && log != [] && log[0].result.Ok? && log[0].result.value.role == role
             && IsRun(scenarios, role, RunResults(log), cases)
    ensures WholeRun(tooLong, events, scenarios, role, cases)
  {
    hide Possible, After, Commands, CommandsOf, IsRun, RunResults, Started;
  }

  lemma SentFit(tooLong: Command -> bool, scenarios: seq<Scenario>, role: Role)
    requires !tooLong(Hello) && forall i :: 0 <= i < |scenarios| ==> !tooLong(CommandOf(scenarios[i]))
    ensures var commands := [Hello] + CommandsOf(scenarios, role);
            forall i :: 0 <= i < |commands| ==> !tooLong(commands[i]) && (commands[i].Hello? ==> i == 0)
  {
    hide Owned;
    OwnedAreScenarios(scenarios, role);
    var owned := Owned(scenarios, role);
    forall i | 0 <= i < |owned| ensures !tooLong(CommandOf(owned[i])) {
      assert owned[i] in scenarios;
    }
  }

  lemma {:induction false} OwnedAreScenarios(scenarios: seq<Scenario>, role: Role)
    ensures forall i :: 0 <= i < |Owned(scenarios, role)| ==> Owned(scenarios, role)[i] in scenarios
  {
    if scenarios != [] {
      OwnedAreScenarios(scenarios[..|scenarios| - 1], role);
    }
  }
}
