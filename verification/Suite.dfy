/** Scenario suites: validation, order and selection; and the runner that turns answers into case results. */
module Suite {
  import opened Bytes
  import opened Adapter
  import opened KeyedSort

  datatype Scenario = Scenario(id: string, role: Role, profile: string, required: bool, params: map<string, string>)

  datatype SuiteError =
    | BadVersion
    | EmptyID
    | DuplicateID(id: string)
    | UnknownRole(id: string)
    | EmptyProfile(id: string)

  function IDOf(sc: Scenario): string
  {
    sc.id
  }

  // ------------------------------------------------------------------ validation

  predicate WellFormed(sc: Scenario)
  {
    sc.id != "" && ValidRole(sc.role) && sc.profile != ""
  }

  ghost predicate ValidSuite(version: int, scenarios: seq<Scenario>)
  {
    && version >= 1
    && (forall i :: 0 <= i < |scenarios| ==> WellFormed(scenarios[i]))
    && DistinctBy(IDOf, scenarios)
  }

  /** What is wrong with one scenario after those with the IDs seen. */
  function Offence(sc: Scenario, seen: set<string>): Option<SuiteError>
  {
    if sc.id == "" then Some(EmptyID)
    else if sc.id in seen then Some(DuplicateID(sc.id))
    else if !ValidRole(sc.role) then Some(UnknownRole(sc.id))
    else if sc.profile == "" then Some(EmptyProfile(sc.id))
    else None
  }

  function IDs(scenarios: seq<Scenario>): set<string>
  {
    set i | 0 <= i < |scenarios| :: scenarios[i].id
  }

  ghost predicate OffendsFirst(scenarios: seq<Scenario>, k: nat, error: Option<SuiteError>)
    requires k < |scenarios|
  {
    && Offence(scenarios[k], IDs(scenarios[..k])) == error
    && forall i :: 0 <= i < k ==> Offence(scenarios[i], IDs(scenarios[..i])).None?
  }

  /** The error is the first offence, if there is one. */
  ghost predicate FirstOffence(scenarios: seq<Scenario>, error: Option<SuiteError>)
  {
    || (error.None? && forall i :: 0 <= i < |scenarios| ==> Offence(scenarios[i], IDs(scenarios[..i])).None?)
    || (error.Some? && exists k :: 0 <= k < |scenarios| && OffendsFirst(scenarios, k, error))
  }

  /** validate. */
  method Validate(version: int, scenarios: seq<Scenario>) returns (error: Option<SuiteError>)
    ensures error.None? <==> ValidSuite(version, scenarios)
    ensures if version < 1 then error == Some(BadVersion) else FirstOffence(scenarios, error)
  {
    NoOffenceIff(scenarios);
    if version < 1 {
      return Some(BadVersion);
    }
    var seen: set<string> := {};
    for k := 0 to |scenarios|
      invariant seen == IDs(scenarios[..k])
      invariant forall i :: 0 <= i < k ==> Offence(scenarios[i], IDs(scenarios[..i])).None?
    {
      var sc := scenarios[k];
      IDsGrow(scenarios, k);
      if sc.id == "" {
        assert OffendsFirst(scenarios, k, Some(EmptyID));
        return Some(EmptyID);
      }
      if sc.id in seen {
        assert OffendsFirst(scenarios, k, Some(DuplicateID(sc.id)));
        return Some(DuplicateID(sc.id));
      }
      seen := seen + {sc.id};
      if !ValidRole(sc.role) {
        assert OffendsFirst(scenarios, k, Some(UnknownRole(sc.id)));
        return Some(UnknownRole(sc.id));
      }
      if sc.profile == "" {
        assert OffendsFirst(scenarios, k, Some(EmptyProfile(sc.id)));
        return Some(EmptyProfile(sc.id));
      }
    }
    return None;
  }

  lemma IDsGrow(scenarios: seq<Scenario>, k: nat)
    requires k < |scenarios|
    ensures IDs(scenarios[..k + 1]) == IDs(scenarios[..k]) + {scenarios[k].id}
  {
  }

  /** No scenario offends exactly when all are well formed and no ID repeats. */
  lemma NoOffenceIff(scenarios: seq<Scenario>)
    ensures (forall i :: 0 <= i < |scenarios| ==> Offence(scenarios[i], IDs(scenarios[..i])).None?) <==>
            ((forall i :: 0 <= i < |scenarios| ==> WellFormed(scenarios[i])) && DistinctBy(IDOf, scenarios))
  {
  }

  /** LoadSuite after parsing. */
  method LoadSuite(version: int, scenarios: seq<Scenario>) returns (r: Result<seq<Scenario>, SuiteError>)
    ensures r.Ok? <==> ValidSuite(version, scenarios)
    ensures r.Ok? ==> StrictBy(IDOf, r.value) && multiset(r.value) == multiset(scenarios)
  {
    var error := Validate(version, scenarios);
    if error.Some? {
      return Err(error.value);
    }
    SortByOrders(IDOf, scenarios);
    SortByKeeps(IDOf, scenarios);
    return Ok(SortBy(IDOf, scenarios));
  }

  /** Select: exactly the scenarios of a profile, still in strict ID order. */
  method Select(scenarios: seq<Scenario>, profile: string) returns (out: seq<Scenario>)
    requires StrictBy(IDOf, scenarios)
    ensures StrictBy(IDOf, out)
    ensures forall sc :: sc in out <==> sc in scenarios && sc.profile == profile
  {
    out := [];
    for k := 0 to |scenarios|
      invariant StrictBy(IDOf, out)
      invariant forall sc :: sc in out <==> sc in scenarios[..k] && sc.profile == profile
    {
      assert scenarios[..k + 1] == scenarios[..k] + [scenarios[k]];
      if scenarios[k].profile == profile {
        out := out + [scenarios[k]];
      }
    }
    assert scenarios[..|scenarios|] == scenarios;
  }

  // ---------------------------------------------------------------------- runner

  datatype Detail = NotOwned | Faulted(fault: Fault) | Reported(text: string)

  datatype CaseResult = CaseResult(
    id: string, profile: string, role: Role, required: bool, applicable: bool,
    status: Status, detail: Detail, evidence: map<string, string>)

  /** The scenarios that an adapter of this role is sent. */
  function Owned(scenarios: seq<Scenario>, role: Role): seq<Scenario>
  {
    if scenarios == [] then []
    else
      var last := |scenarios| - 1;
      Owned(scenarios[..last], role) + if scenarios[last].role == role then [scenarios[last]] else []
  }

  function CommandOf(sc: Scenario): Command
  {
    Run(sc.id, sc.params)
  }

  function CommandsOf(scenarios: seq<Scenario>, role: Role): seq<Command>
  {
    var owned := Owned(scenarios, role);
    seq(|owned|, i requires 0 <= i < |owned| => CommandOf(owned[i]))
  }

  function Skipped(sc: Scenario): CaseResult
  {
    CaseResult(sc.id, sc.profile, sc.role, sc.required, false, NA, NotOwned, map[])
  }

  function CaseOf(sc: Scenario, result: Result<Message, Fault>): CaseResult
  {
    match result
    case Err(fault) => CaseResult(sc.id, sc.profile, sc.role, sc.required, true, Error, Faulted(fault), map[])
    case Ok(m) => CaseResult(sc.id, sc.profile, sc.role, sc.required, true, m.status, Reported(m.detail), m.evidence)
  }

  /**
   Run: one case a scenario; those that the role does not own are never sent.  `results`
   are what the calls return.
   */
  method RunSuite(
    scenarios: seq<Scenario>, role: Role, results: seq<Result<Message, Fault>>) returns (cases: seq<CaseResult>)
    requires |results| == |Owned(scenarios, role)|
    ensures IsRun(scenarios, role, results, cases)
  {
    cases := [];
    var sent := 0;
    for k := 0 to |scenarios|
      invariant sent == |Owned(scenarios[..k], role)| <= |results|
      invariant |cases| == k
      invariant forall i :: 0 <= i < k ==> CaseFits(scenarios, role, results, cases[i], i)
    {
      assert scenarios[..k + 1][..k] == scenarios[..k];
      OwnedGrows(scenarios, role, k + 1);
      if scenarios[k].role != role {
        cases := cases + [Skipped(scenarios[k])];
      } else {
        cases := cases + [CaseOf(scenarios[k], results[sent])];
        sent := sent + 1;
      }
    }
  }

  predicate CaseFits(scenarios: seq<Scenario>, role: Role, results: seq<Result<Message, Fault>>, c: CaseResult, i: nat)
    requires i < |scenarios|
  {
    var sent := |Owned(scenarios[..i], role)|;
    if scenarios[i].role != role then c == Skipped(scenarios[i])
    else sent < |results| && c == CaseOf(scenarios[i], results[sent])
  }

  ghost predicate IsRun(
    scenarios: seq<Scenario>, role: Role, results: seq<Result<Message, Fault>>, cases: seq<CaseResult>)
  {
    |cases| == |scenarios| && forall i :: 0 <= i < |cases| ==> CaseFits(scenarios, role, results, cases[i], i)
  }

  lemma {:induction false} OwnedGrows(scenarios: seq<Scenario>, role: Role, k: nat)
    requires k <= |scenarios|
    ensures Owned(scenarios[..k], role) <= Owned(scenarios, role)
    decreases |scenarios| - k
  {
    if k < |scenarios| {
      assert scenarios[..k + 1][..k] == scenarios[..k];
      OwnedGrows(scenarios, role, k + 1);
    } else {
      assert scenarios[..k] == scenarios;
    }
  }

  /** An owned scenario stands among the owned ones where the counting of earlier ones puts it. */
  lemma OwnedAt(scenarios: seq<Scenario>, role: Role, i: nat)
    requires i < |scenarios| && scenarios[i].role == role
    ensures var k := |Owned(scenarios[..i], role)|;
            k < |Owned(scenarios, role)| && Owned(scenarios, role)[k] == scenarios[i]
  {
    assert scenarios[..i + 1][..i] == scenarios[..i];
    OwnedGrows(scenarios, role, i + 1);
  }
}
