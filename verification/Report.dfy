/** Reports: the summary counts, the verdict and the JUnit classes. */
module Report {
  import opened Bytes
  import opened Adapter
  import opened KeyedSort
  import opened Suite

  datatype Summary = Summary(
    total: nat, pass: nat, fail: nat, error: nat, unsupported: nat, na: nat, conformant: bool)

  datatype Report = Report(summary: Summary, cases: seq<CaseResult>)

  function CaseID(c: CaseResult): string
  {
    c.id
  }

  function Tally(cases: seq<CaseResult>, status: Status): nat
  {
    if cases == [] then 0
    else
      var last := |cases| - 1;
      Tally(cases[..last], status) + if cases[last].status == status then 1 else 0
  }

  /** IsRequiredNonPass on an applicable required case. */
  predicate Breaks(c: CaseResult)
  {
    c.applicable && c.required && c.status != Pass
  }

  predicate Conformant(cases: seq<CaseResult>)
  {
    forall i :: 0 <= i < |cases| ==> !Breaks(cases[i])
  }

  ghost predicate Counts(s: Summary, cases: seq<CaseResult>)
  {
    && s.total == |cases|
    && s.pass == Tally(cases, Pass) && s.fail == Tally(cases, Fail) && s.error == Tally(cases, Error)
    && s.unsupported == Tally(cases, Unsupported) && s.na == Tally(cases, NA)
    && (s.conformant <==> Conformant(cases))
  }

  /** countCase. */
  function CountCase(s: Summary, c: CaseResult): Summary
  {
    match c.status
    case Pass => s.(pass := s.pass + 1)
    case Fail => s.(fail := s.fail + 1)
    case Error => s.(error := s.error + 1)
    case Unsupported => s.(unsupported := s.unsupported + 1)
    case NA => s.(na := s.na + 1)
    case OtherStatus(_) => s
  }

  /** NewReport. */
  method NewReport(unsorted: seq<CaseResult>) returns (r: Report)
    ensures r.cases == SortBy(CaseID, unsorted) && Counts(r.summary, r.cases)
  {
    var cases := SortBy(CaseID, unsorted);
    var s := Summarize(cases);
    return Report(s, cases);
  }

  method Summarize(cases: seq<CaseResult>) returns (s: Summary)
    ensures Counts(s, cases)
  {
    hide *;
    CountsNone(cases);
    s := Summary(|cases|, 0, 0, 0, 0, 0, true);
    for k := 0 to |cases|
      invariant CountsSoFar(s, cases, k)
    {
      CountsOneMore(s, cases, k);
      s := CountCase(s, cases[k]);
      if Breaks(cases[k]) {
        s := s.(conformant := false);
      }
    }
    CountsAll(s, cases);
  }

  /** The counts over the first k cases, with the total set beforehand. */
  ghost predicate CountsSoFar(s: Summary, cases: seq<CaseResult>, k: nat)
  {
    k <= |cases| && s.total == |cases| && Counts(s.(total := k), cases[..k])
  }

  lemma CountsNone(cases: seq<CaseResult>)
    ensures CountsSoFar(Summary(|cases|, 0, 0, 0, 0, 0, true), cases, 0)
  {
  }

  lemma CountsAll(s: Summary, cases: seq<CaseResult>)
    requires CountsSoFar(s, cases, |cases|)
    ensures Counts(s, cases)
  {
    assert cases[..|cases|] == cases;
  }

  lemma CountsOneMore(s: Summary, cases: seq<CaseResult>, k: nat)
    requires k < |cases| && CountsSoFar(s, cases, k)
    ensures !Breaks(cases[k]) ==> CountsSoFar(CountCase(s, cases[k]), cases, k + 1)
    ensures Breaks(cases[k]) ==> CountsSoFar(CountCase(s, cases[k]).(conformant := false), cases, k + 1)
  {
    assert cases[..k + 1][..k] == cases[..k];
    assert cases[..k + 1][k] == cases[k];
    assert forall i :: 0 <= i < k ==> cases[..k + 1][i] == cases[..k][i];
  }

  /** Every case that the runner records has a known status, so the counts add up to the total. */
  lemma {:induction false} CountsAddUp(cases: seq<CaseResult>)
    requires forall i :: 0 <= i < |cases| ==> ValidStatus(cases[i].status)
    ensures Tally(cases, Pass) + Tally(cases, Fail) + Tally(cases, Error) + Tally(cases, Unsupported) +
            Tally(cases, NA) == |cases|
  {
    if cases != [] {
      CountsAddUp(cases[..|cases| - 1]);
    }
  }

  // ----------------------------------------------------------------------- JUnit

  datatype Element = NoChild | SkippedChild | ErrorChild | FailureChild

  datatype JUnit = JUnit(tests: nat, failures: nat, errors: nat, skipped: nat, elements: seq<Element>)

  /** applyJUnitStatus. */
  function ElementOf(c: CaseResult): Element
  {
    if !c.applicable then SkippedChild
    else if c.status == Pass then NoChild
    else if c.status == Error then ErrorChild
    else if c.required && c.status != Pass then FailureChild
    else if c.status == NA then SkippedChild
    else FailureChild
  }

  function Amount(elements: seq<Element>, e: Element): nat
  {
    if elements == [] then 0
    else
      var last := |elements| - 1;
      Amount(elements[..last], e) + if elements[last] == e then 1 else 0
  }

  /** One element a case, and the counts of the elements. */
  predicate Shows(j: JUnit, r: Report)
  {
    && j.tests == r.summary.total && |j.elements| == |r.cases|
    && (forall i :: 0 <= i < |r.cases| ==> j.elements[i] == ElementOf(r.cases[i]))
    && j.failures == Amount(j.elements, FailureChild)
    && j.errors == Amount(j.elements, ErrorChild)
    && j.skipped == Amount(j.elements, SkippedChild)
  }

  /** JUnit. */
  method RenderJUnit(r: Report) returns (j: JUnit)
    ensures Shows(j, r)
  {
    var elements: seq<Element> := [];
    var failures, errors, skipped := 0, 0, 0;
    for k := 0 to |r.cases|
      invariant |elements| == k && forall i :: 0 <= i < k ==> elements[i] == ElementOf(r.cases[i])
      invariant failures == Amount(elements, FailureChild)
      invariant errors == Amount(elements, ErrorChild)
      invariant skipped == Amount(elements, SkippedChild)
    {
      var e := ElementOf(r.cases[k]);
      assert (elements + [e])[..k] == elements;
      elements := elements + [e];
      match e
      case NoChild =>
      case SkippedChild => skipped := skipped + 1;
      case ErrorChild => errors := errors + 1;
      case FailureChild => failures := failures + 1;
    }
    return JUnit(r.summary.total, failures, errors, skipped, elements);
  }

  lemma {:induction false} ElementsAddUp(elements: seq<Element>)
    ensures Amount(elements, NoChild) + Amount(elements, SkippedChild) + Amount(elements, ErrorChild) +
            Amount(elements, FailureChild)
            == |elements|
  {
    if elements != [] {
      ElementsAddUp(elements[..|elements| - 1]);
    }
  }
}
