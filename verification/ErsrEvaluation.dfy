/** One model's ERSR evaluation from validation rollouts to the report.
    Models utils/ersr_evaluation.py. */
module ErsrEvaluation {
  import opened Basics
  import opened ErsrCases
  import opened StagedErsr
  import opened StudentPhase
  import opened ErsrMetrics

  datatype Evaluation = Evaluation(cases: seq<Case>, results: seq<CaseResult>, summaries: map<Action, Summary>)

  /** The steps a series has to offer. */
  function Offered(records: seq<Record>, e: Site, student: bool, teacher: bool, key: Key): nat {
    StepsBeforeLast(records, e.s, e.split, student, teacher, key)
  }

  /** A report line accounts for every selected step: min(cap, offered) were selected, and each of
      them is either valid or skipped. */
  ghost predicate LineAccounts(row: SeriesRow, records: seq<Record>, e: Site, student: bool, teacher: bool, key: Key) {
    row.selected == Min(e.s.cap, Offered(records, e, student, teacher, key)) && row.selected == row.valid + row.skipped
  }

  ghost predicate ReportAccounts(s: Summary, records: seq<Record>, e: Site, student: bool, teacher: bool,
                                 action: Action)
  {
    && |s.rows| == |e.s.datasets|
    && (forall i :: 0 <= i < |s.rows| ==>
      LineAccounts(s.rows[i], records, e, student, teacher, Key(e.s.datasets[i], action)))
    && s.totals.selected == s.totals.valid + s.totals.skipped
  }

  /** Select, evaluate and report. Whatever the draws, the shuffles, the generated text and the
      scheduling, a run without a failed job or a dead worker succeeds as soon as an action is
      enabled, and a run that succeeds has exactly the cases' own results and loses no step. */
  method EvaluateModel(records: seq<Record>, e: Site, draw: Draws, order: (Key, nat) -> seq<nat>,
                       student: bool, teacher: bool, gpus: nat, rolloutsPerBatch: nat)
    returns (r: Result<Evaluation>, ghost faults: nat)
    requires DrawsOk(draw, e.s.cap) && SplitterOk(e.split) && ShuffleOk(order)
    requires Distinct(e.s.datasets) && e.s.mcK > 0 && gpus > 0 && rolloutsPerBatch > 0
    requires teacher ==> e.teacher.Some?
    ensures faults == 0 ==> (r.Ok? <==> student || teacher)
    ensures r.Ok? ==> CasesReady(e, r.value.cases) && r.value.results == StagedResults(e, r.value.cases)
    ensures r.Ok? ==> FromReservoirs(r.value.cases, Stream(records, e.s, e.split, student, teacher), e.s.cap, draw)
    ensures r.Ok? ==> forall a :: a in r.value.summaries <==> a in Actions(student, teacher)
    ensures r.Ok? ==> forall a :: a in r.value.summaries ==>
      && IsSummary(r.value.summaries[a], r.value.results, r.value.cases, e.s.datasets, a)
      && ReportAccounts(r.value.summaries[a], records, e, student, teacher, a)
  {
    hide IsSummary, ReportAccounts, CasesReady, CasesOk, FromReservoirs, Emission, ShuffleOk, DrawsOk, SplitterOk;
    var selected, _ := BuildStepCases(records, e.s, e.split, draw, order, student, teacher);
    if selected.Err? {
      return Err(selected.reason), 0;
    }
    var cases := selected.value;
    Ready(e, cases, records, student, teacher);
    var evaluated;
    evaluated, faults := EvaluateErsr(e, cases, gpus, rolloutsPerBatch);
    if evaluated.Err? {
      return Err(evaluated.reason), faults;
    }
    var results := evaluated.value;
    var actions := Actions(student, teacher);
    var summaries: map<Action, Summary> := map[];
    for k := 0 to |actions|
      invariant forall a :: a in summaries <==> a in actions[..k]
      invariant forall a :: a in summaries ==>
        && IsSummary(summaries[a], results, cases, e.s.datasets, a)
        && ReportAccounts(summaries[a], records, e, student, teacher, a)
    {
      var summary := Summarize(results, cases, e.s.datasets, actions[k]);
      Accounts(summary, records, e, cases, student, teacher, actions[k]);
      assert actions[..k + 1] == actions[..k] + [actions[k]];
      summaries := summaries[actions[k] := summary];
    }
    assert actions[..|actions|] == actions;
    return Ok(Evaluation(cases, results, summaries)), faults;
  }

  lemma KeysHave(e: Site, student: bool, teacher: bool)
    requires Distinct(e.s.datasets)
    ensures forall k :: k in Keys(e.s.datasets, Actions(student, teacher)) <==>
      k.dataset in e.s.datasets && k.action in Actions(student, teacher)
  {
    KeysListed(e.s.datasets, Actions(student, teacher));
  }

  lemma Ready(e: Site, cases: seq<Case>, records: seq<Record>, student: bool, teacher: bool)
    requires SplitterOk(e.split) && e.s.mcK > 0 && Distinct(e.s.datasets) && (teacher ==> e.teacher.Some?)
    requires CasesOk(cases, Keys(e.s.datasets, Actions(student, teacher)), records, e.s, e.split)
    ensures CasesReady(e, cases)
  {
    hide CasesOk, SplitterOk, CasesReady;
    KeysHave(e, student, teacher);
    SelectedAreReady(e, cases, Keys(e.s.datasets, Actions(student, teacher)), records);
  }

  lemma Accounts(s: Summary, records: seq<Record>, e: Site, cases: seq<Case>, student: bool, teacher: bool,
                 action: Action)
    requires CasesReady(e, cases) && Distinct(e.s.datasets) && action in Actions(student, teacher)
    requires IsSummary(s, StagedResults(e, cases), cases, e.s.datasets, action)
    requires forall key :: key in Keys(e.s.datasets, Actions(student, teacher)) ==>
      CountKey(cases, key) == Min(e.s.cap, Offered(records, e, student, teacher, key))
    ensures ReportAccounts(s, records, e, student, teacher, action)
  {
    hide CaseReady, IsSummary, StagedResults;
    SummaryBalances(s, e, cases, e.s.datasets, action);
    KeysHave(e, student, teacher);
    forall i | 0 <= i < |s.rows|
      ensures LineAccounts(s.rows[i], records, e, student, teacher, Key(e.s.datasets[i], action))
    {
      assert Key(e.s.datasets[i], action) in Keys(e.s.datasets, Actions(student, teacher));
    }
  }
}
