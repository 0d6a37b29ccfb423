/** Evaluating ERSR cases one at a time, and in batched teacher and student phases over the GPU pool.
    Models utils/ersr.py and utils/ersr_evaluation.py. */
module StagedErsr {
  import opened Basics
  import opened ErsrCases

  /** What the engine sees of a generation request. */
  datatype Query = Query(ids: seq<int>, maxTokens: int, seed: int)

  /** Grades token ids against an answer; `None` is the training verifier, `Some(dataset)` the
      dataset-specific one. */
  type Grader = (seq<int>, string, Option<string>) -> real

  datatype CaseResult =
    | Measured(key: Key, caseId: string, baseline: real, action: real, advantage: real,
               baselineEmpty: nat, actionEmpty: nat, replacementTokens: Option<nat>)
    | Skipped(key: Key, caseId: string, reason: string)

  /** Everything an evaluation of one model depends on; `teacher` is the model that proposes
      replacements, if that action is enabled. Generation is a function of model and query. */
  datatype Site = Site(
    s: Settings,
    generate: (string, Query) -> seq<int>,
    grade: Grader,
    split: Splitter,
    model: string,
    teacher: Option<string>)

  // ----- one case at a time -----

  function Prefix(c: Case): seq<int>
    requires 0 <= c.candidate.start <= |c.candidate.responseIds|
  {
    c.candidate.responseIds[..c.candidate.start]
  }

  /** One Monte-Carlo continuation; a used-up budget leaves it empty. */
  function Continuation(e: Site, c: Case, prefix: seq<int>, offset: int, j: nat): seq<int> {
    var remaining := e.s.maxResponse - |prefix|;
    if remaining <= 0 then []
    else e.generate(e.model, Query(c.candidate.promptIds + prefix, remaining, c.seed + offset + j))
  }

  function Continuations(e: Site, c: Case, prefix: seq<int>, offset: int): (r: seq<seq<int>>)
    ensures |r| == e.s.mcK
  {
    seq(e.s.mcK, j requires 0 <= j => Continuation(e, c, prefix, offset, j))
  }

  function Rewards(e: Site, c: Case, prefix: seq<int>, source: Option<string>, continuations: seq<seq<int>>)
    : (r: seq<real>)
    ensures |r| == |continuations|
  {
    seq(|continuations|, j requires 0 <= j < |continuations| =>
      e.grade(prefix + continuations[j], c.candidate.answer, source))
  }

  function EmptyCount(s: seq<seq<int>>): nat {
    if s == [] then 0 else EmptyCount(s[..|s| - 1]) + if s[|s| - 1] == [] then 1 else 0
  }

  /** Mean reward and number of empty continuations over mc_k samples. */
  function Estimate(e: Site, c: Case, prefix: seq<int>, offset: int, source: Option<string>): (real, nat)
    requires e.s.mcK > 0
  {
    var samples := Continuations(e, c, prefix, offset);
    (Sum(Rewards(e, c, prefix, source, samples)) / (e.s.mcK as real), EmptyCount(samples))
  }

  function MeasureCase(e: Site, c: Case, actionPrefix: seq<int>, replacementTokens: Option<nat>,
                       source: Option<string>): CaseResult
    requires e.s.mcK > 0 && 0 <= c.candidate.start <= |c.candidate.responseIds|
  {
    var baseline := Estimate(e, c, Prefix(c), 0, source);
    var action := Estimate(e, c, actionPrefix, 1000, source);
    Measured(c.candidate.key, c.caseId, baseline.0, action.0, action.0 - baseline.0, baseline.1, action.1,
             replacementTokens)
  }

  /** The first visible step of a proposal, token for token. */
  function FirstReplacement(split: Splitter, proposal: seq<int>): Result<seq<int>>
    requires SplitterOk(split)
  {
    var spans := split(proposal);
    if spans.Err? then Err(spans.reason)
    else if spans.value == [] then Ok([])
    else
      assert SpansOk(spans.value, |proposal|);
      Ok(proposal[..spans.value[0].end])
  }

  function TeacherBudget(e: Site, c: Case): int { Min(e.s.maxTeacherStep, e.s.maxResponse - c.candidate.start) }

  function TeacherQuery(e: Site, c: Case): Query
    requires 0 <= c.candidate.start <= |c.candidate.responseIds|
  {
    Query(c.candidate.promptIds + Prefix(c), TeacherBudget(e, c), c.seed + 5000)
  }

  /** `evaluate_ersr_case`, graded by `source`. */
  function EvaluateCase(e: Site, c: Case, source: Option<string>): Result<CaseResult>
    requires e.s.mcK > 0 && SplitterOk(e.split)
  {
    var k := c.candidate;
    if !(0 <= k.start < k.end <= |k.responseIds|) then Err("invalid span")
    else if k.key.action == StudentAction then Ok(MeasureCase(e, c, k.responseIds[..k.end], None, source))
    else if e.teacher.None? then Err("teacher required")
    else if TeacherBudget(e, c) <= 0 then Ok(Skipped(k.key, c.caseId, "no_teacher_budget"))
    else
      var replacement := FirstReplacement(e.split, e.generate(e.teacher.value, TeacherQuery(e, c)));
      if replacement.Err? then Err(replacement.reason)
      else if replacement.value == [] then Ok(Skipped(k.key, c.caseId, "empty_teacher_replacement"))
      else Ok(MeasureCase(e, c, Prefix(c) + replacement.value, Some(|replacement.value|), source))
  }

  // ----- what the staged evaluation is to produce -----

  /** The facts case selection guarantees: spans inside the response, unique ids, teacher cases
      only where a teacher is configured. */
  ghost predicate CasesReady(e: Site, cases: seq<Case>) {
    && e.s.mcK > 0 && SplitterOk(e.split)
    && (forall i :: 0 <= i < |cases| ==> CaseReady(e, cases[i]))
    && forall i, j :: 0 <= i < j < |cases| ==> cases[i].caseId != cases[j].caseId
  }

  ghost predicate CaseReady(e: Site, c: Case) {
    && e.s.mcK > 0 && SplitterOk(e.split)
    && 0 <= c.candidate.start < c.candidate.end <= |c.candidate.responseIds|
    && (c.candidate.key.action == TeacherReplace ==> e.teacher.Some?)
  }

  /** Selected cases are ready. */
  lemma SelectedAreReady(e: Site, cases: seq<Case>, keys: seq<Key>, records: seq<Record>)
    requires CasesOk(cases, keys, records, e.s, e.split) && SplitterOk(e.split) && e.s.mcK > 0
    requires forall k :: k in keys && k.action == TeacherReplace ==> e.teacher.Some?
    ensures CasesReady(e, cases)
  {
    forall i | 0 <= i < |cases| ensures CaseReady(e, cases[i]) {
      assert CaseOk(cases[i], i, keys, records, e.s, e.split);
      var r := records[cases[i].candidate.recordIndex];
      assert SpansOk(e.split(r.responseIds).value, |r.responseIds|);
    }
    forall i, j | 0 <= i < j < |cases| ensures cases[i].caseId != cases[j].caseId {
      CaseIdsUnique(cases, keys, records, e.s, e.split, i, j);
    }
  }

  /** A case's result: the per-case evaluator's, and a skip where that evaluator would raise because
      the proposal cannot be split. */
  function Expected(e: Site, c: Case): (r: CaseResult)
    requires CaseReady(e, c)
    ensures r.caseId == c.caseId && r.key == c.candidate.key
  {
    var r := EvaluateCase(e, c, Some(c.candidate.key.dataset));
    if r.Ok? then r.value else Skipped(c.candidate.key, c.caseId, "teacher_split_error")
  }

  /** When a case is settled: before the teacher runs, after its proposal, or by the student. */
  function Phase(e: Site, c: Case): (p: nat)
    requires CaseReady(e, c)
    ensures p <= 2
  {
    if c.candidate.key.action == TeacherReplace && TeacherBudget(e, c) <= 0 then 0
    else if Expected(e, c).Skipped? then 1
    else 2
  }

  /** The results of the cases settled in one phase, in case order. */
  function Pick(e: Site, cases: seq<Case>, phase: nat): seq<CaseResult>
    requires forall i :: 0 <= i < |cases| ==> CaseReady(e, cases[i])
  {
    if cases == [] then [] else
      var last := cases[|cases| - 1];
      Pick(e, cases[..|cases| - 1], phase) + if Phase(e, last) == phase then [Expected(e, last)] else []
  }

  function StagedResults(e: Site, cases: seq<Case>): seq<CaseResult>
    requires forall i :: 0 <= i < |cases| ==> CaseReady(e, cases[i])
  {
    Pick(e, cases, 0) + Pick(e, cases, 1) + Pick(e, cases, 2)
  }

  /** How often a result occurs. */
  function Occurs(results: seq<CaseResult>, r: CaseResult): nat {
    if results == [] then 0 else Occurs(results[..|results| - 1], r) + if results[|results| - 1] == r then 1 else 0
  }

  lemma {:induction false} OccursAppend(a: seq<CaseResult>, b: seq<CaseResult>, r: CaseResult)
    ensures Occurs(a + b, r) == Occurs(a, r) + Occurs(b, r)
    decreases |b|
  {
    if b == [] {
      assert a + b == a;
    } else {
      OccursAppend(a, b[..|b| - 1], r);
      assert (a + b)[..|a + b| - 1] == a + b[..|b| - 1];
    }
  }

  /** The skipped results stand in front of the measured ones. */
  lemma SkipsComeFirst(e: Site, cases: seq<Case>, i: nat, j: nat)
    requires forall k :: 0 <= k < |cases| ==> CaseReady(e, cases[k])
    requires i < j < |StagedResults(e, cases)| && StagedResults(e, cases)[j].Skipped?
    ensures StagedResults(e, cases)[i].Skipped?
  {
    PickedAre(e, cases, 0);
    PickedAre(e, cases, 1);
    PickedAre(e, cases, 2);
  }

  lemma {:induction false} PickedAre(e: Site, cases: seq<Case>, phase: nat)
    requires phase <= 2 && forall k :: 0 <= k < |cases| ==> CaseReady(e, cases[k])
    ensures forall i :: 0 <= i < |Pick(e, cases, phase)| ==> (Pick(e, cases, phase)[i].Skipped? <==> phase < 2)
  {
    if cases != [] {
      PickedAre(e, cases[..|cases| - 1], phase);
      SettledSkips(e, cases[|cases| - 1]);
      hide CaseReady, Expected, Phase;
    }
  }

  lemma SettledSkips(e: Site, c: Case)
    requires CaseReady(e, c)
    ensures Expected(e, c).Skipped? <==> Phase(e, c) < 2
  {}

  function ExpectedAll(e: Site, cases: seq<Case>): (r: seq<CaseResult>)
    requires forall i :: 0 <= i < |cases| ==> CaseReady(e, cases[i])
    ensures |r| == |cases|
    ensures forall i :: 0 <= i < |cases| ==> r[i] == Expected(e, cases[i])
  {
    seq(|cases|, i requires 0 <= i < |cases| => Expected(e, cases[i]))
  }

  lemma OccursSnoc(a: seq<CaseResult>, x: CaseResult, r: CaseResult)
    ensures Occurs(a + [x], r) == Occurs(a, r) + if x == r then 1 else 0
  {
    assert (a + [x])[..|a|] == a;
  }

  lemma PickSnoc(e: Site, cases: seq<Case>, phase: nat, r: CaseResult)
    requires cases != [] && forall i :: 0 <= i < |cases| ==> CaseReady(e, cases[i])
    ensures var last := cases[|cases| - 1];
      Occurs(Pick(e, cases, phase), r)
      == Occurs(Pick(e, cases[..|cases| - 1], phase), r)
         + if Phase(e, last) == phase && Expected(e, last) == r then 1 else 0
  {
    var last := cases[|cases| - 1];
    var front := Pick(e, cases[..|cases| - 1], phase);
    OccursSnoc(front, Expected(e, last), r);
    assert front + [] == front;
  }

  lemma ExpectedSnoc(e: Site, cases: seq<Case>, r: CaseResult)
    requires cases != [] && forall i :: 0 <= i < |cases| ==> CaseReady(e, cases[i])
    ensures Occurs(ExpectedAll(e, cases), r)
      == Occurs(ExpectedAll(e, cases[..|cases| - 1]), r) + if Expected(e, cases[|cases| - 1]) == r then 1 else 0
  {
    hide CaseReady, Expected;
    var front := ExpectedAll(e, cases[..|cases| - 1]);
    assert ExpectedAll(e, cases) == front + [Expected(e, cases[|cases| - 1])];
    OccursSnoc(front, Expected(e, cases[|cases| - 1]), r);
  }

  lemma {:induction false} PhasesCover(e: Site, cases: seq<Case>, r: CaseResult)
    requires forall i :: 0 <= i < |cases| ==> CaseReady(e, cases[i])
    ensures Occurs(ExpectedAll(e, cases), r)
      == Occurs(Pick(e, cases, 0), r) + Occurs(Pick(e, cases, 1), r) + Occurs(Pick(e, cases, 2), r)
  {
    if cases != [] {
      hide Pick, Occurs, ExpectedAll, Expected, CaseReady;
      PhasesCover(e, cases[..|cases| - 1], r);
      ExpectedSnoc(e, cases, r);
      PickSnoc(e, cases, 0, r);
      PickSnoc(e, cases, 1, r);
      PickSnoc(e, cases, 2, r);
    }
  }

  /** The staged results are a permutation of the cases' own results. */
  lemma StagedIsPermutation(e: Site, cases: seq<Case>, r: CaseResult)
    requires forall i :: 0 <= i < |cases| ==> CaseReady(e, cases[i])
    ensures Occurs(StagedResults(e, cases), r) == Occurs(ExpectedAll(e, cases), r)
  {
    PhasesCover(e, cases, r);
    OccursAppend(Pick(e, cases, 0) + Pick(e, cases, 1), Pick(e, cases, 2), r);
    OccursAppend(Pick(e, cases, 0), Pick(e, cases, 1), r);
  }

  ghost predicate GradersAgree(grade: Grader, dataset: string) {
    forall ids, answer :: grade(ids, answer, None) == grade(ids, answer, Some(dataset))
  }

  lemma SameEstimate(e: Site, c: Case, prefix: seq<int>, offset: int)
    requires e.s.mcK > 0 && GradersAgree(e.grade, c.candidate.key.dataset)
    ensures Estimate(e, c, prefix, offset, None) == Estimate(e, c, prefix, offset, Some(c.candidate.key.dataset))
  {
    var samples := Continuations(e, c, prefix, offset);
    assert Rewards(e, c, prefix, None, samples) == Rewards(e, c, prefix, Some(c.candidate.key.dataset), samples);
  }

  /** Under one grading function, a case's staged result is the per-case evaluator's whenever that
      evaluator does not raise, and it raises exactly when the proposal cannot be split. */
  lemma SameAsPerCase(e: Site, c: Case)
    requires CaseReady(e, c) && GradersAgree(e.grade, c.candidate.key.dataset)
    ensures EvaluateCase(e, c, None).Ok? ==> Expected(e, c) == EvaluateCase(e, c, None).value
    ensures EvaluateCase(e, c, None).Err? <==>
      && c.candidate.key.action == TeacherReplace && TeacherBudget(e, c) > 0
      && e.split(e.generate(e.teacher.value, TeacherQuery(e, c))).Err?
    ensures EvaluateCase(e, c, None).Err? ==>
      Expected(e, c) == Skipped(c.candidate.key, c.caseId, "teacher_split_error")
  {
    hide MeasureCase, SplitterOk, GradersAgree;
    var k := c.candidate;
    if k.key.action == StudentAction {
      SameMeasure(e, c, k.responseIds[..k.end], None);
    } else if TeacherBudget(e, c) > 0 {
      var replacement := FirstReplacement(e.split, e.generate(e.teacher.value, TeacherQuery(e, c)));
      if replacement.Ok? {
        SameMeasure(e, c, Prefix(c) + replacement.value, Some(|replacement.value|));
      }
    }
  }

  lemma SameMeasure(e: Site, c: Case, actionPrefix: seq<int>, tokens: Option<nat>)
    requires CaseReady(e, c) && GradersAgree(e.grade, c.candidate.key.dataset)
    ensures MeasureCase(e, c, actionPrefix, tokens, None)
         == MeasureCase(e, c, actionPrefix, tokens, Some(c.candidate.key.dataset))
  {
    SameEstimate(e, c, Prefix(c), 0);
    SameEstimate(e, c, actionPrefix, 1000);
  }
}
