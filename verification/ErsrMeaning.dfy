/** What the result of an ERSR case says, in terms of engine, splitter and grading function alone.
    Models utils/ersr.py. */
module ErsrMeaning {
  import opened Basics
  import opened ErsrCases
  import opened StagedErsr

  /** `ids` continue a prefix: nothing once the response budget is used up, else one generation. */
  ghost predicate Continues(e: Site, c: Case, prefix: seq<int>, seed: int, ids: seq<int>) {
    ids == if e.s.maxResponse <= |prefix| then []
           else e.generate(e.model, Query(c.candidate.promptIds + prefix, e.s.maxResponse - |prefix|, seed))
  }

  /** `mean` and `empty` estimate a prefix: the mean grade of mc_k continued responses, each under
      its own seed, and how many of the continuations were empty. */
  ghost predicate IsArm(e: Site, c: Case, prefix: seq<int>, offset: int, source: Option<string>, mean: real, empty: nat)
    requires e.s.mcK > 0
  {
    exists samples: seq<seq<int>> :: ArmSamples(e, c, prefix, offset, source, mean, empty, samples)
  }

  ghost predicate ArmSamples(e: Site, c: Case, prefix: seq<int>, offset: int, source: Option<string>, mean: real,
                             empty: nat, samples: seq<seq<int>>)
    requires e.s.mcK > 0
  {
    && |samples| == e.s.mcK
    && (forall j :: 0 <= j < e.s.mcK ==> Continues(e, c, prefix, c.seed + offset + j, samples[j]))
    && mean * (e.s.mcK as real) == Sum(seq(e.s.mcK, j requires 0 <= j < |samples| =>
         e.grade(prefix + samples[j], c.candidate.answer, source)))
    && empty == |Hits(samples, (ids: seq<int>) => ids == [])|
  }

  /** A case measured behind its prefix and behind `actionPrefix`. */
  ghost predicate IsMeasured(e: Site, c: Case, actionPrefix: seq<int>, tokens: Option<nat>, source: Option<string>,
                             r: CaseResult)
    requires e.s.mcK > 0 && 0 <= c.candidate.start <= |c.candidate.responseIds|
  {
    && r.Measured? && r.key == c.candidate.key && r.caseId == c.caseId && r.replacementTokens == tokens
    && IsArm(e, c, c.candidate.responseIds[..c.candidate.start], 0, source, r.baseline, r.baselineEmpty)
    && IsArm(e, c, actionPrefix, 1000, source, r.action, r.actionEmpty)
    && r.advantage == r.action - r.baseline
  }

  lemma {:induction false} EmptiesCounted(s: seq<seq<int>>)
    ensures EmptyCount(s) == |Hits(s, (ids: seq<int>) => ids == [])|
  {
    HitsNext(s, (ids: seq<int>) => ids == []);
    if s != [] {
      hide Hits;
      EmptiesCounted(s[..|s| - 1]);
    }
  }

  lemma EstimateIsArm(e: Site, c: Case, prefix: seq<int>, offset: int, source: Option<string>)
    requires e.s.mcK > 0
    ensures var (mean, empty) := Estimate(e, c, prefix, offset, source);
      IsArm(e, c, prefix, offset, source, mean, empty)
  {
    var samples := Continuations(e, c, prefix, offset);
    var (mean, empty) := Estimate(e, c, prefix, offset, source);
    EmptiesCounted(samples);
    var grades := seq(e.s.mcK, j requires 0 <= j < |samples| =>
      e.grade(prefix + samples[j], c.candidate.answer, source));
    assert Rewards(e, c, prefix, source, samples) == grades;
    assert mean * (e.s.mcK as real) == Sum(grades);
    assert ArmSamples(e, c, prefix, offset, source, mean, empty, samples);
  }

  lemma MeasureMeans(e: Site, c: Case, actionPrefix: seq<int>, tokens: Option<nat>, source: Option<string>)
    requires e.s.mcK > 0 && 0 <= c.candidate.start <= |c.candidate.responseIds|
    ensures IsMeasured(e, c, actionPrefix, tokens, source, MeasureCase(e, c, actionPrefix, tokens, source))
  {
    hide Estimate, IsArm;
    EstimateIsArm(e, c, c.candidate.responseIds[..c.candidate.start], 0, source);
    EstimateIsArm(e, c, actionPrefix, 1000, source);
  }

  /** A Student action is measured behind the response up to the step's own end. */
  lemma StudentCase(e: Site, c: Case, source: Option<string>)
    requires CaseReady(e, c) && c.candidate.key.action == StudentAction
    ensures EvaluateCase(e, c, source).Ok?
    ensures IsMeasured(e, c, c.candidate.responseIds[..c.candidate.end], None, source, EvaluateCase(e, c, source).value)
  {
    MeasureMeans(e, c, c.candidate.responseIds[..c.candidate.end], None, source);
  }

  /** What the Teacher is asked for a case: continue prompt and prefix within both budgets. */
  function AskedOf(e: Site, c: Case): Query
    requires 0 <= c.candidate.start <= |c.candidate.responseIds|
  {
    var budget := if e.s.maxTeacherStep < e.s.maxResponse - c.candidate.start then e.s.maxTeacherStep
      else e.s.maxResponse - c.candidate.start;
    Query(c.candidate.promptIds + c.candidate.responseIds[..c.candidate.start], budget, c.seed + 5000)
  }

  /** A Teacher replacement is measured behind the prefix and the first step of the proposal, and
      nothing of the proposal beyond that step; it is skipped without a budget and without a step,
      and raises when the proposal cannot be split. */
  lemma TeacherCase(e: Site, c: Case, source: Option<string>)
    requires CaseReady(e, c) && c.candidate.key.action == TeacherReplace
    ensures var r := EvaluateCase(e, c, source);
      var proposal := e.generate(e.teacher.value, AskedOf(e, c));
      var spans := e.split(proposal);
      if AskedOf(e, c).maxTokens <= 0 then r == Ok(Skipped(c.candidate.key, c.caseId, "no_teacher_budget"))
      else if spans.Err? then r.Err?
      else if spans.value == [] then r == Ok(Skipped(c.candidate.key, c.caseId, "empty_teacher_replacement"))
      else
        && r.Ok? && 0 < spans.value[0].end <= |proposal|
        && IsMeasured(e, c, c.candidate.responseIds[..c.candidate.start] + proposal[..spans.value[0].end],
                      Some(spans.value[0].end), source, r.value)
  {
    hide MeasureCase, IsMeasured;
    assert TeacherQuery(e, c) == AskedOf(e, c);
    var proposal := e.generate(e.teacher.value, AskedOf(e, c));
    var spans := e.split(proposal);
    if spans.Ok? && spans.value != [] {
      assert SpansOk(spans.value, |proposal|);
      var first := proposal[..spans.value[0].end];
      MeasureMeans(e, c, c.candidate.responseIds[..c.candidate.start] + first, Some(|first|), source);
    }
  }

  /** The staged evaluation gives the result the per-case evaluator gives under the dataset's own
      verifier, and a skip where that raises. */
  lemma StagedMeans(e: Site, c: Case)
    requires CaseReady(e, c)
    ensures var r := EvaluateCase(e, c, Some(c.candidate.key.dataset));
      Expected(e, c) == if r.Ok? then r.value else Skipped(c.candidate.key, c.caseId, "teacher_split_error")
  {}

  /** The engines answer alike except for what the Teacher writes for this case. */
  ghost predicate AlikeBut(e: Site, f: Site, c: Case)
    requires 0 <= c.candidate.start <= |c.candidate.responseIds| && e.teacher.Some?
  {
    && f == e.(generate := f.generate)
    && forall model, q ::
      (model, q) != (e.teacher.value, AskedOf(e, c)) ==> e.generate(model, q) == f.generate(model, q)
  }

  /** Both proposals split, and into the same first step. */
  ghost predicate SameFirstStep(e: Site, f: Site, c: Case)
    requires 0 <= c.candidate.start <= |c.candidate.responseIds| && e.teacher.Some?
  {
    var p, q := e.generate(e.teacher.value, AskedOf(e, c)), f.generate(e.teacher.value, AskedOf(e, c));
    var a, b := e.split(p), e.split(q);
    && a.Ok? && b.Ok? && a.value != [] && b.value != []
    && 0 <= a.value[0].end <= |p| && 0 <= b.value[0].end <= |q| && p[..a.value[0].end] == q[..b.value[0].end]
  }

  /** What the Teacher writes behind its first step changes no result. */
  lemma FirstStepDecides(e: Site, f: Site, c: Case, source: Option<string>)
    requires CaseReady(e, c) && c.candidate.key.action == TeacherReplace && e.s.mcK <= 1000
    requires AlikeBut(e, f, c) && SameFirstStep(e, f, c)
    ensures EvaluateCase(e, c, source) == EvaluateCase(f, c, source)
    ensures CaseReady(f, c) && Expected(e, c) == Expected(f, c)
  {
    hide EvaluateCase, SameFirstStep, AlikeBut;
    StillReady(e, f, c);
    SameResult(e, f, c, source);
    SameResult(e, f, c, Some(c.candidate.key.dataset));
  }

  lemma StillReady(e: Site, f: Site, c: Case)
    requires CaseReady(e, c) && e.teacher.Some? && AlikeBut(e, f, c)
    ensures CaseReady(f, c)
  {}

  lemma SameResult(e: Site, f: Site, c: Case, source: Option<string>)
    requires CaseReady(e, c) && c.candidate.key.action == TeacherReplace && e.s.mcK <= 1000
    requires AlikeBut(e, f, c) && SameFirstStep(e, f, c)
    ensures CaseReady(f, c) && EvaluateCase(e, c, source) == EvaluateCase(f, c, source)
  {
    hide AlikeBut, SameFirstStep, MeasureCase, FirstReplacement, TeacherQuery, TeacherBudget, AskedOf, Prefix;
    SameSite(e, f, c);
    SameReplacement(e, f, c);
    var replacement := FirstReplacement(e.split, e.generate(e.teacher.value, TeacherQuery(e, c)));
    if replacement.Ok? {
      SameMeasured(e, f, c, Prefix(c) + replacement.value, Some(|replacement.value|), source);
    }
  }

  lemma SameSite(e: Site, f: Site, c: Case)
    requires CaseReady(e, c) && e.teacher.Some? && AlikeBut(e, f, c)
    ensures CaseReady(f, c) && f.teacher == e.teacher && f.split == e.split
    ensures TeacherBudget(e, c) == TeacherBudget(f, c) && TeacherQuery(e, c) == TeacherQuery(f, c)
  {}

  lemma SameReplacement(e: Site, f: Site, c: Case)
    requires CaseReady(e, c) && e.teacher.Some? && AlikeBut(e, f, c) && SameFirstStep(e, f, c)
    ensures FirstReplacement(e.split, e.generate(e.teacher.value, TeacherQuery(e, c)))
         == FirstReplacement(e.split, f.generate(e.teacher.value, TeacherQuery(e, c)))
  {
    hide AlikeBut;
    assert TeacherQuery(e, c) == AskedOf(e, c);
  }

  lemma SameMeasured(e: Site, f: Site, c: Case, actionPrefix: seq<int>, tokens: Option<nat>, source: Option<string>)
    requires CaseReady(e, c) && c.candidate.key.action == TeacherReplace && AlikeBut(e, f, c) && e.s.mcK <= 1000
    ensures MeasureCase(e, c, actionPrefix, tokens, source) == MeasureCase(f, c, actionPrefix, tokens, source)
  {
    hide Estimate;
    SameEstimates(e, f, c, Prefix(c), 0, source);
    SameEstimates(e, f, c, actionPrefix, 1000, source);
  }

  lemma SameEstimates(e: Site, f: Site, c: Case, prefix: seq<int>, offset: int, source: Option<string>)
    requires CaseReady(e, c) && c.candidate.key.action == TeacherReplace && AlikeBut(e, f, c) && e.s.mcK <= 1000
    requires 0 <= offset <= 1000
    ensures Estimate(e, c, prefix, offset, source) == Estimate(f, c, prefix, offset, source)
  {
    var a, b := Continuations(e, c, prefix, offset), Continuations(f, c, prefix, offset);
    assert a == b;
    assert Rewards(e, c, prefix, source, a) == Rewards(f, c, prefix, source, a);
  }
}
