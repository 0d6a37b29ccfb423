/** The student phase: both Monte-Carlo arms of every settled case in one batched generation, and
    the assembly of the results. Models utils/ersr_evaluation.py. */
module StudentPhase {
  import opened Basics
  import opened ErsrCases
  import opened StagedErsr
  import opened ErsrPhases
  import opened TeacherPhase
  import opened GpuPool

  datatype Arm = Arm(prefix: seq<int>, requests: seq<Request<Query>>)

  datatype Arms = Arms(baseline: Arm, action: Arm)

  function StudentId(caseId: string, offset: nat, j: nat): string {
    caseId + ":" + Digits(offset) + ":" + Digits(j)
  }

  /** A used-up budget needs no requests. */
  function ArmFor(e: Site, c: Case, prefix: seq<int>, offset: nat): Arm {
    var remaining := e.s.maxResponse - |prefix|;
    Arm(prefix,
        if remaining <= 0 then [] else
          seq(e.s.mcK, j requires 0 <= j =>
            Request(StudentId(c.caseId, offset, j),
                    Query(c.candidate.promptIds + prefix, remaining, c.seed + offset + j))))
  }

  function ArmsFor(e: Site, c: Case, actionPrefix: seq<int>): Arms
    requires CaseReady(e, c)
  {
    Arms(ArmFor(e, c, Prefix(c), 0), ArmFor(e, c, actionPrefix, 1000))
  }

  /** What the response starts with in the action arm. */
  function ActionPrefix(e: Site, c: Case): seq<int>
    requires CaseReady(e, c) && Phase(e, c) == 2
  {
    if c.candidate.key.action == StudentAction then c.candidate.responseIds[..c.candidate.end]
    else Prefix(c) + FirstReplacement(e.split, ProposalIds(e, c)).value
  }

  function CaseRequests(e: Site, c: Case): seq<Request<Query>>
    requires CaseReady(e, c) && Phase(e, c) == 2
  {
    var arms := ArmsFor(e, c, ActionPrefix(e, c));
    arms.baseline.requests + arms.action.requests
  }

  function StudentRequests(e: Site, cases: seq<Case>): seq<Request<Query>>
    requires forall i :: 0 <= i < |cases| ==> CaseReady(e, cases[i])
  {
    if cases == [] then [] else
      var last := cases[|cases| - 1];
      StudentRequests(e, cases[..|cases| - 1]) + if Phase(e, last) == 2 then CaseRequests(e, last) else []
  }

  // ----- request ids -----

  lemma StudentIdNames(a: string, o: nat, i: nat, b: string, p: nat, j: nat)
    requires StudentId(a, o, i) == StudentId(b, p, j)
    ensures a == b && o == p && i == j
  {
    DigitsLonger(i);
    DigitsLonger(j);
    DigitsLonger(o);
    DigitsLonger(p);
    LastField(a + ":" + Digits(o), Digits(i), b + ":" + Digits(p), Digits(j));
    LastField(a, Digits(o), b, Digits(p));
    DigitsInjective(i, j);
    DigitsInjective(o, p);
  }

  lemma ArmDistinct(e: Site, c: Case, prefix: seq<int>, offset: nat)
    ensures DistinctIds(ArmFor(e, c, prefix, offset).requests)
  {
    var requests := ArmFor(e, c, prefix, offset).requests;
    forall i, j | 0 <= i < j < |requests| ensures requests[i].id != requests[j].id {
      if requests[i].id == requests[j].id {
        StudentIdNames(c.caseId, offset, i, c.caseId, offset, j);
      }
    }
  }

  lemma CaseDistinct(e: Site, c: Case)
    requires CaseReady(e, c) && Phase(e, c) == 2
    ensures DistinctIds(CaseRequests(e, c))
    ensures forall i :: 0 <= i < |CaseRequests(e, c)| ==> OwnId(CaseRequests(e, c)[i].id, c.caseId)
  {
    var b, a := ArmFor(e, c, Prefix(c), 0), ArmFor(e, c, ActionPrefix(e, c), 1000);
    ArmDistinct(e, c, Prefix(c), 0);
    ArmDistinct(e, c, ActionPrefix(e, c), 1000);
    forall i, j | 0 <= i < |b.requests| && 0 <= j < |a.requests| ensures b.requests[i].id != a.requests[j].id {
      if b.requests[i].id == a.requests[j].id {
        StudentIdNames(c.caseId, 0, i, c.caseId, 1000, j);
      }
    }
    DistinctConcat(b.requests, a.requests);
    forall i | 0 <= i < |b.requests| ensures OwnId(b.requests[i].id, c.caseId) {}
    forall i | 0 <= i < |a.requests| ensures OwnId(a.requests[i].id, c.caseId) {}
  }

  ghost predicate OwnId(id: string, caseId: string) { exists o: nat, j: nat :: id == StudentId(caseId, o, j) }

  lemma OwnIdsDiffer(x: string, y: string, a: string, b: string)
    requires OwnId(x, a) && OwnId(y, b) && a != b
    ensures x != y
  {
    var o: nat, i: nat :| x == StudentId(a, o, i);
    var p: nat, j: nat :| y == StudentId(b, p, j);
    if x == y {
      StudentIdNames(a, o, i, b, p, j);
    }
  }

  /** A student request belongs to one of the cases. */
  lemma {:induction false} StudentRequestOwner(e: Site, cases: seq<Case>, i: nat)
    requires forall k :: 0 <= k < |cases| ==> CaseReady(e, cases[k])
    requires i < |StudentRequests(e, cases)|
    ensures exists k :: 0 <= k < |cases| && OwnId(StudentRequests(e, cases)[i].id, cases[k].caseId)
  {
    hide CaseRequests, Phase, OwnId, CaseReady;
    var front, last := cases[..|cases| - 1], cases[|cases| - 1];
    var before := StudentRequests(e, front);
    if i < |before| {
      StudentRequestOwner(e, front, i);
      var k :| 0 <= k < |front| && OwnId(before[i].id, front[k].caseId);
      assert OwnId(StudentRequests(e, cases)[i].id, cases[k].caseId);
    } else {
      CaseDistinct(e, last);
      assert StudentRequests(e, cases)[i] == CaseRequests(e, last)[i - |before|];
      assert OwnId(StudentRequests(e, cases)[i].id, cases[|cases| - 1].caseId);
    }
  }

  /** All request ids of the student phase are distinct. */
  lemma {:induction false} StudentDistinct(e: Site, cases: seq<Case>)
    requires CasesReady(e, cases)
    ensures DistinctIds(StudentRequests(e, cases))
  {
    if cases != [] {
      var front, last := cases[..|cases| - 1], cases[|cases| - 1];
      StudentDistinct(e, front);
      var before := StudentRequests(e, front);
      if Phase(e, last) == 2 {
        CaseDistinct(e, last);
        var own := CaseRequests(e, last);
        forall i, j | 0 <= i < |before| && 0 <= j < |own| ensures before[i].id != own[j].id {
          StudentRequestOwner(e, front, i);
          var k :| 0 <= k < |front| && OwnId(before[i].id, front[k].caseId);
          OwnIdsDiffer(before[i].id, own[j].id, front[k].caseId, last.caseId);
        }
        DistinctConcat(before, own);
      } else {
        assert before + [] == before;
      }
    }
  }

  // ----- measuring an arm -----

  function Collected(requests: seq<Request<Query>>, outputs: map<string, seq<int>>): (r: seq<seq<int>>)
    requires forall i :: 0 <= i < |requests| ==> requests[i].id in outputs
    ensures |r| == |requests|
  {
    seq(|requests|, i requires 0 <= i < |requests| => outputs[requests[i].id])
  }

  /** Mean reward and empty count of an arm; without requests the prefix itself is graded once. */
  function MeasureArm(e: Site, c: Case, arm: Arm, outputs: map<string, seq<int>>): (real, nat)
    requires e.s.mcK > 0
    requires forall i :: 0 <= i < |arm.requests| ==> arm.requests[i].id in outputs
  {
    var dataset := c.candidate.key.dataset;
    var collected := Collected(arm.requests, outputs);
    var rewards := Rewards(e, c, arm.prefix, Some(dataset), collected);
    (if rewards != [] then Sum(rewards) / (e.s.mcK as real)
     else e.grade(arm.prefix + [], c.candidate.answer, Some(dataset)),
     if arm.requests != [] then EmptyCount(collected) else e.s.mcK)
  }

  lemma {:induction false} SumConstant(s: seq<real>, x: real)
    requires forall i :: 0 <= i < |s| ==> s[i] == x
    ensures Sum(s) == |s| as real * x
  {
    if s != [] {
      SumConstant(s[..|s| - 1], x);
    }
  }

  lemma {:induction false} AllEmpty(s: seq<seq<int>>)
    requires forall i :: 0 <= i < |s| ==> s[i] == []
    ensures EmptyCount(s) == |s|
  {
    if s != [] {
      AllEmpty(s[..|s| - 1]);
    }
  }

  lemma MeanOfConstant(s: seq<real>, n: nat, x: real)
    requires |s| == n > 0 && forall i :: 0 <= i < |s| ==> s[i] == x
    ensures Sum(s) / (n as real) == x
  {
    SumConstant(s, x);
    var m := n as real;
    assert Sum(s) == m * x;
    assert (m * x) / m == x;
  }

  lemma ExhaustedArm(e: Site, c: Case, prefix: seq<int>, offset: nat, outputs: map<string, seq<int>>)
    requires e.s.mcK > 0 && e.s.maxResponse - |prefix| <= 0
    ensures MeasureArm(e, c, ArmFor(e, c, prefix, offset), outputs)
      == Estimate(e, c, prefix, offset, Some(c.candidate.key.dataset))
  {
    var source := Some(c.candidate.key.dataset);
    var samples := Continuations(e, c, prefix, offset);
    AllEmpty(samples);
    var x := e.grade(prefix + [], c.candidate.answer, source);
    MeanOfConstant(Rewards(e, c, prefix, source, samples), e.s.mcK, x);
  }

  /** An arm measured from the engine's answers is the per-case estimate, also when the budget is
      used up and the estimate would grade the same prefix mc_k times. */
  lemma ArmIsEstimate(e: Site, c: Case, prefix: seq<int>, offset: nat, outputs: map<string, seq<int>>)
    requires e.s.mcK > 0
    requires AllAnswered(ArmFor(e, c, prefix, offset).requests, EngineOf(e.generate, e.model), outputs)
    ensures MeasureArm(e, c, ArmFor(e, c, prefix, offset), outputs)
      == Estimate(e, c, prefix, offset, Some(c.candidate.key.dataset))
  {
    if e.s.maxResponse - |prefix| <= 0 {
      ExhaustedArm(e, c, prefix, offset, outputs);
    } else {
      var arm := ArmFor(e, c, prefix, offset);
      assert Collected(arm.requests, outputs) == Continuations(e, c, prefix, offset);
    }
  }

  // ----- first loop: the arms -----

  predicate HasId(results: seq<CaseResult>, caseId: string) {
    exists k :: 0 <= k < |results| && results[k].caseId == caseId
  }

  lemma {:induction false} PickHas(e: Site, cases: seq<Case>, i: nat)
    requires forall k :: 0 <= k < |cases| ==> CaseReady(e, cases[k])
    requires i < |cases|
    ensures Expected(e, cases[i]) in Pick(e, cases, Phase(e, cases[i]))
  {
    if i < |cases| - 1 {
      PickHas(e, cases[..|cases| - 1], i);
    }
  }

  /** The skips recorded before the student phase are those of the cases that are not its own. */
  lemma SkippedIff(e: Site, cases: seq<Case>, i: nat, invalid: seq<CaseResult>)
    requires CasesReady(e, cases) && i < |cases| && invalid == Pick(e, cases, 0) + Pick(e, cases, 1)
    ensures HasId(invalid, cases[i].caseId) <==> Phase(e, cases[i]) != 2
  {
    if Phase(e, cases[i]) == 2 {
      OtherPhase(e, cases, i, 0);
      OtherPhase(e, cases, i, 1);
    } else {
      PickHas(e, cases, i);
      var r := Expected(e, cases[i]);
      assert r in invalid;
      var k :| 0 <= k < |invalid| && invalid[k] == r;
    }
  }

  lemma ReplacementKnown(e: Site, cases: seq<Case>, i: nat, replacements: map<string, seq<int>>)
    requires CasesReady(e, cases) && i < |cases| && Phase(e, cases[i]) == 2
    requires cases[i].candidate.key.action == TeacherReplace
    requires CasesReady(e, Asked(e, cases))
    requires forall k :: 0 <= k < |Asked(e, cases)| ==> NeedsProposal(e, Asked(e, cases)[k])
    requires replacements == Replaced(e, Asked(e, cases))
    ensures cases[i].caseId in replacements
    ensures replacements[cases[i].caseId] == FirstReplacement(e.split, ProposalIds(e, cases[i])).value
  {
    AskedAreCases(e, cases);
    assert cases[i] in Asked(e, cases);
    var k :| 0 <= k < |Asked(e, cases)| && Asked(e, cases)[k] == cases[i];
    ReplacedAt(e, Asked(e, cases), k);
  }

  /** Of the first n cases exactly the student's have arms, each its own. */
  ghost predicate ArmsOk(e: Site, cases: seq<Case>, n: nat, arms: map<string, Arms>)
    requires CasesReady(e, cases) && n <= |cases|
  {
    && (forall i :: 0 <= i < n && Phase(e, cases[i]) == 2 ==> ArmsAt(e, cases[i], arms))
    && forall id :: id in arms ==> exists i :: 0 <= i < n && cases[i].caseId == id && Phase(e, cases[i]) == 2
  }

  ghost predicate ArmsAt(e: Site, c: Case, arms: map<string, Arms>)
    requires CaseReady(e, c) && Phase(e, c) == 2
  {
    c.caseId in arms && arms[c.caseId] == ArmsFor(e, c, ActionPrefix(e, c))
  }

  lemma ArmsStep(e: Site, cases: seq<Case>, n: nat, arms: map<string, Arms>)
    requires CasesReady(e, cases) && n < |cases| && ArmsOk(e, cases, n, arms)
    ensures Phase(e, cases[n]) != 2 ==> ArmsOk(e, cases, n + 1, arms)
    ensures Phase(e, cases[n]) == 2 ==>
      ArmsOk(e, cases, n + 1, arms[cases[n].caseId := ArmsFor(e, cases[n], ActionPrefix(e, cases[n]))])
  {
    hide CaseReady, ArmsFor, ActionPrefix, Phase;
    assert CaseReady(e, cases[n]);
    if Phase(e, cases[n]) == 2 {
      var next := arms[cases[n].caseId := ArmsFor(e, cases[n], ActionPrefix(e, cases[n]))];
      forall i | 0 <= i < n + 1 && Phase(e, cases[i]) == 2 ensures ArmsAt(e, cases[i], next) {
        if i < n {
          assert ArmsAt(e, cases[i], arms);
        }
      }
    }
  }

  lemma RequestsStep(e: Site, cases: seq<Case>, n: nat)
    requires CasesReady(e, cases) && n < |cases|
    ensures Phase(e, cases[n]) != 2 ==> StudentRequests(e, cases[..n + 1]) == StudentRequests(e, cases[..n])
    ensures Phase(e, cases[n]) == 2 ==>
      StudentRequests(e, cases[..n + 1]) == StudentRequests(e, cases[..n]) + CaseRequests(e, cases[n])
  {
    hide CaseReady, CaseRequests, Phase;
    assert CaseReady(e, cases[n]);
    assert cases[..n + 1][..n] == cases[..n];
  }

  /** What one case adds to the arms, if anything. */
  method ArmsOfCase(work: Work, i: nat) returns (arms: Option<Arms>)
    requires work.Proposed() && i < |work.cases|
    ensures CaseReady(work.e, work.cases[i])
    ensures arms.Some? <==> Phase(work.e, work.cases[i]) == 2
    ensures arms.Some? ==> arms.value == ArmsFor(work.e, work.cases[i], ActionPrefix(work.e, work.cases[i]))
  {
    var c := work.cases[i];
    assert CaseReady(work.e, c);
    SkippedIff(work.e, work.cases, i, work.invalid);
    if HasId(work.invalid, c.caseId) {
      return None;
    }
    if c.candidate.key.action == StudentAction {
      return Some(ArmsFor(work.e, c, c.candidate.responseIds[..c.candidate.end]));
    }
    ReplacementKnown(work.e, work.cases, i, work.replacements);
    return Some(ArmsFor(work.e, c, Prefix(c) + work.replacements[c.caseId]));
  }

  method BuildArms(work: Work) returns (caseArms: map<string, Arms>, requests: seq<Request<Query>>)
    requires work.Proposed()
    ensures ArmsOk(work.e, work.cases, |work.cases|, caseArms)
    ensures requests == StudentRequests(work.e, work.cases)
  {
    hide CaseReady, CaseRequests, ArmsFor, ActionPrefix, Phase, ArmsOk, StudentRequests, CasesReady, Work.Proposed;
    caseArms, requests := map[], [];
    ProposedCases(work);
    NoRequests(work.e, work.cases);
    ArmsNone(work.e, work.cases);
    for i := 0 to |work.cases|
      invariant ArmsOk(work.e, work.cases, i, caseArms)
      invariant requests == StudentRequests(work.e, work.cases[..i])
    {
      var arms := ArmsOfCase(work, i);
      ArmsStep(work.e, work.cases, i, caseArms);
      RequestsStep(work.e, work.cases, i);
      if arms.Some? {
        ArmsRequests(work.e, work.cases[i]);
        caseArms := caseArms[work.cases[i].caseId := arms.value];
        requests := requests + (arms.value.baseline.requests + arms.value.action.requests);
      }
    }
    assert work.cases[..|work.cases|] == work.cases;
  }

  lemma ArmsRequests(e: Site, c: Case)
    requires CaseReady(e, c) && Phase(e, c) == 2
    ensures var arms := ArmsFor(e, c, ActionPrefix(e, c));
      CaseRequests(e, c) == arms.baseline.requests + arms.action.requests
  {}

  lemma ProposedCases(work: Work)
    requires work.Proposed()
    ensures CasesReady(work.e, work.cases)
  {}

  lemma NoRequests(e: Site, cases: seq<Case>)
    requires CasesReady(e, cases)
    ensures StudentRequests(e, cases[..0]) == []
  {}

  lemma ArmsNone(e: Site, cases: seq<Case>)
    requires CasesReady(e, cases)
    ensures ArmsOk(e, cases, 0, map[])
  {}

  // ----- second loop: the results -----

  lemma SplitAnswers(a: seq<Request<Query>>, b: seq<Request<Query>>, engine: Query -> seq<int>,
                     outputs: map<string, seq<int>>)
    requires AllAnswered(a + b, engine, outputs)
    ensures AllAnswered(a, engine, outputs) && AllAnswered(b, engine, outputs)
  {
    assert forall k :: 0 <= k < |a| ==> a[k] == (a + b)[k];
    assert forall k :: 0 <= k < |b| ==> b[k] == (a + b)[|a| + k];
  }

  /** The engine's answers hold those to the case's own requests. */
  lemma {:induction false} CaseAnswered(e: Site, cases: seq<Case>, i: nat, outputs: map<string, seq<int>>)
    requires CasesReady(e, cases) && i < |cases| && Phase(e, cases[i]) == 2
    requires AllAnswered(StudentRequests(e, cases), EngineOf(e.generate, e.model), outputs)
    ensures AllAnswered(CaseRequests(e, cases[i]), EngineOf(e.generate, e.model), outputs)
  {
    hide CaseReady, CaseRequests, Phase, AllAnswered;
    var front, last := cases[..|cases| - 1], cases[|cases| - 1];
    assert CaseReady(e, last);
    if Phase(e, last) == 2 {
      SplitAnswers(StudentRequests(e, front), CaseRequests(e, last), EngineOf(e.generate, e.model), outputs);
    } else {
      assert StudentRequests(e, cases) == StudentRequests(e, front);
    }
    if i < |cases| - 1 {
      assert front[i] == cases[i];
      CaseAnswered(e, front, i, outputs);
    }
  }

  function ReplacementTokens(c: Case, replacements: map<string, seq<int>>): Option<nat> {
    if c.candidate.key.action == TeacherReplace && c.caseId in replacements
    then Some(|replacements[c.caseId]|) else None
  }

  /** A case's result from its arms and the engine's answers. */
  function Assemble(e: Site, c: Case, arms: Arms, outputs: map<string, seq<int>>, tokens: Option<nat>): CaseResult
    requires e.s.mcK > 0
    requires forall k :: 0 <= k < |arms.baseline.requests| ==> arms.baseline.requests[k].id in outputs
    requires forall k :: 0 <= k < |arms.action.requests| ==> arms.action.requests[k].id in outputs
  {
    var baseline, action := MeasureArm(e, c, arms.baseline, outputs), MeasureArm(e, c, arms.action, outputs);
    Measured(c.candidate.key, c.caseId, baseline.0, action.0, action.0 - baseline.0, baseline.1, action.1, tokens)
  }

  lemma AssembledIsExpected(e: Site, c: Case, outputs: map<string, seq<int>>, tokens: Option<nat>)
    requires CaseReady(e, c) && Phase(e, c) == 2
    requires AllAnswered(CaseRequests(e, c), EngineOf(e.generate, e.model), outputs)
    requires tokens == if c.candidate.key.action == StudentAction then None
                       else Some(|FirstReplacement(e.split, ProposalIds(e, c)).value|)
    ensures var arms := ArmsFor(e, c, ActionPrefix(e, c));
      && AllAnswered(arms.baseline.requests, EngineOf(e.generate, e.model), outputs)
      && AllAnswered(arms.action.requests, EngineOf(e.generate, e.model), outputs)
      && Assemble(e, c, arms, outputs, tokens) == Expected(e, c)
  {
    var arms := ArmsFor(e, c, ActionPrefix(e, c));
    SplitAnswers(arms.baseline.requests, arms.action.requests, EngineOf(e.generate, e.model), outputs);
    ArmIsEstimate(e, c, Prefix(c), 0, outputs);
    ArmIsEstimate(e, c, ActionPrefix(e, c), 1000, outputs);
    MeasuredPhase(e, c, tokens);
  }

  /** A case of the student phase is measured behind its action prefix. */
  lemma MeasuredPhase(e: Site, c: Case, tokens: Option<nat>)
    requires CaseReady(e, c) && Phase(e, c) == 2
    requires tokens == if c.candidate.key.action == StudentAction then None
                       else Some(|FirstReplacement(e.split, ProposalIds(e, c)).value|)
    ensures Expected(e, c) == MeasureCase(e, c, ActionPrefix(e, c), tokens, Some(c.candidate.key.dataset))
  {
    hide MeasureCase;
  }

  method AssembleCase(work: Work, i: nat, caseArms: map<string, Arms>, outputs: map<string, seq<int>>)
    returns (r: CaseResult)
    requires work.Proposed() && i < |work.cases| && Phase(work.e, work.cases[i]) == 2
    requires ArmsAt(work.e, work.cases[i], caseArms)
    requires AllAnswered(StudentRequests(work.e, work.cases), EngineOf(work.e.generate, work.e.model), outputs)
    ensures r == Expected(work.e, work.cases[i])
  {
    hide ArmsFor, ActionPrefix, Phase, Expected, Assemble, CaseRequests;
    var c := work.cases[i];
    assert CaseReady(work.e, c);
    CaseAnswered(work.e, work.cases, i, outputs);
    if c.candidate.key.action == TeacherReplace {
      ReplacementKnown(work.e, work.cases, i, work.replacements);
    }
    var tokens := ReplacementTokens(c, work.replacements);
    AssembledIsExpected(work.e, c, outputs, tokens);
    r := Assemble(work.e, c, caseArms[c.caseId], outputs, tokens);
  }

  /** Compute both arms of every case after the teacher phase: exactly one result per case, each
      the per-case evaluator's; first the skips, then the measured cases, both in case order. It
      fails only before the teacher phase is complete or when a job fails or a worker dies. */
  method EvaluateStudent(work: Work, gpus: nat, rolloutsPerBatch: nat)
    returns (r: Result<seq<CaseResult>>, ghost faults: nat)
    requires gpus > 0 && rolloutsPerBatch > 0
    requires CasesReady(work.e, work.cases) && (work.teacherComplete ==> work.Proposed())
    ensures !work.teacherComplete ==> r.Err?
    ensures work.teacherComplete && faults == 0 ==> r.Ok?
    ensures r.Ok? ==> r.value == StagedResults(work.e, work.cases)
  {
    hide CaseReady, CasesReady, Phase, StudentRequests, StagedResults, ArmsOk, Work.Proposed;
    if !work.teacherComplete {
      return Err("teacher incomplete"), 0;
    }
    var caseArms, requests := BuildArms(work);
    StudentDistinct(work.e, work.cases);
    var generated;
    generated, faults := RunGenerationPhase(requests, EngineOf(work.e.generate, work.e.model), gpus, rolloutsPerBatch);
    if generated.Err? {
      return Err(generated.reason), faults;
    }
    var results := AssembleAll(work, caseArms, generated.value);
    return Ok(results), faults;
  }

  method AssembleAll(work: Work, caseArms: map<string, Arms>, outputs: map<string, seq<int>>)
    returns (results: seq<CaseResult>)
    requires work.Proposed() && ArmsOk(work.e, work.cases, |work.cases|, caseArms)
    requires AllAnswered(StudentRequests(work.e, work.cases), EngineOf(work.e.generate, work.e.model), outputs)
    ensures results == StagedResults(work.e, work.cases)
  {
    hide CaseReady, Phase, Expected, StudentRequests, AllAnswered, ArmsOk, ArmsAt;
    results := work.invalid;
    for i := 0 to |work.cases|
      invariant results == work.invalid + Pick(work.e, work.cases[..i], 2)
    {
      PickNext(work.e, work.cases, i, work.invalid, 2);
      ArmsIff(work.e, work.cases, i, caseArms);
      if work.cases[i].caseId !in caseArms {
        continue;
      }
      var r := AssembleCase(work, i, caseArms, outputs);
      results := results + [r];
    }
    assert work.cases[..|work.cases|] == work.cases;
  }

  lemma ArmsIff(e: Site, cases: seq<Case>, i: nat, arms: map<string, Arms>)
    requires CasesReady(e, cases) && i < |cases| && ArmsOk(e, cases, |cases|, arms)
    ensures CaseReady(e, cases[i])
    ensures cases[i].caseId in arms <==> Phase(e, cases[i]) == 2
    ensures cases[i].caseId in arms ==> ArmsAt(e, cases[i], arms)
  {
    hide Phase, CaseReady, ArmsAt;
    assert CaseReady(e, cases[i]);
    if Phase(e, cases[i]) == 2 {
      assert ArmsAt(e, cases[i], arms);
      ArmsAtIn(e, cases[i], arms);
    }
  }

  lemma ArmsAtIn(e: Site, c: Case, arms: map<string, Arms>)
    requires CaseReady(e, c) && Phase(e, c) == 2 && ArmsAt(e, c, arms)
    ensures c.caseId in arms
  {}

  /** All phases of one model, as direct-model evaluation runs them. */
  method EvaluateErsr(e: Site, cases: seq<Case>, gpus: nat, rolloutsPerBatch: nat)
    returns (r: Result<seq<CaseResult>>, ghost faults: nat)
    requires gpus > 0 && rolloutsPerBatch > 0 && CasesReady(e, cases)
    ensures faults == 0 ==> r.Ok?
    ensures r.Ok? ==> r.value == StagedResults(e, cases)
  {
    var work := new Work(e, cases);
    var proposed;
    proposed, faults := GenerateReplacements([work], e.generate, gpus, rolloutsPerBatch);
    if proposed.Err? {
      return Err(proposed.reason), faults;
    }
    assert [work][0] == work;
    ghost var more;
    r, more := EvaluateStudent(work, gpus, rolloutsPerBatch);
    faults := faults + more;
  }
}
