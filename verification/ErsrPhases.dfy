/** The teacher phase and the student phase of an ERSR evaluation, batched over the GPU pool.
    Models utils/ersr_evaluation.py. */
module ErsrPhases {
  import opened Basics
  import opened ErsrCases
  import opened StagedErsr
  import opened GpuPool

  // ----- teacher requests -----

  datatype Row = Row(c: Case, request: Request<Query>)

  predicate NeedsProposal(e: Site, c: Case) { c.candidate.key.action == TeacherReplace && TeacherBudget(e, c) > 0 }

  /** The cases the teacher is asked about. */
  function Asked(e: Site, cases: seq<Case>): seq<Case> {
    if cases == [] then [] else
      Asked(e, cases[..|cases| - 1]) + if NeedsProposal(e, cases[|cases| - 1]) then [cases[|cases| - 1]] else []
  }

  /** A case id can repeat between works, so the work's index is part of the request id. */
  function TeacherId(work: nat, model: string, caseId: string): string {
    "teacher:" + Digits(work) + ":" + model + ":" + caseId
  }

  function RowFor(e: Site, work: nat, c: Case): Row
    requires CaseReady(e, c)
  {
    Row(c, Request(TeacherId(work, e.model, c.caseId), TeacherQuery(e, c)))
  }

  function Rows(e: Site, work: nat, asked: seq<Case>): (r: seq<Row>)
    requires forall i :: 0 <= i < |asked| ==> CaseReady(e, asked[i])
    ensures |r| == |asked|
    ensures forall i :: 0 <= i < |asked| ==> r[i] == RowFor(e, work, asked[i])
  {
    seq(|asked|, i requires 0 <= i < |asked| => RowFor(e, work, asked[i]))
  }

  /** Asked cases are cases, in order, and the others need no proposal. */
  lemma {:induction false} AskedAreCases(e: Site, cases: seq<Case>)
    requires CasesReady(e, cases)
    ensures CasesReady(e, Asked(e, cases))
    ensures forall c :: c in Asked(e, cases) <==> c in cases && NeedsProposal(e, c)
  {
    if cases != [] {
      var front, last := cases[..|cases| - 1], cases[|cases| - 1];
      AskedAreCases(e, front);
      assert cases == front + [last];
      var a := Asked(e, front);
      forall i | 0 <= i < |a| ensures a[i].caseId != last.caseId {
        assert a[i] in front;
      }
      assert CaseReady(e, last);
    }
  }

  lemma {:induction false} PickAsked(e: Site, cases: seq<Case>)
    requires CasesReady(e, cases)
    ensures CasesReady(e, Asked(e, cases)) && Pick(e, Asked(e, cases), 1) == Pick(e, cases, 1)
  {
    AskedAreCases(e, cases);
    if cases != [] {
      var front, last := cases[..|cases| - 1], cases[|cases| - 1];
      assert CaseReady(e, last);
      PickAsked(e, front);
      if NeedsProposal(e, last) {
        PickLast(e, Asked(e, front), last, 1);
      } else {
        assert Asked(e, cases) == Asked(e, front);
        assert Pick(e, front, 1) + [] == Pick(e, front, 1);
      }
    }
  }

  lemma PickLast(e: Site, front: seq<Case>, last: Case, phase: nat)
    requires forall i :: 0 <= i < |front| ==> CaseReady(e, front[i])
    requires CaseReady(e, last)
    ensures forall i :: 0 <= i < |front + [last]| ==> CaseReady(e, (front + [last])[i])
    ensures Pick(e, front + [last], phase)
      == Pick(e, front, phase) + if Phase(e, last) == phase then [Expected(e, last)] else []
  {
    assert (front + [last])[..|front|] == front;
  }

  /** A picked result is that of a case settled in the phase. */
  lemma {:induction false} PickIds(e: Site, cases: seq<Case>, phase: nat, r: CaseResult)
    requires forall i :: 0 <= i < |cases| ==> CaseReady(e, cases[i])
    requires r in Pick(e, cases, phase)
    ensures exists i :: 0 <= i < |cases| && cases[i].caseId == r.caseId && Phase(e, cases[i]) == phase
  {
    var front, last := cases[..|cases| - 1], cases[|cases| - 1];
    if r in Pick(e, front, phase) {
      PickIds(e, front, phase, r);
      var i :| 0 <= i < |front| && front[i].caseId == r.caseId && Phase(e, front[i]) == phase;
      assert cases[i] == front[i];
    } else {
      assert last.caseId == r.caseId && Phase(e, cases[|cases| - 1]) == phase;
    }
  }

  // ----- replacements -----

  function ProposalIds(e: Site, c: Case): seq<int>
    requires CaseReady(e, c) && NeedsProposal(e, c)
  {
    e.generate(e.teacher.value, TeacherQuery(e, c))
  }

  /** The replacement dictionary after the asked cases are absorbed. */
  function Replaced(e: Site, asked: seq<Case>): map<string, seq<int>>
    requires forall i :: 0 <= i < |asked| ==> CaseReady(e, asked[i]) && NeedsProposal(e, asked[i])
  {
    if asked == [] then map[] else
      var before, last := Replaced(e, asked[..|asked| - 1]), asked[|asked| - 1];
      if Phase(e, last) != 2 then before
      else before[last.caseId := FirstReplacement(e.split, ProposalIds(e, last)).value]
  }

  /** A case whose proposal survived has its own replacement. */
  lemma {:induction false} ReplacedAt(e: Site, asked: seq<Case>, i: nat)
    requires forall k :: 0 <= k < |asked| ==> CaseReady(e, asked[k]) && NeedsProposal(e, asked[k])
    requires forall j, k :: 0 <= j < k < |asked| ==> asked[j].caseId != asked[k].caseId
    requires i < |asked| && Phase(e, asked[i]) == 2
    ensures asked[i].caseId in Replaced(e, asked)
    ensures Replaced(e, asked)[asked[i].caseId] == FirstReplacement(e.split, ProposalIds(e, asked[i])).value
  {
    hide CaseReady, NeedsProposal, Phase, ProposalIds, FirstReplacement;
    var front, last := asked[..|asked| - 1], asked[|asked| - 1];
    if i < |asked| - 1 {
      assert front[i] == asked[i] && asked[i].caseId != last.caseId;
      ReplacedAt(e, front, i);
    }
  }

  // ----- one model's work -----

  class Work {
    const e: Site
    const cases: seq<Case>
    var replacements: map<string, seq<int>>
    var invalid: seq<CaseResult>
    var teacherComplete: bool

    constructor (e: Site, cases: seq<Case>)
      ensures this.e == e && this.cases == cases
      ensures replacements == map[] && invalid == [] && !teacherComplete
    {
      this.e, this.cases := e, cases;
      replacements, invalid, teacherComplete := map[], [], false;
    }

    /** Cases without teacher budget are settled, nothing is asked yet. */
    ghost predicate Planned()
      reads this`invalid, this`replacements
    {
      CasesReady(e, cases) && invalid == Pick(e, cases, 0) && replacements == map[]
    }

    /** Every case that is not the student's to settle is settled; the others know their replacement. */
    ghost predicate Proposed()
      reads this`invalid, this`replacements
    {
      && CasesReady(e, cases) && CasesReady(e, Asked(e, cases))
      && (forall i :: 0 <= i < |Asked(e, cases)| ==> NeedsProposal(e, Asked(e, cases)[i]))
      && invalid == Pick(e, cases, 0) + Pick(e, cases, 1)
      && replacements == Replaced(e, Asked(e, cases))
    }

    /** Add an entry to the insertion-ordered dictionary of skipped cases; its key is new. */
    method Skip(r: CaseResult)
      requires forall k :: 0 <= k < |invalid| ==> invalid[k].caseId != r.caseId
      modifies this`invalid
      ensures invalid == old(invalid) + [r]
    {
      invalid := invalid + [r];
    }

    method Plan(work: nat) returns (rows: seq<Row>)
      requires CasesReady(e, cases) && invalid == [] && replacements == map[]
      modifies this`invalid
      ensures Planned()
      ensures CasesReady(e, Asked(e, cases)) && rows == Rows(e, work, Asked(e, cases))
    {
      rows := [];
      for i := 0 to |cases|
        invariant PlannedTo(e, cases[..i], work, invalid, rows)
      {
        var c := cases[i];
        PlanAt(e, cases, i, work, invalid, rows);
        if c.candidate.key.action != TeacherReplace {
          continue;
        }
        if TeacherBudget(e, c) <= 0 {
          Skip(Skipped(c.candidate.key, c.caseId, "no_teacher_budget"));
          continue;
        }
        rows := rows + [RowFor(e, work, c)];
      }
      assert cases[..|cases|] == cases;
    }

    /** Turn the teacher's proposals into replacements and skips. */
    method Absorb(work: nat, rows: seq<Row>, outputs: map<string, seq<int>>)
      requires Planned() && CasesReady(e, Asked(e, cases)) && rows == Rows(e, work, Asked(e, cases))
      requires e.teacher.Some? || rows == []
      requires forall k :: 0 <= k < |rows| ==> Answered(e, rows[k].request, outputs)
      modifies this`invalid, this`replacements
      ensures Proposed()
    {
      ghost var asked := Asked(e, cases);
      AskedAreCases(e, cases);
      AbsorbStart(e, cases, asked, invalid, replacements);
      for k := 0 to |rows|
        invariant AbsorbedTo(e, cases, asked, k, invalid, replacements)
      {
        var c := rows[k].c;
        assert Answered(e, rows[k].request, outputs);
        var replacement := FirstReplacement(e.split, outputs[rows[k].request.id]);
        AbsorbAt(e, cases, asked, k, invalid, replacements, replacement);
        if replacement.Err? {
          Skip(Skipped(c.candidate.key, c.caseId, "teacher_split_error"));
        } else if replacement.value == [] {
          Skip(Skipped(c.candidate.key, c.caseId, "empty_teacher_replacement"));
        } else {
          replacements := replacements[c.caseId := replacement.value];
        }
      }
      AbsorbEnd(e, cases, asked, invalid, replacements);
    }
  }

  /** The planning loop has settled and asked about exactly `seen`. */
  ghost predicate PlannedTo(e: Site, seen: seq<Case>, work: nat, invalid: seq<CaseResult>, rows: seq<Row>) {
    && CasesReady(e, seen) && CasesReady(e, Asked(e, seen))
    && invalid == Pick(e, seen, 0) && rows == Rows(e, work, Asked(e, seen))
  }

  lemma PlanStep(e: Site, seen: seq<Case>, c: Case, work: nat, invalid: seq<CaseResult>, rows: seq<Row>)
    requires CasesReady(e, seen + [c]) && CaseReady(e, c) && PlannedTo(e, seen, work, invalid, rows)
    ensures PlannedTo(e, seen + [c], work, if Phase(e, c) == 0 then invalid + [Expected(e, c)] else invalid,
                      if NeedsProposal(e, c) then rows + [RowFor(e, work, c)] else rows)
  {
    PickLast(e, seen, c, 0);
    assert invalid + [] == invalid;
    AskedAreCases(e, seen + [c]);
    PlanRows(e, seen, c, work, rows);
  }

  lemma PlanIsNew(e: Site, cases: seq<Case>, i: nat, work: nat, invalid: seq<CaseResult>, rows: seq<Row>)
    requires CasesReady(e, cases) && i < |cases| && PlannedTo(e, cases[..i], work, invalid, rows)
    ensures forall k :: 0 <= k < |invalid| ==> invalid[k].caseId != cases[i].caseId
  {
    NotPicked(e, cases, i, invalid, cases[..i], 0);
  }

  lemma PlanPhase(e: Site, c: Case)
    requires CaseReady(e, c)
    ensures c.candidate.key.action != TeacherReplace ==> Phase(e, c) != 0 && !NeedsProposal(e, c)
    ensures NeedsProposal(e, c) ==> Phase(e, c) != 0 && c.candidate.key.action == TeacherReplace
    ensures c.candidate.key.action == TeacherReplace && TeacherBudget(e, c) <= 0 ==>
      && Phase(e, c) == 0 && !NeedsProposal(e, c)
      && Expected(e, c) == Skipped(c.candidate.key, c.caseId, "no_teacher_budget")
  {}

  lemma PlanAt(e: Site, cases: seq<Case>, i: nat, work: nat, invalid: seq<CaseResult>, rows: seq<Row>)
    requires CasesReady(e, cases) && i < |cases| && PlannedTo(e, cases[..i], work, invalid, rows)
    ensures CaseReady(e, cases[i])
    ensures cases[i].candidate.key.action != TeacherReplace ==> PlannedTo(e, cases[..i + 1], work, invalid, rows)
    ensures cases[i].candidate.key.action == TeacherReplace && TeacherBudget(e, cases[i]) <= 0 ==>
      PlannedTo(e, cases[..i + 1], work,
                invalid + [Skipped(cases[i].candidate.key, cases[i].caseId, "no_teacher_budget")], rows)
    ensures NeedsProposal(e, cases[i]) ==>
      PlannedTo(e, cases[..i + 1], work, invalid, rows + [RowFor(e, work, cases[i])])
    ensures forall k :: 0 <= k < |invalid| ==> invalid[k].caseId != cases[i].caseId
  {
    hide Phase, Expected, NeedsProposal, PlannedTo;
    assert CaseReady(e, cases[i]);
    PlanPhase(e, cases[i]);
    PlanIsNew(e, cases, i, work, invalid, rows);
    SubsetReady(e, cases, i + 1);
    assert cases[..i + 1] == cases[..i] + [cases[i]];
    PlanStep(e, cases[..i], cases[i], work, invalid, rows);
  }

  lemma SubsetReady(e: Site, cases: seq<Case>, n: nat)
    requires CasesReady(e, cases) && n <= |cases|
    ensures CasesReady(e, cases[..n])
  {}

  lemma PlanRows(e: Site, seen: seq<Case>, c: Case, work: nat, rows: seq<Row>)
    requires CasesReady(e, Asked(e, seen)) && CaseReady(e, c) && rows == Rows(e, work, Asked(e, seen))
    requires CasesReady(e, Asked(e, seen + [c]))
    ensures Rows(e, work, Asked(e, seen + [c])) == if NeedsProposal(e, c) then rows + [RowFor(e, work, c)] else rows
  {
    hide CaseReady, RowFor, NeedsProposal;
    AskedNext(e, seen, c);
    if NeedsProposal(e, c) {
      RowsNext(e, work, Asked(e, seen), c);
    }
  }

  lemma AskedNext(e: Site, seen: seq<Case>, c: Case)
    ensures Asked(e, seen + [c]) == if NeedsProposal(e, c) then Asked(e, seen) + [c] else Asked(e, seen)
  {
    hide NeedsProposal;
    assert (seen + [c])[..|seen|] == seen;
  }

  lemma RowsNext(e: Site, work: nat, asked: seq<Case>, c: Case)
    requires (forall i :: 0 <= i < |asked| ==> CaseReady(e, asked[i])) && CaseReady(e, c)
    ensures forall i :: 0 <= i < |asked + [c]| ==> CaseReady(e, (asked + [c])[i])
    ensures Rows(e, work, asked + [c]) == Rows(e, work, asked) + [RowFor(e, work, c)]
  {
    hide CaseReady, RowFor;
  }

  /** A case later in the list has no result among the earlier cases' picks. */
  lemma NotPicked(e: Site, cases: seq<Case>, i: nat, picked: seq<CaseResult>, earlier: seq<Case>, phase: nat)
    requires CasesReady(e, cases) && i < |cases| && earlier == cases[..i]
    requires picked == Pick(e, earlier, phase)
    ensures forall k :: 0 <= k < |picked| ==> picked[k].caseId != cases[i].caseId
  {
    forall k | 0 <= k < |picked| ensures picked[k].caseId != cases[i].caseId {
      PickIds(e, earlier, phase, picked[k]);
    }
  }

  /** The engine's answer to a teacher request is under its id. */
  ghost predicate Answered(e: Site, request: Request<Query>, outputs: map<string, seq<int>>) {
    e.teacher.Some? && request.id in outputs && outputs[request.id] == e.generate(e.teacher.value, request.payload)
  }

  /** The absorbing loop has turned the first k proposals into replacements and skips. */
  ghost predicate AbsorbedTo(e: Site, cases: seq<Case>, asked: seq<Case>, k: nat, invalid: seq<CaseResult>,
                             replacements: map<string, seq<int>>)
  {
    && k <= |asked| && CasesReady(e, cases) && CasesReady(e, asked)
    && (forall i :: 0 <= i < |asked| ==> asked[i] in cases && NeedsProposal(e, asked[i]))
    && invalid == Pick(e, cases, 0) + Pick(e, asked[..k], 1)
    && replacements == Replaced(e, asked[..k])
  }

  lemma AbsorbStart(e: Site, cases: seq<Case>, asked: seq<Case>, invalid: seq<CaseResult>,
                    replacements: map<string, seq<int>>)
    requires CasesReady(e, cases) && CasesReady(e, asked) && asked == Asked(e, cases)
    requires invalid == Pick(e, cases, 0) && replacements == map[]
    ensures AbsorbedTo(e, cases, asked, 0, invalid, replacements)
  {
    AskedAreCases(e, cases);
    assert invalid + [] == invalid;
    assert asked[..0] == [];
  }

  lemma AbsorbEnd(e: Site, cases: seq<Case>, asked: seq<Case>, invalid: seq<CaseResult>,
                  replacements: map<string, seq<int>>)
    requires asked == Asked(e, cases) && AbsorbedTo(e, cases, asked, |asked|, invalid, replacements)
    ensures invalid == Pick(e, cases, 0) + Pick(e, cases, 1) && replacements == Replaced(e, asked)
  {
    assert asked[..|asked|] == asked;
    PickAsked(e, cases);
  }

  /** How a proposal settles its case. */
  lemma ProposalSettles(e: Site, c: Case)
    requires CaseReady(e, c) && NeedsProposal(e, c)
    ensures var r := FirstReplacement(e.split, ProposalIds(e, c));
      && (r.Err? ==> Phase(e, c) == 1 && Expected(e, c) == Skipped(c.candidate.key, c.caseId, "teacher_split_error"))
      && (r.Ok? && r.value == [] ==>
          Phase(e, c) == 1 && Expected(e, c) == Skipped(c.candidate.key, c.caseId, "empty_teacher_replacement"))
      && (r.Ok? && r.value != [] ==> Phase(e, c) == 2)
  {}

  lemma PickNext(e: Site, asked: seq<Case>, k: nat, base: seq<CaseResult>, phase: nat)
    requires k < |asked| && forall i :: 0 <= i < |asked| ==> CaseReady(e, asked[i])
    ensures Phase(e, asked[k]) == phase ==>
      base + Pick(e, asked[..k + 1], phase) == base + Pick(e, asked[..k], phase) + [Expected(e, asked[k])]
    ensures Phase(e, asked[k]) != phase ==> base + Pick(e, asked[..k + 1], phase) == base + Pick(e, asked[..k], phase)
  {
    assert asked[..k + 1] == asked[..k] + [asked[k]];
    PickLast(e, asked[..k], asked[k], phase);
  }

  lemma ReplacedNext(e: Site, asked: seq<Case>, k: nat)
    requires k < |asked| && forall i :: 0 <= i < |asked| ==> CaseReady(e, asked[i]) && NeedsProposal(e, asked[i])
    ensures Phase(e, asked[k]) != 2 ==> Replaced(e, asked[..k + 1]) == Replaced(e, asked[..k])
    ensures Phase(e, asked[k]) == 2 ==>
      Replaced(e, asked[..k + 1])
      == Replaced(e, asked[..k])[asked[k].caseId := FirstReplacement(e.split, ProposalIds(e, asked[k])).value]
  {
    assert asked[..k + 1][..k] == asked[..k];
  }

  lemma AbsorbOne(e: Site, cases: seq<Case>, asked: seq<Case>, k: nat, invalid: seq<CaseResult>,
                  replacements: map<string, seq<int>>)
    requires k < |asked| && AbsorbedTo(e, cases, asked, k, invalid, replacements)
    requires CaseReady(e, asked[k]) && NeedsProposal(e, asked[k])
    ensures Phase(e, asked[k]) == 1 ==>
      AbsorbedTo(e, cases, asked, k + 1, invalid + [Expected(e, asked[k])], replacements)
    ensures Phase(e, asked[k]) == 2 ==> AbsorbedTo(e, cases, asked, k + 1, invalid,
      replacements[asked[k].caseId := FirstReplacement(e.split, ProposalIds(e, asked[k])).value])
  {
    PickNext(e, asked, k, Pick(e, cases, 0), 1);
    ReplacedNext(e, asked, k);
  }

  lemma AbsorbAt(e: Site, cases: seq<Case>, asked: seq<Case>, k: nat, invalid: seq<CaseResult>,
                 replacements: map<string, seq<int>>, r: Result<seq<int>>)
    requires k < |asked| && AbsorbedTo(e, cases, asked, k, invalid, replacements)
    requires CaseReady(e, asked[k])
    requires NeedsProposal(e, asked[k]) && r == FirstReplacement(e.split, ProposalIds(e, asked[k]))
    ensures r.Err? ==> AbsorbedTo(e, cases, asked, k + 1,
      invalid + [Skipped(asked[k].candidate.key, asked[k].caseId, "teacher_split_error")], replacements)
    ensures r.Ok? && r.value == [] ==> AbsorbedTo(e, cases, asked, k + 1,
      invalid + [Skipped(asked[k].candidate.key, asked[k].caseId, "empty_teacher_replacement")], replacements)
    ensures r.Ok? && r.value != [] ==>
      AbsorbedTo(e, cases, asked, k + 1, invalid, replacements[asked[k].caseId := r.value])
    ensures forall i :: 0 <= i < |invalid| ==> invalid[i].caseId != asked[k].caseId
  {
    ProposalSettles(e, asked[k]);
    AbsorbOne(e, cases, asked, k, invalid, replacements);
    AbsorbIsNew(e, cases, asked, k, invalid);
  }

  lemma AbsorbIsNew(e: Site, cases: seq<Case>, asked: seq<Case>, k: nat, invalid: seq<CaseResult>)
    requires k < |asked| && CasesReady(e, cases) && CasesReady(e, asked)
    requires asked[k] in cases && NeedsProposal(e, asked[k])
    requires invalid == Pick(e, cases, 0) + Pick(e, asked[..k], 1)
    ensures forall i :: 0 <= i < |invalid| ==> invalid[i].caseId != asked[k].caseId
  {
    NotPicked(e, asked, k, Pick(e, asked[..k], 1), asked[..k], 1);
    var own :| 0 <= own < |cases| && cases[own] == asked[k];
    OtherPhase(e, cases, own, 0);
  }

  /** A case has no result in a phase that is not its own. */
  lemma OtherPhase(e: Site, cases: seq<Case>, own: nat, phase: nat)
    requires CasesReady(e, cases) && own < |cases| && Phase(e, cases[own]) != phase
    ensures forall r :: r in Pick(e, cases, phase) ==> r.caseId != cases[own].caseId
  {
    forall r | r in Pick(e, cases, phase) ensures r.caseId != cases[own].caseId {
      PickIds(e, cases, phase, r);
    }
  }
}
