/** The persisted result document of a checkpoint evaluation and what its history must satisfy.
    Models utils/ersr_evaluation.py. */
module CheckpointDocument {
  import opened Basics
  import opened Sorting

  /** One model's evaluation; `base`, `teacher` and `student` number the attempts whose base
      rollouts, teacher proposals and student continuations it holds. */
  datatype Evaluation = Evaluation(base: nat, teacher: Option<nat>, student: Option<nat>, completed: bool)

  datatype Row = Row(stepNum: int, eval: Evaluation)

  datatype Status = Running | Failed | Completed

  datatype Document = Document(signature: Config, status: Status, steps: seq<Row>, initialBase: Option<Evaluation>)

  /** The configuration of an evaluation: the switches the run branches on, and every other stable
      input. All of it goes into the signature a result document carries. */
  datatype Config = Config(inputs: string, initialBase: bool, ersr: bool, sharedTeacher: bool) {
    /** One teacher pass for all checkpoints; a run of this schedule cannot be resumed. */
    predicate Shared() { ersr && sharedTeacher }
  }

  /** What is evaluated: a training checkpoint, or the initial base model. */
  datatype Target = Step(stepNum: int) | Base

  // ----- soundness of one document -----

  predicate Ascending(steps: seq<Row>) { forall i, j :: 0 <= i < j < |steps| ==> steps[i].stepNum < steps[j].stepNum }

  /** All parts of an evaluation come from one attempt, continuations only behind proposals, and a
      completed one has them all. */
  predicate OneAttempt(cfg: Config, e: Evaluation) {
    && (e.teacher.Some? ==> e.teacher.value == e.base)
    && (e.student.Some? ==> e.student.value == e.base && e.teacher.Some?)
    && (e.completed && cfg.ersr ==> e.teacher.Some? && e.student.Some?)
  }

  ghost predicate Sound(cfg: Config, d: Document) {
    && d.signature == cfg
    && Ascending(d.steps)
    && (forall r :: r in d.steps ==> OneAttempt(cfg, r.eval))
    && (d.initialBase.Some? ==> cfg.initialBase && OneAttempt(cfg, d.initialBase.value))
  }

  predicate StepDone(d: Document, n: int) { exists r :: r in d.steps && r.stepNum == n && r.eval.completed }

  predicate Done(d: Document, t: Target) {
    match t
    case Step(n) => StepDone(d, n)
    case Base => d.initialBase.Some? && d.initialBase.value.completed
  }

  // ----- how documents may follow one another -----

  /** Nothing completed is dropped or changed. */
  ghost predicate Keeps(a: Document, b: Document) {
    && (forall r :: r in a.steps && r.eval.completed ==> r in b.steps)
    && (a.initialBase.Some? && a.initialBase.value.completed ==> b.initialBase == a.initialBase)
  }

  ghost predicate DiskKeeps(a: Option<Document>, b: Option<Document>) {
    a.Some? ==> b.Some? && Keeps(a.value, b.value)
  }

  lemma KeepsDone(a: Document, b: Document, t: Target)
    requires Keeps(a, b) && Done(a, t)
    ensures Done(b, t)
  {}

  lemma KeepsTransitive(a: Option<Document>, b: Option<Document>, c: Option<Document>)
    requires DiskKeeps(a, b) && DiskKeeps(b, c)
    ensures DiskKeeps(a, c)
  {}

  // ----- histories of the result file -----

  /** Every content the file ever had is sound, and each keeps what was completed before. */
  ghost predicate HistoryOk(cfg: Config, h: seq<Option<Document>>) {
    && (forall i :: 0 <= i < |h| && h[i].Some? ==> Sound(cfg, h[i].value))
    && forall i, j :: 0 <= i <= j < |h| ==> DiskKeeps(h[i], h[j])
  }

  lemma HistoryGrows(cfg: Config, h: seq<Option<Document>>, d: Option<Document>)
    requires HistoryOk(cfg, h) && h != [] && (d.Some? ==> Sound(cfg, d.value)) && DiskKeeps(h[|h| - 1], d)
    ensures HistoryOk(cfg, h + [d])
  {
    hide DiskKeeps, Sound;
    KeepsReflexive(d);
    forall i, j | 0 <= i <= j < |h + [d]| ensures DiskKeeps((h + [d])[i], (h + [d])[j]) {
      if i < j == |h| {
        KeepsTransitive(h[i], h[|h| - 1], d);
      }
    }
  }

  lemma KeepsReflexive(d: Option<Document>)
    ensures DiskKeeps(d, d)
  {}

  /** An evaluation that was started, and how long the history was then. */
  datatype Event = Event(target: Target, at: nat)

  /** Nothing was evaluated that any earlier content of the file held as completed. */
  ghost predicate LogOk(h: seq<Option<Document>>, log: seq<Event>) {
    forall k :: 0 <= k < |log| ==> NotDoneBefore(h, log[k])
  }

  ghost predicate NotDoneBefore(h: seq<Option<Document>>, e: Event) {
    e.at <= |h| && forall i :: 0 <= i < e.at && h[i].Some? ==> !Done(h[i].value, e.target)
  }

  lemma LogSurvives(h: seq<Option<Document>>, log: seq<Event>, d: Option<Document>)
    requires LogOk(h, log)
    ensures LogOk(h + [d], log)
  {
    hide Done;
    forall k | 0 <= k < |log| ensures NotDoneBefore(h + [d], log[k]) {
      assert NotDoneBefore(h, log[k]);
    }
  }

  lemma LogGrows(cfg: Config, h: seq<Option<Document>>, log: seq<Event>, t: Target)
    requires HistoryOk(cfg, h) && h != [] && LogOk(h, log)
    requires h[|h| - 1].Some? ==> !Done(h[|h| - 1].value, t)
    ensures LogOk(h, log + [Event(t, |h|)])
  {
    hide Done, Keeps, Sound;
    var e := Event(t, |h|);
    forall i | 0 <= i < |h| && h[i].Some? ensures !Done(h[i].value, t) {
      assert DiskKeeps(h[i], h[|h| - 1]);
      if Done(h[i].value, t) {
        KeepsDone(h[i].value, h[|h| - 1].value, t);
      }
    }
    assert NotDoneBefore(h, e);
    forall k | 0 <= k < |log + [e]| ensures NotDoneBefore(h, (log + [e])[k]) {
      if k < |log| {
        assert NotDoneBefore(h, log[k]);
      }
    }
  }

  // ----- editing the step list -----

  function Without(steps: seq<Row>, n: int): seq<Row> {
    if steps == [] then [] else
      Without(steps[..|steps| - 1], n) + if steps[|steps| - 1].stepNum == n then [] else [steps[|steps| - 1]]
  }

  lemma {:induction false} WithoutKeeps(steps: seq<Row>, n: int)
    requires Ascending(steps)
    ensures Ascending(Without(steps, n))
    ensures forall r :: r in Without(steps, n) <==> r in steps && r.stepNum != n
  {
    if steps != [] {
      var front, last := steps[..|steps| - 1], steps[|steps| - 1];
      WithoutKeeps(front, n);
      assert steps == front + [last];
      var w := Without(front, n);
      forall i | 0 <= i < |w| ensures w[i].stepNum < last.stepNum {
        assert w[i] in front;
        var k :| 0 <= k < |front| && front[k] == w[i];
        assert steps[k].stepNum < steps[|steps| - 1].stepNum;
      }
    }
  }

  /** `append` and `sort`. */
  function WithRow(steps: seq<Row>, row: Row): seq<Row> { Sort(steps + [row], (r: Row) => r.stepNum) }

  lemma WithRowKeeps(steps: seq<Row>, row: Row)
    requires Ascending(steps) && forall r :: r in steps ==> r.stepNum != row.stepNum
    ensures Ascending(WithRow(steps, row))
    ensures forall r :: r in WithRow(steps, row) <==> r in steps || r == row
  {
    var key := (r: Row) => r.stepNum;
    var all := steps + [row];
    forall i, j | 0 <= i < j < |all| ensures key(all[i]) != key(all[j]) {
      if j == |steps| {
        assert all[i] in steps;
      }
    }
    SortSorts(all, key);
    SortDistinct(all, key);
    var sorted := Sort(all, key);
    forall i, j | 0 <= i < j < |sorted| ensures sorted[i].stepNum < sorted[j].stepNum {
      assert key(sorted[i]) <= key(sorted[j]) && key(sorted[i]) != key(sorted[j]);
    }
  }

  /** Change the row of step n, which other parts of the program hold by reference. */
  function Updated(steps: seq<Row>, n: int, e: Evaluation): (r: seq<Row>)
    ensures |r| == |steps|
  {
    seq(|steps|, i requires 0 <= i < |steps| => if steps[i].stepNum == n then Row(n, e) else steps[i])
  }

  predicate Listed(steps: seq<Row>, n: int) { exists r :: r in steps && r.stepNum == n }

  lemma UpdatedKeeps(steps: seq<Row>, n: int, e: Evaluation)
    requires Ascending(steps) && Listed(steps, n)
    ensures Ascending(Updated(steps, n, e))
    ensures forall r :: r in Updated(steps, n, e) <==> (r in steps && r.stepNum != n) || r == Row(n, e)
  {
    var u := Updated(steps, n, e);
    forall i, j | 0 <= i < j < |u| ensures u[i].stepNum < u[j].stepNum {
      assert steps[i].stepNum < steps[j].stepNum;
    }
    forall r | r in steps && r.stepNum != n ensures r in u {
      var i :| 0 <= i < |steps| && steps[i] == r;
      assert u[i] == r;
    }
    var was :| was in steps && was.stepNum == n;
    var k :| 0 <= k < |steps| && steps[k] == was;
    assert u[k] == Row(n, e);
  }

  /** The two lists differ at most in what they say about step n. */
  ghost predicate OthersSame(a: seq<Row>, b: seq<Row>, n: int) {
    forall r: Row :: r.stepNum != n ==> (r in a <==> r in b)
  }

  /** Rewriting the row of an incomplete step leaves a sound document that keeps everything. */
  lemma RewriteKeeps(cfg: Config, d: Document, steps: seq<Row>, n: int)
    requires Sound(cfg, d) && !StepDone(d, n)
    requires Ascending(steps) && OthersSame(d.steps, steps, n)
    requires forall r :: r in steps && r.stepNum == n ==> OneAttempt(cfg, r.eval)
    ensures Sound(cfg, d.(steps := steps)) && Keeps(d, d.(steps := steps))
  {
    forall r | r in steps ensures OneAttempt(cfg, r.eval) {
      if r.stepNum != n {
        assert r in d.steps;
      }
    }
  }

  // ----- what a finished run holds -----

  function Nums(steps: seq<Row>): (r: seq<int>)
    ensures |r| == |steps|
  {
    seq(|steps|, i requires 0 <= i < |steps| => steps[i].stepNum)
  }

  predicate Upwards(ks: seq<int>) { forall i, j :: 0 <= i < j < |ks| ==> ks[i] < ks[j] }

  /** Every persisted row is about a discovered checkpoint. */
  predicate Within(d: Document, checkpoints: seq<int>) { forall r :: r in d.steps ==> r.stepNum in checkpoints }

  predicate AllDone(cfg: Config, d: Document, checkpoints: seq<int>) {
    (forall n :: n in checkpoints ==> StepDone(d, n)) && (cfg.initialBase ==> Done(d, Base))
  }

  /** Exactly the discovered steps, in order, all completed. */
  predicate Exact(cfg: Config, d: Document, checkpoints: seq<int>) {
    Nums(d.steps) == checkpoints && AllDone(cfg, d, checkpoints)
  }

  lemma LastIsLargest(a: seq<int>, n: int)
    requires Upwards(a) && n in a
    ensures n <= a[|a| - 1]
  {}

  lemma SameLast(a: seq<int>, b: seq<int>)
    requires Upwards(a) && Upwards(b) && a != [] && b != [] && forall n :: n in a <==> n in b
    ensures a[|a| - 1] == b[|b| - 1]
  {
    assert a[|a| - 1] in a && b[|b| - 1] in b;
    LastIsLargest(a, b[|b| - 1]);
    LastIsLargest(b, a[|a| - 1]);
  }

  lemma FrontHas(a: seq<int>, n: int)
    requires Upwards(a) && a != []
    ensures n in a[..|a| - 1] <==> n in a && n != a[|a| - 1]
  {
    assert a == a[..|a| - 1] + [a[|a| - 1]];
  }

  lemma NonEmptyToo(a: seq<int>, b: seq<int>)
    requires forall n :: n in a ==> n in b
    ensures a != [] ==> b != []
  {
    if a != [] {
      var n := a[0];
      assert n in a;
    }
  }

  lemma {:induction false} SameNumbers(a: seq<int>, b: seq<int>)
    requires Upwards(a) && Upwards(b) && forall n :: n in a <==> n in b
    ensures a == b
  {
    NonEmptyToo(a, b);
    NonEmptyToo(b, a);
    if a != [] {
      SameLast(a, b);
      var c, d := a[..|a| - 1], b[..|b| - 1];
      forall n ensures n in c <==> n in d {
        FrontHas(a, n);
        FrontHas(b, n);
      }
      SameNumbers(c, d);
      assert a == c + [a[|a| - 1]] && b == d + [b[|b| - 1]];
    }
  }

  lemma NumsAre(steps: seq<Row>)
    requires Ascending(steps)
    ensures Upwards(Nums(steps)) && forall n :: n in Nums(steps) <==> Listed(steps, n)
  {
    forall r | r in steps ensures r.stepNum in Nums(steps) {
      var i :| 0 <= i < |steps| && steps[i] == r;
      assert Nums(steps)[i] == r.stepNum;
    }
    forall n | n in Nums(steps) ensures Listed(steps, n) {
      var i :| 0 <= i < |steps| && Nums(steps)[i] == n;
      assert steps[i] in steps;
    }
  }

  /** A document with every discovered step done holds exactly those steps iff it has no row for
      anything else. */
  lemma ExactIffWithin(cfg: Config, d: Document, checkpoints: seq<int>)
    requires Sound(cfg, d) && Upwards(checkpoints) && AllDone(cfg, d, checkpoints)
    ensures Exact(cfg, d, checkpoints) <==> Within(d, checkpoints)
  {
    NumsAre(d.steps);
    if Within(d, checkpoints) {
      forall n ensures n in Nums(d.steps) <==> n in checkpoints {
        if n in checkpoints {
          assert StepDone(d, n);
        }
      }
      SameNumbers(Nums(d.steps), checkpoints);
    } else {
      var r :| r in d.steps && r.stepNum !in checkpoints;
      assert Listed(d.steps, r.stepNum);
    }
  }

  // ----- the same checkpoint set in every invocation -----

  /** A content the file may have when every invocation sees the same checkpoints. */
  ghost predicate InScope(cfg: Config, d: Document, scope: Option<seq<int>>) {
    scope.Some? ==> Within(d, scope.value) && (d.status == Completed ==> Exact(cfg, d, scope.value))
  }

  ghost predicate ScopeOk(cfg: Config, h: seq<Option<Document>>, scope: Option<seq<int>>) {
    forall i :: 0 <= i < |h| && h[i].Some? ==> InScope(cfg, h[i].value, scope)
  }

  /** The two lists differ at most in what they say about the checkpoints. */
  ghost predicate OutsideSame(a: seq<Row>, b: seq<Row>, checkpoints: seq<int>) {
    forall r: Row :: r.stepNum !in checkpoints ==> (r in a <==> r in b)
  }

  lemma OutsideGrows(a: seq<Row>, b: seq<Row>, c: seq<Row>, checkpoints: seq<int>, n: int)
    requires OutsideSame(a, b, checkpoints) && OthersSame(b, c, n) && n in checkpoints
    ensures OutsideSame(a, c, checkpoints)
  {}

  /** What stands outside the checkpoints stays, so the result is within them iff the start was. */
  lemma WithinStays(a: Document, b: Document, checkpoints: seq<int>)
    requires OutsideSame(a.steps, b.steps, checkpoints)
    ensures Within(a, checkpoints) <==> Within(b, checkpoints)
  {}

  lemma RewriteInScope(cfg: Config, d: Document, steps: seq<Row>, n: int, scope: Option<seq<int>>)
    requires InScope(cfg, d, scope) && OthersSame(d.steps, steps, n)
    requires (scope.Some? ==> n in scope.value) && d.status != Completed
    ensures InScope(cfg, d.(steps := steps), scope)
  {}
}
