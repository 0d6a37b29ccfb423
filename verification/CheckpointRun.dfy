/** Evaluating checkpoints one after another into one result file, with exceptions and kills at
    any point and any number of resumptions. Models utils/ersr_evaluation.py. */
module CheckpointRun {
  import opened Basics
  import opened CheckpointDocument

  /** How an operation ends: normally, with an exception, or with the process gone. */
  datatype Signal = Fine | Raised | Killed

  datatype Outcome = Finished | AlreadyCompleted | Refused | Interrupted

  function Pieces(a: nat, teacher: bool, student: bool, completed: bool): Evaluation {
    Evaluation(a, if teacher then Some(a) else None, if student then Some(a) else None, completed)
  }

  /** The row of step n that is completed with every part from attempt a. */
  function WholeRow(n: int, a: nat): Row { Row(n, Evaluation(a, Some(a), Some(a), true)) }

  lemma RowsStay(before: seq<Row>, after: seq<Row>, n: int)
    requires OthersSame(before, after, n)
    ensures forall r :: r in before && r.stepNum != n ==> r in after
  {}

  class Evaluator {
    /** The configuration the result file was started with. */
    var cfg: Config
    /** The discovered checkpoints, when they are the same in every invocation. */
    ghost const scope: Option<seq<int>>

    /** The result file. */
    var disk: Option<Document>
    /** The document of the running process; lost with it. */
    var document: Document
    var attempts: nat

    /** Every content of the result file so far, every evaluation started, and the number of
        exceptions and kills. */
    ghost var history: seq<Option<Document>>
    ghost var log: seq<Event>
    ghost var faults: nat

    ghost predicate Consistent()
      reads this`cfg, this`disk, this`history, this`log
    {
      && history != [] && history[|history| - 1] == disk
      && HistoryOk(cfg, history) && LogOk(history, log) && ScopeOk(cfg, history, scope)
    }

    /** The process may write its document at any time. */
    ghost predicate Holding()
      reads this`cfg, this`disk, this`history, this`log, this`document
    {
      Consistent() && Sound(cfg, document) && DiskKeeps(disk, Some(document)) && InScope(cfg, document, scope)
    }

    constructor (ghost scope: Option<seq<int>>)
      ensures this.scope == scope
      ensures Consistent() && disk == None && log == []
    {
      this.scope := scope;
      cfg := Config("", false, false, false);
      disk, document, attempts := None, Document(Config("", false, false, false), Running, [], None), 0;
      history, log, faults := [None], [], 0;
    }

    /** Any operation outside the model: it may raise, or the process may die in it. */
    method Attempt() returns (s: Signal)
      modifies this`faults
      ensures faults >= old(faults) && (s != Fine ==> faults > old(faults))
    {
      s := *;
      if s != Fine {
        faults := faults + 1;
      }
    }

    /** `atomic_write_json`: the file holds the old content or the new one, and the new one when
        the call returns. */
    method AtomicWrite() returns (s: Signal)
      requires Holding()
      modifies this`disk, this`history, this`faults
      ensures Holding()
      ensures disk == old(disk) || disk == Some(document)
      ensures s == Fine ==> disk == Some(document)
      ensures history == old(history) + [disk]
      ensures faults >= old(faults) && (s != Fine ==> faults > old(faults))
    {
      hide Sound, InScope;
      s := Attempt();
      var replaced := *;
      if s == Fine || replaced {
        disk := Some(document);
      }
      KeepsReflexive(Some(document));
      KeepsReflexive(old(disk));
      HistoryGrows(cfg, history, disk);
      LogSurvives(history, log, disk);
      history := history + [disk];
    }

    /** `_evaluate_base_model`: a new attempt at a target that is not done. */
    method EvaluateBase(t: Target) returns (s: Signal, attempt: nat)
      requires Holding() && !Done(document, t)
      modifies this`log, this`attempts, this`faults
      ensures Holding() && log == old(log) + [Event(t, |history|)]
      ensures attempt == attempts == old(attempts) + 1
      ensures faults >= old(faults) && (s != Fine ==> faults > old(faults))
    {
      StillToDo(disk, document, t);
      LogGrows(cfg, history, log, t);
      log := log + [Event(t, |history|)];
      attempts := attempts + 1;
      attempt := attempts;
      s := Attempt();
    }

    /** Change what the document says about an incomplete step. */
    method Edit(steps: seq<Row>, n: int)
      requires Holding() && document.status == Running && !StepDone(document, n) && (scope.Some? ==> n in scope.value)
      requires Ascending(steps) && OthersSame(document.steps, steps, n)
      requires forall r :: r in steps && r.stepNum == n ==> OneAttempt(cfg, r.eval)
      modifies this`document
      ensures Holding() && document == old(document).(steps := steps)
    {
      hide HistoryOk, LogOk, ScopeOk;
      RewriteKeeps(cfg, document, steps, n);
      RewriteInScope(cfg, document, steps, n, scope);
      KeepsTransitive(disk, Some(document), Some(document.(steps := steps)));
      document := document.(steps := steps);
    }

    /** Fill in the row of step n, which the caller holds by reference. */
    method Fill(n: int, e: Evaluation)
      requires Holding() && document.status == Running && !StepDone(document, n) && (scope.Some? ==> n in scope.value)
      requires Listed(document.steps, n) && OneAttempt(cfg, e)
      modifies this`document
      ensures Holding() && document == old(document).(steps := document.steps)
      ensures OthersSame(old(document.steps), document.steps, n) && Listed(document.steps, n)
      ensures Row(n, e) in document.steps && (StepDone(document, n) <==> e.completed)
    {
      UpdatedKeeps(document.steps, n, e);
      assert Row(n, e) in Updated(document.steps, n, e);
      Edit(Updated(document.steps, n, e), n);
    }

    /** Drop an incomplete row left by an earlier attempt. */
    method DropStale(n: int)
      requires Holding() && document.status == Running && !StepDone(document, n) && (scope.Some? ==> n in scope.value)
      modifies this`document
      ensures Holding() && document == old(document).(steps := document.steps)
      ensures OthersSame(old(document.steps), document.steps, n) && !Listed(document.steps, n)
    {
      if Listed(document.steps, n) {
        WithoutKeeps(document.steps, n);
        Edit(Without(document.steps, n), n);
      }
    }

    /** Append the base result of a new attempt, in order. */
    method AddRow(n: int, attempt: nat)
      requires Holding() && document.status == Running
      requires !Listed(document.steps, n) && (scope.Some? ==> n in scope.value)
      modifies this`document
      ensures Holding() && document == old(document).(steps := document.steps)
      ensures OthersSame(old(document.steps), document.steps, n)
      ensures Listed(document.steps, n) && !StepDone(document, n)
    {
      var row := Row(n, Pieces(attempt, false, false, false));
      WithRowKeeps(document.steps, row);
      assert row in WithRow(document.steps, row);
      Edit(WithRow(document.steps, row), n);
    }

    /** Teacher proposals, then student continuations of the attempt. */
    method RunErsr(n: int, attempt: nat) returns (s: Signal)
      requires Holding() && document.status == Running && (scope.Some? ==> n in scope.value)
      requires Listed(document.steps, n) && !StepDone(document, n)
      modifies this`disk, this`document, this`history, this`faults
      ensures Holding() && document == old(document).(steps := document.steps)
      ensures OthersSame(old(document.steps), document.steps, n) && Listed(document.steps, n) && !StepDone(document, n)
      ensures old(history) <= history
      ensures faults >= old(faults) && (s != Fine ==> faults > old(faults))
    {
      hide HistoryOk, LogOk, ScopeOk, Sound, DiskKeeps, InScope, StepDone, Listed;
      s := AtomicWrite();
      if s != Fine { return; }
      s := Attempt();
      if s != Fine { return; }
      Fill(n, Pieces(attempt, true, false, false));
      s := AtomicWrite();
      if s != Fine { return; }
      s := Attempt();
      if s != Fine { return; }
      Fill(n, Pieces(attempt, true, true, false));
      s := Attempt();
    }

    /** One checkpoint: restart from base, then teacher and student phases, all of one attempt. */
    method RunStep(n: int) returns (s: Signal)
      requires Holding() && document.status == Running && !StepDone(document, n) && (scope.Some? ==> n in scope.value)
      modifies this`disk, this`document, this`attempts, this`history, this`log, this`faults
      ensures Holding() && document == old(document).(steps := document.steps)
      ensures OthersSame(old(document.steps), document.steps, n)
      ensures old(history) <= history
      ensures s == Fine ==>
        var part := if cfg.ersr then Some(attempts) else None;
        attempts == old(attempts) + 1 && Row(n, Evaluation(attempts, part, part, true)) in document.steps
      ensures s == Fine ==> StepDone(document, n) && |log| == |old(log)| + 1 && log[|old(log)|].target == Step(n)
      ensures faults >= old(faults) && (s != Fine ==> faults > old(faults))
    {
      hide HistoryOk, LogOk, ScopeOk, Sound, DiskKeeps, InScope, StepDone, Listed;
      DropStale(n);
      NotListedNotDone(document, n);
      s := AtomicWrite();
      if s != Fine { return; }
      var attempt;
      s, attempt := EvaluateBase(Step(n));
      if s != Fine { return; }
      AddRow(n, attempt);
      s := AtomicWrite();
      if s != Fine { return; }
      if cfg.ersr {
        s := RunErsr(n, attempt);
        if s != Fine { return; }
      }
      Fill(n, Pieces(attempt, cfg.ersr, cfg.ersr, true));
      s := AtomicWrite();
    }

    /** Change the initial-base result while it is incomplete. */
    method EditBase(e: Option<Evaluation>)
      requires Holding() && document.status == Running && !Done(document, Base)
      requires cfg.initialBase && (e.Some? ==> OneAttempt(cfg, e.value))
      modifies this`document
      ensures Holding() && document == old(document).(initialBase := e)
    {
      hide HistoryOk, LogOk, ScopeOk;
      KeepsTransitive(disk, Some(document), Some(document.(initialBase := e)));
      document := document.(initialBase := e);
    }

    method RunBaseErsr(attempt: nat) returns (s: Signal)
      requires Holding() && document.status == Running && cfg.initialBase && !Done(document, Base)
      modifies this`disk, this`document, this`history, this`faults
      ensures Holding() && document == old(document).(initialBase := document.initialBase) && !Done(document, Base)
      ensures old(history) <= history
      ensures faults >= old(faults) && (s != Fine ==> faults > old(faults))
    {
      hide HistoryOk, LogOk, ScopeOk, Sound, DiskKeeps, InScope;
      s := AtomicWrite();
      if s != Fine { return; }
      s := Attempt();
      if s != Fine { return; }
      EditBase(Some(Pieces(attempt, true, false, false)));
      s := AtomicWrite();
      if s != Fine { return; }
      s := Attempt();
      if s != Fine { return; }
      EditBase(Some(Pieces(attempt, true, true, false)));
      s := Attempt();
    }

    /** `_run_initial_base_evaluation` */
    method RunInitialBase() returns (s: Signal)
      requires Holding() && document.status == Running
      modifies this`disk, this`document, this`attempts, this`history, this`log, this`faults
      ensures Holding() && document == old(document).(initialBase := document.initialBase)
      ensures old(history) <= history
      ensures s == Fine ==> (cfg.initialBase ==> Done(document, Base))
      ensures s == Fine && cfg.initialBase && !Done(old(document), Base) ==>
        var part := if cfg.ersr then Some(attempts) else None;
        attempts == old(attempts) + 1 && document.initialBase == Some(Evaluation(attempts, part, part, true))
      ensures !cfg.initialBase || Done(old(document), Base) ==>
        s == Fine && document == old(document) && attempts == old(attempts)
      ensures faults >= old(faults) && (s != Fine ==> faults > old(faults))
    {
      hide HistoryOk, LogOk, ScopeOk, Sound, DiskKeeps, InScope;
      if !cfg.initialBase || Done(document, Base) {
        return Fine;
      }
      EditBase(None);
      s := AtomicWrite();
      if s != Fine { return; }
      var attempt;
      s, attempt := EvaluateBase(Base);
      if s != Fine { return; }
      EditBase(Some(Pieces(attempt, false, false, false)));
      s := AtomicWrite();
      if s != Fine { return; }
      if cfg.ersr {
        s := RunBaseErsr(attempt);
        if s != Fine { return; }
      }
      EditBase(Some(Pieces(attempt, cfg.ersr, cfg.ersr, true)));
      s := AtomicWrite();
    }

    /** `_run_checkpoint_per_checkpoint`: skip what is completed, run the rest in order. */
    method RunAll(checkpoints: seq<int>) returns (s: Signal)
      requires Holding() && document.status == Running && Upwards(checkpoints)
      requires scope.Some? ==> scope.value == checkpoints
      modifies this`disk, this`document, this`attempts, this`history, this`log, this`faults
      ensures Holding() && document.status == Running
      ensures OutsideSame(old(document.steps), document.steps, checkpoints)
      ensures old(history) <= history
      ensures s == Fine ==> AllDone(cfg, document, checkpoints)
      ensures faults >= old(faults) && (s != Fine ==> faults > old(faults))
    {
      hide HistoryOk, LogOk, ScopeOk, Sound, DiskKeeps, InScope, StepDone, OutsideSame, OthersSame;
      ghost var start := document.steps;
      s := RunInitialBase();
      OutsideReflexive(start, checkpoints);
      if s != Fine { return; }
      var completed := CompletedSteps(document);
      CompletedAreDone(document);
      for k := 0 to |checkpoints|
        invariant Holding() && document.status == Running
        invariant OutsideSame(start, document.steps, checkpoints)
        invariant cfg.initialBase ==> Done(document, Base)
        invariant forall n :: StepDone(document, n) <==> n in completed || n in checkpoints[..k]
        invariant old(history) <= history && faults >= old(faults)
      {
        var n := checkpoints[k];
        NextIsNew(checkpoints, k);
        if n in completed {
          continue;
        }
        ghost var before := document;
        s := RunStep(n);
        OutsideGrows(start, before.steps, document.steps, checkpoints, n);
        if s != Fine { return; }
        OnlyStepChanged(before, document, n);
      }
      assert checkpoints[..|checkpoints|] == checkpoints;
      s := Fine;
    }

    // ----- the shared-teacher schedule -----

    /** Base results of all checkpoints, kept for one teacher pass. */
    method SharedBase(checkpoints: seq<int>) returns (s: Signal, started: seq<nat>)
      requires Holding() && document.status == Running && document.steps == [] && Upwards(checkpoints)
      requires scope.Some? ==> scope.value == checkpoints
      modifies this`disk, this`document, this`attempts, this`history, this`log, this`faults
      ensures Holding() && document == old(document).(steps := document.steps)
      ensures OutsideSame([], document.steps, checkpoints) && old(history) <= history
      ensures s == Fine ==> |started| == |checkpoints| && AllOpen(document, checkpoints)
      ensures attempts >= old(attempts) && forall k :: 0 <= k < |started| ==> old(attempts) < started[k] <= attempts
      ensures faults >= old(faults) && (s != Fine ==> faults > old(faults))
    {
      hide HistoryOk, LogOk, ScopeOk, Sound, DiskKeeps, InScope, StepDone, Listed, OutsideSame, OthersSame;
      started, s := [], Fine;
      NothingListed(document);
      OutsideReflexive([], checkpoints);
      for k := 0 to |checkpoints|
        invariant Holding() && document == old(document).(steps := document.steps)
        invariant OutsideSame([], document.steps, checkpoints) && |started| == k && s == Fine
        invariant forall n :: Listed(document.steps, n) <==> n in checkpoints[..k]
        invariant forall n :: !StepDone(document, n)
        invariant attempts >= old(attempts) && forall j :: 0 <= j < k ==> old(attempts) < started[j] <= attempts
        invariant old(history) <= history && faults >= old(faults)
      {
        var n := checkpoints[k];
        NextIsNew(checkpoints, k);
        NotListedNotDone(document, n);
        var attempt;
        s, attempt := EvaluateBase(Step(n));
        if s != Fine { return; }
        ghost var before := document;
        AddRow(n, attempt);
        OutsideGrows([], before.steps, document.steps, checkpoints, n);
        OnlyStepChanged(before, document, n);
        s := AtomicWrite();
        if s != Fine { return; }
        s := Attempt();
        if s != Fine { return; }
        started := started + [attempt];
      }
      assert checkpoints[..|checkpoints|] == checkpoints;
    }

    /** One teacher pass, then every row is given its proposals. */
    method SharedTeacher(checkpoints: seq<int>, started: seq<nat>) returns (s: Signal)
      requires Holding() && document.status == Running && Upwards(checkpoints) && |started| == |checkpoints|
      requires AllOpen(document, checkpoints) && (scope.Some? ==> scope.value == checkpoints)
      modifies this`disk, this`document, this`history, this`faults
      ensures Holding() && document == old(document).(steps := document.steps)
      ensures OutsideSame(old(document.steps), document.steps, checkpoints) && old(history) <= history
      ensures AllOpen(document, checkpoints)
      ensures faults >= old(faults) && (s != Fine ==> faults > old(faults))
    {
      hide HistoryOk, LogOk, ScopeOk, Sound, DiskKeeps, InScope, StepDone, Listed, OutsideSame, OthersSame;
      ghost var start := document.steps;
      OutsideReflexive(start, checkpoints);
      s := AtomicWrite();
      if s != Fine { return; }
      s := Attempt();
      if s != Fine { return; }
      for k := 0 to |checkpoints|
        invariant Holding() && document == old(document).(steps := document.steps)
        invariant OutsideSame(start, document.steps, checkpoints) && AllOpen(document, checkpoints)
        invariant old(history) <= history && faults >= old(faults)
      {
        var n := checkpoints[k];
        ghost var before := document;
        Fill(n, Pieces(started[k], true, false, false));
        OutsideGrows(start, before.steps, document.steps, checkpoints, n);
        OnlyStepChanged(before, document, n);
      }
      s := AtomicWrite();
    }

    /** Student continuations, checkpoint by checkpoint, each completed when it is done. */
    method SharedStudent(checkpoints: seq<int>, started: seq<nat>) returns (s: Signal)
      requires Holding() && document.status == Running && Upwards(checkpoints) && |started| == |checkpoints|
      requires AllOpen(document, checkpoints) && (scope.Some? ==> scope.value == checkpoints)
      modifies this`disk, this`document, this`history, this`faults
      ensures Holding() && document == old(document).(steps := document.steps)
      ensures OutsideSame(old(document.steps), document.steps, checkpoints) && old(history) <= history
      ensures s == Fine ==> forall n :: n in checkpoints ==> StepDone(document, n)
      ensures s == Fine ==>
        forall k :: 0 <= k < |checkpoints| ==> WholeRow(checkpoints[k], started[k]) in document.steps
      ensures faults >= old(faults) && (s != Fine ==> faults > old(faults))
    {
      hide HistoryOk, LogOk, ScopeOk, Sound, DiskKeeps, InScope, StepDone, Listed, OutsideSame, OthersSame;
      ghost var start := document.steps;
      OutsideReflexive(start, checkpoints);
      s := Fine;
      for k := 0 to |checkpoints|
        invariant Holding() && document == old(document).(steps := document.steps)
        invariant OutsideSame(start, document.steps, checkpoints) && s == Fine
        invariant forall n :: n in checkpoints ==> Listed(document.steps, n)
        invariant forall n :: n in checkpoints ==> (StepDone(document, n) <==> n in checkpoints[..k])
        invariant forall j :: 0 <= j < k ==> WholeRow(checkpoints[j], started[j]) in document.steps
        invariant old(history) <= history && faults >= old(faults)
      {
        var n := checkpoints[k];
        NextIsNew(checkpoints, k);
        s := Attempt();
        if s != Fine { return; }
        ghost var before := document;
        Fill(n, Pieces(started[k], true, true, true));
        RowsStay(before.steps, document.steps, n);
        OutsideGrows(start, before.steps, document.steps, checkpoints, n);
        OnlyStepChanged(before, document, n);
        s := AtomicWrite();
        if s != Fine { return; }
      }
      assert checkpoints[..|checkpoints|] == checkpoints;
    }

    /** `_run_checkpoint_shared_teacher`: the initial base, then every phase over all checkpoints. */
    method RunShared(checkpoints: seq<int>) returns (s: Signal)
      requires Holding() && document.status == Running && document.steps == [] && Upwards(checkpoints)
      requires scope.Some? ==> scope.value == checkpoints
      modifies this`disk, this`document, this`attempts, this`history, this`log, this`faults
      ensures Holding() && document.status == Running
      ensures OutsideSame(old(document.steps), document.steps, checkpoints) && old(history) <= history
      ensures s == Fine ==> AllDone(cfg, document, checkpoints)
      ensures s == Fine ==> forall n :: n in checkpoints ==>
        exists a :: old(attempts) < a <= attempts && WholeRow(n, a) in document.steps
      ensures faults >= old(faults) && (s != Fine ==> faults > old(faults))
    {
      hide HistoryOk, LogOk, ScopeOk, Sound, DiskKeeps, InScope, StepDone, OutsideSame, OthersSame, AllOpen;
      OutsideReflexive([], checkpoints);
      s := RunInitialBase();
      if s != Fine { return; }
      var started;
      s, started := SharedBase(checkpoints);
      if s != Fine { return; }
      ghost var based := document.steps;
      s := SharedTeacher(checkpoints, started);
      OutsideTransitive([], based, document.steps, checkpoints);
      if s != Fine { return; }
      ghost var proposed := document.steps;
      s := SharedStudent(checkpoints, started);
      OutsideTransitive([], proposed, document.steps, checkpoints);
      forall n | s == Fine && n in checkpoints
        ensures exists a :: old(attempts) < a <= attempts && WholeRow(n, a) in document.steps
      {
        var k :| 0 <= k < |checkpoints| && checkpoints[k] == n;
        assert old(attempts) < started[k] <= attempts && WholeRow(n, started[k]) in document.steps;
      }
    }

    /** The last write of a process that did not die: the document with its final status. */
    method Close(status: Status) returns (s: Signal)
      requires Holding() && (status == Completed && scope.Some? ==> Exact(cfg, document, scope.value))
      modifies this`disk, this`document, this`history, this`faults
      ensures Holding() && document == old(document).(status := status) && old(history) <= history
      ensures s == Fine ==> disk == Some(document)
      ensures faults >= old(faults) && (s != Fine ==> faults > old(faults))
    {
      hide HistoryOk, LogOk, ScopeOk, Sound, DiskKeeps, InScope, Exact;
      Restate(cfg, disk, document, scope, status);
      document := document.(status := status);
      s := AtomicWrite();
    }

    /** Everything behind loading: write the document, run, and close it as failed or completed. */
    method Execute(checkpoints: seq<int>) returns (r: Outcome)
      requires Holding() && document.status == Running && Upwards(checkpoints)
      requires (scope.Some? ==> scope.value == checkpoints) && (cfg.Shared() ==> document.steps == [])
      modifies this`disk, this`document, this`attempts, this`history, this`log, this`faults
      ensures Holding() && old(history) <= history
      ensures r == Finished || (r == Interrupted && faults > old(faults))
      ensures r == Finished ==> disk.Some? && disk.value.status == Completed && AllDone(cfg, disk.value, checkpoints)
      ensures r == Finished ==> OutsideSame(old(document.steps), disk.value.steps, checkpoints)
      ensures r == Finished ==> (Exact(cfg, disk.value, checkpoints) <==> Within(old(document), checkpoints))
    {
      hide HistoryOk, LogOk, ScopeOk, Sound, DiskKeeps, InScope, AllDone, Exact, Within, OutsideSame;
      ghost var begun := document;
      var s := AtomicWrite();
      if s != Fine {
        return Interrupted;
      }
      if cfg.Shared() {
        s := RunShared(checkpoints);
      } else {
        s := RunAll(checkpoints);
      }
      if s == Killed {
        return Interrupted;
      }
      if s == Raised {
        s := Close(Failed);
        return Interrupted;
      }
      FinishExact(cfg, begun, document, checkpoints, scope);
      StatusAside(cfg, document, checkpoints, Completed);
      s := Close(Completed);
      return if s == Fine then Finished else Interrupted;
    }

    /** `evaluate_checkpoints` with either schedule: one process, started on whatever the file
        holds. */
    method EvaluateCheckpoints(config: Config, checkpoints: seq<int>, resume: bool) returns (r: Outcome)
      requires Consistent() && Upwards(checkpoints) && (scope.Some? ==> scope.value == checkpoints)
      modifies this
      ensures Consistent() && old(history) <= history
      ensures cfg == if old(disk).None? && r != Refused then config else old(cfg)
      ensures r == Refused <==> Rejects(config, old(disk), checkpoints, resume)
      ensures r != Refused ==> (resume <==> old(disk).Some?)
      ensures r == Refused <==>
        || resume != old(disk).Some?
        || (old(disk).Some? && (
          || (config.ersr && config.sharedTeacher)
          || old(disk).value.signature != config
          || (old(disk).value.status == Completed
              && !CompletedAre(old(disk).value, checkpoints, config.initialBase))))
      ensures r == Refused || r == AlreadyCompleted ==> disk == old(disk) && history == old(history) && log == old(log)
      ensures r == AlreadyCompleted <==>
        !Rejects(config, old(disk), checkpoints, resume) && old(disk).Some? && old(disk).value.status == Completed
      ensures r == Interrupted ==> faults > old(faults)
      ensures r == Finished ==> disk.Some? && disk.value.status == Completed && AllDone(cfg, disk.value, checkpoints)
      ensures r == Finished ==> OutsideSame(StepsOf(old(disk)), disk.value.steps, checkpoints)
      ensures r == Finished ==>
        (Exact(cfg, disk.value, checkpoints) <==> old(disk).None? || Within(old(disk).value, checkpoints))
    {
      hide HistoryOk, LogOk, ScopeOk, Sound, DiskKeeps, InScope, AllDone, Exact, Within, OutsideSame, Rejects;
      hide CompletedAre;
      RejectsMeans(cfg, history, config, checkpoints, resume);
      if Rejects(config, disk, checkpoints, resume) {
        return Refused;
      }
      if disk.Some? && disk.value.status == Completed {
        return AlreadyCompleted;
      }
      if disk.None? {
        FreshFile(cfg, config, history, scope);
        cfg := config;
      } else {
        ResumedConfig(cfg, history, config, checkpoints, resume);
      }
      document := if disk.Some? then disk.value.(status := Running) else Document(config, Running, [], None);
      Begin(cfg, history, scope, document, checkpoints);
      r := Execute(checkpoints);
    }
  }

  /** When an invocation is turned away before it touches the file. */
  predicate Rejects(config: Config, file: Option<Document>, checkpoints: seq<int>, resume: bool) {
    match file
    case None => resume
    case Some(d) =>
      || !resume
      || config.Shared()
      || d.signature != config
      || Duplicates(d.steps)
      || (d.status == Completed &&
          !(CompletedSteps(d) == (set n | n in checkpoints) && (config.initialBase ==> Done(d, Base))))
  }

  /** The completed steps of a document are exactly the given ones, and so is its initial base where
      one is wanted. */
  ghost predicate CompletedAre(d: Document, checkpoints: seq<int>, initialBase: bool) {
    && (forall n :: n in checkpoints <==> exists r :: r in d.steps && r.stepNum == n && r.eval.completed)
    && (initialBase ==> d.initialBase.Some? && d.initialBase.value.completed)
  }

  /** When a sound file is refused, cause by cause: resumption and the file do not go together, the
      schedule shares the teacher, the configuration is another one, or the document is completed
      over other steps. */
  lemma RejectsMeans(cfg: Config, h: seq<Option<Document>>, config: Config, checkpoints: seq<int>, resume: bool)
    requires HistoryOk(cfg, h) && h != []
    ensures var file := h[|h| - 1];
      Rejects(config, file, checkpoints, resume) <==>
        || resume != file.Some?
        || (file.Some? && (
          || (config.ersr && config.sharedTeacher)
          || file.value.signature != config
          || (file.value.status == Completed && !CompletedAre(file.value, checkpoints, config.initialBase))))
  {
    if file: Document :| h[|h| - 1] == Some(file) {
      assert !Duplicates(file.steps);
      CompletedSetIs(file, checkpoints);
    }
  }

  lemma CompletedSetIs(d: Document, checkpoints: seq<int>)
    ensures CompletedSteps(d) == (set n | n in checkpoints)
       <==> forall n :: n in checkpoints <==> exists r :: r in d.steps && r.stepNum == n && r.eval.completed
  {
    var done, wanted := CompletedSteps(d), set n | n in checkpoints;
    assert forall n :: n in done <==> exists r :: r in d.steps && r.stepNum == n && r.eval.completed;
    if forall n :: n in checkpoints <==> n in done {
      assert done == wanted;
    }
    if done == wanted {
      forall n ensures n in checkpoints <==> n in done {
        assert n in wanted <==> n in checkpoints;
      }
    }
  }

  predicate Duplicates(steps: seq<Row>) { exists i, j :: 0 <= i < j < |steps| && steps[i].stepNum == steps[j].stepNum }

  function CompletedSteps(d: Document): set<int> { set r | r in d.steps && r.eval.completed :: r.stepNum }

  function StepsOf(file: Option<Document>): seq<Row> { if file.Some? then file.value.steps else [] }

  /** A file that does not exist has never existed and fits every configuration. */
  lemma FreshFile(was: Config, cfg: Config, h: seq<Option<Document>>, scope: Option<seq<int>>)
    requires HistoryOk(was, h) && h != [] && h[|h| - 1].None?
    ensures HistoryOk(cfg, h) && ScopeOk(cfg, h, scope)
  {
    forall i | 0 <= i < |h| ensures h[i].None? {
      assert DiskKeeps(h[i], h[|h| - 1]);
    }
  }

  lemma CompletedAreDone(d: Document)
    ensures forall n :: StepDone(d, n) <==> n in CompletedSteps(d)
  {}

  /** Every checkpoint has a row, none is completed. */
  ghost predicate AllOpen(d: Document, checkpoints: seq<int>) {
    forall n :: n in checkpoints ==> Listed(d.steps, n) && !StepDone(d, n)
  }

  lemma NothingListed(d: Document)
    requires d.steps == []
    ensures forall n :: !Listed(d.steps, n) && !StepDone(d, n)
  {}

  /** A file that is resumed was written under the same configuration, and not a shared one. */
  lemma ResumedConfig(cfg: Config, h: seq<Option<Document>>, config: Config, checkpoints: seq<int>, resume: bool)
    requires HistoryOk(cfg, h) && h != [] && h[|h| - 1].Some? && !Rejects(config, h[|h| - 1], checkpoints, resume)
    ensures cfg == config && !cfg.Shared()
  {}

  lemma OutsideTransitive(a: seq<Row>, b: seq<Row>, c: seq<Row>, checkpoints: seq<int>)
    requires OutsideSame(a, b, checkpoints) && OutsideSame(b, c, checkpoints)
    ensures OutsideSame(a, c, checkpoints)
  {}

  lemma OutsideReflexive(steps: seq<Row>, checkpoints: seq<int>)
    ensures OutsideSame(steps, steps, checkpoints)
  {}

  lemma NextIsNew(checkpoints: seq<int>, k: nat)
    requires Upwards(checkpoints) && k < |checkpoints|
    ensures checkpoints[k] in checkpoints && checkpoints[k] !in checkpoints[..k]
    ensures forall n :: n in checkpoints[..k + 1] <==> n in checkpoints[..k] || n == checkpoints[k]
  {
    assert checkpoints[..k + 1] == checkpoints[..k] + [checkpoints[k]];
  }

  lemma OnlyStepChanged(a: Document, b: Document, n: int)
    requires OthersSame(a.steps, b.steps, n)
    ensures forall m :: m != n ==> (StepDone(a, m) <==> StepDone(b, m))
    ensures forall m :: m != n ==> (Listed(a.steps, m) <==> Listed(b.steps, m))
  {}

  /** A fresh or resumed document may be written over what the file holds. */
  lemma Begin(cfg: Config, h: seq<Option<Document>>, scope: Option<seq<int>>, begun: Document, checkpoints: seq<int>)
    requires HistoryOk(cfg, h) && ScopeOk(cfg, h, scope) && h != []
    requires begun ==
      if h[|h| - 1].Some? then h[|h| - 1].value.(status := Running) else Document(cfg, Running, [], None)
    ensures Sound(cfg, begun) && DiskKeeps(h[|h| - 1], Some(begun)) && InScope(cfg, begun, scope)
    ensures Within(begun, checkpoints) <==> h[|h| - 1].None? || Within(h[|h| - 1].value, checkpoints)
  {}

  lemma Restate(cfg: Config, disk: Option<Document>, d: Document, scope: Option<seq<int>>, status: Status)
    requires Sound(cfg, d) && DiskKeeps(disk, Some(d)) && InScope(cfg, d, scope)
    requires status == Completed && scope.Some? ==> Exact(cfg, d, scope.value)
    ensures var e := d.(status := status); Sound(cfg, e) && DiskKeeps(disk, Some(e)) && InScope(cfg, e, scope)
  {}

  lemma StatusAside(cfg: Config, d: Document, checkpoints: seq<int>, status: Status)
    ensures AllDone(cfg, d.(status := status), checkpoints) <==> AllDone(cfg, d, checkpoints)
    ensures Exact(cfg, d.(status := status), checkpoints) <==> Exact(cfg, d, checkpoints)
  {}

  lemma FinishExact(cfg: Config, begun: Document, d: Document, checkpoints: seq<int>, scope: Option<seq<int>>)
    requires Sound(cfg, d) && Upwards(checkpoints) && AllDone(cfg, d, checkpoints)
    requires OutsideSame(begun.steps, d.steps, checkpoints)
    requires InScope(cfg, d, scope) && (scope.Some? ==> scope.value == checkpoints)
    ensures Exact(cfg, d, checkpoints) <==> Within(begun, checkpoints)
    ensures scope.Some? ==> Exact(cfg, d, checkpoints)
  {
    WithinStays(begun, d, checkpoints);
    ExactIffWithin(cfg, d, checkpoints);
  }

  lemma NotListedNotDone(d: Document, n: int)
    ensures !Listed(d.steps, n) ==> !StepDone(d, n)
    ensures !StepDone(d, n) <==> !Done(d, Step(n))
  {}

  lemma StillToDo(disk: Option<Document>, d: Document, t: Target)
    requires DiskKeeps(disk, Some(d)) && !Done(d, t)
    ensures disk.Some? ==> !Done(disk.value, t)
  {
    if disk.Some? && Done(disk.value, t) {
      KeepsDone(disk.value, d, t);
    }
  }

  /** With unchanged checkpoints, whatever an interrupted or finished run left can be resumed, unless
      one teacher pass is shared. */
  lemma ResumeIsAccepted(cfg: Config, d: Document, checkpoints: seq<int>)
    requires Sound(cfg, d) && InScope(cfg, d, Some(checkpoints))
    ensures Rejects(cfg, Some(d), checkpoints, true) <==> cfg.Shared()
  {
    CompletedAreDone(d);
    if d.status == Completed {
      NumsAre(d.steps);
      forall n ensures n in CompletedSteps(d) <==> n in checkpoints {
        if n in CompletedSteps(d) {
          assert Listed(d.steps, n);
        }
      }
      assert CompletedSteps(d) == set n | n in checkpoints;
    }
  }

  /** Once a run has finished on top of `before`, the next invocation is refused exactly when one
      teacher pass is shared or `before` had a completed row for something that is no checkpoint any
      more. */
  lemma NextIsRefusedIff(cfg: Config, before: seq<Row>, d: Document, checkpoints: seq<int>)
    requires Sound(cfg, d) && d.status == Completed && AllDone(cfg, d, checkpoints)
    requires OutsideSame(before, d.steps, checkpoints)
    ensures Rejects(cfg, Some(d), checkpoints, true)
       <==> cfg.Shared() || exists r :: r in before && r.eval.completed && r.stepNum !in checkpoints
  {
    CompletedAreDone(d);
    var wanted := set n | n in checkpoints;
    if r :| r in before && r.eval.completed && r.stepNum !in checkpoints {
      assert r in d.steps && r.stepNum in CompletedSteps(d) && r.stepNum !in wanted;
    }
    var done := CompletedSteps(d);
    forall n | n in wanted ensures n in done {
      assert StepDone(d, n);
    }
    if done != wanted {
      assert exists n :: n in done && n !in wanted;
      var n :| n in done && n !in wanted;
      var r :| r in d.steps && r.stepNum == n && r.eval.completed;
      assert r in before;
    }
  }

  /** An interrupted evaluation with step 1 completed, resumed with only step 2 discovered: it is
      accepted and may finish, but what it leaves is not exact and is refused from then on. */
  lemma LeftoverStep(cfg: Config, row: Row, added: Row)
    requires row == Row(1, Evaluation(1, None, None, true)) && added == Row(2, Evaluation(2, None, None, true))
    requires cfg == Config("", false, false, false)
    ensures var before := Document(cfg, Failed, [row], None);
            var after := Document(cfg, Completed, [row, added], None);
            && Sound(cfg, before) && !Rejects(cfg, Some(before), [2], true) && !Within(before, [2])
            && Sound(cfg, after) && AllDone(cfg, after, [2]) && OutsideSame(before.steps, after.steps, [2])
            && !Exact(cfg, after, [2]) && Rejects(cfg, Some(after), [2], true)
  {
    var after := Document(cfg, Completed, [row, added], None);
    assert row in [row] && row in after.steps && added in after.steps;
    assert row.stepNum !in [2];
    NextIsRefusedIff(cfg, [row], after, [2]);
  }

  // ----- the life of a result file -----

  datatype Invocation = Invocation(config: Config, checkpoints: seq<int>, resume: bool)

  /** Any number of processes, one after another, each with any configuration and interrupted
      anywhere or not: the persisted steps stay unique and sorted, a completed step is never
      dropped, changed or evaluated again, and no evaluation mixes attempts. When all of them
      discover the same checkpoints, a document marked completed holds exactly these, all
      completed, and once finished it stays so. */
  method Life(invocations: seq<Invocation>, ghost scope: Option<seq<int>>)
    returns (e: Evaluator, outcomes: seq<Outcome>)
    requires forall i :: 0 <= i < |invocations| ==> Upwards(invocations[i].checkpoints)
    requires scope.Some? ==> forall i :: 0 <= i < |invocations| ==> invocations[i].checkpoints == scope.value
    ensures fresh(e) && |outcomes| == |invocations|
    ensures HistoryOk(e.cfg, e.history) && LogOk(e.history, e.log) && ScopeOk(e.cfg, e.history, scope)
    ensures e.history != [] && e.disk == e.history[|e.history| - 1]
    ensures Finished in outcomes ==> e.disk.Some? && e.disk.value.status == Completed
    ensures Finished in outcomes && scope.Some? ==> Exact(e.cfg, e.disk.value, scope.value)
  {
    e := new Evaluator(scope);
    outcomes := [];
    for i := 0 to |invocations|
      invariant fresh(e) && e.scope == scope && e.Consistent() && |outcomes| == i
      invariant Finished in outcomes ==> e.disk.Some? && e.disk.value.status == Completed
    {
      var next := invocations[i];
      var outcome := e.EvaluateCheckpoints(next.config, next.checkpoints, next.resume);
      outcomes := outcomes + [outcome];
    }
    assert e.disk.Some? ==> InScope(e.cfg, e.disk.value, scope);
  }
}
