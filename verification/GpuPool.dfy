/** The work-stealing GPU pool as a protocol of steps: a shared job queue, workers that take jobs
    and answer or die, a result queue, and a coordinator that collects.
    Models utils/ersr_evaluation.py. */
module GpuPool {
  import opened Basics
  import opened Sorting

  /** A job is a batch of requests; `generate` is the engine, deterministic per request. */
  datatype Job<Q> = Job(batchId: int, requests: seq<Q>)

  datatype Message = Message(batchId: int, ok: bool, outputs: seq<seq<int>>)

  /** A worker that dies holding a job takes it along. */
  datatype Worker<Q> = Idle | Busy(job: Job<Q>) | Dead(lost: Option<Job<Q>>)

  datatype Outcome = Waiting | Returned(messages: seq<Message>) | Raised(fatal: Option<Message>)

  datatype State<Q> = State(
    jobQueue: seq<Job<Q>>,
    workers: seq<Worker<Q>>,
    results: seq<Message>,
    received: seq<Message>,
    outcome: Outcome)

  datatype Action = Take(w: nat) | Finish(w: nat) | Fail(w: nat) | Die(w: nat) | Receive | GiveUp

  /** The jobs of one run and the engine that serves them. */
  datatype Workload<!Q> = Workload(jobs: seq<seq<Q>>, generate: Q -> seq<int>) {
    /** What a sequential map over the jobs would answer for batch i. */
    function Answer(i: nat): Message
      requires i < |jobs|
    {
      Message(i, true, Map(generate, jobs[i]))
    }

    function Sequential(): (r: seq<Message>)
      ensures |r| == |jobs|
    {
      seq(|jobs|, i requires 0 <= i < |jobs| => Answer(i))
    }

    function Enqueued(): (r: seq<Job<Q>>)
      ensures |r| == |jobs|
    {
      seq(|jobs|, i requires 0 <= i < |jobs| => Job(i, jobs[i]))
    }
  }

  // ----- the steps -----

  predicate Enabled<Q>(s: State<Q>, a: Action) {
    match a
    case Take(w) => w < |s.workers| && s.workers[w].Idle? && s.jobQueue != []
    case Finish(w) => w < |s.workers| && s.workers[w].Busy?
    case Fail(w) => w < |s.workers| && s.workers[w].Busy?
    case Die(w) => w < |s.workers| && !s.workers[w].Dead?
    case Receive => s.outcome.Waiting? && s.results != []
    case GiveUp => s.outcome.Waiting? && exists w :: 0 <= w < |s.workers| && s.workers[w].Dead?
  }

  function Held<Q>(w: Worker<Q>): Option<Job<Q>> {
    match w
    case Idle => None
    case Busy(job) => Some(job)
    case Dead(lost) => lost
  }

  function Apply<Q>(r: Workload<Q>, s: State<Q>, a: Action): State<Q>
    requires Enabled(s, a)
  {
    match a
    case Take(w) => s.(workers := s.workers[w := Busy(s.jobQueue[0])], jobQueue := s.jobQueue[1..])
    case Finish(w) =>
      var job := s.workers[w].job;
      s.(workers := s.workers[w := Idle],
         results := s.results + [Message(job.batchId, true, Map(r.generate, job.requests))])
    case Fail(w) =>
      s.(workers := s.workers[w := Dead(None)],
         results := s.results + [Message(s.workers[w].job.batchId, false, [])])
    case Die(w) => s.(workers := s.workers[w := Dead(Held(s.workers[w]))])
    case Receive =>
      var m := s.results[0];
      if !m.ok then s.(results := s.results[1..], outcome := Raised(Some(m)))
      else
        var received := s.received + [m];
        s.(results := s.results[1..], received := received,
           outcome := if |received| == |r.jobs| then Returned(Sort(received, (k: Message) => k.batchId)) else Waiting)
    case GiveUp => s.(outcome := Raised(None))
  }

  /** What `run` returns of the messages it collected. */
  function Collected(messages: seq<Message>): Outcome { Returned(Sort(messages, (k: Message) => k.batchId)) }

  ghost predicate Init<Q>(r: Workload<Q>, s: State<Q>) {
    && r.jobs != []
    && s.jobQueue == r.Enqueued()
    && s.results == [] && s.received == [] && s.outcome == Waiting
    && forall w :: 0 <= w < |s.workers| ==> Held(s.workers[w]).None?
  }

  ghost predicate Execution<Q>(r: Workload<Q>, trace: seq<State<Q>>, actions: seq<Action>) {
    && |trace| == |actions| + 1
    && Init(r, trace[0])
    && forall i :: 0 <= i < |actions| ==>
      Enabled(trace[i], actions[i]) && trace[i + 1] == Apply(r, trace[i], actions[i])
  }

  // ----- counting places -----

  function JobAt<Q>(j: Job<Q>, id: int): nat { if j.batchId == id then 1 else 0 }
  function HeldAt<Q>(w: Worker<Q>, id: int): nat { if Held(w).Some? then JobAt(Held(w).value, id) else 0 }
  function MessageAt(m: Message, id: int): nat { if m.batchId == id then 1 else 0 }

  function InQueue<Q>(q: seq<Job<Q>>, id: int): nat {
    if q == [] then 0 else JobAt(q[0], id) + InQueue(q[1..], id)
  }

  function InWorkers<Q>(ws: seq<Worker<Q>>, id: int): nat {
    if ws == [] then 0 else HeldAt(ws[0], id) + InWorkers(ws[1..], id)
  }

  function InMessages(ms: seq<Message>, id: int): nat {
    if ms == [] then 0 else MessageAt(ms[0], id) + InMessages(ms[1..], id)
  }

  function InFatal(o: Outcome, id: int): nat {
    if o.Raised? && o.fatal.Some? then MessageAt(o.fatal.value, id) else 0
  }

  /** How many places hold batch `id`: the job queue, a worker, the result queue, the received
      list, or the message the coordinator raised on. */
  function Places<Q>(s: State<Q>, id: int): nat {
    InQueue(s.jobQueue, id) + InWorkers(s.workers, id) + InMessages(s.results, id)
    + InMessages(s.received, id) + InFatal(s.outcome, id)
  }

  lemma {:induction false} AppendMessage(ms: seq<Message>, m: Message, id: int)
    ensures InMessages(ms + [m], id) == InMessages(ms, id) + MessageAt(m, id)
  {
    if ms == [] {
      assert ms + [m] == [m];
      assert [m][1..] == [];
    } else {
      AppendMessage(ms[1..], m, id);
      assert (ms + [m])[1..] == ms[1..] + [m];
    }
  }

  lemma {:induction false} UpdateWorker<Q>(ws: seq<Worker<Q>>, i: nat, w: Worker<Q>, id: int)
    requires i < |ws|
    ensures InWorkers(ws[i := w], id) == InWorkers(ws, id) - HeldAt(ws[i], id) + HeldAt(w, id)
    ensures InWorkers(ws, id) >= HeldAt(ws[i], id)
  {
    if i == 0 {
      assert ws[i := w][1..] == ws[1..];
    } else {
      UpdateWorker(ws[1..], i - 1, w, id);
      assert ws[i := w][1..] == ws[1..][i - 1 := w];
    }
  }

  /** A step moves batches between places but never duplicates or loses one. */
  lemma PlacesPreserved<Q>(r: Workload<Q>, s: State<Q>, a: Action, id: int)
    requires Enabled(s, a)
    ensures Places(Apply(r, s, a), id) == Places(s, id)
  {
    match a
    case Take(w) => UpdateWorker(s.workers, w, Busy(s.jobQueue[0]), id);
    case Finish(w) =>
      UpdateWorker(s.workers, w, Idle, id);
      AppendMessage(s.results, Message(s.workers[w].job.batchId, true, Map(r.generate, s.workers[w].job.requests)), id);
    case Fail(w) =>
      UpdateWorker(s.workers, w, Dead(None), id);
      AppendMessage(s.results, Message(s.workers[w].job.batchId, false, []), id);
    case Die(w) => UpdateWorker(s.workers, w, Dead(Held(s.workers[w])), id);
    case Receive => AppendMessage(s.received, s.results[0], id);
    case GiveUp =>
  }

  // ----- the invariant -----

  /** Work carried by workers; a dead idle worker carries none. */
  function Carried<Q>(ws: seq<Worker<Q>>): nat {
    if ws == [] then 0 else (if Held(ws[0]).Some? then 1 else 0) + Carried(ws[1..])
  }

  lemma {:induction false} UpdateCarried<Q>(ws: seq<Worker<Q>>, i: nat, w: Worker<Q>)
    requires i < |ws|
    ensures Carried(ws[i := w]) == Carried(ws) - (if Held(ws[i]).Some? then 1 else 0) + (if Held(w).Some? then 1 else 0)
  {
    if i == 0 {
      assert ws[i := w][1..] == ws[1..];
    } else {
      UpdateCarried(ws[1..], i - 1, w);
      assert ws[i := w][1..] == ws[1..][i - 1 := w];
    }
  }

  ghost predicate OwnJob<Q>(r: Workload<Q>, j: Job<Q>) {
    0 <= j.batchId < |r.jobs| && j.requests == r.jobs[j.batchId]
  }

  /** A message about a batch of this run, carrying that batch's own answer when it is a success. */
  ghost predicate OwnMessage<Q>(r: Workload<Q>, m: Message) {
    0 <= m.batchId < |r.jobs| && (m.ok ==> m == r.Answer(m.batchId))
  }

  ghost predicate Inv<Q>(r: Workload<Q>, s: State<Q>) {
    && (forall id :: 0 <= id < |r.jobs| ==> Places(s, id) == 1)
    && Total(s) == |r.jobs|
    && (forall j :: j in s.jobQueue ==> OwnJob(r, j))
    && (forall w :: 0 <= w < |s.workers| && Held(s.workers[w]).Some? ==> OwnJob(r, Held(s.workers[w]).value))
    && (forall m :: m in s.results ==> OwnMessage(r, m))
    && (forall m :: m in s.received ==> OwnMessage(r, m) && m.ok)
    && OutcomeInv(r, s)
  }

  ghost predicate OutcomeInv<Q>(r: Workload<Q>, s: State<Q>) {
    match s.outcome
    case Waiting => |s.received| < |r.jobs|
    case Returned(messages) => |s.received| == |r.jobs| && messages == Sort(s.received, (k: Message) => k.batchId)
    case Raised(fatal) =>
      if fatal.Some? then !fatal.value.ok && OwnMessage(r, fatal.value)
      else exists w :: 0 <= w < |s.workers| && s.workers[w].Dead?
  }

  lemma {:induction false} EnqueuedOnce<Q>(q: seq<Job<Q>>, start: nat, id: int)
    requires forall i :: 0 <= i < |q| ==> q[i].batchId == start + i
    ensures InQueue(q, id) == if start <= id < start + |q| then 1 else 0
  {
    if q != [] {
      EnqueuedOnce(q[1..], start + 1, id);
    }
  }

  lemma {:induction false} NothingHeld<Q>(ws: seq<Worker<Q>>, id: int)
    requires forall w :: 0 <= w < |ws| ==> Held(ws[w]).None?
    ensures InWorkers(ws, id) == 0 && Carried(ws) == 0
  {
    if ws != [] {
      NothingHeld(ws[1..], id);
    }
  }

  lemma InitInv<Q>(r: Workload<Q>, s: State<Q>)
    requires Init(r, s)
    ensures Inv(r, s)
  {
    NothingHeld(s.workers, 0);
    forall id | 0 <= id < |r.jobs| ensures Places(s, id) == 1 {
      EnqueuedOnce(s.jobQueue, 0, id);
      NothingHeld(s.workers, id);
    }
    forall j | j in s.jobQueue ensures OwnJob(r, j) {
      var i :| 0 <= i < |s.jobQueue| && s.jobQueue[i] == j;
    }
  }

  lemma StepOwnership<Q>(r: Workload<Q>, s: State<Q>, a: Action)
    requires Inv(r, s) && Enabled(s, a)
    ensures var t := Apply(r, s, a);
      && (forall j :: j in t.jobQueue ==> OwnJob(r, j))
      && (forall w :: 0 <= w < |t.workers| && Held(t.workers[w]).Some? ==> OwnJob(r, Held(t.workers[w]).value))
      && (forall m :: m in t.results ==> OwnMessage(r, m))
      && (forall m :: m in t.received ==> OwnMessage(r, m) && m.ok)
  {
    match a
    case Take(w) =>
      assert s.jobQueue[0] in s.jobQueue;
    case Finish(w) =>
      assert OwnJob(r, Held(s.workers[w]).value);
    case Fail(w) =>
      assert OwnJob(r, Held(s.workers[w]).value);
    case Die(w) =>
    case Receive =>
      assert s.results[0] in s.results;
    case GiveUp =>
  }

  /** The number of batches in all places. */
  function Total<Q>(s: State<Q>): nat {
    |s.jobQueue| + Carried(s.workers) + |s.results| + |s.received|
    + if s.outcome.Raised? && s.outcome.fatal.Some? then 1 else 0
  }

  lemma StepTotals<Q>(r: Workload<Q>, s: State<Q>, a: Action)
    requires Enabled(s, a)
    ensures Total(Apply(r, s, a)) == Total(s)
  {
    match a
    case Take(w) => UpdateCarried(s.workers, w, Busy(s.jobQueue[0]));
    case Finish(w) => UpdateCarried(s.workers, w, Idle);
    case Fail(w) => UpdateCarried(s.workers, w, Dead(None));
    case Die(w) => UpdateCarried(s.workers, w, Dead(Held(s.workers[w])));
    case Receive =>
    case GiveUp =>
  }

  lemma StepOutcome<Q>(r: Workload<Q>, s: State<Q>, a: Action)
    requires Inv(r, s) && Enabled(s, a)
    ensures OutcomeInv(r, Apply(r, s, a))
  {
    hide Places, Total, OwnMessage;
    match a
    case Receive => assert s.results[0] in s.results;
    case GiveUp =>
    case _ => StillDead(s, Apply(r, s, a));
  }

  /** The dead stay dead. */
  lemma StillDead<Q>(s: State<Q>, t: State<Q>)
    requires |t.workers| == |s.workers|
    requires forall w :: 0 <= w < |s.workers| && s.workers[w].Dead? ==> t.workers[w].Dead?
    ensures (exists w :: 0 <= w < |s.workers| && s.workers[w].Dead?) ==>
            (exists w :: 0 <= w < |t.workers| && t.workers[w].Dead?)
  {}

  /** Every step keeps the invariant. */
  lemma StepInv<Q>(r: Workload<Q>, s: State<Q>, a: Action)
    requires Inv(r, s) && Enabled(s, a)
    ensures Inv(r, Apply(r, s, a))
  {
    forall id | 0 <= id < |r.jobs| ensures Places(Apply(r, s, a), id) == 1 {
      PlacesPreserved(r, s, a, id);
    }
    StepOwnership(r, s, a);
    StepTotals(r, s, a);
    StepOutcome(r, s, a);
  }

  /** In every reachable state of every interleaving, each batch is in exactly one place. */
  lemma {:induction false} InvAlways<Q>(r: Workload<Q>, trace: seq<State<Q>>, actions: seq<Action>, i: nat)
    requires Execution(r, trace, actions) && i < |trace|
    ensures Inv(r, trace[i])
  {
    if i == 0 {
      InitInv(r, trace[0]);
    } else {
      InvAlways(r, trace, actions, i - 1);
      StepInv(r, trace[i - 1], actions[i - 1]);
    }
  }

  // ----- what a run that returns has computed -----

  lemma {:induction false} InMessagesAtLeast(ms: seq<Message>, i: nat, id: int)
    requires i < |ms| && ms[i].batchId == id
    ensures InMessages(ms, id) >= 1
  {
    if i > 0 {
      InMessagesAtLeast(ms[1..], i - 1, id);
    }
  }

  lemma {:induction false} InMessagesTwice(ms: seq<Message>, i: nat, j: nat, id: int)
    requires i < j < |ms| && ms[i].batchId == ms[j].batchId == id
    ensures InMessages(ms, id) >= 2
  {
    if i == 0 {
      InMessagesAtLeast(ms[1..], j - 1, id);
    } else {
      InMessagesTwice(ms[1..], i - 1, j - 1, id);
    }
  }

  lemma ReceivedDistinct<Q>(r: Workload<Q>, s: State<Q>)
    requires Inv(r, s)
    ensures DistinctKeys(s.received, (k: Message) => k.batchId)
  {
    forall i, j | 0 <= i < j < |s.received|
      ensures s.received[i].batchId != s.received[j].batchId
    {
      assert s.received[i] in s.received;
      assert Places(s, s.received[i].batchId) == 1;
      if s.received[i].batchId == s.received[j].batchId {
        InMessagesTwice(s.received, i, j, s.received[i].batchId);
      }
    }
  }

  /** `run` returns only when every job succeeded, and then what it returns is the sequential map
      of the jobs in order; the queues are empty and no worker holds work, so the pool is ready
      for the next run. */
  lemma ReturnedIsSequential<Q>(r: Workload<Q>, s: State<Q>)
    requires Inv(r, s) && s.outcome.Returned?
    ensures s.outcome.messages == r.Sequential()
    ensures s.jobQueue == [] && s.results == [] && Carried(s.workers) == 0
  {
    var key := (k: Message) => k.batchId;
    var sorted := Sort(s.received, key);
    SortSorts(s.received, key);
    ReceivedDistinct(r, s);
    SortDistinct(s.received, key);
    var ids := seq(|sorted|, i requires 0 <= i < |sorted| => sorted[i].batchId);
    forall i | 0 <= i < |sorted| ensures OwnMessage(r, sorted[i]) && sorted[i].ok {
      assert sorted[i] in s.received;
    }
    forall i | 0 <= i < |sorted| ensures sorted[i] == r.Sequential()[i] {
      IdsAscend(sorted, ids, |r.jobs|, i);
    }
    assert sorted == r.Sequential();
  }

  lemma IdsAscend(sorted: seq<Message>, ids: seq<int>, n: nat, i: nat)
    requires |ids| == |sorted| == n && i < n && forall k :: 0 <= k < n ==> ids[k] == sorted[k].batchId
    requires SortedBy(sorted, (k: Message) => k.batchId) && DistinctKeys(sorted, (k: Message) => k.batchId)
    requires forall k :: 0 <= k < n ==> 0 <= sorted[k].batchId < n
    ensures sorted[i].batchId == i
  {
    var key := (k: Message) => k.batchId;
    forall a, b | 0 <= a < b < n ensures ids[a] < ids[b] {
      assert key(sorted[a]) <= key(sorted[b]) && key(sorted[a]) != key(sorted[b]);
    }
    StrictlyUpwards(ids, n, i);
  }

  /** Over every interleaving: a state in which the run has returned holds the sequential answer. */
  lemma EveryInterleavingIsSequential<Q>(r: Workload<Q>, trace: seq<State<Q>>, actions: seq<Action>, i: nat)
    requires Execution(r, trace, actions) && i < |trace| && trace[i].outcome.Returned?
    ensures trace[i].outcome.messages == r.Sequential()
    ensures trace[i].results == [] && trace[i].jobQueue == []
  {
    InvAlways(r, trace, actions, i);
    ReturnedIsSequential(r, trace[i]);
  }

  /** The run raises only for a cause: a failed job's message, or a worker that died. */
  lemma RaisedHasCause<Q>(r: Workload<Q>, trace: seq<State<Q>>, actions: seq<Action>, i: nat)
    requires Execution(r, trace, actions) && i < |trace| && trace[i].outcome.Raised?
    ensures (trace[i].outcome.fatal.Some? && !trace[i].outcome.fatal.value.ok)
         || exists w :: 0 <= w < |trace[i].workers| && trace[i].workers[w].Dead?
  {
    InvAlways(r, trace, actions, i);
  }

  // ----- progress -----

  function Weight<Q>(w: Worker<Q>): nat { match w case Idle => 1 case Busy(_) => 4 case Dead(_) => 0 }

  function Weights<Q>(ws: seq<Worker<Q>>): nat { if ws == [] then 0 else Weight(ws[0]) + Weights(ws[1..]) }

  function Measure<Q>(s: State<Q>): nat {
    5 * |s.jobQueue| + Weights(s.workers) + 2 * |s.results| + if s.outcome.Waiting? then 1 else 0
  }

  lemma {:induction false} UpdateWeights<Q>(ws: seq<Worker<Q>>, i: nat, w: Worker<Q>)
    requires i < |ws|
    ensures Weights(ws[i := w]) == Weights(ws) - Weight(ws[i]) + Weight(w)
  {
    if i == 0 {
      assert ws[i := w][1..] == ws[1..];
    } else {
      UpdateWeights(ws[1..], i - 1, w);
      assert ws[i := w][1..] == ws[1..][i - 1 := w];
    }
  }

  /** Every step uses something up. */
  lemma StepDecreases<Q>(r: Workload<Q>, s: State<Q>, a: Action)
    requires Enabled(s, a)
    ensures Measure(Apply(r, s, a)) < Measure(s)
  {
    match a
    case Take(w) => UpdateWeights(s.workers, w, Busy(s.jobQueue[0]));
    case Finish(w) => UpdateWeights(s.workers, w, Idle);
    case Fail(w) => UpdateWeights(s.workers, w, Dead(None));
    case Die(w) => UpdateWeights(s.workers, w, Dead(Held(s.workers[w])));
    case Receive =>
    case GiveUp =>
  }

  /** So no execution is longer than its initial measure... */
  lemma {:induction false} ExecutionsAreBounded<Q>(r: Workload<Q>, trace: seq<State<Q>>, actions: seq<Action>, i: nat)
    requires Execution(r, trace, actions) && i < |trace|
    ensures i + Measure(trace[i]) <= Measure(trace[0])
  {
    if i > 0 {
      ExecutionsAreBounded(r, trace, actions, i - 1);
      StepDecreases(r, trace[i - 1], actions[i - 1]);
    }
  }

  predicate Fault(a: Action) { a.Fail? || a.Die? }

  /** ... and while the coordinator waits some step that is no fault can be taken, as long as there
      is a worker: a run that cannot go on has returned or raised. */
  lemma NoDeadlock<Q>(r: Workload<Q>, s: State<Q>) returns (a: Action)
    requires Inv(r, s) && s.outcome.Waiting? && s.workers != []
    ensures Enabled(s, a) && !Fault(a)
  {
    if s.results != [] {
      return Receive;
    }
    if exists w :: 0 <= w < |s.workers| && s.workers[w].Dead? {
      return GiveUp;
    }
    if w :| 0 <= w < |s.workers| && s.workers[w].Busy? {
      return Finish(w);
    }
    NothingHeld(s.workers, 0);
    assert s.workers[0].Idle?;
    return Take(0);
  }

  // ----- runs without faults -----

  predicate Alive<Q>(ws: seq<Worker<Q>>) { forall w :: 0 <= w < |ws| ==> !ws[w].Dead? }

  predicate AllOk(ms: seq<Message>) { forall i :: 0 <= i < |ms| ==> ms[i].ok }

  /** Nobody died, nothing failed, nothing was raised. */
  predicate Healthy<Q>(s: State<Q>) { Alive(s.workers) && AllOk(s.results) && !s.outcome.Raised? }

  lemma StepStaysHealthy<Q>(r: Workload<Q>, s: State<Q>, a: Action)
    requires Enabled(s, a) && Healthy(s) && !Fault(a)
    ensures Healthy(Apply(r, s, a)) && |Apply(r, s, a).workers| == |s.workers|
  {}

  /** Every fault leaves a dead worker behind. */
  lemma DeathRemains<Q>(r: Workload<Q>, s: State<Q>, a: Action)
    requires Enabled(s, a)
    ensures Alive(Apply(r, s, a).workers) ==>
      !Fault(a) && Alive(s.workers) && (AllOk(s.results) ==> AllOk(Apply(r, s, a).results))
  {
    var t := Apply(r, s, a);
    if Fault(a) {
      assert t.workers[a.w].Dead?;
    }
    forall v | 0 <= v < |s.workers| ensures s.workers[v].Dead? ==> t.workers[v].Dead? {}
  }

  lemma {:induction false} FaultFreeIsHealthy<Q>(r: Workload<Q>, trace: seq<State<Q>>, actions: seq<Action>, i: nat)
    requires Execution(r, trace, actions) && i < |trace| && Alive(trace[0].workers)
    requires forall k :: 0 <= k < i ==> !Fault(actions[k])
    ensures Healthy(trace[i]) && |trace[i].workers| == |trace[0].workers|
  {
    if i > 0 {
      FaultFreeIsHealthy(r, trace, actions, i - 1);
      StepStaysHealthy(r, trace[i - 1], actions[i - 1]);
    }
  }

  /** Started with live workers, a run raises only after a job failed or a worker died. */
  lemma RaisedAfterFault<Q>(r: Workload<Q>, trace: seq<State<Q>>, actions: seq<Action>, i: nat)
    requires Execution(r, trace, actions) && i < |trace| && Alive(trace[0].workers) && trace[i].outcome.Raised?
    ensures exists k :: 0 <= k < i && Fault(actions[k])
  {
    if forall k :: 0 <= k < i ==> !Fault(actions[k]) {
      FaultFreeIsHealthy(r, trace, actions, i);
    }
  }

  /** Without a fault every run succeeds: an execution from live workers that goes on for as long
      as anything but a fault can happen ends with the sequential map returned. */
  lemma FaultFreeRunReturns<Q>(r: Workload<Q>, trace: seq<State<Q>>, actions: seq<Action>)
    requires Execution(r, trace, actions) && Alive(trace[0].workers) && trace[0].workers != []
    requires forall k :: 0 <= k < |actions| ==> !Fault(actions[k])
    requires forall a :: Enabled(trace[|actions|], a) ==> Fault(a)
    ensures trace[|actions|].outcome == Returned(r.Sequential())
  {
    var n := |actions|;
    FaultFreeIsHealthy(r, trace, actions, n);
    InvAlways(r, trace, actions, n);
    if trace[n].outcome.Waiting? {
      var a := NoDeadlock(r, trace[n]);
    } else {
      ReturnedIsSequential(r, trace[n]);
    }
  }

  // ----- the pool object -----

  /** The pool's shared queues and workers. `Run` lets an arbitrary scheduler interleave the
      workers with the coordinator. */
  class Pool<Q> {
    var jobQueue: seq<Job<Q>>
    var resultQueue: seq<Message>
    var workers: seq<Worker<Q>>
    /** Jobs that failed and workers that died so far. */
    ghost var faults: nat

    ghost predicate Fit()
      reads this
    {
      Alive(workers) && AllOk(resultQueue)
    }

    /** Started, with nothing queued and nobody working. */
    ghost predicate Ready()
      reads this
    {
      jobQueue == [] && resultQueue == [] && workers != [] && Carried(workers) == 0
    }

    ghost function Snapshot(received: seq<Message>, outcome: Outcome): State<Q>
      reads this
    {
      State(jobQueue, workers, resultQueue, received, outcome)
    }

    /** `GpuPool.__init__` and `__enter__` with `size` workers that all reported ready. */
    constructor (size: nat)
      requires size > 0
      ensures Ready() && |workers| == size && Fit() && faults == 0
    {
      jobQueue, resultQueue, faults := [], [], 0;
      workers := seq(size, _ => Idle);
      new;
      NothingHeld(workers, 0);
    }

    method Enqueue(jobs: seq<seq<Q>>)
      requires Ready()
      modifies this`jobQueue
      ensures |jobQueue| == |jobs| && forall i :: 0 <= i < |jobs| ==> jobQueue[i] == Job(i, jobs[i])
    {
      for id := 0 to |jobs|
        invariant |jobQueue| == id && forall i :: 0 <= i < id ==> jobQueue[i] == Job(i, jobs[i])
      {
        jobQueue := jobQueue + [Job(id, jobs[id])];
      }
    }

    /** One worker step, chosen by the scheduler among those possible: any worker alive may take a
        job, answer or fail it, or die, also while it waits for a job that never comes. */
    method WorkerStep(generate: Q -> seq<int>, ghost r: Workload<Q>, ghost received: seq<Message>)
      requires r.generate == generate
      requires Inv(r, Snapshot(received, Waiting))
      requires exists w :: 0 <= w < |workers| && !workers[w].Dead?
      modifies this
      ensures faults >= old(faults) && (old(Fit()) && faults == old(faults) ==> Fit())
      ensures Alive(workers) ==> old(Alive(workers)) && (old(AllOk(resultQueue)) ==> AllOk(resultQueue))
      ensures Inv(r, Snapshot(received, Waiting)) && |workers| == old(|workers|)
      ensures Measure(Snapshot(received, Waiting)) < old(Measure(Snapshot(received, Waiting)))
    {
      ghost var s := Snapshot(received, Waiting);
      ghost var a: Action;
      var w :| 0 <= w < |workers| && !workers[w].Dead?;
      if {
        case workers[w].Idle? && jobQueue != [] =>
          a := Take(w);
          workers, jobQueue := workers[w := Busy(jobQueue[0])], jobQueue[1..];
        case workers[w].Busy? =>
          a := Finish(w);
          var job := workers[w].job;
          resultQueue := resultQueue + [Message(job.batchId, true, Map(generate, job.requests))];
          workers := workers[w := Idle];
        case workers[w].Busy? =>
          a := Fail(w);
          resultQueue := resultQueue + [Message(workers[w].job.batchId, false, [])];
          workers, faults := workers[w := Dead(None)], faults + 1;
        case !workers[w].Dead? =>
          a := Die(w);
          workers, faults := workers[w := Dead(Held(workers[w]))], faults + 1;
      }
      hide Inv, Places, Measure, Alive, AllOk;
      assert Snapshot(received, Waiting) == Apply(r, s, a);
      DeathRemains(r, s, a);
      if Healthy(s) && !Fault(a) { StepStaysHealthy(r, s, a); }
      StepInv(r, s, a);
      StepDecreases(r, s, a);
    }

    /** `_await_messages`: collect one message per job. It looks for exited workers when a timed
        wait was in vain, which a message may overtake; so giving up on a dead worker is possible
        at any time. */
    method Await(generate: Q -> seq<int>, count: nat, ghost r: Workload<Q>) returns (result: Result<seq<Message>>)
      requires r.generate == generate && count == |r.jobs| > 0
      requires Inv(r, Snapshot([], Waiting)) && workers != []
      modifies this
      ensures workers != [] && (result.Ok? ==> Inv(r, Snapshot(result.value, Collected(result.value))))
      ensures faults >= old(faults) && (old(Fit()) && faults == old(faults) ==> result.Ok? && Fit())
      ensures old(Fit()) && result.Err? ==> !Alive(workers)
    {
      hide Inv, Places, Measure;
      var messages: seq<Message> := [];
      while |messages| < count
        invariant Inv(r, Snapshot(messages, if |messages| < count then Waiting else Collected(messages)))
        invariant workers != []
        invariant faults >= old(faults) && (old(Fit()) && faults == old(faults) ==> Fit())
        invariant old(Fit()) && Alive(workers) ==> AllOk(resultQueue)
        decreases Measure(Snapshot(messages, if |messages| < count then Waiting else Collected(messages)))
      {
        ghost var s := Snapshot(messages, Waiting);
        ghost var possible := NoDeadlock(r, s);
        if {
          case resultQueue != [] =>
            var message := resultQueue[0];
            StepInv(r, s, Receive);
            StepDecreases(r, s, Receive);
            resultQueue := resultQueue[1..];
            if !message.ok {
              return Err("worker failed");
            }
            messages := messages + [message];
          case exists w :: 0 <= w < |workers| && workers[w].Dead? =>
            return Err("worker exited");
          case exists w :: 0 <= w < |workers| && !workers[w].Dead? =>
            WorkerStep(generate, r, messages);
        }
      }
      return Ok(messages);
    }

    method Run(jobs: seq<seq<Q>>, generate: Q -> seq<int>) returns (result: Result<seq<Message>>)
      requires Ready()
      modifies this
      ensures result.Ok? ==> result.value == Workload(jobs, generate).Sequential()
      ensures result.Ok? ==> Ready()
      ensures old(Fit()) && faults == old(faults) ==> result.Ok? && Fit()
      ensures old(Fit()) && result.Err? ==> !Alive(workers)
    {
      ghost var r := Workload(jobs, generate);
      if jobs == [] {
        return Ok([]);
      }
      Enqueue(jobs);
      assert jobQueue == r.Enqueued();
      CarriesNothing(workers);
      InitInv(r, Snapshot([], Waiting));
      hide Inv, Places;
      var messages := Await(generate, |jobs|, r);
      if messages.Err? {
        return messages;
      }
      ReturnedIsSequential(r, Snapshot(messages.value, Collected(messages.value)));
      result := Ok(Sort(messages.value, (k: Message) => k.batchId));
    }
  }

  lemma {:induction false} CarriesNothing<Q>(ws: seq<Worker<Q>>)
    requires Carried(ws) == 0
    ensures forall w :: 0 <= w < |ws| ==> Held(ws[w]).None?
  {
    if ws != [] {
      CarriesNothing(ws[1..]);
      forall w | 0 <= w < |ws| ensures Held(ws[w]).None? {
        if w > 0 { assert ws[w] == ws[1..][w - 1]; }
      }
    }
  }

  // ----- a generation phase over the pool -----

  /** A request with its id; what the engine sees of it is its payload. */
  datatype Request<Q> = Request(id: string, payload: Q)

  function Payloads<Q>(requests: seq<Request<Q>>): (r: seq<Q>)
    ensures |r| == |requests|
  {
    seq(|requests|, i requires 0 <= i < |requests| => requests[i].payload)
  }

  ghost predicate DistinctIds<Q>(requests: seq<Request<Q>>) {
    forall i, j :: 0 <= i < j < |requests| ==> requests[i].id != requests[j].id
  }

  /** Cut the requests into consecutive jobs of at most `cap`. */
  method Chunk<Q>(requests: seq<Request<Q>>, cap: nat) returns (jobs: seq<seq<Q>>)
    requires cap > 0
    ensures Flatten(jobs) == Payloads(requests)
    ensures forall i :: 0 <= i < |jobs| ==> 1 <= |jobs[i]| <= cap
  {
    jobs := [];
    var start := 0;
    while start < |requests|
      invariant 0 <= start <= |requests|
      invariant Flatten(jobs) == Payloads(requests)[..start]
      invariant forall i :: 0 <= i < |jobs| ==> 1 <= |jobs[i]| <= cap
    {
      var end := Min(start + cap, |requests|);
      var job := Payloads(requests)[start..end];
      assert (jobs + [job])[..|jobs|] == jobs;
      assert Payloads(requests)[..end] == Payloads(requests)[..start] + job;
      jobs := jobs + [job];
      start := end;
    }
    assert Payloads(requests)[..|requests|] == Payloads(requests);
  }

  function Outputs(messages: seq<Message>): (r: seq<seq<seq<int>>>)
    ensures |r| == |messages|
  {
    seq(|messages|, i requires 0 <= i < |messages| => messages[i].outputs)
  }

  lemma {:induction false} FlatOutputs<Q>(jobs: seq<seq<Q>>, generate: Q -> seq<int>, messages: seq<Message>)
    requires |messages| == |jobs| && forall i :: 0 <= i < |jobs| ==> messages[i].outputs == Map(generate, jobs[i])
    ensures Flatten(Outputs(messages)) == Map(generate, Flatten(jobs))
  {
    if jobs != [] {
      var n := |jobs| - 1;
      FlatOutputs(jobs[..n], generate, messages[..n]);
      assert Outputs(messages)[..n] == Outputs(messages[..n]);
      assert Map(generate, Flatten(jobs[..n]) + jobs[n]) == Map(generate, Flatten(jobs[..n])) + Map(generate, jobs[n]);
    }
  }

  /** Distribute requests over a pool: unless a job fails or a worker dies it succeeds, and then
      every request id maps to that request's own generation, however the work was stolen. */
  method RunGenerationPhase<Q>(requests: seq<Request<Q>>, generate: Q -> seq<int>, gpus: nat, rolloutsPerBatch: nat)
    returns (r: Result<map<string, seq<int>>>, ghost faults: nat)
    requires gpus > 0 && rolloutsPerBatch > 0
    ensures faults == 0 ==> r.Ok?
    ensures r.Ok? ==> forall id :: id in r.value <==> exists i :: 0 <= i < |requests| && requests[i].id == id
    ensures r.Ok? && DistinctIds(requests) ==>
      forall i :: 0 <= i < |requests| ==> r.value[requests[i].id] == generate(requests[i].payload)
  {
    if requests == [] {
      return Ok(map[]), 0;
    }
    var share := (|requests| + gpus - 1) / gpus;
    assert share > 0;
    var jobs := Chunk(requests, Min(rolloutsPerBatch, share));
    var pool := new Pool<Q>(gpus);
    var answered := pool.Run(jobs, generate);
    faults := pool.faults;
    if answered.Err? {
      return Err(answered.reason), faults;
    }
    var flat := Flatten(Outputs(answered.value));
    FlatOutputs(jobs, generate, answered.value);
    if |flat| != |requests| {
      return Err("output count"), faults;
    }
    var outputs: map<string, seq<int>> := map[];
    for i := 0 to |requests|
      invariant forall id :: id in outputs <==> exists k :: 0 <= k < i && requests[k].id == id
      invariant DistinctIds(requests) ==>
        forall k :: 0 <= k < i ==> requests[k].id in outputs && outputs[requests[k].id] == generate(requests[k].payload)
    {
      outputs := outputs[requests[i].id := flat[i]];
    }
    return Ok(outputs), faults;
  }
}
