/** The teacher phase: each teacher is loaded once and asked for all the models evaluated.
    Models utils/ersr_evaluation.py. */
module TeacherPhase {
  import opened Basics
  import opened ErsrCases
  import opened StagedErsr
  import opened ErsrPhases
  import opened GpuPool

  function Requests(rows: seq<Row>): (r: seq<Request<Query>>)
    ensures |r| == |rows|
    ensures forall i :: 0 <= i < |rows| ==> r[i] == rows[i].request
  {
    seq(|rows|, i requires 0 <= i < |rows| => rows[i].request)
  }

  function Sites(works: seq<Work>): (r: seq<Site>)
    ensures |r| == |works|
    ensures forall i :: 0 <= i < |works| ==> r[i] == works[i].e
  {
    seq(|works|, i requires 0 <= i < |works| => works[i].e)
  }

  /** What teacher `t` is asked by the first n works. */
  function GroupRequests(sites: seq<Site>, plans: seq<seq<Row>>, t: string, n: nat): seq<Request<Query>>
    requires n <= |sites| == |plans|
  {
    if n == 0 then [] else
      GroupRequests(sites, plans, t, n - 1) + if sites[n - 1].teacher == Some(t) then Requests(plans[n - 1]) else []
  }

  /** Each plan asks under its own work's index about cases with different ids. */
  ghost predicate PlanIds(sites: seq<Site>, plans: seq<seq<Row>>) {
    && |sites| == |plans|
    && forall j :: 0 <= j < |plans| ==> PlanIdsAt(sites[j], j, plans[j])
  }

  ghost predicate PlanIdsAt(e: Site, j: nat, rows: seq<Row>) {
    && (forall k :: 0 <= k < |rows| ==> rows[k].request.id == TeacherId(j, e.model, rows[k].c.caseId))
    && forall k, l :: 0 <= k < l < |rows| ==> rows[k].c.caseId != rows[l].c.caseId
  }

  /** What stands before the first colon determines where that colon is. */
  lemma FirstField(a: string, b: string, c: string, d: string)
    requires ':' !in a && ':' !in c && a + ":" + b == c + ":" + d
    ensures a == c && b == d
  {
    var s, t := a + ":" + b, c + ":" + d;
    assert s[|a|] == ':' && t[|c|] == ':';
    assert forall k :: 0 <= k < |a| ==> s[k] == a[k];
    assert forall k :: 0 <= k < |c| ==> t[k] == c[k];
    assert |a| == |c|;
    assert s[..|a|] == a && t[..|c|] == c;
    assert s[|a| + 1..] == b && t[|c| + 1..] == d;
  }

  lemma TeacherIdFields(work: nat, model: string, caseId: string)
    ensures TeacherId(work, model, caseId) == "teacher:" + (Digits(work) + ":" + (model + ":" + caseId))
  {}

  /** A teacher request id names its work, and within a model its case. */
  lemma TeacherIdNames(w: nat, m: string, c: string, v: nat, n: string, d: string)
    requires TeacherId(w, m, c) == TeacherId(v, n, d)
    ensures w == v && (m == n ==> c == d)
  {
    TeacherIdFields(w, m, c);
    TeacherIdFields(v, n, d);
    var a, b := Digits(w) + ":" + (m + ":" + c), Digits(v) + ":" + (n + ":" + d);
    assert ("teacher:" + a)[8..] == a && ("teacher:" + b)[8..] == b;
    DigitsLonger(w);
    DigitsLonger(v);
    FirstField(Digits(w), m + ":" + c, Digits(v), n + ":" + d);
    DigitsInjective(w, v);
    if m == n {
      assert (m + ":" + c)[|m| + 1..] == c && (n + ":" + d)[|n| + 1..] == d;
    }
  }

  lemma PlanDistinct(e: Site, j: nat, rows: seq<Row>)
    requires PlanIdsAt(e, j, rows)
    ensures DistinctIds(Requests(rows))
  {
    forall k, l | 0 <= k < l < |rows| ensures rows[k].request.id != rows[l].request.id {
      if rows[k].request.id == rows[l].request.id {
        TeacherIdNames(j, e.model, rows[k].c.caseId, j, e.model, rows[l].c.caseId);
      }
    }
  }

  /** A group's requests come from the plans of the works that use that teacher. */
  lemma {:induction false} GroupMembers(sites: seq<Site>, plans: seq<seq<Row>>, t: string, n: nat, i: nat)
    requires n <= |sites| == |plans| && i < |GroupRequests(sites, plans, t, n)|
    ensures exists j, k ::
      0 <= j < n && 0 <= k < |plans[j]| && GroupRequests(sites, plans, t, n)[i] == plans[j][k].request
  {
    var front := GroupRequests(sites, plans, t, n - 1);
    if i < |front| {
      GroupMembers(sites, plans, t, n - 1, i);
    } else {
      assert GroupRequests(sites, plans, t, n)[i] == plans[n - 1][i - |front|].request;
    }
  }

  /** ... all of them. */
  lemma {:induction false} GroupHas(sites: seq<Site>, plans: seq<seq<Row>>, t: string, n: nat, j: nat, k: nat)
    returns (i: nat)
    requires j < n <= |sites| == |plans| && k < |plans[j]| && sites[j].teacher == Some(t)
    ensures i < |GroupRequests(sites, plans, t, n)| && GroupRequests(sites, plans, t, n)[i] == plans[j][k].request
  {
    if j < n - 1 {
      i := GroupHas(sites, plans, t, n - 1, j, k);
    } else {
      i := |GroupRequests(sites, plans, t, n - 1)| + k;
    }
  }

  lemma DistinctConcat(a: seq<Request<Query>>, b: seq<Request<Query>>)
    requires DistinctIds(a) && DistinctIds(b)
    requires forall i, j :: 0 <= i < |a| && 0 <= j < |b| ==> a[i].id != b[j].id
    ensures DistinctIds(a + b)
  {}

  /** All request ids of one teacher run are distinct. */
  lemma {:induction false} GroupDistinct(sites: seq<Site>, plans: seq<seq<Row>>, t: string, n: nat)
    requires PlanIds(sites, plans) && n <= |sites|
    ensures DistinctIds(GroupRequests(sites, plans, t, n))
  {
    if n > 0 {
      GroupDistinct(sites, plans, t, n - 1);
      var front, own := GroupRequests(sites, plans, t, n - 1), Requests(plans[n - 1]);
      PlanDistinct(sites[n - 1], n - 1, plans[n - 1]);
      forall i, k | 0 <= i < |front| && 0 <= k < |own| ensures front[i].id != own[k].id {
        GroupMembers(sites, plans, t, n - 1, i);
        var j, l :| 0 <= j < n - 1 && 0 <= l < |plans[j]| && front[i] == plans[j][l].request;
        IdsOfDifferentWorks(sites, plans, j, l, n - 1, k);
      }
      DistinctConcat(front, own);
      assert front + [] == front;
    }
  }

  lemma IdsOfDifferentWorks(sites: seq<Site>, plans: seq<seq<Row>>, j: nat, l: nat, n: nat, k: nat)
    requires PlanIds(sites, plans) && j < n < |plans| && l < |plans[j]| && k < |plans[n]|
    ensures plans[j][l].request.id != plans[n][k].request.id
  {
    assert PlanIdsAt(sites[j], j, plans[j]) && PlanIdsAt(sites[n], n, plans[n]);
    if plans[j][l].request.id == plans[n][k].request.id {
      TeacherIdNames(j, sites[j].model, plans[j][l].c.caseId, n, sites[n].model, plans[n][k].c.caseId);
    }
  }

  // ----- the phase -----

  function EngineOf(generate: (string, Query) -> seq<int>, model: string): Query -> seq<int> {
    q => generate(model, q)
  }

  ghost predicate PlanOk(e: Site, cases: seq<Case>, j: nat, rows: seq<Row>) {
    CasesReady(e, cases) && CasesReady(e, Asked(e, cases)) && rows == Rows(e, j, Asked(e, cases))
  }

  lemma PlanOkIds(e: Site, cases: seq<Case>, j: nat, rows: seq<Row>)
    requires PlanOk(e, cases, j, rows)
    ensures PlanIdsAt(e, j, rows)
    ensures e.teacher.None? ==> rows == []
  {
    AskedAreCases(e, cases);
    var asked := Asked(e, cases);
    if rows != [] {
      assert asked[0] in cases && CaseReady(e, asked[0]);
    }
  }

  /** A work that asked nothing is done once it is planned. */
  lemma NothingAsked(e: Site, cases: seq<Case>)
    requires CasesReady(e, cases) && Asked(e, cases) == []
    ensures Pick(e, cases, 0) + Pick(e, cases, 1) == Pick(e, cases, 0)
    ensures CasesReady(e, Asked(e, cases)) && Replaced(e, []) == map[]
  {
    PickAsked(e, cases);
    assert Pick(e, cases, 1) == [];
  }

  /** Without a teacher every case is the student's. */
  lemma {:induction false} NoTeacher(e: Site, cases: seq<Case>)
    requires CasesReady(e, cases) && e.teacher.None?
    ensures Pick(e, cases, 0) == [] && Asked(e, cases) == []
  {
    if cases != [] {
      NoTeacher(e, cases[..|cases| - 1]);
      assert CaseReady(e, cases[|cases| - 1]);
    }
  }

  ghost predicate Untouched(w: Work)
    reads w`invalid, w`replacements
  {
    CasesReady(w.e, w.cases) && w.invalid == [] && w.replacements == map[]
  }

  /** The plan of work j is made. */
  ghost predicate PlannedAt(w: Work, j: nat, rows: seq<Row>)
    reads w`invalid, w`replacements
  {
    w.Planned() && PlanOk(w.e, w.cases, j, rows)
  }

  /** A work with requests has its teacher listed. */
  predicate Listed(e: Site, rows: seq<Row>, teachers: seq<string>) {
    rows != [] ==> e.teacher.Some? && e.teacher.value in teachers
  }

  method PlanOne(work: Work, j: nat, known: seq<string>) returns (teachers: seq<string>, rows: seq<Row>)
    requires Untouched(work) && Distinct(known)
    modifies work
    ensures PlannedAt(work, j, rows) && Listed(work.e, rows, teachers)
    ensures Distinct(teachers) && forall t :: t in known ==> t in teachers
  {
    teachers := known;
    if work.e.teacher.None? {
      work.teacherComplete := true;
      NoTeacher(work.e, work.cases);
      return teachers, [];
    }
    rows := work.Plan(j);
    if rows != [] && work.e.teacher.value !in teachers {
      teachers := teachers + [work.e.teacher.value];
    }
  }

  /** First loop: settle what has no budget, collect the requests, and list the teachers in the
      order they are first needed. */
  method PlanAll(works: seq<Work>) returns (teachers: seq<string>, plans: seq<seq<Row>>)
    requires Distinct(works) && forall j :: 0 <= j < |works| ==> Untouched(works[j])
    modifies works
    ensures |plans| == |works| && Distinct(teachers)
    ensures forall j :: 0 <= j < |works| ==> PlannedAt(works[j], j, plans[j]) && Listed(works[j].e, plans[j], teachers)
  {
    hide Untouched, PlannedAt;
    teachers, plans := [], [];
    for i := 0 to |works|
      invariant |plans| == i && Distinct(teachers)
      invariant forall j :: 0 <= j < i ==> PlannedAt(works[j], j, plans[j]) && Listed(works[j].e, plans[j], teachers)
      invariant forall j :: i <= j < |works| ==> Untouched(works[j])
    {
      var rows;
      teachers, rows := PlanOne(works[i], i, teachers);
      plans := plans + [rows];
    }
  }

  lemma GroupReady(works: seq<Work>, plans: seq<seq<Row>>, t: string)
    requires |plans| == |works|
    requires forall j :: 0 <= j < |works| ==> PlanOk(works[j].e, works[j].cases, j, plans[j])
    ensures DistinctIds(GroupRequests(Sites(works), plans, t, |works|))
  {
    forall j | 0 <= j < |works| ensures PlanIdsAt(Sites(works)[j], j, plans[j]) {
      PlanOkIds(works[j].e, works[j].cases, j, plans[j]);
    }
    GroupDistinct(Sites(works), plans, t, |works|);
  }

  /** Every request of the group has its own answer. */
  ghost predicate AllAnswered(requests: seq<Request<Query>>, engine: Query -> seq<int>,
                              outputs: map<string, seq<int>>)
  {
    forall i :: 0 <= i < |requests| ==>
      requests[i].id in outputs && outputs[requests[i].id] == engine(requests[i].payload)
  }

  lemma PlanAnswered(e: Site, sites: seq<Site>, plans: seq<seq<Row>>, t: string, j: nat, outputs: map<string, seq<int>>)
    requires |sites| == |plans| && j < |sites| && sites[j] == e && e.teacher == Some(t)
    requires AllAnswered(GroupRequests(sites, plans, t, |sites|), EngineOf(e.generate, t), outputs)
    ensures forall k :: 0 <= k < |plans[j]| ==> Answered(e, plans[j][k].request, outputs)
  {
    forall k | 0 <= k < |plans[j]| ensures Answered(e, plans[j][k].request, outputs) {
      var i := GroupHas(sites, plans, t, |sites|, j, k);
    }
  }

  /** Teachers served so far: their works are done, the others only planned. */
  ghost predicate ServedAt(w: Work, j: nat, rows: seq<Row>, served: seq<string>)
    reads w`invalid, w`replacements
  {
    if w.e.teacher.Some? && w.e.teacher.value in served then w.Proposed() else PlannedAt(w, j, rows)
  }

  /** One teacher's run and the works it serves. */
  method ServeTeacher(works: seq<Work>, plans: seq<seq<Row>>, t: string, ghost served: seq<string>,
                      generate: (string, Query) -> seq<int>, gpus: nat, rolloutsPerBatch: nat)
    returns (r: Result<()>, ghost faults: nat)
    requires Distinct(works) && |plans| == |works| && gpus > 0 && rolloutsPerBatch > 0 && t !in served
    requires forall j :: 0 <= j < |works| ==> works[j].e.generate == generate
    requires forall j :: 0 <= j < |works| ==> PlanOk(works[j].e, works[j].cases, j, plans[j])
    requires forall j :: 0 <= j < |works| ==> ServedAt(works[j], j, plans[j], served)
    modifies works
    ensures faults == 0 ==> r.Ok?
    ensures r.Ok? ==> forall j :: 0 <= j < |works| ==> ServedAt(works[j], j, plans[j], served + [t])
  {
    hide ServedAt, PlanOk;
    var sites := Sites(works);
    var requests := GroupRequests(sites, plans, t, |works|);
    GroupReady(works, plans, t);
    var answered;
    answered, faults := RunGenerationPhase(requests, EngineOf(generate, t), gpus, rolloutsPerBatch);
    if answered.Err? {
      return Err(answered.reason), faults;
    }
    assert AllAnswered(requests, EngineOf(generate, t), answered.value);
    for j := 0 to |works|
      invariant forall i :: 0 <= i < j ==> ServedAt(works[i], i, plans[i], served + [t])
      invariant forall i :: j <= i < |works| ==> ServedAt(works[i], i, plans[i], served)
    {
      ServeOne(works[j], j, plans[j], t, served, sites, plans, answered.value);
    }
    return Ok(()), faults;
  }

  method ServeOne(work: Work, j: nat, rows: seq<Row>, t: string, ghost served: seq<string>, ghost sites: seq<Site>,
                  ghost plans: seq<seq<Row>>, outputs: map<string, seq<int>>)
    requires t !in served && PlanOk(work.e, work.cases, j, rows) && ServedAt(work, j, rows, served)
    requires |sites| == |plans| && j < |sites| && sites[j] == work.e && plans[j] == rows
    requires AllAnswered(GroupRequests(sites, plans, t, |sites|), EngineOf(work.e.generate, t), outputs)
    modifies work
    ensures ServedAt(work, j, rows, served + [t])
  {
    if work.e.teacher == Some(t) {
      PlanAnswered(work.e, sites, plans, t, j, outputs);
      work.Absorb(j, rows, outputs);
    }
  }

  lemma Served(works: seq<Work>, plans: seq<seq<Row>>, teachers: seq<string>, j: nat)
    requires |plans| == |works| && j < |works|
    requires ServedAt(works[j], j, plans[j], teachers) && Listed(works[j].e, plans[j], teachers)
    ensures works[j].Proposed()
  {
    if !(works[j].e.teacher.Some? && works[j].e.teacher.value in teachers) {
      NothingAsked(works[j].e, works[j].cases);
    }
  }

  /** Load each teacher once for all works. Unless a job fails or a worker dies it succeeds, and
      then every work knows the fate of every case it asked about. */
  method GenerateReplacements(works: seq<Work>, generate: (string, Query) -> seq<int>, gpus: nat, rolloutsPerBatch: nat)
    returns (r: Result<()>, ghost faults: nat)
    requires Distinct(works) && gpus > 0 && rolloutsPerBatch > 0
    requires forall j :: 0 <= j < |works| ==> Untouched(works[j]) && works[j].e.generate == generate
    modifies works
    ensures faults == 0 ==> r.Ok?
    ensures r.Ok? ==> forall j :: 0 <= j < |works| ==> works[j].teacherComplete && works[j].Proposed()
  {
    faults := 0;
    hide Untouched, ServedAt, PlannedAt;
    var teachers, plans := PlanAll(works);
    StartServing(works, plans);
    for k := 0 to |teachers|
      invariant forall j :: 0 <= j < |works| ==> ServedAt(works[j], j, plans[j], teachers[..k])
    {
      ghost var more;
      var served;
      served, more := ServeTeacher(works, plans, teachers[k], teachers[..k], generate, gpus, rolloutsPerBatch);
      faults := faults + more;
      if served.Err? {
        return served, faults;
      }
      assert teachers[..k + 1] == teachers[..k] + [teachers[k]];
    }
    assert teachers[..|teachers|] == teachers;
    Complete(works, plans, teachers);
    return Ok(()), faults;
  }

  lemma StartServing(works: seq<Work>, plans: seq<seq<Row>>)
    requires |plans| == |works| && forall j :: 0 <= j < |works| ==> PlannedAt(works[j], j, plans[j])
    ensures forall j :: 0 <= j < |works| ==> ServedAt(works[j], j, plans[j], [])
    ensures forall j :: 0 <= j < |works| ==> PlanOk(works[j].e, works[j].cases, j, plans[j])
  {}

  /** Last loop: mark every work complete. */
  method Complete(works: seq<Work>, ghost plans: seq<seq<Row>>, ghost teachers: seq<string>)
    requires |plans| == |works|
    requires forall j :: 0 <= j < |works| ==>
      ServedAt(works[j], j, plans[j], teachers) && Listed(works[j].e, plans[j], teachers)
    modifies works
    ensures forall j :: 0 <= j < |works| ==> works[j].teacherComplete && works[j].Proposed()
  {
    hide ServedAt;
    for j := 0 to |works|
      invariant forall i :: 0 <= i < |works| ==> ServedAt(works[i], i, plans[i], teachers)
      invariant forall i :: 0 <= i < j ==> works[i].teacherComplete
    {
      works[j].teacherComplete := true;
    }
    forall j | 0 <= j < |works| ensures works[j].Proposed() {
      Served(works, plans, teachers, j);
    }
  }
}
