/** Selecting capped reasoning-step interventions from validation rollouts, their ids and seeds.
    Models utils/ersr.py. */
module ErsrCases {
  import opened Basics
  import opened Reservoir

  datatype Action = StudentAction | TeacherReplace

  function Label(a: Action): string {
    match a case StudentAction => "student_action" case TeacherReplace => "teacher_replace"
  }

  datatype Key = Key(dataset: string, action: Action)

  /** A validation rollout; `recordIndex` is its position in the batch. */
  datatype Record = Record(dataset: string, correct: bool, uid: string, answer: string,
                           promptIds: seq<int>, responseIds: seq<int>)

  datatype Span = Span(index: nat, start: int, end: int)

  datatype Candidate = Candidate(
    key: Key, recordIndex: nat, uid: string, answer: string,
    promptIds: seq<int>, responseIds: seq<int>, stepIndex: nat, start: int, end: int)

  datatype Settings = Settings(datasets: seq<string>, cap: nat, mcK: nat, seed: int,
                               maxResponse: int, maxTeacherStep: int)

  // ----- what a record offers -----

  type Splitter = seq<int> -> Result<seq<Span>>

  /** The facts the step splitter guarantees: steps are numbered in order and their token spans are
      non-empty and inside the response. */
  ghost predicate SplitterOk(split: Splitter) {
    forall ids :: split(ids).Ok? ==> SpansOk(split(ids).value, |ids|)
  }

  ghost predicate SpansOk(spans: seq<Span>, length: nat) {
    forall k :: 0 <= k < |spans| ==> spans[k].index == k && 0 <= spans[k].start < spans[k].end <= length
  }

  function ActionOf(r: Record): Action { if r.correct then StudentAction else TeacherReplace }

  predicate Considered(r: Record, s: Settings, student: bool, teacher: bool) {
    r.dataset in s.datasets && (if r.correct then student else teacher)
  }

  function CandidateAt(r: Record, recordIndex: nat, span: Span): Candidate {
    Candidate(Key(r.dataset, ActionOf(r)), recordIndex, r.uid, r.answer, r.promptIds, r.responseIds,
              span.index, span.start, span.end)
  }

  /** Every step of a considered, splittable record except its last one. */
  function Offers(r: Record, recordIndex: nat, s: Settings, split: Splitter, student: bool, teacher: bool)
    : seq<Candidate>
  {
    if !Considered(r, s, student, teacher) || split(r.responseIds).Err? then [] else
      var spans := split(r.responseIds).value;
      if spans == [] then [] else
        seq(|spans| - 1, k requires 0 <= k < |spans| - 1 => CandidateAt(r, recordIndex, spans[k]))
  }

  /** All offered steps in discovery order. */
  function Stream(records: seq<Record>, s: Settings, split: Splitter, student: bool, teacher: bool): seq<Candidate> {
    if records == [] then [] else
      Stream(records[..|records| - 1], s, split, student, teacher)
      + Offers(records[|records| - 1], |records| - 1, s, split, student, teacher)
  }

  /** The offered steps of one series, in order. */
  function Series(all: seq<Candidate>, key: Key): seq<Candidate> {
    if all == [] then [] else
      Series(all[..|all| - 1], key) + if all[|all| - 1].key == key then [all[|all| - 1]] else []
  }

  // ----- the reservoirs -----

  /** The i-th draw of a series' own generator, `randrange(cap + i + 1)`. */
  type Draws = (Key, nat) -> nat

  ghost predicate DrawsOk(draw: Draws, cap: nat) { forall k, i :: draw(k, i) <= cap + i }

  function DrawsFor(draw: Draws, key: Key, cap: nat, n: nat): seq<nat> {
    seq(if n <= cap then 0 else n - cap, i requires i >= 0 => draw(key, i))
  }

  /** The reservoir of a series: its items at the arrival numbers kept. */
  ghost function Held(cap: nat, items: seq<Candidate>, draws: seq<nat>): (r: seq<Candidate>)
    requires ValidDraws(cap, |items|, draws)
    ensures |r| == Min(cap, |items|)
  {
    var kept := Kept(cap, |items|, draws);
    seq(|kept|, i requires 0 <= i < |kept| => items[kept[i]])
  }

  lemma HeldGrows(cap: nat, items: seq<Candidate>, x: Candidate, draw: Draws, key: Key)
    requires DrawsOk(draw, cap)
    ensures var n := |items|;
      var before := Held(cap, items, DrawsFor(draw, key, cap, n));
      var after := Held(cap, items + [x], DrawsFor(draw, key, cap, n + 1));
      after == if n < cap then before + [x]
               else if draw(key, n - cap) < cap then before[draw(key, n - cap) := x] else before
  {
    var n := |items|;
    var before := Held(cap, items, DrawsFor(draw, key, cap, n));
    var after := Held(cap, items + [x], DrawsFor(draw, key, cap, n + 1));
    if n >= cap {
      var draws := DrawsFor(draw, key, cap, n + 1);
      assert draws[..|draws| - 1] == DrawsFor(draw, key, cap, n);
      assert draws[|draws| - 1] == draw(key, n - cap);
    } else {
      assert Kept(cap, n + 1, []) == seq(n + 1, i => i);
      assert after == before + [x];
    }
  }

  function GetOr<K, V>(m: map<K, V>, k: K, default: V): V { if k in m then m[k] else default }

  /** One series' reservoir, counter and generator agree with the items it has offered. */
  ghost predicate Tracks(cap: nat, draw: Draws, key: Key, items: seq<Candidate>,
                         reservoir: seq<Candidate>, available: nat, drawn: nat)
    requires DrawsOk(draw, cap)
  {
    var draws := DrawsFor(draw, key, cap, |items|);
    available == |items| && drawn == |draws| && reservoir == Held(cap, items, draws)
  }

  lemma TracksNext(cap: nat, draw: Draws, key: Key, items: seq<Candidate>, c: Candidate,
                   reservoir: seq<Candidate>, available: nat, drawn: nat)
    requires DrawsOk(draw, cap) && Tracks(cap, draw, key, items, reservoir, available, drawn)
    ensures |reservoir| < cap ==> Tracks(cap, draw, key, items + [c], reservoir + [c], available + 1, drawn)
    ensures |reservoir| >= cap ==> |reservoir| == cap
    ensures |reservoir| >= cap && draw(key, drawn) >= cap ==>
      Tracks(cap, draw, key, items + [c], reservoir, available + 1, drawn + 1)
    ensures |reservoir| >= cap && draw(key, drawn) < cap ==>
      Tracks(cap, draw, key, items + [c], reservoir[draw(key, drawn) := c], available + 1, drawn + 1)
  {
    HeldGrows(cap, items, c, draw, key);
  }

  /** The three dictionaries of the sampler. */
  datatype Tables = Tables(reservoirs: map<Key, seq<Candidate>>, available: map<Key, nat>, drawn: map<Key, nat>)

  ghost predicate TracksAt(cap: nat, draw: Draws, seen: seq<Candidate>, t: Tables, key: Key)
    requires DrawsOk(draw, cap)
  {
    Tracks(cap, draw, key, Series(seen, key),
           GetOr(t.reservoirs, key, []), GetOr(t.available, key, 0), GetOr(t.drawn, key, 0))
  }

  /** One arrival: count it, then append it, or let a draw replace a slot or nothing. */
  function Arrive(cap: nat, draw: Draws, t: Tables, c: Candidate): Tables {
    var key := c.key;
    var reservoir := GetOr(t.reservoirs, key, []);
    var counted := t.available[key := GetOr(t.available, key, 0) + 1];
    if |reservoir| < cap then Tables(t.reservoirs[key := reservoir + [c]], counted, t.drawn)
    else
      var i := GetOr(t.drawn, key, 0);
      var r := draw(key, i);
      Tables(if r < cap && r < |reservoir| then t.reservoirs[key := reservoir[r := c]] else t.reservoirs,
             counted, t.drawn[key := i + 1])
  }

  lemma ArriveTracks(cap: nat, draw: Draws, seen: seq<Candidate>, t: Tables, c: Candidate, key: Key)
    requires DrawsOk(draw, cap) && TracksAt(cap, draw, seen, t, key)
    ensures TracksAt(cap, draw, seen + [c], Arrive(cap, draw, t, c), key)
  {
    hide Tracks, DrawsOk;
    assert (seen + [c])[..|seen + [c]| - 1] == seen;
    if key == c.key {
      assert Series(seen + [c], key) == Series(seen, key) + [c];
      TracksNext(cap, draw, key, Series(seen, key), c,
                 GetOr(t.reservoirs, key, []), GetOr(t.available, key, 0), GetOr(t.drawn, key, 0));
    } else {
      assert Series(seen + [c], key) == Series(seen, key) + [];
      assert Series(seen, key) + [] == Series(seen, key);
    }
  }

  /** The reservoirs, counters and generators of all series, updated step by step. */
  class Sampler {
    const cap: nat
    const draw: Draws
    var reservoirs: map<Key, seq<Candidate>>
    var available: map<Key, nat>
    var drawn: map<Key, nat>
    ghost var seen: seq<Candidate>

    ghost function View(): Tables
      reads this
    {
      Tables(reservoirs, available, drawn)
    }

    ghost predicate Valid()
      reads this
    {
      DrawsOk(draw, cap) && forall key :: TracksAt(cap, draw, seen, View(), key)
    }

    constructor (cap: nat, draw: Draws)
      requires DrawsOk(draw, cap)
      ensures Valid() && seen == [] && this.cap == cap && this.draw == draw
    {
      this.cap, this.draw := cap, draw;
      reservoirs, available, drawn := map[], map[], map[];
      seen := [];
    }

    method Observe(c: Candidate)
      requires Valid()
      modifies this
      ensures Valid() && seen == old(seen) + [c]
      ensures View() == Arrive(cap, draw, old(View()), c)
    {
      ghost var next, all := Arrive(cap, draw, View(), c), seen + [c];
      forall key ensures TracksAt(cap, draw, all, next, key) {
        ArriveTracks(cap, draw, seen, View(), c, key);
      }
      var key := c.key;
      assert TracksAt(cap, draw, seen, View(), key);
      available := available[key := GetOr(available, key, 0) + 1];
      var reservoir := GetOr(reservoirs, key, []);
      if |reservoir| < cap {
        reservoirs := reservoirs[key := reservoir + [c]];
      } else {
        var i := GetOr(drawn, key, 0);
        var replacement := draw(key, i);
        drawn := drawn[key := i + 1];
        if replacement < cap {
          reservoirs := reservoirs[key := reservoir[replacement := c]];
        }
      }
      seen := seen + [c];
      assert View() == next && seen == all;
    }
  }

  // ----- discovery -----

  /** What becomes of a record in discovery. */
  datatype Fate = Ignored | SplitFailed | WithoutSteps | Offering

  function FateOf(r: Record, s: Settings, split: Splitter, student: bool, teacher: bool): Fate {
    if !Considered(r, s, student, teacher) then Ignored
    else if split(r.responseIds).Err? then SplitFailed
    else if |split(r.responseIds).value| <= 1 then WithoutSteps
    else Offering
  }

  /** The records of a dataset among the given ones that meet a fate. */
  function FateCount(records: seq<Record>, dataset: string, fate: Fate, s: Settings, split: Splitter,
                     student: bool, teacher: bool): nat
  {
    if records == [] then 0 else
      var last := records[|records| - 1];
      FateCount(records[..|records| - 1], dataset, fate, s, split, student, teacher)
      + if last.dataset == dataset && FateOf(last, s, split, student, teacher) == fate then 1 else 0
  }

  /** The discovery counters, per dataset. */
  datatype Discovery = Discovery(trajectories: map<string, nat>, failures: map<string, nat>, without: map<string, nat>)

  function Bump(m: map<string, nat>, k: string): map<string, nat> { m[k := GetOr(m, k, 0) + 1] }

  function Tally(d: Discovery, dataset: string, fate: Fate): Discovery {
    match fate
    case Ignored => d
    case SplitFailed => d.(trajectories := Bump(d.trajectories, dataset), failures := Bump(d.failures, dataset))
    case WithoutSteps => d.(trajectories := Bump(d.trajectories, dataset), without := Bump(d.without, dataset))
    case Offering => d.(trajectories := Bump(d.trajectories, dataset))
  }

  /** The counters are those of the records: every considered trajectory is counted once, and it
      cannot be split, has no step before its last, or offers its steps. */
  ghost predicate Discovered(d: Discovery, records: seq<Record>, s: Settings, split: Splitter, student: bool,
                             teacher: bool)
  {
    forall dataset :: DiscoveredAt(d, records, dataset, s, split, student, teacher)
  }

  ghost predicate DiscoveredAt(d: Discovery, records: seq<Record>, dataset: string, s: Settings, split: Splitter,
                               student: bool, teacher: bool)
  {
    var failed := FateCount(records, dataset, SplitFailed, s, split, student, teacher);
    var without := FateCount(records, dataset, WithoutSteps, s, split, student, teacher);
    && GetOr(d.failures, dataset, 0) == failed
    && GetOr(d.without, dataset, 0) == without
    && GetOr(d.trajectories, dataset, 0)
       == failed + without + FateCount(records, dataset, Offering, s, split, student, teacher)
  }

  /** A wanted record is one that cannot be split, one with nothing to offer, or one that offers
      its steps; whatever becomes of a record, it offers nothing unless it is the last. */
  lemma FateMeans(r: Record, recordIndex: nat, s: Settings, split: Splitter, student: bool, teacher: bool)
    ensures
      var fate := FateOf(r, s, split, student, teacher);
      var offers := Offers(r, recordIndex, s, split, student, teacher);
      var wanted := r.dataset in s.datasets && if r.correct then student else teacher;
      && (fate == Ignored <==> !wanted)
      && (fate == SplitFailed <==> wanted && split(r.responseIds).Err?)
      && (fate == WithoutSteps <==> wanted && split(r.responseIds).Ok? && offers == [])
      && (fate == Offering <==> offers != [])
  {}

  lemma TallyNext(d: Discovery, records: seq<Record>, i: nat, s: Settings, split: Splitter, student: bool,
                  teacher: bool)
    requires i < |records| && Discovered(d, records[..i], s, split, student, teacher)
    ensures Discovered(Tally(d, records[i].dataset, FateOf(records[i], s, split, student, teacher)), records[..i + 1],
                       s, split, student, teacher)
  {
    hide FateOf, Tally, DiscoveredAt;
    var next := Tally(d, records[i].dataset, FateOf(records[i], s, split, student, teacher));
    var now := records[..i + 1];
    forall dataset ensures DiscoveredAt(next, now, dataset, s, split, student, teacher) {
      assert DiscoveredAt(d, records[..i], dataset, s, split, student, teacher);
      TallyAt(d, records, i, dataset, s, split, student, teacher);
    }
  }

  lemma TallyAt(d: Discovery, records: seq<Record>, i: nat, dataset: string, s: Settings, split: Splitter,
                student: bool, teacher: bool)
    requires i < |records| && DiscoveredAt(d, records[..i], dataset, s, split, student, teacher)
    ensures DiscoveredAt(Tally(d, records[i].dataset, FateOf(records[i], s, split, student, teacher)),
                         records[..i + 1], dataset, s, split, student, teacher)
  {
    hide FateOf, FateCount, Bump;
    var r := records[i];
    FateCountNext(records, i, dataset, SplitFailed, s, split, student, teacher);
    FateCountNext(records, i, dataset, WithoutSteps, s, split, student, teacher);
    FateCountNext(records, i, dataset, Offering, s, split, student, teacher);
    BumpAt(d.trajectories, r.dataset, dataset);
    BumpAt(d.failures, r.dataset, dataset);
    BumpAt(d.without, r.dataset, dataset);
  }

  lemma FateCountNext(records: seq<Record>, i: nat, dataset: string, fate: Fate, s: Settings, split: Splitter,
                      student: bool, teacher: bool)
    requires i < |records|
    ensures var more :=
        if records[i].dataset == dataset && FateOf(records[i], s, split, student, teacher) == fate then 1 else 0;
      FateCount(records[..i + 1], dataset, fate, s, split, student, teacher)
      == FateCount(records[..i], dataset, fate, s, split, student, teacher) + more
  {
    hide FateOf;
    assert records[..i + 1][..i] == records[..i];
  }

  lemma BumpAt(m: map<string, nat>, k: string, x: string)
    ensures GetOr(Bump(m, k), x, 0) == GetOr(m, x, 0) + if x == k then 1 else 0
  {}

  /** The discovery loop over records and their steps. */
  method SampleSteps(records: seq<Record>, s: Settings, split: Splitter, draw: Draws, student: bool, teacher: bool)
    returns (sampler: Sampler, d: Discovery)
    requires DrawsOk(draw, s.cap) && SplitterOk(split)
    ensures fresh(sampler) && sampler.Valid() && sampler.cap == s.cap && sampler.draw == draw
    ensures sampler.seen == Stream(records, s, split, student, teacher)
    ensures Discovered(d, records, s, split, student, teacher)
  {
    hide Discovered, FateOf, Tally;
    sampler := new Sampler(s.cap, draw);
    d := Discovery(map[], map[], map[]);
    NothingDiscovered(s, split, student, teacher);
    for recordIndex := 0 to |records|
      invariant fresh(sampler) && sampler.Valid() && sampler.cap == s.cap && sampler.draw == draw
      invariant sampler.seen == Stream(records[..recordIndex], s, split, student, teacher)
      invariant Discovered(d, records[..recordIndex], s, split, student, teacher)
    {
      assert records[..recordIndex + 1][..recordIndex] == records[..recordIndex];
      var fate := SampleRecord(sampler, records[recordIndex], recordIndex, s, split, student, teacher);
      TallyNext(d, records, recordIndex, s, split, student, teacher);
      d := Tally(d, records[recordIndex].dataset, fate);
    }
    assert records[..|records|] == records;
  }

  lemma NothingDiscovered(s: Settings, split: Splitter, student: bool, teacher: bool)
    ensures Discovered(Discovery(map[], map[], map[]), [], s, split, student, teacher)
  {}

  method SampleRecord(sampler: Sampler, record: Record, recordIndex: nat, s: Settings, split: Splitter,
                      student: bool, teacher: bool) returns (fate: Fate)
    requires sampler.Valid() && SplitterOk(split)
    modifies sampler
    ensures sampler.Valid() && fate == FateOf(record, s, split, student, teacher)
    ensures fate == Offering <==> sampler.seen != old(sampler.seen)
    ensures sampler.seen == old(sampler.seen) + Offers(record, recordIndex, s, split, student, teacher)
  {
    ghost var offers := Offers(record, recordIndex, s, split, student, teacher);
    if !Considered(record, s, student, teacher) {
      return Ignored;
    }
    var spans := split(record.responseIds);
    if spans.Err? {
      return SplitFailed;
    }
    if |spans.value| <= 1 {
      return WithoutSteps;
    }
    assert SpansOk(spans.value, |record.responseIds|);
    for k := 0 to |spans.value| - 1
      invariant sampler.Valid()
      invariant sampler.seen == old(sampler.seen) + offers[..k]
    {
      var step := spans.value[k];
      if step.end <= step.start {
        continue;
      }
      sampler.Observe(CandidateAt(record, recordIndex, step));
      assert offers[..k + 1] == offers[..k] + [offers[k]];
    }
    assert offers[..|offers|] == offers;
    return Offering;
  }

  // ----- what is in a reservoir -----

  /** A non-final step of one of the records. */
  ghost predicate Eligible(c: Candidate, records: seq<Record>, s: Settings, split: Splitter) {
    && c.recordIndex < |records|
    && var r := records[c.recordIndex];
    && split(r.responseIds).Ok?
    && c.stepIndex + 1 < |split(r.responseIds).value|
    && c == CandidateAt(r, c.recordIndex, split(r.responseIds).value[c.stepIndex])
    && r.dataset in s.datasets
  }

  predicate SameStep(c: Candidate, d: Candidate) { c.recordIndex == d.recordIndex && c.stepIndex == d.stepIndex }

  ghost predicate DistinctSteps(cs: seq<Candidate>) {
    forall i, j :: 0 <= i < j < |cs| ==> !SameStep(cs[i], cs[j])
  }

  lemma {:induction false} StreamEligible(records: seq<Record>, n: nat, s: Settings, split: Splitter, student: bool,
                                          teacher: bool)
    requires SplitterOk(split) && n <= |records|
    ensures forall c :: c in Stream(records[..n], s, split, student, teacher) ==>
      Eligible(c, records, s, split) && c.recordIndex < n
    ensures DistinctSteps(Stream(records[..n], s, split, student, teacher))
  {
    if n > 0 {
      StreamEligible(records, n - 1, s, split, student, teacher);
      OffersEligible(records, n - 1, s, split, student, teacher);
      hide Eligible, Offers, DistinctSteps, SplitterOk;
      assert records[..n][..n - 1] == records[..n - 1];
      DistinctBehind(Stream(records[..n - 1], s, split, student, teacher),
                     Offers(records[n - 1], n - 1, s, split, student, teacher), n - 1);
    }
  }

  lemma OffersEligible(records: seq<Record>, i: nat, s: Settings, split: Splitter, student: bool, teacher: bool)
    requires SplitterOk(split) && i < |records|
    ensures var offers := Offers(records[i], i, s, split, student, teacher);
      forall k :: 0 <= k < |offers| ==>
        Eligible(offers[k], records, s, split) && offers[k].recordIndex == i && offers[k].stepIndex == k
  {
    if Considered(records[i], s, student, teacher) && split(records[i].responseIds).Ok? {
      assert SpansOk(split(records[i].responseIds).value, |records[i].responseIds|);
    }
  }

  lemma DistinctBehind(front: seq<Candidate>, offers: seq<Candidate>, i: nat)
    requires DistinctSteps(front) && forall c :: c in front ==> c.recordIndex < i
    requires forall k :: 0 <= k < |offers| ==> offers[k].recordIndex == i && offers[k].stepIndex == k
    ensures DistinctSteps(front + offers)
  {}

  // ----- everything that is offered -----

  /** A step the sampler has to choose from: of a record whose dataset is wanted and whose outcome
      has its action enabled, that can be split, any step but its last. */
  ghost predicate Selectable(c: Candidate, records: seq<Record>, s: Settings, split: Splitter, student: bool,
                             teacher: bool)
  {
    && c.recordIndex < |records|
    && var r := records[c.recordIndex];
    && r.dataset in s.datasets && (if r.correct then student else teacher)
    && split(r.responseIds).Ok?
    && var spans := split(r.responseIds).value;
    && c.stepIndex + 1 < |spans|
    && var span := spans[c.stepIndex];
    c == Candidate(Key(r.dataset, if r.correct then StudentAction else TeacherReplace), c.recordIndex, r.uid, r.answer,
                   r.promptIds, r.responseIds, c.stepIndex, span.start, span.end)
  }

  /** Exactly these are offered: no non-final step is left out. */
  lemma {:induction false} OfferedIff(records: seq<Record>, n: nat, s: Settings, split: Splitter, student: bool,
                                      teacher: bool, c: Candidate)
    requires SplitterOk(split) && n <= |records|
    ensures c in Stream(records[..n], s, split, student, teacher)
       <==> c.recordIndex < n && Selectable(c, records, s, split, student, teacher)
  {
    if n > 0 {
      OfferedIff(records, n - 1, s, split, student, teacher, c);
      OffersIff(records, n - 1, s, split, student, teacher, c);
      hide Offers, Selectable, SplitterOk;
      assert records[..n][..n - 1] == records[..n - 1];
    }
  }

  lemma OffersIff(records: seq<Record>, i: nat, s: Settings, split: Splitter, student: bool, teacher: bool,
                  c: Candidate)
    requires SplitterOk(split) && i < |records|
    ensures c in Offers(records[i], i, s, split, student, teacher)
       <==> c.recordIndex == i && Selectable(c, records, s, split, student, teacher)
  {
    var r := records[i];
    if Considered(r, s, student, teacher) && split(r.responseIds).Ok? {
      assert SpansOk(split(r.responseIds).value, |r.responseIds|);
      var offers := Offers(r, i, s, split, student, teacher);
      if c.recordIndex == i && Selectable(c, records, s, split, student, teacher) {
        assert offers[c.stepIndex] == c;
      }
    }
  }

  /** A series is offered exactly the selectable steps of its dataset and action. */
  lemma SeriesIff(records: seq<Record>, s: Settings, split: Splitter, student: bool, teacher: bool, key: Key,
                  c: Candidate)
    requires SplitterOk(split)
    ensures c in Series(Stream(records, s, split, student, teacher), key)
       <==> c.key == key && Selectable(c, records, s, split, student, teacher)
  {
    hide Selectable, Series, Stream, SplitterOk;
    OfferedIff(records, |records|, s, split, student, teacher, c);
    assert records[..|records|] == records;
    SeriesMembers(Stream(records, s, split, student, teacher), key);
    SelectableBound(records, s, split, student, teacher, c);
  }

  lemma SelectableBound(records: seq<Record>, s: Settings, split: Splitter, student: bool, teacher: bool, c: Candidate)
    ensures Selectable(c, records, s, split, student, teacher) ==> c.recordIndex < |records|
  {}

  /** How many steps the records of a series have, not counting any record's last one. */
  function StepsBeforeLast(records: seq<Record>, s: Settings, split: Splitter, student: bool, teacher: bool,
                           key: Key): nat
  {
    if records == [] then 0 else
      var r := records[|records| - 1];
      StepsBeforeLast(records[..|records| - 1], s, split, student, teacher, key)
      + if r.dataset == key.dataset && (r.correct <==> key.action == StudentAction)
           && r.dataset in s.datasets && (if r.correct then student else teacher)
           && split(r.responseIds).Ok? && split(r.responseIds).value != []
        then |split(r.responseIds).value| - 1 else 0
  }

  /** A series is offered that many steps. */
  lemma {:induction false} SeriesLength(records: seq<Record>, s: Settings, split: Splitter, student: bool,
                                        teacher: bool, key: Key)
    ensures |Series(Stream(records, s, split, student, teacher), key)|
         == StepsBeforeLast(records, s, split, student, teacher, key)
  {
    if records != [] {
      var n := |records| - 1;
      SeriesLength(records[..n], s, split, student, teacher, key);
      var offers := Offers(records[n], n, s, split, student, teacher);
      SeriesAppend(Stream(records[..n], s, split, student, teacher), offers, key);
      UniformSeries(offers, key, if offers == [] then key else offers[0].key);
    }
  }

  lemma {:induction false} SeriesAppend(a: seq<Candidate>, b: seq<Candidate>, key: Key)
    ensures Series(a + b, key) == Series(a, key) + Series(b, key)
  {
    if b == [] {
      assert a + b == a;
    } else {
      var n := |b| - 1;
      SeriesAppend(a, b[..n], key);
      assert (a + b)[..|a + b| - 1] == a + b[..n];
    }
  }

  lemma {:induction false} UniformSeries(cs: seq<Candidate>, key: Key, own: Key)
    requires forall i :: 0 <= i < |cs| ==> cs[i].key == own
    ensures |Series(cs, key)| == if key == own then |cs| else 0
  {
    if cs != [] {
      UniformSeries(cs[..|cs| - 1], key, own);
    }
  }

  /** Steps are offered in the order of records, and inside a record in its own order. */
  lemma {:induction false} OfferedInOrder(records: seq<Record>, n: nat, s: Settings, split: Splitter, student: bool,
                                          teacher: bool, i: nat, j: nat)
    requires SplitterOk(split) && n <= |records|
    requires i < j < |Stream(records[..n], s, split, student, teacher)|
    ensures var all := Stream(records[..n], s, split, student, teacher);
      || all[i].recordIndex < all[j].recordIndex
      || (all[i].recordIndex == all[j].recordIndex && all[i].stepIndex < all[j].stepIndex)
  {
    if n > 0 {
      assert records[..n][..n - 1] == records[..n - 1];
      var front := Stream(records[..n - 1], s, split, student, teacher);
      if j < |front| {
        OfferedInOrder(records, n - 1, s, split, student, teacher, i, j);
      } else {
        StreamEligible(records, n - 1, s, split, student, teacher);
        OffersEligible(records, n - 1, s, split, student, teacher);
        hide Eligible, Offers, SplitterOk;
        if i < |front| {
          assert front[i] in front;
        }
      }
    }
  }

  lemma StepAppended(before: seq<Candidate>, c: Candidate)
    requires DistinctSteps(before) && forall k :: 0 <= k < |before| ==> !SameStep(before[k], c)
    ensures DistinctSteps(before + [c])
  {}

  lemma {:induction false} SeriesMembers(all: seq<Candidate>, key: Key)
    ensures forall c :: c in Series(all, key) <==> c in all && c.key == key
  {
    if all != [] {
      var front, last := all[..|all| - 1], all[|all| - 1];
      SeriesMembers(front, key);
      forall c ensures c in Series(all, key) <==> c in all && c.key == key {
        SnocMember(front, last, c);
        assert all == front + [last];
      }
    }
  }

  lemma SnocMember(front: seq<Candidate>, last: Candidate, c: Candidate)
    ensures c in front + [last] <==> c in front || c == last
  {}

  lemma {:induction false} SeriesDistinct(all: seq<Candidate>, key: Key)
    requires DistinctSteps(all)
    ensures DistinctSteps(Series(all, key))
  {
    if all != [] {
      var front, last := all[..|all| - 1], all[|all| - 1];
      SeriesDistinct(front, key);
      if last.key == key {
        SeriesMembers(front, key);
        forall k | 0 <= k < |Series(front, key)| ensures !SameStep(Series(front, key)[k], last) {
          LastIsOther(all, Series(front, key)[k]);
        }
        StepAppended(Series(front, key), last);
      } else {
        assert Series(all, key) == Series(front, key);
      }
    }
  }

  lemma LastIsOther(all: seq<Candidate>, c: Candidate)
    requires all != [] && DistinctSteps(all) && c in all[..|all| - 1]
    ensures !SameStep(c, all[|all| - 1])
  {
    var i :| 0 <= i < |all| - 1 && all[..|all| - 1][i] == c;
    assert all[i] == c;
  }

  /** What a series' reservoir ends with: the offers that survive its draws. */
  ghost function Final(all: seq<Candidate>, cap: nat, draw: Draws, key: Key): seq<Candidate>
    requires DrawsOk(draw, cap)
  {
    Held(cap, Series(all, key), DrawsFor(draw, key, cap, |Series(all, key)|))
  }

  /** In every run the reservoir of a series holds min(cap, offered) distinct steps of that series,
      none of them a trajectory's final step. */
  lemma ReservoirSound(records: seq<Record>, s: Settings, split: Splitter, draw: Draws, student: bool, teacher: bool,
                       key: Key, reservoir: seq<Candidate>)
    requires DrawsOk(draw, s.cap) && SplitterOk(split)
    requires reservoir == Final(Stream(records, s, split, student, teacher), s.cap, draw, key)
    ensures |reservoir| == Min(s.cap, |Series(Stream(records, s, split, student, teacher), key)|)
    ensures DistinctSteps(reservoir)
    ensures forall c :: c in reservoir ==> c.key == key && Eligible(c, records, s, split)
  {
    var all := Stream(records, s, split, student, teacher);
    assert records[..|records|] == records;
    StreamEligible(records, |records|, s, split, student, teacher);
    var items := Series(all, key);
    SeriesMembers(all, key);
    SeriesDistinct(all, key);
    var kept := Kept(s.cap, |items|, DrawsFor(draw, key, s.cap, |items|));
    forall i | 0 <= i < |reservoir| ensures reservoir[i] in items {
      assert reservoir[i] == items[kept[i]];
    }
    forall i, j | 0 <= i < j < |reservoir|
      ensures !SameStep(reservoir[i], reservoir[j])
    {
      assert kept[i] != kept[j];
      assert reservoir[i] == items[kept[i]] && reservoir[j] == items[kept[j]];
    }
  }

  // ----- numbering the selection -----

  function Digits(n: nat): string {
    if n < 10 then [Digit(n)] else Digits(n / 10) + [Digit(n % 10)]
  }

  function Digit(d: nat): char
    requires d < 10
  {
    "0123456789"[d]
  }

  lemma DigitInjective(a: nat, b: nat)
    requires a < 10 && b < 10 && Digit(a) == Digit(b)
    ensures a == b
  {}

  lemma {:induction false} DigitsInjective(a: nat, b: nat)
    requires Digits(a) == Digits(b)
    ensures a == b
    decreases a
  {
    DigitsLonger(a);
    DigitsLonger(b);
    var da, db := Digits(a), Digits(b);
    DigitInjective(a % 10, b % 10);
    if a >= 10 {
      assert da[..|da| - 1] == Digits(a / 10) && db[..|db| - 1] == Digits(b / 10);
      DigitsInjective(a / 10, b / 10);
    }
  }

  lemma {:induction false} DigitsLonger(a: nat)
    ensures |Digits(a)| >= 1 && (|Digits(a)| == 1 <==> a < 10)
    ensures Digits(a)[|Digits(a)| - 1] == Digit(a % 10)
    ensures ':' !in Digits(a)
  {
    if a >= 10 {
      DigitsLonger(a / 10);
    }
  }

  /** The number a text of decimal digits stands for. */
  function NumberOf(digits: string): int {
    if digits == "" then 0 else
      NumberOf(digits[..|digits| - 1]) * 10 + (digits[|digits| - 1] as int - '0' as int)
  }

  lemma {:induction false} DigitsStandForIt(n: nat)
    ensures NumberOf(Digits(n)) == n
  {
    DigitsLonger(n);
    var digits := Digits(n);
    DigitStandsForIt(n % 10);
    if n >= 10 {
      DigitsStandForIt(n / 10);
      assert digits[..|digits| - 1] == Digits(n / 10);
    } else {
      assert digits[..|digits| - 1] == "";
    }
  }

  lemma DigitStandsForIt(d: nat)
    requires d < 10
    ensures Digit(d) as int - '0' as int == d
  {}

  /** What stands behind the last colon determines where that colon is. */
  lemma LastField(a: string, b: string, c: string, d: string)
    requires ':' !in b && ':' !in d && a + ":" + b == c + ":" + d
    ensures a == c && b == d
  {
    var s, t := a + ":" + b, c + ":" + d;
    assert s[|a|] == ':' && t[|c|] == ':';
    forall k | |a| < k < |s| ensures s[k] != ':' {
      assert s[k] == b[k - |a| - 1];
    }
    forall k | |c| < k < |t| ensures t[k] != ':' {
      assert t[k] == d[k - |c| - 1];
    }
    assert |a| == |c|;
    assert s[..|a|] == a && t[..|c|] == c;
    assert s[|a| + 1..] == b && t[|c| + 1..] == d;
  }

  function CaseId(c: Candidate): string {
    c.key.dataset + ":" + c.uid + ":" + Digits(c.recordIndex) + ":" + Digits(c.stepIndex) + ":" + Label(c.key.action)
  }

  /** A case id names its rollout and step, whatever colons dataset and uid contain. */
  lemma CaseIdNamesStep(c: Candidate, d: Candidate)
    requires CaseId(c) == CaseId(d)
    ensures c.recordIndex == d.recordIndex && c.stepIndex == d.stepIndex && c.key.action == d.key.action
  {
    var c1 := c.key.dataset + ":" + c.uid;
    var d1 := d.key.dataset + ":" + d.uid;
    var c2, d2 := c1 + ":" + Digits(c.recordIndex), d1 + ":" + Digits(d.recordIndex);
    var c3, d3 := c2 + ":" + Digits(c.stepIndex), d2 + ":" + Digits(d.stepIndex);
    LabelPlain(c.key.action, d.key.action);
    DigitsLonger(c.stepIndex);
    DigitsLonger(d.stepIndex);
    DigitsLonger(c.recordIndex);
    DigitsLonger(d.recordIndex);
    LastField(c3, Label(c.key.action), d3, Label(d.key.action));
    LastField(c2, Digits(c.stepIndex), d2, Digits(d.stepIndex));
    LastField(c1, Digits(c.recordIndex), d1, Digits(d.recordIndex));
    DigitsInjective(c.recordIndex, d.recordIndex);
    DigitsInjective(c.stepIndex, d.stepIndex);
  }

  lemma LabelPlain(a: Action, b: Action)
    ensures ':' !in Label(a) && (Label(a) == Label(b) ==> a == b)
  {
    assert |"student_action"| == 14 && |"teacher_replace"| == 15;
  }

  datatype Case = Case(candidate: Candidate, caseIndex: nat, caseId: string, seed: int)

  function Number(c: Candidate, index: nat, s: Settings): Case {
    Case(c, index, CaseId(c), s.seed + index * 10000)
  }

  /** Any shuffle: the order in which a series' n reservoir slots are emitted. */
  ghost predicate ShuffleOk(order: (Key, nat) -> seq<nat>) {
    forall key, n :: |order(key, n)| == n && Distinct(order(key, n)) && forall i :: 0 <= i < n ==> order(key, n)[i] < n
  }

  function Actions(student: bool, teacher: bool): seq<Action> {
    (if student then [StudentAction] else []) + (if teacher then [TeacherReplace] else [])
  }

  /** The series in reporting order: datasets outside, actions inside. */
  function Keys(datasets: seq<string>, actions: seq<Action>): seq<Key> {
    if datasets == [] then [] else
      Keys(datasets[..|datasets| - 1], actions)
      + seq(|actions|, a requires 0 <= a < |actions| => Key(datasets[|datasets| - 1], actions[a]))
  }

  lemma {:induction false} KeysInOrder(datasets: seq<string>, actions: seq<Action>, i: nat, a: nat)
    requires i < |datasets| && a < |actions|
    ensures |Keys(datasets, actions)| == |datasets| * |actions|
    ensures 0 <= i * |actions| + a < |Keys(datasets, actions)|
    ensures Keys(datasets, actions)[i * |actions| + a] == Key(datasets[i], actions[a])
  {
    var n := |datasets| - 1;
    if n == 0 {
      assert Keys(datasets[..n], actions) == [];
    } else {
      KeysInOrder(datasets[..n], actions, if i < n then i else 0, a);
      assert (n + 1) * |actions| == n * |actions| + |actions|;
    }
  }

  /** Series are reported dataset by dataset, the Student's before the Teacher's. */
  lemma ReportingOrder(datasets: seq<string>, i: nat)
    requires i < |datasets|
    ensures |Keys(datasets, Actions(true, true))| == 2 * |datasets|
    ensures Keys(datasets, Actions(true, true))[2 * i] == Key(datasets[i], StudentAction)
    ensures Keys(datasets, Actions(true, true))[2 * i + 1] == Key(datasets[i], TeacherReplace)
    ensures |Keys(datasets, Actions(true, false))| == |Keys(datasets, Actions(false, true))| == |datasets|
    ensures Keys(datasets, Actions(true, false))[i] == Key(datasets[i], StudentAction)
    ensures Keys(datasets, Actions(false, true))[i] == Key(datasets[i], TeacherReplace)
    ensures Keys(datasets, Actions(false, false)) == []
  {
    KeysInOrder(datasets, Actions(true, true), i, 0);
    KeysInOrder(datasets, Actions(true, true), i, 1);
    KeysInOrder(datasets, Actions(true, false), i, 0);
    KeysInOrder(datasets, Actions(false, true), i, 0);
    NoActions(datasets);
  }

  lemma {:induction false} NoActions(datasets: seq<string>)
    ensures Keys(datasets, []) == []
  {
    if datasets != [] {
      NoActions(datasets[..|datasets| - 1]);
    }
  }

  /** Cases numbered in order, each a step of its own, from the series in `keys`. */
  ghost predicate CasesOk(cases: seq<Case>, keys: seq<Key>, records: seq<Record>, s: Settings, split: Splitter) {
    && (forall i :: 0 <= i < |cases| ==> CaseOk(cases[i], i, keys, records, s, split))
    && DistinctSteps(Candidates(cases))
  }

  ghost predicate CaseOk(c: Case, i: nat, keys: seq<Key>, records: seq<Record>, s: Settings, split: Splitter) {
    c == Number(c.candidate, i, s) && c.candidate.key in keys && Eligible(c.candidate, records, s, split)
  }

  function Candidates(cases: seq<Case>): (r: seq<Candidate>)
    ensures |r| == |cases|
    ensures forall i :: 0 <= i < |cases| ==> r[i] == cases[i].candidate
  {
    seq(|cases|, i requires 0 <= i < |cases| => cases[i].candidate)
  }

  function CountKey(cases: seq<Case>, key: Key): nat {
    if cases == [] then 0 else
      CountKey(cases[..|cases| - 1], key) + if cases[|cases| - 1].candidate.key == key then 1 else 0
  }

  lemma {:induction false} KeysListed(datasets: seq<string>, actions: seq<Action>)
    requires Distinct(datasets) && Distinct(actions)
    ensures Distinct(Keys(datasets, actions))
    ensures forall k :: k in Keys(datasets, actions) <==> k.dataset in datasets && k.action in actions
  {
    if datasets != [] {
      var front, last := datasets[..|datasets| - 1], datasets[|datasets| - 1];
      KeysListed(front, actions);
      assert datasets == front + [last];
      var own := seq(|actions|, a requires 0 <= a < |actions| => Key(last, actions[a]));
      forall k: Key | k.dataset == last && k.action in actions ensures k in own {
        var a :| 0 <= a < |actions| && actions[a] == k.action;
        assert own[a] == k;
      }
      var all := Keys(front, actions) + own;
      forall i, j | 0 <= i < j < |all| ensures all[i] != all[j] {
        if i < |all| - |own| <= j {
          assert all[i] in Keys(front, actions);
        }
      }
    }
  }

  function Shuffled(reservoir: seq<Candidate>, order: seq<nat>): (r: seq<Candidate>)
    requires |order| == |reservoir| && forall i :: 0 <= i < |order| ==> order[i] < |reservoir|
    ensures |r| == |reservoir|
  {
    seq(|order|, i requires 0 <= i < |order| => reservoir[order[i]])
  }

  lemma ShuffledKeeps(reservoir: seq<Candidate>, order: seq<nat>)
    requires |order| == |reservoir| && Distinct(order) && forall i :: 0 <= i < |order| ==> order[i] < |reservoir|
    requires DistinctSteps(reservoir)
    ensures DistinctSteps(Shuffled(reservoir, order))
    ensures forall c :: c in Shuffled(reservoir, order) ==> c in reservoir
  {
    var r := Shuffled(reservoir, order);
    forall i, j | 0 <= i < j < |r|
      ensures !SameStep(r[i], r[j])
    {
      assert order[i] != order[j];
      assert r[i] == reservoir[order[i]] && r[j] == reservoir[order[j]];
    }
  }

  /** Number one series' rows behind the cases so far. */
  method EmitSeries(cases: seq<Case>, rows: seq<Candidate>, key: Key, done: seq<Key>, records: seq<Record>,
                    s: Settings, split: Splitter) returns (all: seq<Case>)
    requires CasesOk(cases, done, records, s, split) && key !in done && DistinctSteps(rows)
    requires forall c :: c in rows ==> c.key == key && Eligible(c, records, s, split)
    ensures CasesOk(all, done + [key], records, s, split)
    ensures CountedOn(cases, all, key, |rows|)
    ensures Emitted(cases, all, rows, |rows|)
  {
    all := cases;
    StillOk(cases, done, key, records, s, split);
    for i := 0 to |rows|
      invariant Emitted(cases, all, rows, i)
      invariant CasesOk(all, done + [key], records, s, split)
      invariant CountedOn(cases, all, key, i)
    {
      EmitStep(cases, all, rows, i, key, done, records, s, split);
      all := all + [Number(rows[i], |all|, s)];
    }
  }

  lemma StillOk(cases: seq<Case>, done: seq<Key>, key: Key, records: seq<Record>, s: Settings, split: Splitter)
    requires CasesOk(cases, done, records, s, split)
    ensures CasesOk(cases, done + [key], records, s, split)
  {
    forall i | 0 <= i < |cases| ensures CaseOk(cases[i], i, done + [key], records, s, split) {
      assert CaseOk(cases[i], i, done, records, s, split);
    }
  }

  /** `all` has i cases more than `cases` in series `key`, and as many in every other. */
  ghost predicate CountedOn(cases: seq<Case>, all: seq<Case>, key: Key, i: nat) {
    forall k :: CountKey(all, k) == CountKey(cases, k) + if k == key then i else 0
  }

  lemma EmitStep(cases: seq<Case>, all: seq<Case>, rows: seq<Candidate>, i: nat, key: Key, done: seq<Key>,
                 records: seq<Record>, s: Settings, split: Splitter)
    requires i < |rows| && Emitted(cases, all, rows, i) && CountedOn(cases, all, key, i)
    requires CasesOk(cases, done, records, s, split) && CasesOk(all, done + [key], records, s, split)
    requires key !in done && DistinctSteps(rows)
    requires rows[i].key == key && Eligible(rows[i], records, s, split)
    ensures Emitted(cases, all + [Number(rows[i], |all|, s)], rows, i + 1)
    ensures CasesOk(all + [Number(rows[i], |all|, s)], done + [key], records, s, split)
    ensures CountedOn(cases, all + [Number(rows[i], |all|, s)], key, i + 1)
  {
    hide CasesOk, Eligible, SameStep, DistinctSteps;
    forall k | 0 <= k < |all| ensures !SameStep(Candidates(all)[k], rows[i]) {
      RowIsNew(cases, Candidates(all), rows, i, key, done, records, s, split, k);
    }
    AppendCaseOk(all, rows[i], done + [key], records, s, split);
    assert rows[..i + 1] == rows[..i] + [rows[i]];
    CountAppended(all, Number(rows[i], |all|, s));
  }

  lemma CountAppended(cases: seq<Case>, c: Case)
    ensures forall k :: CountKey(cases + [c], k) == CountKey(cases, k) + if c.candidate.key == k then 1 else 0
  {
    assert (cases + [c])[..|cases|] == cases;
  }

  /** `all` is `cases` followed by the first i rows. */
  ghost predicate Emitted(cases: seq<Case>, all: seq<Case>, rows: seq<Candidate>, i: nat)
    requires i <= |rows|
  {
    Candidates(all) == Candidates(cases) + rows[..i]
  }

  /** A row of a fresh series repeats no step emitted before it. */
  lemma RowIsNew(cases: seq<Case>, before: seq<Candidate>, rows: seq<Candidate>, i: nat, key: Key, done: seq<Key>,
                 records: seq<Record>, s: Settings, split: Splitter, k: nat)
    requires i < |rows| && before == Candidates(cases) + rows[..i] && k < |before|
    requires CasesOk(cases, done, records, s, split)
    requires key !in done && DistinctSteps(rows)
    requires rows[i].key == key && Eligible(rows[i], records, s, split)
    ensures !SameStep(before[k], rows[i])
  {
    if k < |cases| {
      assert CaseOk(cases[k], k, done, records, s, split);
      assert before[k] == Candidates(cases)[k] == cases[k].candidate;
      OtherSeriesOtherRecord(cases[k].candidate, rows[i], records, s, split);
    } else {
      assert before[k] == rows[k - |cases|];
    }
  }

  lemma AppendCaseOk(all: seq<Case>, c: Candidate, keys: seq<Key>, records: seq<Record>, s: Settings, split: Splitter)
    requires CasesOk(all, keys, records, s, split)
    requires c.key in keys && Eligible(c, records, s, split)
    requires forall k :: 0 <= k < |all| ==> !SameStep(Candidates(all)[k], c)
    ensures CasesOk(all + [Number(c, |all|, s)], keys, records, s, split)
    ensures Candidates(all + [Number(c, |all|, s)]) == Candidates(all) + [c]
  {
    var next := all + [Number(c, |all|, s)];
    assert Candidates(next) == Candidates(all) + [c];
    StepAppended(Candidates(all), c);
    forall i | 0 <= i < |next| ensures CaseOk(next[i], i, keys, records, s, split) {
      if i < |all| {
        assert CaseOk(all[i], i, keys, records, s, split);
      }
    }
  }

  /** A rollout feeds one series only. */
  lemma OtherSeriesOtherRecord(c: Candidate, d: Candidate, records: seq<Record>, s: Settings, split: Splitter)
    requires Eligible(c, records, s, split) && Eligible(d, records, s, split) && c.key != d.key
    ensures !SameStep(c, d)
  {}

  /** The selection: series by series, each final reservoir in its shuffled order. */
  ghost function Emission(all: seq<Candidate>, cap: nat, draw: Draws, order: (Key, nat) -> seq<nat>, keys: seq<Key>)
    : seq<Candidate>
    requires DrawsOk(draw, cap) && ShuffleOk(order)
  {
    if keys == [] then [] else
      Emission(all, cap, draw, order, keys[..|keys| - 1]) + ShuffledFinal(all, cap, draw, order, keys[|keys| - 1])
  }

  ghost function ShuffledFinal(all: seq<Candidate>, cap: nat, draw: Draws, order: (Key, nat) -> seq<nat>, key: Key)
    : seq<Candidate>
    requires DrawsOk(draw, cap) && ShuffleOk(order)
  {
    var final := Final(all, cap, draw, key);
    Shuffled(final, order(key, |final|))
  }

  /** Everything of a series stands in front of everything of a later one. */
  ghost predicate SeriesInOrder(cs: seq<Candidate>, keys: seq<Key>) {
    forall i, j, a, b ::
      0 <= i < |cs| && 0 <= j < |cs| && 0 <= a < b < |keys| && cs[i].key == keys[a] && cs[j].key == keys[b] ==> i < j
  }

  lemma {:induction false} EmissionInOrder(all: seq<Candidate>, cap: nat, draw: Draws, order: (Key, nat) -> seq<nat>,
                                           keys: seq<Key>)
    requires DrawsOk(draw, cap) && ShuffleOk(order) && Distinct(keys)
    ensures SeriesInOrder(Emission(all, cap, draw, order, keys), keys)
    ensures forall c :: c in Emission(all, cap, draw, order, keys) ==> c.key in keys
  {
    if keys != [] {
      var n := |keys| - 1;
      EmissionInOrder(all, cap, draw, order, keys[..n]);
      ShuffledKey(all, cap, draw, order, keys[n]);
      hide ShuffledFinal, ShuffleOk, DrawsOk;
      assert keys == keys[..n] + [keys[n]];
      var front, own := Emission(all, cap, draw, order, keys[..n]), ShuffledFinal(all, cap, draw, order, keys[n]);
      BehindInOrder(front, own, keys[..n], keys[n]);
    }
  }

  lemma BehindInOrder(front: seq<Candidate>, own: seq<Candidate>, keys: seq<Key>, key: Key)
    requires SeriesInOrder(front, keys) && key !in keys
    requires (forall c :: c in front ==> c.key in keys) && forall c :: c in own ==> c.key == key
    ensures SeriesInOrder(front + own, keys + [key])
  {
    var cs, all := front + own, keys + [key];
    forall i | 0 <= i < |cs| ensures if i < |front| then cs[i].key in keys else cs[i].key == key {
      assert cs[i] in if i < |front| then front else own;
    }
    forall i, j, a, b |
      0 <= i < |cs| && 0 <= j < |cs| && 0 <= a < b < |all| && cs[i].key == all[a] && cs[j].key == all[b]
      ensures i < j
    {}
  }

  lemma ShuffledKey(all: seq<Candidate>, cap: nat, draw: Draws, order: (Key, nat) -> seq<nat>, key: Key)
    requires DrawsOk(draw, cap) && ShuffleOk(order)
    ensures forall c :: c in ShuffledFinal(all, cap, draw, order, key) ==> c.key == key
  {
    var final := Final(all, cap, draw, key);
    forall c | c in ShuffledFinal(all, cap, draw, order, key) ensures c.key == key {
      assert c in final;
      FinalIsOffered(all, cap, draw, key, c);
      SeriesMembers(all, key);
    }
  }

  lemma EmissionStep(before: seq<Case>, after: seq<Case>, rows: seq<Candidate>, keys: seq<Key>, k: nat,
                     all: seq<Candidate>, cap: nat, draw: Draws, order: (Key, nat) -> seq<nat>)
    requires DrawsOk(draw, cap) && ShuffleOk(order) && k < |keys|
    requires Candidates(before) == Emission(all, cap, draw, order, keys[..k])
    requires rows == ShuffledFinal(all, cap, draw, order, keys[k]) && Emitted(before, after, rows, |rows|)
    ensures Candidates(after) == Emission(all, cap, draw, order, keys[..k + 1])
  {
    hide ShuffledFinal, ShuffleOk, DrawsOk;
    assert rows[..|rows|] == rows;
    assert keys[..k + 1][..k] == keys[..k];
  }

  /** Emit the series in reporting order, every reservoir in full. */
  method EmitAll(sampler: Sampler, keys: seq<Key>, records: seq<Record>, s: Settings, split: Splitter,
                 order: (Key, nat) -> seq<nat>, student: bool, teacher: bool) returns (cases: seq<Case>)
    requires sampler.Valid() && sampler.cap == s.cap && SplitterOk(split) && ShuffleOk(order) && Distinct(keys)
    requires sampler.seen == Stream(records, s, split, student, teacher)
    ensures CasesOk(cases, keys, records, s, split)
    ensures CountsOk(cases, keys, |keys|, s.cap, Stream(records, s, split, student, teacher))
    ensures FromReservoirs(cases, Stream(records, s, split, student, teacher), s.cap, sampler.draw)
    ensures Candidates(cases) == Emission(Stream(records, s, split, student, teacher), s.cap, sampler.draw, order, keys)
  {
    hide ShuffleOk, DrawsOk, ShuffledFinal, Final, CasesOk, CountsOk, CountedOn, FromReservoirs, Emitted;
    StartEmission(keys, records, s, split, Stream(records, s, split, student, teacher), sampler.draw);
    ghost var all := Stream(records, s, split, student, teacher);
    cases := [];
    for k := 0 to |keys|
      invariant CasesOk(cases, keys[..k], records, s, split)
      invariant CountsOk(cases, keys, k, s.cap, all)
      invariant FromReservoirs(cases, all, s.cap, sampler.draw)
      invariant Candidates(cases) == Emission(all, s.cap, sampler.draw, order, keys[..k])
    {
      var rows := SeriesRows(sampler, keys[k], records, s, split, order, student, teacher);
      ghost var before := cases;
      FreshKey(keys, k);
      cases := EmitSeries(cases, rows, keys[k], keys[..k], records, s, split);
      CountsStep(before, cases, keys, k, s.cap, all);
      FromStep(before, cases, rows, keys[k], all, s.cap, sampler.draw);
      EmissionStep(before, cases, rows, keys, k, all, s.cap, sampler.draw, order);
    }
    assert keys[..|keys|] == keys;
  }

  lemma StartEmission(keys: seq<Key>, records: seq<Record>, s: Settings, split: Splitter, all: seq<Candidate>,
                      draw: Draws)
    requires DrawsOk(draw, s.cap)
    ensures CasesOk([], keys[..0], records, s, split) && CountsOk([], keys, 0, s.cap, all)
    ensures FromReservoirs([], all, s.cap, draw) && Candidates([]) == []
  {}

  /** Every case was in its series' reservoir at the end of discovery. */
  ghost predicate FromReservoirs(cases: seq<Case>, all: seq<Candidate>, cap: nat, draw: Draws)
    requires DrawsOk(draw, cap)
  {
    forall c :: c in Candidates(cases) ==> c in Final(all, cap, draw, c.key)
  }

  lemma FromStep(before: seq<Case>, after: seq<Case>, rows: seq<Candidate>, key: Key, all: seq<Candidate>, cap: nat,
                 draw: Draws)
    requires DrawsOk(draw, cap) && FromReservoirs(before, all, cap, draw) && Emitted(before, after, rows, |rows|)
    requires forall c :: c in rows ==> c.key == key && c in Final(all, cap, draw, key)
    ensures FromReservoirs(after, all, cap, draw)
  {
    assert rows[..|rows|] == rows;
  }

  lemma FreshKey(keys: seq<Key>, k: nat)
    requires k < |keys| && Distinct(keys)
    ensures keys[k] !in keys[..k] && keys[..k + 1] == keys[..k] + [keys[k]]
  {}

  /** Select the cases: in every series min(cap, offered) distinct non-final steps, numbered from
      zero across all series: exactly the offers that survive the series' draws, series by series
      in the order of each shuffle. */
  method BuildStepCases(records: seq<Record>, s: Settings, split: Splitter, draw: Draws,
                        order: (Key, nat) -> seq<nat>, student: bool, teacher: bool)
    returns (r: Result<seq<Case>>, stats: Statistics)
    requires DrawsOk(draw, s.cap) && SplitterOk(split) && ShuffleOk(order) && Distinct(s.datasets)
    ensures r.Ok? <==> student || teacher
    ensures r.Ok? ==> IsStatistics(stats, r.value, records, s, split, student, teacher)
    ensures r.Ok? ==> CasesOk(r.value, Keys(s.datasets, Actions(student, teacher)), records, s, split)
    ensures r.Ok? ==> forall key :: key in Keys(s.datasets, Actions(student, teacher)) ==>
      CountKey(r.value, key) == Min(s.cap, StepsBeforeLast(records, s, split, student, teacher, key))
    ensures r.Ok? ==> forall c :: c in Candidates(r.value) ==> Selectable(c, records, s, split, student, teacher)
    ensures r.Ok? ==> FromReservoirs(r.value, Stream(records, s, split, student, teacher), s.cap, draw)
    ensures r.Ok? ==> (
      var all, keys := Stream(records, s, split, student, teacher), Keys(s.datasets, Actions(student, teacher));
      && Candidates(r.value) == Emission(all, s.cap, draw, order, keys)
      && SeriesInOrder(Candidates(r.value), keys))
  {
    stats := Statistics(Discovery(map[], map[], map[]), map[], map[]);
    if !student && !teacher {
      return Err("no action"), stats;
    }
    hide CasesOk, FromReservoirs, Discovered, DrawsOk, ShuffleOk, SplitterOk, Emission, IsStatistics, Stream;
    hide SeriesInOrder;
    var sampler, discovery := SampleSteps(records, s, split, draw, student, teacher);
    var keys := Keys(s.datasets, Actions(student, teacher));
    KeysListed(s.datasets, Actions(student, teacher));
    var cases := EmitAll(sampler, keys, records, s, split, order, student, teacher);
    stats := CollectStatistics(discovery, sampler, keys, cases, records, s, split, student, teacher);
    hide CountKey, Series, Selectable, Keys;
    forall key | key in keys
      ensures CountKey(cases, key) == Min(s.cap, StepsBeforeLast(records, s, split, student, teacher, key))
    {
      SeriesLength(records, s, split, student, teacher, key);
    }
    SelectedAreSelectable(cases, records, s, split, draw, student, teacher);
    EmissionInOrder(Stream(records, s, split, student, teacher), s.cap, draw, order, keys);
    return Ok(cases), stats;
  }

  /** What the selection reports of itself. */
  datatype Statistics = Statistics(discovery: Discovery, available: map<Key, nat>, selected: map<Key, nat>)

  ghost predicate IsStatistics(t: Statistics, cases: seq<Case>, records: seq<Record>, s: Settings, split: Splitter,
                               student: bool, teacher: bool)
  {
    && Discovered(t.discovery, records, s, split, student, teacher)
    && (forall key :: key in t.available <==> key in Keys(s.datasets, Actions(student, teacher)))
    && (forall key :: key in t.selected <==> key in Keys(s.datasets, Actions(student, teacher)))
    && (forall key :: key in t.available ==>
      t.available[key] == StepsBeforeLast(records, s, split, student, teacher, key))
    && forall key :: key in t.selected ==> t.selected[key] == CountKey(cases, key)
  }

  method CollectStatistics(d: Discovery, sampler: Sampler, keys: seq<Key>, cases: seq<Case>, records: seq<Record>,
                           s: Settings, split: Splitter, student: bool, teacher: bool) returns (t: Statistics)
    requires sampler.Valid() && sampler.cap == s.cap && keys == Keys(s.datasets, Actions(student, teacher))
    requires sampler.seen == Stream(records, s, split, student, teacher)
    requires CountsOk(cases, keys, |keys|, s.cap, sampler.seen)
    requires Discovered(d, records, s, split, student, teacher)
    ensures IsStatistics(t, cases, records, s, split, student, teacher)
  {
    hide Discovered, Keys, Stream, Series, CountKey, CountsOk, Sampler.Valid;
    var available: map<Key, nat> := map[];
    var selected: map<Key, nat> := map[];
    for k := 0 to |keys|
      invariant forall key :: key in available <==> key in keys[..k]
      invariant forall key :: key in selected <==> key in keys[..k]
      invariant forall key :: key in available ==> available[key] == |Series(sampler.seen, key)|
      invariant forall key :: key in selected ==> selected[key] == CountKey(cases, key)
    {
      var key := keys[k];
      ReservoirHolds(sampler, keys, k, cases);
      available := available[key := GetOr(sampler.available, key, 0)];
      selected := selected[key := |GetOr(sampler.reservoirs, key, [])|];
    }
    assert keys[..|keys|] == keys;
    t := Statistics(d, available, selected);
    forall key | key in available
      ensures available[key] == StepsBeforeLast(records, s, split, student, teacher, key)
    {
      SeriesLength(records, s, split, student, teacher, key);
    }
  }

  lemma SelectedAreSelectable(cases: seq<Case>, records: seq<Record>, s: Settings, split: Splitter, draw: Draws,
                              student: bool, teacher: bool)
    requires DrawsOk(draw, s.cap) && SplitterOk(split)
    requires FromReservoirs(cases, Stream(records, s, split, student, teacher), s.cap, draw)
    ensures forall c :: c in Candidates(cases) ==> Selectable(c, records, s, split, student, teacher)
  {
    hide Selectable, SplitterOk, DrawsOk, Final, Stream;
    var all := Stream(records, s, split, student, teacher);
    forall c | c in Candidates(cases) ensures Selectable(c, records, s, split, student, teacher) {
      FinalIsOffered(all, s.cap, draw, c.key, c);
      SeriesIff(records, s, split, student, teacher, c.key, c);
    }
  }

  lemma FinalIsOffered(all: seq<Candidate>, cap: nat, draw: Draws, key: Key, c: Candidate)
    requires DrawsOk(draw, cap) && c in Final(all, cap, draw, key)
    ensures c in Series(all, key)
  {
    var items := Series(all, key);
    var kept := Kept(cap, |items|, DrawsFor(draw, key, cap, |items|));
    var i :| 0 <= i < |kept| && Final(all, cap, draw, key)[i] == c;
    assert items[kept[i]] == c;
  }

  /** A series' reservoir holds as many steps as are selected of it. */
  lemma ReservoirHolds(sampler: Sampler, keys: seq<Key>, k: nat, cases: seq<Case>)
    requires sampler.Valid() && k < |keys| && CountsOk(cases, keys, |keys|, sampler.cap, sampler.seen)
    ensures GetOr(sampler.available, keys[k], 0) == |Series(sampler.seen, keys[k])|
    ensures |GetOr(sampler.reservoirs, keys[k], [])| == CountKey(cases, keys[k])
  {
    assert TracksAt(sampler.cap, sampler.draw, sampler.seen, sampler.View(), keys[k]);
  }

  /** The first k series are emitted with their full reservoirs, the others not yet. */
  ghost predicate CountsOk(cases: seq<Case>, keys: seq<Key>, k: nat, cap: nat, all: seq<Candidate>)
    requires k <= |keys|
  {
    && (forall j :: 0 <= j < k ==> CountKey(cases, keys[j]) == Min(cap, |Series(all, keys[j])|))
    && forall j :: k <= j < |keys| ==> CountKey(cases, keys[j]) == 0
  }

  lemma CountsStep(before: seq<Case>, after: seq<Case>, keys: seq<Key>, k: nat, cap: nat, all: seq<Candidate>)
    requires k < |keys| && Distinct(keys) && CountsOk(before, keys, k, cap, all)
    requires CountedOn(before, after, keys[k], Min(cap, |Series(all, keys[k])|))
    ensures CountsOk(after, keys, k + 1, cap, all)
  {}

  /** One series' reservoir, shuffled. */
  method SeriesRows(sampler: Sampler, key: Key, records: seq<Record>, s: Settings, split: Splitter,
                    order: (Key, nat) -> seq<nat>, student: bool, teacher: bool) returns (rows: seq<Candidate>)
    requires sampler.Valid() && sampler.cap == s.cap && SplitterOk(split) && ShuffleOk(order)
    requires sampler.seen == Stream(records, s, split, student, teacher)
    ensures |rows| == Min(s.cap, |Series(Stream(records, s, split, student, teacher), key)|)
    ensures DistinctSteps(rows)
    ensures forall c :: c in rows ==> c.key == key && Eligible(c, records, s, split)
    ensures forall c :: c in rows ==> c in Final(sampler.seen, s.cap, sampler.draw, key)
    ensures rows == ShuffledFinal(sampler.seen, s.cap, sampler.draw, order, key)
  {
    var reservoir := GetOr(sampler.reservoirs, key, []);
    assert TracksAt(sampler.cap, sampler.draw, sampler.seen, sampler.View(), key);
    ReservoirSound(records, s, split, sampler.draw, student, teacher, key, reservoir);
    rows := Shuffled(reservoir, order(key, |reservoir|));
    ShuffledKeeps(reservoir, order(key, |reservoir|));
  }

  // ----- ids and seeds -----

  /** Case ids are pairwise distinct. */
  lemma CaseIdsUnique(cases: seq<Case>, keys: seq<Key>, records: seq<Record>, s: Settings, split: Splitter, i: nat,
                      j: nat)
    requires CasesOk(cases, keys, records, s, split) && i < j < |cases|
    ensures cases[i].caseId != cases[j].caseId
  {
    assert !SameStep(Candidates(cases)[i], Candidates(cases)[j]);
    if cases[i].caseId == cases[j].caseId {
      CaseIdNamesStep(cases[i].candidate, cases[j].candidate);
    }
  }

  /** Case i of a selection bears the number i, the name of its dataset, rollout, step and action,
      and a seed ten thousand behind the one before it. */
  lemma CaseIs(cases: seq<Case>, keys: seq<Key>, records: seq<Record>, s: Settings, split: Splitter, i: nat)
    requires CasesOk(cases, keys, records, s, split) && i < |cases|
    ensures cases[i].caseIndex == i && cases[i].seed == s.seed + 10000 * i
    ensures var c := cases[i].candidate;
      cases[i].caseId ==
        c.key.dataset + ":" + c.uid + ":" + Digits(c.recordIndex) + ":" + Digits(c.stepIndex) + ":"
        + if c.key.action == StudentAction then "student_action" else "teacher_replace"
  {
    assert CaseOk(cases[i], i, keys, records, s, split);
  }

  /** With at most 1000 samples per arm no two requests of a selection share a seed. */
  lemma SelectionSeeds(cases: seq<Case>, keys: seq<Key>, records: seq<Record>, s: Settings, split: Splitter, i: nat,
                       u: Use, j: nat, v: Use)
    requires CasesOk(cases, keys, records, s, split) && s.mcK <= 1000
    requires i < |cases| && j < |cases| && ValidUse(u, s.mcK) && ValidUse(v, s.mcK) && (i, u) != (j, v)
    ensures SeedOf(cases[i].seed, u) != SeedOf(cases[j].seed, v)
  {
    hide CasesOk;
    CaseIs(cases, keys, records, s, split, i);
    CaseIs(cases, keys, records, s, split, j);
    SeedsDistinctIff(|cases|, s);
  }

  /** The three uses of a case's seed block: two Monte-Carlo arms and one teacher proposal. */
  datatype Use = Baseline(sample: nat) | ActionArm(sample: nat) | Proposal

  predicate ValidUse(u: Use, mcK: nat) { u.Proposal? || u.sample < mcK }

  function SeedOf(caseSeed: int, u: Use): int {
    match u
    case Baseline(i) => caseSeed + i
    case ActionArm(i) => caseSeed + 1000 + i
    case Proposal => caseSeed + 5000
  }

  ghost predicate SeedsDistinct(count: nat, s: Settings) {
    forall i: nat, j: nat, u, v ::
      i < count && j < count && ValidUse(u, s.mcK) && ValidUse(v, s.mcK) && (i, u) != (j, v) ==>
      SeedOf(s.seed + i * 10000, u) != SeedOf(s.seed + j * 10000, v)
  }

  /** All request seeds of a selection are pairwise distinct exactly when at most 1000 samples are
      drawn per arm: one more and the action arm starts repeating the baseline's seeds. */
  lemma SeedsDistinctIff(count: nat, s: Settings)
    requires count > 0
    ensures SeedsDistinct(count, s) <==> s.mcK <= 1000
  {
    if s.mcK > 1000 {
      assert SeedOf(s.seed + 0 * 10000, Baseline(1000)) == SeedOf(s.seed + 0 * 10000, ActionArm(0));
      assert ValidUse(Baseline(1000), s.mcK) && ValidUse(ActionArm(0), s.mcK);
      assert (0 as nat, Baseline(1000)) != (0 as nat, ActionArm(0));
    } else {
      forall i: nat, j: nat, u, v |
        i < count && j < count && ValidUse(u, s.mcK) && ValidUse(v, s.mcK) && (i, u) != (j, v)
        ensures SeedOf(s.seed + i * 10000, u) != SeedOf(s.seed + j * 10000, v)
      {}
    }
  }
}
