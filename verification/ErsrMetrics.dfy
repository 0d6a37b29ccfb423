/** Reporting ERSR results per dataset and action. Models utils/ersr_evaluation.py and utils/ersr.py. */
module ErsrMetrics {
  import opened Basics
  import opened ErsrCases
  import opened StagedErsr

  // ----- what a series holds -----

  function Advantages(results: seq<CaseResult>, key: Key): seq<real> {
    if results == [] then [] else
      var last := results[|results| - 1];
      Advantages(results[..|results| - 1], key) + if last.Measured? && last.key == key then [last.advantage] else []
  }

  function SkippedCount(results: seq<CaseResult>, key: Key): nat {
    if results == [] then 0 else
      var last := results[|results| - 1];
      SkippedCount(results[..|results| - 1], key) + if last.Skipped? && last.key == key then 1 else 0
  }

  function Mean(values: seq<real>): Option<real> {
    if values == [] then None else Some(Sum(values) / (|values| as real))
  }

  datatype SeriesRow = SeriesRow(mean: Option<real>, selected: nat, valid: nat, skipped: nat)

  datatype Summary = Summary(rows: seq<SeriesRow>, macro: Option<real>, weighted: Option<real>, totals: Counts)

  /** The counts a report keeps while it reads the results. */
  datatype Tallies = Tallies(selected: map<Key, nat>, values: map<Key, seq<real>>, skipped: map<Key, nat>)

  ghost predicate TalliesOk(t: Tallies, results: seq<CaseResult>, cases: seq<Case>) {
    forall key ::
      && GetOr(t.selected, key, 0) == CountKey(cases, key)
      && (key in t.selected ==> CountKey(cases, key) > 0)
      && GetOr(t.values, key, []) == Advantages(results, key)
      && GetOr(t.skipped, key, 0) == SkippedCount(results, key)
  }

  method Tabulate(results: seq<CaseResult>, cases: seq<Case>) returns (t: Tallies)
    ensures TalliesOk(t, results, cases)
  {
    var selected: map<Key, nat> := map[];
    for i := 0 to |cases|
      invariant forall key ::
        GetOr(selected, key, 0) == CountKey(cases[..i], key) && (key in selected ==> CountKey(cases[..i], key) > 0)
    {
      assert cases[..i + 1][..i] == cases[..i];
      var key := cases[i].candidate.key;
      selected := selected[key := GetOr(selected, key, 0) + 1];
    }
    assert cases[..|cases|] == cases;
    var values: map<Key, seq<real>>, skipped: map<Key, nat> := map[], map[];
    for i := 0 to |results|
      invariant forall key :: GetOr(values, key, []) == Advantages(results[..i], key)
      invariant forall key :: GetOr(skipped, key, 0) == SkippedCount(results[..i], key)
    {
      assert results[..i + 1][..i] == results[..i];
      var r := results[i];
      if r.Measured? {
        values := values[r.key := GetOr(values, r.key, []) + [r.advantage]];
      } else {
        skipped := skipped[r.key := GetOr(skipped, r.key, 0) + 1];
      }
    }
    assert results[..|results|] == results;
    t := Tallies(selected, values, skipped);
  }

  /** One line of the report; a series nothing was selected from counts what it has results for. */
  function RowFor(results: seq<CaseResult>, cases: seq<Case>, key: Key): SeriesRow {
    var valid, skipped := |Advantages(results, key)|, SkippedCount(results, key);
    SeriesRow(Mean(Advantages(results, key)),
              if CountKey(cases, key) > 0 then CountKey(cases, key) else valid + skipped, valid, skipped)
  }

  function Rows(results: seq<CaseResult>, cases: seq<Case>, datasets: seq<string>, action: Action): (r: seq<SeriesRow>)
    ensures |r| == |datasets|
    ensures forall i :: 0 <= i < |r| ==> r[i] == RowFor(results, cases, Key(datasets[i], action))
  {
    seq(|datasets|, i requires 0 <= i < |datasets| => RowFor(results, cases, Key(datasets[i], action)))
  }

  /** The dataset means that exist. */
  function Means(rows: seq<SeriesRow>): seq<real> {
    if rows == [] then [] else
      Means(rows[..|rows| - 1]) + if rows[|rows| - 1].mean.Some? then [rows[|rows| - 1].mean.value] else []
  }

  /** All advantages of one action, dataset by dataset. */
  function Pooled(results: seq<CaseResult>, datasets: seq<string>, action: Action): seq<real> {
    if datasets == [] then [] else
      Pooled(results, datasets[..|datasets| - 1], action) + Advantages(results, Key(datasets[|datasets| - 1], action))
  }

  datatype Counts = Counts(selected: nat, valid: nat, skipped: nat)

  function Totals(rows: seq<SeriesRow>): Counts {
    if rows == [] then Counts(0, 0, 0) else
      var front, last := Totals(rows[..|rows| - 1]), rows[|rows| - 1];
      Counts(front.selected + last.selected, front.valid + last.valid, front.skipped + last.skipped)
  }

  ghost predicate IsSummary(s: Summary, results: seq<CaseResult>, cases: seq<Case>, datasets: seq<string>,
                            action: Action)
  {
    && s.rows == Rows(results, cases, datasets, action)
    && s.macro == Mean(Means(s.rows))
    && s.weighted == Mean(Pooled(results, datasets, action))
    && s.totals == Totals(s.rows)
  }

  function TallyRow(t: Tallies, key: Key): SeriesRow {
    var values, skips := GetOr(t.values, key, []), GetOr(t.skipped, key, 0);
    SeriesRow(Mean(values), GetOr(t.selected, key, |values| + skips), |values|, skips)
  }

  lemma TallyRowIs(t: Tallies, results: seq<CaseResult>, cases: seq<Case>, key: Key)
    requires TalliesOk(t, results, cases)
    ensures TallyRow(t, key) == RowFor(results, cases, key)
    ensures GetOr(t.values, key, []) == Advantages(results, key)
  {
    hide Mean;
  }

  function Extend(totals: Counts, row: SeriesRow): Counts {
    Counts(totals.selected + row.selected, totals.valid + row.valid, totals.skipped + row.skipped)
  }

  lemma DatasetsStep(results: seq<CaseResult>, cases: seq<Case>, datasets: seq<string>, action: Action, i: nat)
    requires i < |datasets|
    ensures Rows(results, cases, datasets[..i + 1], action)
      == Rows(results, cases, datasets[..i], action) + [RowFor(results, cases, Key(datasets[i], action))]
    ensures Pooled(results, datasets[..i + 1], action)
      == Pooled(results, datasets[..i], action) + Advantages(results, Key(datasets[i], action))
  {
    hide RowFor, Advantages;
    assert datasets[..i + 1][..i] == datasets[..i];
  }

  lemma NoDatasets(results: seq<CaseResult>, cases: seq<Case>, action: Action)
    ensures Rows(results, cases, [], action) == [] && Pooled(results, [], action) == []
    ensures Totals([]) == Counts(0, 0, 0) && Means([]) == []
  {}

  lemma RowSnoc(rows: seq<SeriesRow>, row: SeriesRow)
    ensures Totals(rows + [row]) == Extend(Totals(rows), row)
    ensures Means(rows + [row]) == if row.mean.Some? then Means(rows) + [row.mean.value] else Means(rows)
  {
    assert (rows + [row])[..|rows|] == rows;
  }

  method Summarize(results: seq<CaseResult>, cases: seq<Case>, datasets: seq<string>, action: Action)
    returns (s: Summary)
    ensures IsSummary(s, results, cases, datasets, action)
  {
    hide RowFor, TallyRow, Mean, TalliesOk, Advantages, Rows, Pooled, Means, Totals;
    var t := Tabulate(results, cases);
    NoDatasets(results, cases, action);
    var rows: seq<SeriesRow>, pooled: seq<real>, means: seq<real>, totals := [], [], [], Counts(0, 0, 0);
    for i := 0 to |datasets|
      invariant rows == Rows(results, cases, datasets[..i], action) && means == Means(rows)
      invariant pooled == Pooled(results, datasets[..i], action)
      invariant totals == Totals(rows)
    {
      var key := Key(datasets[i], action);
      TallyRowIs(t, results, cases, key);
      var row := TallyRow(t, key);
      DatasetsStep(results, cases, datasets, action, i);
      RowSnoc(rows, row);
      rows, pooled, totals := rows + [row], pooled + GetOr(t.values, key, []), Extend(totals, row);
      if row.mean.Some? {
        means := means + [row.mean.value];
      }
    }
    assert datasets[..|datasets|] == datasets;
    s := Summary(rows, Mean(means), Mean(pooled), totals);
  }

  // ----- nothing selected is lost -----

  function InSeries(results: seq<CaseResult>, key: Key): nat { |Advantages(results, key)| + SkippedCount(results, key) }

  lemma {:induction false} InSeriesAppend(a: seq<CaseResult>, b: seq<CaseResult>, key: Key)
    ensures InSeries(a + b, key) == InSeries(a, key) + InSeries(b, key)
    decreases |b|
  {
    if b == [] {
      assert a + b == a;
    } else {
      InSeriesAppend(a, b[..|b| - 1], key);
      assert (a + b)[..|a + b| - 1] == a + b[..|b| - 1];
    }
  }

  lemma InSeriesPick(e: Site, cases: seq<Case>, phase: nat, key: Key)
    requires cases != [] && forall i :: 0 <= i < |cases| ==> CaseReady(e, cases[i])
    ensures var last := cases[|cases| - 1];
      InSeries(Pick(e, cases, phase), key) == InSeries(Pick(e, cases[..|cases| - 1], phase), key)
        + if Phase(e, last) == phase && last.candidate.key == key then 1 else 0
  {
    var last := cases[|cases| - 1];
    var front := Pick(e, cases[..|cases| - 1], phase);
    assert (front + [Expected(e, last)])[..|front|] == front;
    assert front + [] == front;
  }

  lemma {:induction false} PhasesBalance(e: Site, cases: seq<Case>, key: Key)
    requires forall i :: 0 <= i < |cases| ==> CaseReady(e, cases[i])
    ensures CountKey(cases, key) == InSeries(Pick(e, cases, 0), key) + InSeries(Pick(e, cases, 1), key)
                                    + InSeries(Pick(e, cases, 2), key)
  {
    hide CaseReady, Phase;
    if cases != [] {
      assert CaseReady(e, cases[|cases| - 1]);
      PhasesBalance(e, cases[..|cases| - 1], key);
      InSeriesPick(e, cases, 0, key);
      InSeriesPick(e, cases, 1, key);
      InSeriesPick(e, cases, 2, key);
    }
  }

  /** In every series of a staged evaluation, selected = valid + skipped. */
  lemma SeriesBalance(e: Site, cases: seq<Case>, key: Key)
    requires forall i :: 0 <= i < |cases| ==> CaseReady(e, cases[i])
    ensures CountKey(cases, key)
      == |Advantages(StagedResults(e, cases), key)| + SkippedCount(StagedResults(e, cases), key)
  {
    PhasesBalance(e, cases, key);
    InSeriesAppend(Pick(e, cases, 0) + Pick(e, cases, 1), Pick(e, cases, 2), key);
    InSeriesAppend(Pick(e, cases, 0), Pick(e, cases, 1), key);
  }

  lemma {:induction false} TotalsAdd(rows: seq<SeriesRow>)
    requires forall i :: 0 <= i < |rows| ==> rows[i].selected == rows[i].valid + rows[i].skipped
    ensures Totals(rows).selected == Totals(rows).valid + Totals(rows).skipped
  {
    if rows != [] {
      TotalsAdd(rows[..|rows| - 1]);
    }
  }

  /** ... and so it is in the report, line by line and in total. */
  lemma SummaryBalances(s: Summary, e: Site, cases: seq<Case>, datasets: seq<string>, action: Action)
    requires forall i :: 0 <= i < |cases| ==> CaseReady(e, cases[i])
    requires IsSummary(s, StagedResults(e, cases), cases, datasets, action)
    ensures |s.rows| == |datasets|
    ensures forall i :: 0 <= i < |datasets| ==> s.rows[i].selected == CountKey(cases, Key(datasets[i], action))
    ensures forall i :: 0 <= i < |datasets| ==> s.rows[i].selected == s.rows[i].valid + s.rows[i].skipped
    ensures s.totals.selected == s.totals.valid + s.totals.skipped
  {
    forall i | 0 <= i < |datasets|
      ensures s.rows[i].selected == s.rows[i].valid + s.rows[i].skipped == CountKey(cases, Key(datasets[i], action))
    {
      SeriesBalance(e, cases, Key(datasets[i], action));
    }
    TotalsAdd(s.rows);
  }

  // ----- the three means -----

  lemma {:induction false} SumAppend(a: seq<real>, b: seq<real>)
    ensures Sum(a + b) == Sum(a) + Sum(b)
    decreases |b|
  {
    if b == [] {
      assert a + b == a;
    } else {
      SumAppend(a, b[..|b| - 1]);
      assert (a + b)[..|a + b| - 1] == a + b[..|b| - 1];
    }
  }

  /** A dataset's share of the sum: its mean times its number of valid steps. */
  function Mass(row: SeriesRow): real { if row.mean.Some? then row.mean.value * (row.valid as real) else 0.0 }

  function WeightedMass(rows: seq<SeriesRow>): real {
    if rows == [] then 0.0 else WeightedMass(rows[..|rows| - 1]) + Mass(rows[|rows| - 1])
  }

  lemma MeanTimesCount(values: seq<real>)
    requires values != []
    ensures Mean(values).Some? && Mean(values).value * (|values| as real) == Sum(values)
  {
    var n := |values| as real;
    assert n > 0.0;
    assert Sum(values) / n * n == Sum(values);
  }

  lemma MassIsSum(results: seq<CaseResult>, cases: seq<Case>, key: Key)
    ensures Mass(RowFor(results, cases, key)) == Sum(Advantages(results, key))
    ensures RowFor(results, cases, key).valid == |Advantages(results, key)|
  {
    if Advantages(results, key) != [] {
      MeanTimesCount(Advantages(results, key));
    }
  }

  lemma {:induction false} PooledMass(results: seq<CaseResult>, cases: seq<Case>, datasets: seq<string>, action: Action)
    ensures Sum(Pooled(results, datasets, action)) == WeightedMass(Rows(results, cases, datasets, action))
    ensures |Pooled(results, datasets, action)| == Totals(Rows(results, cases, datasets, action)).valid
  {
    hide Mass, RowFor, Advantages;
    if datasets != [] {
      var n := |datasets| - 1;
      PooledMass(results, cases, datasets[..n], action);
      assert Rows(results, cases, datasets, action)[..n] == Rows(results, cases, datasets[..n], action);
      SumAppend(Pooled(results, datasets[..n], action), Advantages(results, Key(datasets[n], action)));
      MassIsSum(results, cases, Key(datasets[n], action));
    }
  }

  /** The weighted mean is the average of the dataset means by valid steps; it is missing exactly
      when no step of the action is valid. */
  lemma WeightedMeanConserves(s: Summary, results: seq<CaseResult>, cases: seq<Case>, datasets: seq<string>,
                              action: Action)
    requires IsSummary(s, results, cases, datasets, action)
    ensures s.weighted.None? <==> s.totals.valid == 0
    ensures s.weighted.Some? ==> s.weighted.value * (s.totals.valid as real) == WeightedMass(s.rows)
  {
    hide WeightedMass, Pooled, Rows, Means, Totals;
    PooledMass(results, cases, datasets, action);
    var pooled := Pooled(results, datasets, action);
    if pooled != [] {
      MeanTimesCount(pooled);
    }
  }

  // ----- what the means are means of -----

  function IsMeasuredIn(key: Key): CaseResult -> bool { (r: CaseResult) => r.Measured? && r.key == key }

  function IsSkippedIn(key: Key): CaseResult -> bool { (r: CaseResult) => r.Skipped? && r.key == key }

  /** What each result adds to a series: how much better the action fared than the baseline. */
  function Gains(results: seq<CaseResult>, key: Key): (r: seq<real>)
    ensures |r| == |results|
  {
    seq(|results|, i requires 0 <= i < |results| =>
      if results[i].Measured? && results[i].key == key then results[i].action - results[i].baseline else 0.0)
  }

  ghost predicate GainsReported(results: seq<CaseResult>) {
    forall r :: r in results && r.Measured? ==> r.advantage == r.action - r.baseline
  }

  lemma {:induction false} SeriesCounts(results: seq<CaseResult>, key: Key)
    ensures |Advantages(results, key)| == |Hits(results, IsMeasuredIn(key))|
    ensures SkippedCount(results, key) == |Hits(results, IsSkippedIn(key))|
  {
    HitsNext(results, IsMeasuredIn(key));
    HitsNext(results, IsSkippedIn(key));
    if results != [] {
      hide Hits;
      SeriesCounts(results[..|results| - 1], key);
    }
  }

  lemma GainsNext(results: seq<CaseResult>, key: Key)
    requires results != []
    ensures var n := |results| - 1;
      Sum(Gains(results, key)) == Sum(Gains(results[..n], key))
        + if results[n].Measured? && results[n].key == key then results[n].action - results[n].baseline else 0.0
  {
    var n := |results| - 1;
    assert Gains(results, key)[..n] == Gains(results[..n], key);
  }

  lemma {:induction false} AdvantagesAre(results: seq<CaseResult>, key: Key)
    requires GainsReported(results)
    ensures Sum(Advantages(results, key)) == Sum(Gains(results, key))
  {
    if results != [] {
      hide Gains, Sum;
      var n := |results| - 1;
      assert results == results[..n] + [results[n]];
      AdvantagesAre(results[..n], key);
      GainsNext(results, key);
      var front := Advantages(results[..n], key);
      if results[n].Measured? && results[n].key == key {
        SumSnoc(front, results[n].advantage);
      } else {
        assert front + [] == front;
      }
    } else {
      assert Gains(results, key) == [];
    }
  }

  lemma {:induction false} PickedGains(e: Site, cases: seq<Case>, phase: nat)
    requires forall i :: 0 <= i < |cases| ==> CaseReady(e, cases[i])
    ensures GainsReported(Pick(e, cases, phase))
  {
    if cases != [] {
      hide CaseReady, Phase;
      PickedGains(e, cases[..|cases| - 1], phase);
      ExpectedGain(e, cases[|cases| - 1]);
    }
  }

  lemma ExpectedGain(e: Site, c: Case)
    requires CaseReady(e, c)
    ensures var r := Expected(e, c); r.Measured? ==> r.advantage == r.action - r.baseline
  {}

  lemma StagedGains(e: Site, cases: seq<Case>)
    requires forall i :: 0 <= i < |cases| ==> CaseReady(e, cases[i])
    ensures GainsReported(StagedResults(e, cases))
  {
    hide CaseReady, Pick;
    PickedGains(e, cases, 0);
    PickedGains(e, cases, 1);
    PickedGains(e, cases, 2);
  }

  /** A report line of a staged evaluation: as many valid and skipped steps as the series has measured
      and skipped results, and the mean of what the actions gained over their baselines. */
  lemma LineMeans(e: Site, cases: seq<Case>, key: Key)
    requires forall i :: 0 <= i < |cases| ==> CaseReady(e, cases[i])
    ensures var results := StagedResults(e, cases);
      var row := RowFor(results, cases, key);
      && row.valid == |Hits(results, IsMeasuredIn(key))|
      && row.skipped == |Hits(results, IsSkippedIn(key))|
      && (row.mean.None? <==> row.valid == 0)
      && (row.mean.Some? ==> row.mean.value * (row.valid as real) == Sum(Gains(results, key)))
  {
    hide CaseReady, StagedResults, GainsReported, RowFor, Hits, Gains;
    StagedGains(e, cases);
    var results := StagedResults(e, cases);
    AdvantagesAre(results, key);
    SeriesCounts(results, key);
    MassIsSum(results, cases, key);
    RowParts(results, cases, key);
  }

  lemma RowParts(results: seq<CaseResult>, cases: seq<Case>, key: Key)
    ensures var row := RowFor(results, cases, key);
      && row.valid == |Advantages(results, key)| && row.skipped == SkippedCount(results, key)
      && (row.mean.None? <==> row.valid == 0)
  {}

  function HasMean(): SeriesRow -> bool { (row: SeriesRow) => row.mean.Some? }

  function MeanOrZero(rows: seq<SeriesRow>): (r: seq<real>)
    ensures |r| == |rows|
  {
    seq(|rows|, i requires 0 <= i < |rows| => if rows[i].mean.Some? then rows[i].mean.value else 0.0)
  }

  lemma {:induction false} MeansAre(rows: seq<SeriesRow>)
    ensures Sum(Means(rows)) == Sum(MeanOrZero(rows)) && |Means(rows)| == |Hits(rows, HasMean())|
  {
    HitsNext(rows, HasMean());
    if rows != [] {
      hide Hits;
      var n := |rows| - 1;
      MeansAre(rows[..n]);
      assert MeanOrZero(rows)[..n] == MeanOrZero(rows[..n]);
      hide Sum;
      if rows[n].mean.Some? {
        SumSnoc(Means(rows[..n]), rows[n].mean.value);
      } else {
        assert Means(rows[..n]) + [] == Means(rows[..n]);
      }
      SumSnoc(MeanOrZero(rows[..n]), MeanOrZero(rows)[n]);
      assert MeanOrZero(rows) == MeanOrZero(rows[..n]) + [MeanOrZero(rows)[n]];
    }
  }

  /** The macro mean weighs every dataset that has a mean alike; it is missing when none has. */
  lemma MacroMeanIs(s: Summary, results: seq<CaseResult>, cases: seq<Case>, datasets: seq<string>, action: Action)
    requires IsSummary(s, results, cases, datasets, action)
    ensures s.macro.None? <==> forall i :: 0 <= i < |s.rows| ==> s.rows[i].mean.None?
    ensures s.macro.Some? ==> s.macro.value * (|Hits(s.rows, HasMean())| as real) == Sum(MeanOrZero(s.rows))
  {
    hide Pooled, Rows, Means, Totals, Hits, Sum, MeanOrZero;
    MeansAre(s.rows);
    NoHits(s.rows, HasMean());
    if Means(s.rows) != [] {
      MeanTimesCount(Means(s.rows));
    }
  }

  // ----- the training-time report -----

  function ReasonCount(results: seq<CaseResult>, reason: string): nat {
    if results == [] then 0 else
      var last := results[|results| - 1];
      ReasonCount(results[..|results| - 1], reason) + if last.Skipped? && last.reason == reason then 1 else 0
  }

  function GivesReason(reason: string): CaseResult -> bool { (r: CaseResult) => r.Skipped? && r.reason == reason }

  lemma {:induction false} ReasonCountIs(results: seq<CaseResult>, reason: string)
    ensures ReasonCount(results, reason) == |Hits(results, GivesReason(reason))|
  {
    HitsNext(results, GivesReason(reason));
    if results != [] {
      hide Hits;
      ReasonCountIs(results[..|results| - 1], reason);
    }
  }

  /** `aggregate_ersr_advantages`: the same means, with zero for a series that has none. */
  method Aggregate(results: seq<CaseResult>, keys: seq<Key>) returns (means: map<Key, real>, skipped: map<string, nat>)
    ensures forall key :: key in means <==> key in keys
    ensures forall key :: key in keys ==> means[key] == GetOrZero(Mean(Advantages(results, key)))
    ensures forall reason :: GetOr(skipped, reason, 0) == ReasonCount(results, reason)
  {
    hide Advantages, ReasonCount;
    var grouped;
    grouped, skipped := GroupResults(results);
    means := map[];
    for k := 0 to |keys|
      invariant forall key :: key in means <==> key in keys[..k]
      invariant forall key :: key in keys[..k] ==> means[key] == GetOrZero(Mean(Advantages(results, key)))
    {
      var values := GetOr(grouped, keys[k], []);
      means := means[keys[k] := if values != [] then Sum(values) / (|values| as real) else 0.0];
    }
  }

  method GroupResults(results: seq<CaseResult>) returns (grouped: map<Key, seq<real>>, skipped: map<string, nat>)
    ensures forall key :: GetOr(grouped, key, []) == Advantages(results, key)
    ensures forall reason :: GetOr(skipped, reason, 0) == ReasonCount(results, reason)
  {
    grouped, skipped := map[], map[];
    for i := 0 to |results|
      invariant forall key :: GetOr(grouped, key, []) == Advantages(results[..i], key)
      invariant forall reason :: GetOr(skipped, reason, 0) == ReasonCount(results[..i], reason)
    {
      assert results[..i + 1][..i] == results[..i];
      var r := results[i];
      if r.Skipped? {
        skipped := skipped[r.reason := GetOr(skipped, r.reason, 0) + 1];
      } else {
        grouped := grouped[r.key := GetOr(grouped, r.key, []) + [r.advantage]];
      }
    }
    assert results[..|results|] == results;
  }

  function GetOrZero(mean: Option<real>): real { match mean case Some(x) => x case None => 0.0 }
}
