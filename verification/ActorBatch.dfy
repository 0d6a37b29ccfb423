/** From one packed actor forward to the token modulation of every row of the batch.
    Models utils/r2opl.py and verl/workers/engine/fsdp/transformer_impl.py. */
module ActorBatch {
  import opened Basics
  import opened ProbeLayout
  import opened PackedForward
  import TM = TokenModulation

  // ----- scores of a padded batch -----

  function PadTo(row: seq<real>, width: nat, padValue: real): seq<real>
    requires |row| <= width
  {
    row + seq(width - |row|, _ => padValue)
  }

  /** The scores of row i: those of separate forwards, then padding. */
  ghost predicate ScoresOf<H>(m: Model<H>, prob: (H, int) -> real, l: Layout, width: nat, padValue: real,
                              scores: seq<real>)
    requires Accepted(l)
  {
    && |l.branches| <= width == |scores|
    && (forall j :: 0 <= j < |l.branches| ==> scores[j] == SeparateScore(m, prob, l, j))
    && forall j :: |l.branches| <= j < width ==> scores[j] == padValue
  }

  /** Score a padded batch: every row holds the scores its probes would get in forwards of their
      own, and the mask marks them. */
  method PackedProbabilities<H>(prob: (H, int) -> real, states: seq<seq<H>>, layouts: seq<Layout>, padValue: real,
                                ghost m: Model<H>, ghost inputs: seq<Input>)
    returns (r: Result<seq<seq<real>>>, mask: seq<seq<bool>>)
    requires |inputs| == |layouts|
    requires forall i :: 0 <= i < |layouts| && i < |states| && Accepted(layouts[i]) ==>
      InputFor(inputs[i], layouts[i]) && states[i] == States(m, inputs[i])
    ensures r.Ok? <==> |states| == |layouts| && forall i :: 0 <= i < |layouts| ==> Accepted(layouts[i])
    ensures r.Ok? ==> |r.value| == |mask| == |layouts|
    ensures r.Ok? ==> forall i :: 0 <= i < |layouts| ==>
      && ScoresOf(m, prob, layouts[i], Widest(BranchCounts(layouts)), padValue, r.value[i])
      && mask[i] == TM.PrefixMask(Widest(BranchCounts(layouts)), |layouts[i].branches|)
  {
    hide Accepted, InputFor, States, Widest, SeparateScore;
    mask := [];
    if |states| != |layouts| {
      return Err("batch size"), [];
    }
    var rows: seq<seq<real>> := [];
    for i := 0 to |layouts|
      invariant |rows| == i
      invariant forall k :: 0 <= k < i ==> Accepted(layouts[k]) && |rows[k]| == |layouts[k].branches|
      invariant forall k, j :: 0 <= k < i && 0 <= j < |rows[k]| ==> rows[k][j] == SeparateScore(m, prob, layouts[k], j)
    {
      var scores := ProbeProbabilities(prob, states[i], layouts[i], m, inputs[i]);
      if scores.Err? {
        return Err(scores.reason), [];
      }
      rows := rows + [scores.value];
    }
    var n, width := |layouts|, Widest(BranchCounts(layouts));
    forall i | 0 <= i < n ensures |rows[i]| <= width {
      FitsWidths(layouts, i);
    }
    mask := seq(n, i requires 0 <= i < n => TM.PrefixMask(width, |rows[i]|));
    r := Ok(seq(n, i requires 0 <= i < n && |rows[i]| <= width => PadTo(rows[i], width, padValue)));
  }

  // ----- log-probabilities of the rollouts -----

  /** What the states of a token sequence say about each next token, and zero behind the last one;
      `readout` is the log-probability of a token, or the entropy, which ignores the token. */
  function Readouts<H>(readout: (H, int) -> real, states: seq<H>, tokens: seq<int>): (r: seq<real>)
    requires |tokens| <= |states|
    ensures |r| == |tokens|
  {
    seq(|tokens|, q requires 0 <= q < |tokens| =>
      if q + 1 < |tokens| then readout(states[q], tokens[q + 1]) else 0.0)
  }

  /** The row a forward of the unpacked rollout alone would give. */
  function UnpackedReadouts<H>(m: Model<H>, readout: (H, int) -> real, l: Layout): seq<real>
    requires Accepted(l)
  {
    var tokens := PromptOf(l) + ResponseOf(l);
    Readouts(readout, States(m, Standalone(tokens)), tokens)
  }

  /** Every entry but the last reads the next token off the state in front of it, as a forward of
      prompt and response alone computes it. */
  ghost predicate ReadsNextTokens<H>(m: Model<H>, readout: (H, int) -> real, l: Layout, row: seq<real>)
    requires Accepted(l)
  {
    var tokens := PromptOf(l) + ResponseOf(l);
    && |row| == |tokens|
    && (forall q :: 0 <= q < |tokens| - 1 ==>
      row[q] == readout(Hidden(m, Standalone(tokens), |m.layers|, q), tokens[q + 1]))
    && (row != [] ==> row[|row| - 1] == 0.0)
  }

  lemma UnpackedReadsNext<H>(m: Model<H>, readout: (H, int) -> real, l: Layout)
    requires Accepted(l)
    ensures ReadsNextTokens(m, readout, l, UnpackedReadouts(m, readout, l))
  {
    hide Accepted, Hidden;
  }

  /** Packing probes behind the rollouts changes none of their log-probabilities: every row read
      off the packed forward is that of the unpacked rollout. It fails exactly on a rollout of a
      single token. */
  method ReadoutRows<H>(readout: (H, int) -> real, states: seq<seq<H>>, layouts: seq<Layout>,
                        ghost m: Model<H>, ghost inputs: seq<Input>) returns (r: Result<seq<seq<real>>>)
    requires |inputs| == |states| == |layouts|
    requires forall i :: 0 <= i < |layouts| ==>
      Accepted(layouts[i]) && InputFor(inputs[i], layouts[i]) && states[i] == States(m, inputs[i])
    ensures r.Ok? <==> forall i :: 0 <= i < |layouts| ==> layouts[i].originalLength >= 2
    ensures r.Ok? ==> |r.value| == |layouts|
    ensures r.Ok? ==> forall i :: 0 <= i < |layouts| ==> r.value[i] == UnpackedReadouts(m, readout, layouts[i])
    ensures r.Ok? ==> forall i :: 0 <= i < |layouts| ==> ReadsNextTokens(m, readout, layouts[i], r.value[i])
  {
    hide Accepted, InputFor, States, UnpackedReadouts, Readouts, ReadsNextTokens;
    var rows: seq<seq<real>> := [];
    for i := 0 to |layouts|
      invariant |rows| == i
      invariant forall k :: 0 <= k < i ==>
        && layouts[k].originalLength >= 2 && rows[k] == UnpackedReadouts(m, readout, layouts[k])
        && ReadsNextTokens(m, readout, layouts[k], rows[k])
    {
      var l := layouts[i];
      if l.originalLength < 2 {
        return Err("original sequence");
      }
      OriginalCovered(inputs[i], l);
      PackedReadouts(m, readout, inputs[i], l);
      UnpackedReadsNext(m, readout, l);
      rows := rows + [Readouts(readout, states[i], l.sequenceIds[..l.originalLength])];
    }
    return Ok(rows);
  }

  lemma OriginalCovered(x: Input, l: Layout)
    requires Accepted(l) && InputFor(x, l)
    ensures 0 <= l.originalLength <= |l.sequenceIds| <= |x.tokens| && x.Valid()
  {}

  lemma PackedReadouts<H>(m: Model<H>, readout: (H, int) -> real, x: Input, l: Layout)
    requires Accepted(l) && InputFor(x, l) && 0 <= l.originalLength <= |l.sequenceIds| <= |x.tokens| && x.Valid()
    ensures Readouts(readout, States(m, x), l.sequenceIds[..l.originalLength]) == UnpackedReadouts(m, readout, l)
  {
    hide InputFor, Hidden, Standalone;
    var tokens := PromptOf(l) + ResponseOf(l);
    OriginalTokens(l);
    forall q: nat | q < |tokens| ensures States(m, x)[q] == States(m, Standalone(tokens))[q] {
      OriginalsUnchanged(m, x, l, |m.layers|, q);
    }
  }

  lemma OriginalTokens(l: Layout)
    requires Accepted(l)
    ensures PromptOf(l) + ResponseOf(l) == l.sequenceIds[..l.originalLength]
    ensures |Standalone(PromptOf(l) + ResponseOf(l)).tokens| == l.originalLength
  {}

  // ----- one row of the batch as the modulation sees it -----

  function RangesAt(ranges: array3<int>, row: nat): (r: seq<(int, int)>)
    requires row < ranges.Length0 && ranges.Length2 == 2
    reads ranges
    ensures |r| == ranges.Length1
  {
    seq(ranges.Length1, k requires 0 <= k < ranges.Length1 reads ranges => (ranges[row, k, 0], ranges[row, k, 1]))
  }

  function MaskAt(mask: array2<bool>, row: nat): (r: seq<bool>)
    requires row < mask.Length0
    reads mask
    ensures |r| == mask.Length1
  {
    seq(mask.Length1, k requires 0 <= k < mask.Length1 reads mask => mask[row, k])
  }

  /** A row with the scores of `l`, its branch mask, and its step ranges padded with zeros. */
  ghost predicate RowOf(row: TM.Row, l: Layout) {
    && |l.branches| <= |row.probs| && |l.stepRanges| <= |row.ranges|
    && row.branchMask == Some(TM.PrefixMask(|row.probs|, |l.branches|))
    && row.stepMask == Some(TM.PrefixMask(|row.ranges|, |l.stepRanges|))
    && row.ranges[..|l.stepRanges|] == l.stepRanges
    && (forall j :: 0 <= j < |l.branches| ==> 0.0 <= row.probs[j] <= 1.0)
    && l.responseLength <= |row.responseMask|
    && forall t :: 0 <= t < l.responseLength ==> row.responseMask[t]
  }

  lemma {:induction false} CountPrefix(width: nat, count: nat)
    requires count <= width
    ensures TM.TrueCount(TM.PrefixMask(width, count)) == count
  {
    if width > 0 {
      var mask := TM.PrefixMask(width, count);
      assert mask[..width - 1] == TM.PrefixMask(width - 1, if count == width then width - 1 else count);
      CountPrefix(width - 1, if count == width then width - 1 else count);
    }
  }

  /** The padded row of an accepted layout passes every check of the modulation, whatever the
      padding, and its steps are the layout's. */
  lemma AcceptedRowIsAcceptable(row: TM.Row, l: Layout, h: TM.Hyper)
    requires Accepted(l) && RowOf(row, l) && h.Valid()
    ensures TM.Acceptable(row, h) && TM.Steps(row) == |l.stepRanges|
  {
    var count := |l.stepRanges|;
    CountPrefix(|row.ranges|, count);
    assert |l.branches| == BranchCount(count) && Contiguous(l.stepRanges, l.responseLength);
    hide Accepted;
    forall k: nat | k < count ensures TM.RangeAcceptable(row, k) {
      assert row.ranges[..count][k] == l.stepRanges[k];
      assert k > 0 ==> row.ranges[..count][k - 1] == l.stepRanges[k - 1];
      assert l.stepRanges[k].0 == StepStart(l.stepRanges, k);
      StepStartBounds(l.stepRanges, l.responseLength, k);
    }
  }

  lemma ScoreInUnit<H(!new)>(m: Model<H>, prob: (H, int) -> real, l: Layout, j: nat)
    requires Accepted(l) && j < |l.branches| && forall s, t :: 0.0 <= prob(s, t) <= 1.0
    ensures 0.0 <= SeparateScore(m, prob, l, j) <= 1.0
  {
    assert BranchOk(l, j);
    AcceptedBranch(l, j);
    var tokens := SeparateTokens(l, j);
    var targets := Shift(AnswersOf(l)[j], l.branches[j].visiblePrefixEnd);
    TargetsInUnit(prob, States(m, Standalone(tokens)), tokens, targets);
    MeanInUnit(TargetProbabilities(prob, States(m, Standalone(tokens)), tokens, targets));
  }

  lemma TargetsInUnit<H(!new)>(prob: (H, int) -> real, states: seq<H>, ids: seq<int>, targets: seq<int>)
    requires |ids| <= |states| && forall i :: 0 <= i < |targets| ==> 0 < targets[i] < |ids|
    requires forall s, t :: 0.0 <= prob(s, t) <= 1.0
    ensures forall i :: 0 <= i < |targets| ==> 0.0 <= TargetProbabilities(prob, states, ids, targets)[i] <= 1.0
  {
    forall i | 0 <= i < |targets| ensures 0.0 <= TargetProbabilities(prob, states, ids, targets)[i] <= 1.0 {
      var state, token := states[targets[i] - 1], ids[targets[i]];
      assert 0.0 <= prob(state, token) <= 1.0;
    }
  }

  lemma {:induction false} SumInRange(s: seq<real>)
    requires forall i :: 0 <= i < |s| ==> 0.0 <= s[i] <= 1.0
    ensures 0.0 <= Sum(s) <= |s| as real
  {
    if s != [] {
      SumInRange(s[..|s| - 1]);
    }
  }

  lemma MeanInUnit(s: seq<real>)
    requires s != [] && forall i :: 0 <= i < |s| ==> 0.0 <= s[i] <= 1.0
    ensures 0.0 <= Sum(s) / |s| as real <= 1.0
  {
    SumInRange(s);
    var mean, n := Sum(s) / |s| as real, |s| as real;
    assert mean * n == Sum(s);
  }

  // ----- the whole batch -----

  ghost predicate CoversResponse(l: Layout, mask: seq<bool>) {
    l.responseLength <= |mask| && forall t :: 0 <= t < l.responseLength ==> mask[t]
  }

  /** Row i of the batch, with the scores and the branch mask of one packed forward. */
  function BatchRow(e: Extents, i: nat, scores: seq<real>, branches: seq<bool>, responseMask: seq<bool>): TM.Row
    requires i < e.stepRanges.Length0 && i < e.stepMask.Length0 && e.stepRanges.Length2 == 2
    reads e.stepRanges, e.stepMask
  {
    TM.Row(scores, Some(branches), responseMask, RangesAt(e.stepRanges, i), Some(MaskAt(e.stepMask, i)))
  }

  lemma BatchRowIsRow<H(!new)>(e: Extents, n: nat, i: nat, scores: seq<real>, responseMask: seq<bool>, l: Layout,
                         m: Model<H>, prob: (H, int) -> real, width: nat, padValue: real)
    requires e.Rows(n) && i < n && e.Holds(i, l) && Accepted(l)
    requires forall s, t :: 0.0 <= prob(s, t) <= 1.0
    requires ScoresOf(m, prob, l, width, padValue, scores) && CoversResponse(l, responseMask)
    ensures RowOf(BatchRow(e, i, scores, TM.PrefixMask(width, |l.branches|), responseMask), l)
  {
    var row := BatchRow(e, i, scores, TM.PrefixMask(width, |l.branches|), responseMask);
    assert row.ranges[..|l.stepRanges|] == l.stepRanges;
    assert row.stepMask.value == TM.PrefixMask(|row.ranges|, |l.stepRanges|);
    forall j: nat | j < |l.branches| ensures 0.0 <= row.probs[j] <= 1.0 {
      ScoreInUnit(m, prob, l, j);
    }
  }

  /** A row with this response mask, the separate scores of `l` and its steps, and its modulation. */
  ghost predicate Modulated<H>(m: Model<H>, prob: (H, int) -> real, l: Layout, width: nat, mask: seq<bool>,
                               h: TM.Hyper, row: TM.Row, modulation: TM.Modulation)
    requires Accepted(l)
  {
    && row.responseMask == mask && RowOf(row, l)
    && ScoresOf(m, prob, l, width, 0.0, row.probs)
    && TM.Acceptable(row, h) && TM.IsModulation(row, h, modulation)
  }

  /** One packed forward modulates a whole batch: with valid settings no row is ever refused, and
      every row gets the modulation of the scores that forwards of its own would give. */
  method ModulatePacked<H(!new)>(b: Batch, layouts: seq<Layout>, states: seq<seq<H>>, prob: (H, int) -> real,
                           masks: seq<seq<bool>>, h: TM.Hyper, ghost m: Model<H>)
    returns (r: Result<seq<TM.Modulation>>, ghost rows: seq<TM.Row>)
    requires (forall i :: 0 <= i < |layouts| ==> Accepted(layouts[i])) && BatchHolds(b, layouts)
    requires |states| == |masks| == |layouts|
    requires forall i :: 0 <= i < |layouts| ==> states[i] == States(m, RowInput(b.ids, b.positions, b.attention, i))
    requires forall i :: 0 <= i < |layouts| ==> CoversResponse(layouts[i], masks[i])
    requires forall s, t :: 0.0 <= prob(s, t) <= 1.0
    ensures r.Ok? <==> h.Valid() || layouts == []
    ensures r.Ok? ==> |r.value| == |rows| == |layouts|
    ensures r.Ok? ==> forall i :: 0 <= i < |layouts| ==>
      Modulated(m, prob, layouts[i], Widest(BranchCounts(layouts)), masks[i], h, rows[i], r.value[i])
  {
    hide Accepted, InputFor, States, Widest, ScoresOf, RowOf, CoversResponse, Extents.Holds;
    hide TM.Acceptable, TM.IsModulation, Modulated;
    rows := [];
    ghost var inputs := seq(|layouts|, i requires 0 <= i < |layouts| reads b.ids, b.positions, b.attention =>
      RowInput(b.ids, b.positions, b.attention, i));
    var scores, branches := PackedProbabilities(prob, states, layouts, 0.0, m, inputs);
    var modulations: seq<TM.Modulation> := [];
    for i := 0 to |layouts|
      invariant |modulations| == |rows| == i && (i > 0 ==> h.Valid())
      invariant forall k :: 0 <= k < i ==>
        Modulated(m, prob, layouts[k], Widest(BranchCounts(layouts)), masks[k], h, rows[k], modulations[k])
    {
      var row := BatchRow(b.extents, i, scores.value[i], branches[i], masks[i]);
      BatchRowIsRow(b.extents, |layouts|, i, scores.value[i], masks[i], layouts[i], m, prob,
                    Widest(BranchCounts(layouts)), 0.0);
      RowAcceptableIff(row, layouts[i], h);
      var modulation := TM.ComputeModulation(row, h);
      if modulation.Err? {
        return Err(modulation.reason), [];
      }
      IsModulated(m, prob, layouts[i], Widest(BranchCounts(layouts)), h, row, modulation.value);
      rows := rows + [row];
      modulations := modulations + [modulation.value];
    }
    r := Ok(modulations);
  }

  lemma RowAcceptableIff(row: TM.Row, l: Layout, h: TM.Hyper)
    requires Accepted(l) && RowOf(row, l)
    ensures TM.Acceptable(row, h) <==> h.Valid()
  {
    if h.Valid() {
      AcceptedRowIsAcceptable(row, l, h);
    }
  }

  lemma IsModulated<H>(m: Model<H>, prob: (H, int) -> real, l: Layout, width: nat, h: TM.Hyper, row: TM.Row,
                       modulation: TM.Modulation)
    requires Accepted(l) && RowOf(row, l) && ScoresOf(m, prob, l, width, 0.0, row.probs)
    requires TM.Acceptable(row, h) && TM.IsModulation(row, h, modulation)
    ensures Modulated(m, prob, l, width, row.responseMask, h, row, modulation)
  {}
}
