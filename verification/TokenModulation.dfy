/** Probe deltas, step gates and token multipliers.
    Models one batch row of utils/r2opl.py; the row keeps its padded widths. */
module TokenModulation {
  import opened Basics
  import opened ProbeLayout

  datatype Row = Row(
    probs: seq<real>,
    branchMask: Option<seq<bool>>,
    responseMask: seq<bool>,
    ranges: seq<(int, int)>,
    stepMask: Option<seq<bool>>)

  datatype Hyper = Hyper(alphaR: real, alphaD: real, epsilon: real) {
    predicate Valid() { alphaR >= 0.0 && alphaD >= 0.0 && 0.0 <= epsilon <= 1.0 }
  }

  datatype Modulation = Modulation(
    deltas: seq<real>,
    correctGates: seq<real>,
    errorGates: seq<real>,
    correct: seq<real>,
    error: seq<real>,
    probed: seq<bool>,
    lastStep: seq<bool>)

  function RMax(a: real, b: real): real { if a < b then b else a }

  function StepMask(row: Row): seq<bool> {
    match row.stepMask
    case Some(m) => m
    case None => seq(|row.ranges|, k requires 0 <= k < |row.ranges| => row.ranges[k].1 > row.ranges[k].0)
  }

  function TrueCount(mask: seq<bool>): nat {
    if mask == [] then 0 else TrueCount(mask[..|mask| - 1]) + if mask[|mask| - 1] then 1 else 0
  }

  /** `arange(width) < count`. */
  function PrefixMask(width: nat, count: nat): seq<bool> { seq(width, k => k < count) }

  function Steps(row: Row): nat { TrueCount(StepMask(row)) }

  predicate AllTrue(mask: seq<bool>, start: int, end: int)
    requires 0 <= start <= end <= |mask|
  {
    forall t :: start <= t < end ==> mask[t]
  }

  /** The row passes every check of the source. */
  predicate Acceptable(row: Row, h: Hyper) {
    && h.Valid()
    && |StepMask(row)| == |row.ranges|
    && StepMask(row) == PrefixMask(|row.ranges|, Steps(row))
    && Steps(row) <= |row.ranges|
    && (row.branchMask.Some? ==> row.branchMask.value == PrefixMask(|row.probs|, BranchCount(Steps(row))))
    && BranchCount(Steps(row)) <= |row.probs|
    && (forall j :: 0 <= j < BranchCount(Steps(row)) ==> 0.0 <= row.probs[j] <= 1.0)
    && RangesAcceptable(row, Steps(row))
  }

  predicate RangesAcceptable(row: Row, count: nat)
    requires count <= |row.ranges|
  {
    forall k :: 0 <= k < count ==> RangeAcceptable(row, k)
  }

  predicate RangeAcceptable(row: Row, k: nat)
    requires k < |row.ranges|
  {
    && 0 <= row.ranges[k].0 < row.ranges[k].1 <= |row.responseMask|
    && row.ranges[k].0 == StepStart(row.ranges, k)
    && AllTrue(row.responseMask, row.ranges[k].0, row.ranges[k].1)
  }

  /** The probability change a step causes; zero for the final step and for padding. */
  function Delta(probs: seq<real>, count: nat, k: nat): real
    requires count >= 2 ==> count <= |probs|
  {
    if k + 1 < count then probs[k + 1] - probs[k] else 0.0
  }

  function CorrectGate(h: Hyper, delta: real): real { RMax(h.epsilon, 1.0 + h.alphaR * delta) }
  function ErrorGate(h: Hyper, delta: real): real { RMax(0.0, 1.0 - h.alphaD * delta) }

  /** Token t belongs to step k. */
  predicate InStep(row: Row, k: nat, t: int)
    requires k < |row.ranges|
  {
    row.ranges[k].0 <= t < row.ranges[k].1
  }

  /** Tokens of a non-final step carry its gate; all others carry one. */
  ghost predicate Gated(row: Row, count: nat, gates: seq<real>, multiplier: seq<real>)
    requires count <= |row.ranges| && |gates| == |row.ranges|
  {
    && |multiplier| == |row.responseMask|
    && (forall k, t :: 0 <= k < count - 1 && 0 <= t < |multiplier| && InStep(row, k, t) ==> multiplier[t] == gates[k])
    && forall t :: 0 <= t < |multiplier| && (forall k :: 0 <= k < count - 1 ==> !InStep(row, k, t)) ==>
      multiplier[t] == 1.0
  }

  ghost predicate Marks(row: Row, low: nat, high: nat, mask: seq<bool>)
    requires high <= |row.ranges|
  {
    && |mask| == |row.responseMask|
    && forall t :: 0 <= t < |mask| ==> (mask[t] <==> exists k :: low <= k < high && InStep(row, k, t))
  }

  ghost predicate IsModulation(row: Row, h: Hyper, m: Modulation)
    requires Acceptable(row, h)
  {
    var count := Steps(row);
    && |m.deltas| == |m.correctGates| == |m.errorGates| == |row.ranges|
    && (forall k :: 0 <= k < |row.ranges| ==> m.deltas[k] == Delta(row.probs, count, k))
    && (forall k :: 0 <= k < count - 1 ==> m.correctGates[k] == CorrectGate(h, m.deltas[k]))
    && (forall k :: 0 <= k < count - 1 ==> m.errorGates[k] == ErrorGate(h, m.deltas[k]))
    && (forall k :: 0 <= k < |row.ranges| && k >= count - 1 ==> m.correctGates[k] == m.errorGates[k] == 1.0)
    && Gated(row, count, m.correctGates, m.correct)
    && Gated(row, count, m.errorGates, m.error)
    && Marks(row, 0, if count > 0 then count - 1 else 0, m.probed)
    && Marks(row, if count > 0 then count - 1 else 0, count, m.lastStep)
  }

  method ComputeModulation(row: Row, h: Hyper) returns (r: Result<Modulation>)
    ensures r.Ok? <==> Acceptable(row, h)
    ensures r.Ok? ==> IsModulation(row, h, r.value)
  {
    if !h.Valid() {
      return Err("hyperparameters");
    }
    var stepMask := StepMask(row);
    if |stepMask| != |row.ranges| {
      return Err("step mask shape");
    }
    var count := TrueCount(stepMask);
    TrueCountBound(stepMask);
    if stepMask != PrefixMask(|row.ranges|, count) {
      return Err("step mask is not a prefix");
    }
    var branches := BranchCount(count);
    if row.branchMask.Some? && row.branchMask.value != PrefixMask(|row.probs|, branches) {
      return Err("branch mask");
    }
    if branches > |row.probs| {
      return Err("missing branches");
    }
    if exists j :: 0 <= j < branches && !(0.0 <= row.probs[j] <= 1.0) {
      return Err("probability");
    }
    var rangesOk, probed, lastStep := CheckRanges(row, count);
    if !rangesOk {
      return Err("semantic ranges");
    }
    var deltas, correctGates, errorGates := StepGates(row, h, count);
    var correct := SpreadGates(row, count, correctGates);
    var error := SpreadGates(row, count, errorGates);
    return Ok(Modulation(deltas, correctGates, errorGates, correct, error, probed, lastStep));
  }

  method StepGates(row: Row, h: Hyper, count: nat)
    returns (deltas: seq<real>, correctGates: seq<real>, errorGates: seq<real>)
    requires count >= 2 ==> count <= |row.probs|
    ensures |deltas| == |correctGates| == |errorGates| == |row.ranges|
    ensures forall k :: 0 <= k < |row.ranges| ==> deltas[k] == Delta(row.probs, count, k)
    ensures forall k :: 0 <= k < |row.ranges| ==>
      correctGates[k] == if k < count - 1 then CorrectGate(h, deltas[k]) else 1.0
    ensures forall k :: 0 <= k < |row.ranges| ==>
      errorGates[k] == if k < count - 1 then ErrorGate(h, deltas[k]) else 1.0
  {
    var width := |row.ranges|;
    var d := seq(width, k requires 0 <= k < width => Delta(row.probs, count, k));
    deltas := d;
    correctGates := seq(width, k requires 0 <= k < width => if k < count - 1 then CorrectGate(h, d[k]) else 1.0);
    errorGates := seq(width, k requires 0 <= k < width => if k < count - 1 then ErrorGate(h, d[k]) else 1.0);
  }

  lemma {:induction false} TrueCountBound(mask: seq<bool>)
    ensures TrueCount(mask) <= |mask|
  {
    if mask != [] {
      TrueCountBound(mask[..|mask| - 1]);
    }
  }

  method CheckRanges(row: Row, count: nat) returns (ok: bool, probed: seq<bool>, lastStep: seq<bool>)
    requires count <= |row.ranges|
    ensures ok <==> RangesAcceptable(row, count)
    ensures ok ==> Marks(row, 0, if count > 0 then count - 1 else 0, probed)
    ensures ok ==> Marks(row, if count > 0 then count - 1 else 0, count, lastStep)
  {
    var probedTokens := new bool[|row.responseMask|](_ => false);
    var lastTokens := new bool[|row.responseMask|](_ => false);
    var previousEnd := 0;
    var final := if count > 0 then count - 1 else 0;
    for k := 0 to count
      invariant fresh(probedTokens) && fresh(lastTokens)
      invariant previousEnd == StepStart(row.ranges, k)
      invariant forall i :: 0 <= i < k ==> RangeAcceptable(row, i)
      invariant Marks(row, 0, Min(k, final), probedTokens[..])
      invariant Marks(row, final, if k == count then count else final, lastTokens[..])
    {
      var (start, end) := row.ranges[k];
      if !(0 <= start < end <= |row.responseMask|) || start != previousEnd {
        assert !RangeAcceptable(row, k);
        return false, [], [];
      }
      if !AllTrue(row.responseMask, start, end) {
        assert !RangeAcceptable(row, k);
        return false, [], [];
      }
      ghost var before := if k == count - 1 then lastTokens[..] else probedTokens[..];
      if k == count - 1 {
        forall t | start <= t < end { lastTokens[t] := true; }
        MarkSlice(row, final, k, before, lastTokens[..]);
      } else {
        forall t | start <= t < end { probedTokens[t] := true; }
        MarkSlice(row, 0, k, before, probedTokens[..]);
      }
      previousEnd := end;
    }
    return true, probedTokens[..], lastTokens[..];
  }

  lemma MarkSlice(row: Row, low: nat, k: nat, before: seq<bool>, after: seq<bool>)
    requires low <= k < |row.ranges| && Marks(row, low, k, before) && |after| == |before|
    requires forall t :: 0 <= t < |after| ==> (after[t] <==> before[t] || InStep(row, k, t))
    ensures Marks(row, low, k + 1, after)
  {}

  /** Write each non-final step's gate over its token slice. */
  method SpreadGates(row: Row, count: nat, gates: seq<real>) returns (multiplier: seq<real>)
    requires count <= |row.ranges| == |gates| && RangesAcceptable(row, count)
    ensures Gated(row, count, gates, multiplier)
  {
    var tokens := new real[|row.responseMask|](_ => 1.0);
    var k := 0;
    while k < count - 1
      invariant fresh(tokens) && 0 <= k && (k <= count - 1 || k == 0)
      invariant forall i, t :: 0 <= i < k && 0 <= t < tokens.Length && InStep(row, i, t) ==> tokens[t] == gates[i]
      invariant forall t :: 0 <= t < tokens.Length && t >= StepStart(row.ranges, k) ==> tokens[t] == 1.0
    {
      assert RangeAcceptable(row, k);
      forall i, t | 0 <= i < k && InStep(row, i, t) ensures t < row.ranges[k].0 {
        StepsBefore(row, count, i, k);
      }
      forall t | row.ranges[k].0 <= t < row.ranges[k].1 {
        tokens[t] := gates[k];
      }
      k := k + 1;
    }
    forall t | 0 <= t < tokens.Length && (forall i :: 0 <= i < count - 1 ==> !InStep(row, i, t))
      ensures tokens[t] == 1.0
    {
      if count > 1 && t < StepStart(row.ranges, count - 1) {
        var i := OwningStepOf(row, count, t, count - 1);
      }
    }
    return tokens[..];
  }

  lemma {:induction false} StepsBefore(row: Row, count: nat, i: nat, k: nat)
    requires count <= |row.ranges| && RangesAcceptable(row, count) && i < k < count
    ensures row.ranges[i].1 <= row.ranges[k].0
  {
    assert RangeAcceptable(row, k);
    if i < k - 1 {
      StepsBefore(row, count, i, k - 1);
      assert RangeAcceptable(row, k - 1);
    }
  }

  lemma {:induction false} OwningStepOf(row: Row, count: nat, t: nat, n: nat) returns (i: nat)
    requires n <= count <= |row.ranges| && RangesAcceptable(row, count) && t < StepStart(row.ranges, n)
    ensures i < n && InStep(row, i, t)
  {
    assert RangeAcceptable(row, n - 1);
    if t >= row.ranges[n - 1].0 {
      i := n - 1;
    } else {
      i := OwningStepOf(row, count, t, n - 1);
    }
  }

  // ----- consequences -----

  /** The deltas telescope: together the steps account for the whole change from P_0 to the last
      probe. */
  lemma DeltasTelescope(row: Row, h: Hyper, m: Modulation)
    requires Acceptable(row, h) && IsModulation(row, h, m)
    ensures Sum(m.deltas) == if Steps(row) >= 2 then row.probs[Steps(row) - 1] - row.probs[0] else 0.0
  {
    PartialSum(row, h, m, |m.deltas|);
    assert m.deltas[..|m.deltas|] == m.deltas;
  }

  lemma {:induction false} PartialSum(row: Row, h: Hyper, m: Modulation, n: nat)
    requires Acceptable(row, h) && IsModulation(row, h, m) && n <= |m.deltas|
    ensures Sum(m.deltas[..n])
         == if Steps(row) < 2 then 0.0 else row.probs[Min(n, Steps(row) - 1)] - row.probs[0]
  {
    if n > 0 {
      PartialSum(row, h, m, n - 1);
      assert m.deltas[..n][..n - 1] == m.deltas[..n - 1];
    }
  }

  lemma DeltaBounds(row: Row, h: Hyper, k: nat)
    requires Acceptable(row, h)
    ensures -1.0 <= Delta(row.probs, Steps(row), k) <= 1.0
  {}

  lemma GateBounds(h: Hyper, delta: real)
    requires h.Valid() && -1.0 <= delta <= 1.0
    ensures h.epsilon <= CorrectGate(h, delta) <= 1.0 + h.alphaR
    ensures 0.0 <= ErrorGate(h, delta) <= 1.0 + h.alphaD
  {
    ProductSign(h.alphaR, 1.0 - delta);
    assert h.alphaR * (1.0 - delta) == h.alphaR - h.alphaR * delta;
    ProductSign(h.alphaD, 1.0 + delta);
    assert h.alphaD * (1.0 + delta) == h.alphaD + h.alphaD * delta;
  }

  /** Multiplier bounds on every token of every accepted row. */
  lemma MultiplierBounds(row: Row, h: Hyper, m: Modulation, t: nat)
    requires Acceptable(row, h) && IsModulation(row, h, m) && t < |row.responseMask|
    ensures h.epsilon <= m.correct[t] <= 1.0 + h.alphaR
    ensures 0.0 <= m.error[t] <= 1.0 + h.alphaD
  {
    var count := Steps(row);
    if exists k: nat :: k + 1 < count && InStep(row, k, t) {
      var k: nat :| k + 1 < count && InStep(row, k, t);
      DeltaBounds(row, h, k);
      GateBounds(h, m.deltas[k]);
    }
  }

  /** The steps of an accepted row are the marked ranges in front, and without a mask the ranges
      that are not empty. */
  lemma StepsAre(row: Row, h: Hyper, k: nat)
    requires Acceptable(row, h) && k < |row.ranges|
    ensures row.stepMask.Some? ==> k < |row.stepMask.value| && (k < Steps(row) <==> row.stepMask.value[k])
    ensures row.stepMask.None? ==> (k < Steps(row) <==> row.ranges[k].0 < row.ranges[k].1)
  {
    assert StepMask(row)[k] == PrefixMask(|row.ranges|, Steps(row))[k];
  }

  /** Token t belongs to step k, which is probed before and after. */
  predicate Probed(row: Row, k: nat, t: nat) {
    k + 1 < Steps(row) <= |row.ranges| && k + 1 < |row.probs| && row.ranges[k].0 <= t < row.ranges[k].1
  }

  /** The masks: the tokens of probed steps, and those of the last step. */
  lemma MasksAre(row: Row, h: Hyper, m: Modulation, t: nat)
    requires Acceptable(row, h) && IsModulation(row, h, m) && t < |row.responseMask|
    ensures |m.probed| == |m.lastStep| == |row.responseMask|
    ensures m.probed[t] <==> exists k: nat :: Probed(row, k, t)
    ensures m.lastStep[t] <==>
      Steps(row) > 0 && row.ranges[Steps(row) - 1].0 <= t < row.ranges[Steps(row) - 1].1
  {
    var count := Steps(row);
    assert count <= |row.ranges|;
    if m.probed[t] {
      var k: nat :| k + 1 < count && InStep(row, k, t);
      assert Probed(row, k, t);
    }
    if k: nat :| Probed(row, k, t) {
      assert InStep(row, k, t);
    }
    if count > 0 {
      assert InStep(row, count - 1, t) <==> row.ranges[count - 1].0 <= t < row.ranges[count - 1].1;
    }
  }

  /** How much step k changes the probability of the gold answer. */
  function Change(row: Row, k: nat): real
    requires k + 1 < |row.probs|
  {
    row.probs[k + 1] - row.probs[k]
  }

  /** What a change c of the probability is worth to correct and to wrong tokens, before the floors. */
  function Rewarded(h: Hyper, c: real): real { 1.0 + Scale(h.alphaR, c) }
  function Pulled(h: Hyper, c: real): real { 1.0 - Scale(h.alphaD, c) }

  function Scale(a: real, c: real): real { a * c }

  /** The multipliers of a probed token, from the probabilities around its step: at least epsilon for
      correct tokens, and at least zero for wrong ones. */
  lemma MultiplierIs(row: Row, h: Hyper, m: Modulation, k: nat, t: nat)
    requires Acceptable(row, h) && IsModulation(row, h, m) && Probed(row, k, t) && t < |m.correct| == |m.error|
    ensures var reward, pull := Rewarded(h, Change(row, k)), Pulled(h, Change(row, k));
      && m.correct[t] == (if reward < h.epsilon then h.epsilon else reward)
      && m.error[t] == (if pull < 0.0 then 0.0 else pull)
  {
    assert InStep(row, k, t);
    assert m.correct[t] == m.correctGates[k] && m.error[t] == m.errorGates[k];
    assert m.deltas[k] == Delta(row.probs, Steps(row), k) == Change(row, k);
    hide Acceptable, IsModulation, Rewarded, Pulled, CorrectGate, ErrorGate;
    GatesAre(h, Change(row, k));
  }

  lemma GatesAre(h: Hyper, c: real)
    ensures CorrectGate(h, c) == (if Rewarded(h, c) < h.epsilon then h.epsilon else Rewarded(h, c))
    ensures ErrorGate(h, c) == (if Pulled(h, c) < 0.0 then 0.0 else Pulled(h, c))
  {
    assert CorrectGate(h, c) == RMax(h.epsilon, Rewarded(h, c));
    assert ErrorGate(h, c) == RMax(0.0, Pulled(h, c));
  }

  /** A step that raises the gold answer's probability is reinforced more where the trajectory is
      correct and followed less where it is wrong; one that lowers it the other way round. */
  lemma MultiplierFollowsChange(row: Row, h: Hyper, m: Modulation, k: nat, t: nat)
    requires Acceptable(row, h) && IsModulation(row, h, m) && Probed(row, k, t) && t < |m.correct| == |m.error|
    ensures row.probs[k + 1] >= row.probs[k] ==> m.correct[t] >= 1.0 >= m.error[t]
    ensures row.probs[k + 1] <= row.probs[k] ==> m.correct[t] <= 1.0 <= m.error[t]
    ensures row.probs[k + 1] > row.probs[k] && h.alphaR > 0.0 ==> m.correct[t] > 1.0
    ensures row.probs[k + 1] > row.probs[k] && h.alphaD > 0.0 ==> m.error[t] < 1.0
    ensures row.probs[k + 1] < row.probs[k] && h.alphaR > 0.0 && h.epsilon < 1.0 ==> m.correct[t] < 1.0
    ensures row.probs[k + 1] < row.probs[k] && h.alphaD > 0.0 ==> m.error[t] > 1.0
  {
    MultiplierIs(row, h, m, k, t);
    AcceptableIsValid(row, h);
    hide Acceptable, IsModulation, Probed, Rewarded, Pulled;
    WorthOf(h, Change(row, k));
  }

  lemma WorthOf(h: Hyper, c: real)
    requires h.Valid()
    ensures c >= 0.0 ==> Rewarded(h, c) >= 1.0 >= Pulled(h, c)
    ensures c <= 0.0 ==> Rewarded(h, c) <= 1.0 <= Pulled(h, c)
    ensures c > 0.0 && h.alphaR > 0.0 ==> Rewarded(h, c) > 1.0
    ensures c > 0.0 && h.alphaD > 0.0 ==> Pulled(h, c) < 1.0
    ensures c < 0.0 && h.alphaR > 0.0 ==> Rewarded(h, c) < 1.0
    ensures c < 0.0 && h.alphaD > 0.0 ==> Pulled(h, c) > 1.0
  {
    hide Scale;
    SignOf(h.alphaR, c);
    SignOf(h.alphaD, c);
  }

  lemma AcceptableIsValid(row: Row, h: Hyper)
    requires Acceptable(row, h)
    ensures h.Valid()
  {}

  lemma SignOf(a: real, c: real)
    requires a >= 0.0
    ensures c >= 0.0 ==> Scale(a, c) >= 0.0
    ensures c <= 0.0 ==> Scale(a, c) <= 0.0
    ensures a > 0.0 && c > 0.0 ==> Scale(a, c) > 0.0
    ensures a > 0.0 && c < 0.0 ==> Scale(a, c) < 0.0
  {}

  /** A larger change never gets a smaller correct multiplier or a larger error multiplier, in one
      row or in two; above the floors a strictly larger one gets strictly more and strictly less. */
  lemma MultipliersFollowChanges(row: Row, m: Modulation, k: nat, t: nat, row2: Row, m2: Modulation, k2: nat, t2: nat,
                                 h: Hyper)
    requires Acceptable(row, h) && IsModulation(row, h, m) && Probed(row, k, t) && t < |m.correct| == |m.error|
    requires Acceptable(row2, h) && IsModulation(row2, h, m2) && Probed(row2, k2, t2) && t2 < |m2.correct| == |m2.error|
    requires Change(row, k) >= Change(row2, k2)
    ensures m.correct[t] >= m2.correct[t2] && m.error[t] <= m2.error[t2]
    ensures Change(row, k) > Change(row2, k2) && h.alphaR > 0.0 && m.correct[t] > h.epsilon ==>
      m.correct[t] > m2.correct[t2]
    ensures Change(row, k) > Change(row2, k2) && h.alphaD > 0.0 && m2.error[t2] > 0.0 ==> m.error[t] < m2.error[t2]
  {
    MultiplierIs(row, h, m, k, t);
    MultiplierIs(row2, h, m2, k2, t2);
    AcceptableIsValid(row, h);
    hide Acceptable, IsModulation, Probed, Rewarded, Pulled;
    var c, d := Change(row, k), Change(row2, k2);
    WorthInOrder(h, c, d);
    InOrder(h.epsilon, Rewarded(h, c), Rewarded(h, d), m.correct[t], m2.correct[t2]);
    InOrder(0.0, Pulled(h, d), Pulled(h, c), m2.error[t2], m.error[t]);
  }

  lemma WorthInOrder(h: Hyper, c: real, d: real)
    requires h.Valid() && c >= d
    ensures Rewarded(h, c) >= Rewarded(h, d) && Pulled(h, c) <= Pulled(h, d)
    ensures c > d && h.alphaR > 0.0 ==> Rewarded(h, c) > Rewarded(h, d)
    ensures c > d && h.alphaD > 0.0 ==> Pulled(h, c) < Pulled(h, d)
  {
    RewardedInOrder(h, c, d);
    PulledInOrder(h, c, d);
    hide Rewarded, Pulled;
  }

  lemma RewardedInOrder(h: Hyper, c: real, d: real)
    requires h.Valid() && c >= d
    ensures Rewarded(h, c) >= Rewarded(h, d) && (c > d && h.alphaR > 0.0 ==> Rewarded(h, c) > Rewarded(h, d))
  {
    hide Scale;
    ScaleInOrder(h.alphaR, c, d);
  }

  lemma PulledInOrder(h: Hyper, c: real, d: real)
    requires h.Valid() && c >= d
    ensures Pulled(h, c) <= Pulled(h, d) && (c > d && h.alphaD > 0.0 ==> Pulled(h, c) < Pulled(h, d))
  {
    hide Scale;
    ScaleInOrder(h.alphaD, c, d);
  }

  lemma InOrder(floor: real, x: real, y: real, u: real, v: real)
    requires x >= y && u == (if x < floor then floor else x) && v == (if y < floor then floor else y)
    ensures u >= v && (x > y && u > floor ==> u > v)
  {}

  lemma ScaleInOrder(a: real, c: real, d: real)
    requires a >= 0.0 && c >= d
    ensures Scale(a, c) >= Scale(a, d)
    ensures a > 0.0 && c > d ==> Scale(a, c) > Scale(a, d)
  {
    hide Scale;
    SignOf(a, c - d);
    ScaleDifference(a, c, d);
  }

  lemma ScaleDifference(a: real, c: real, d: real)
    ensures Scale(a, c - d) == Scale(a, c) - Scale(a, d)
  {}

  /** The final step and every token outside the probed steps keep multiplier exactly one. */
  lemma UnprobedTokensKeepOne(row: Row, h: Hyper, m: Modulation, t: nat)
    requires Acceptable(row, h) && IsModulation(row, h, m) && t < |row.responseMask|
    ensures !m.probed[t] ==> m.correct[t] == m.error[t] == 1.0
    ensures !(m.probed[t] && m.lastStep[t])
  {
    var count := Steps(row);
    if m.probed[t] && m.lastStep[t] {
      var k :| 0 <= k < count - 1 && InStep(row, k, t);
      StepsBefore(row, count, k, count - 1);
    }
  }

  lemma ProductSign(a: real, b: real)
    requires a >= 0.0 && b >= 0.0
    ensures a * b >= 0.0
  {}
}
