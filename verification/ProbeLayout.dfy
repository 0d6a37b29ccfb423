/** The packed answer-probe layout: K copies of one probe appended after the prompt and
    the response, its validator, and its reconstruction from step ends.
    Models utils/r2opl.py and the metadata half of utils/r2opl_probe.py. */
module ProbeLayout {
  import opened Basics

  datatype Branch = Branch(
    index: int,
    afterStep: Option<int>,
    visiblePrefixEnd: int,
    probeStart: int,
    probeEnd: int,
    answerPositions: seq<int>)

  datatype Layout = Layout(
    sequenceIds: seq<int>,
    positionIds: seq<int>,
    originalLength: int,
    promptLength: int,
    responseLength: int,
    stepRanges: seq<(int, int)>,
    probeIds: seq<int>,
    branches: seq<Branch>)

  // ----- semantic step ranges -----

  /** Non-empty ranges that tile a prefix of the response from token zero. */
  predicate Contiguous(ranges: seq<(int, int)>, responseLength: int) {
    forall i :: 0 <= i < |ranges| ==>
      && ranges[i].0 == StepStart(ranges, i)
      && ranges[i].0 < ranges[i].1 <= responseLength
  }

  function StepStart(ranges: seq<(int, int)>, i: int): int
    requires 0 <= i <= |ranges|
  {
    if i == 0 then 0 else ranges[i - 1].1
  }

  lemma {:induction false} StepStartBounds(ranges: seq<(int, int)>, responseLength: int, i: nat)
    requires Contiguous(ranges, responseLength)
    requires i <= |ranges|
    ensures 0 <= StepStart(ranges, i)
    ensures i > 0 ==> StepStart(ranges, i) <= responseLength
  {
    if i > 0 {
      StepStartBounds(ranges, responseLength, i - 1);
      assert ranges[i - 1].0 == StepStart(ranges, i - 1);
    }
  }

  method ValidateRanges(ranges: seq<(int, int)>, responseLength: int) returns (ok: bool)
    ensures ok <==> Contiguous(ranges, responseLength)
  {
    var previousEnd := 0;
    for index := 0 to |ranges|
      invariant previousEnd == StepStart(ranges, index)
      invariant previousEnd >= 0
      invariant forall i :: 0 <= i < index ==>
        ranges[i].0 == StepStart(ranges, i) && ranges[i].0 < ranges[i].1 <= responseLength
    {
      var (start, end) := ranges[index];
      if !(0 <= start < end <= responseLength) {
        return false;
      }
      if start != previousEnd {
        return false;
      }
      previousEnd := end;
    }
    return true;
  }

  /** Drop the zero padding, or the tail behind an explicit count. */
  function TrimEnds(ends: seq<int>, count: Option<int>): Result<seq<int>> {
    match count
    case Some(c) =>
      if 0 <= c <= |ends| then Ok(ends[..c]) else Err("count out of range")
    case None =>
      var k := FirstZero(ends);
      if exists i :: k <= i < |ends| && ends[i] != 0 then Err("non-zero after padding") else Ok(ends[..k])
  }

  function FirstZero(ends: seq<int>): (k: nat)
    ensures k <= |ends|
    ensures k < |ends| ==> ends[k] == 0
    ensures forall i :: 0 <= i < k ==> ends[i] != 0
  {
    if ends == [] || ends[0] == 0 then 0 else 1 + FirstZero(ends[1..])
  }

  function EndBefore(ends: seq<int>, i: int): int
    requires 0 <= i <= |ends|
  {
    if i == 0 then 0 else ends[i - 1]
  }

  predicate Increasing(ends: seq<int>, responseLength: int) {
    forall i :: 0 <= i < |ends| ==> EndBefore(ends, i) < ends[i] <= responseLength
  }

  function RangesOfEnds(ends: seq<int>): (r: seq<(int, int)>)
    ensures |r| == |ends|
  {
    seq(|ends|, i requires 0 <= i < |ends| => (EndBefore(ends, i), ends[i]))
  }

  /** Strictly increasing ends and contiguous ranges are the same data. */
  lemma EndsAreRanges(ends: seq<int>, responseLength: int)
    ensures Increasing(ends, responseLength) <==> Contiguous(RangesOfEnds(ends), responseLength)
  {
    var r := RangesOfEnds(ends);
    forall i | 0 <= i < |ends|
      ensures r[i].0 == StepStart(r, i)
      ensures r[i] == (EndBefore(ends, i), ends[i])
    {}
    if Contiguous(r, responseLength) {
      forall i | 0 <= i < |ends|
        ensures EndBefore(ends, i) < ends[i] <= responseLength
      {
        assert r[i].0 < r[i].1 <= responseLength;
      }
    }
  }

  /** The starts list `[0, *values[:-1]]` has one element when `values` is empty, so the strict
      zip raises there: an empty list of ends is an error, not an empty list of ranges. */
  method RangesFromEnds(ends: seq<int>, responseLength: int, count: Option<int>)
    returns (r: Result<seq<(int, int)>>)
    ensures r.Ok? <==>
      TrimEnds(ends, count).Ok? && TrimEnds(ends, count).value != []
      && Increasing(TrimEnds(ends, count).value, responseLength)
    ensures r.Ok? ==> r.value == RangesOfEnds(TrimEnds(ends, count).value)
    ensures r.Ok? ==> Contiguous(r.value, responseLength)
  {
    var trimmed := TrimEnds(ends, count);
    if trimmed.Err? {
      return Err("semantic step ends");
    }
    var values := trimmed.value;
    if exists i :: 0 <= i < |values| && values[i] <= 0 {
      ghost var bad :| 0 <= bad < |values| && values[bad] <= 0;
      assert !Increasing(values, responseLength) by {
        if Increasing(values, responseLength) {
          IncreasingPositive(values, responseLength, bad);
        }
      }
      return Err("non-positive end");
    }
    var starts := [0] + (if values == [] then [] else values[..|values| - 1]);
    if |starts| != |values| {
      return Err("strict zip");
    }
    var pairs := seq(|values|, i requires 0 <= i < |values| => (starts[i], values[i]));
    assert pairs == RangesOfEnds(values);
    EndsAreRanges(values, responseLength);
    var ok := ValidateRanges(pairs, responseLength);
    return if ok then Ok(pairs) else Err("semantic ranges");
  }

  lemma {:induction false} IncreasingPositive(ends: seq<int>, responseLength: int, i: nat)
    requires Increasing(ends, responseLength) && i < |ends|
    ensures ends[i] > 0
  {
    assert EndBefore(ends, i) < ends[i];
    if i > 0 {
      IncreasingPositive(ends, responseLength, i - 1);
    }
  }

  // ----- the packed layout -----

  /** How many branches a response with `steps` semantic steps carries. */
  function BranchCount(steps: nat): nat { if steps >= 2 then steps else 0 }

  function ProbeStart(originalLength: int, probeLength: nat, j: nat): int {
    if j == 0 then originalLength else ProbeStart(originalLength, probeLength, j - 1) + probeLength
  }

  function Copies(probe: seq<int>, k: nat): seq<int> {
    if k == 0 then [] else Copies(probe, k - 1) + probe
  }

  function VisibleEnd(promptLength: int, ranges: seq<(int, int)>, j: nat): int
    requires j <= |ranges|
  {
    promptLength + StepStart(ranges, j)
  }

  /** Logical positions of the first `k` branches: each restarts at its own prefix end. */
  function BranchPositions(promptLength: int, ranges: seq<(int, int)>, probeLength: nat, k: nat): seq<int>
    requires k <= |ranges|
  {
    if k == 0 then [] else
      BranchPositions(promptLength, ranges, probeLength, k - 1)
      + Range(VisibleEnd(promptLength, ranges, k - 1), probeLength)
  }

  function Shift(positions: seq<int>, offset: int): (r: seq<int>)
    ensures |r| == |positions|
  {
    seq(|positions|, i requires 0 <= i < |positions| => offset + positions[i])
  }

  function BranchAt(promptLength: int, responseLength: int, ranges: seq<(int, int)>, probeLength: nat,
                    j: nat, answers: seq<int>): Branch
    requires j <= |ranges|
  {
    var start := ProbeStart(promptLength + responseLength, probeLength, j);
    Branch(j, if j == 0 then None else Some(j - 1), VisibleEnd(promptLength, ranges, j),
           start, start + probeLength, Shift(answers, start))
  }

  /** The layout determined by its inputs, in closed form; `answers[j]` are the local answer
      positions of branch j. */
  function LayoutOf(prompt: seq<int>, response: seq<int>, ranges: seq<(int, int)>, probe: seq<int>,
                    answers: seq<seq<int>>): Layout
    requires |answers| == BranchCount(|ranges|)
  {
    var k := BranchCount(|ranges|);
    Layout(prompt + response + Copies(probe, k),
           Range(0, |prompt| + |response|) + BranchPositions(|prompt|, ranges, |probe|, k),
           |prompt| + |response|, |prompt|, |response|, ranges, probe,
           seq(k, j requires 0 <= j < k => BranchAt(|prompt|, |response|, ranges, |probe|, j, answers[j])))
  }

  predicate LocalAnswersOk(answers: seq<int>, probeLength: nat) {
    answers != [] && forall i :: 0 <= i < |answers| ==> 0 < answers[i] < probeLength
  }

  /** What `build_r2opl_probe_layout` demands of its inputs. */
  predicate Buildable(prompt: seq<int>, response: seq<int>, ranges: seq<(int, int)>, probe: seq<int>,
                      answers: seq<seq<int>>)
  {
    && prompt != []
    && Contiguous(ranges, |response|)
    && |answers| == BranchCount(|ranges|)
    && (|ranges| >= 2 ==> probe != [])
    && forall j :: 0 <= j < |answers| ==> LocalAnswersOk(answers[j], |probe|)
  }

  /** One answer list shared by every branch, as the builder receives it. */
  function Uniform(steps: nat, answers: seq<int>): (r: seq<seq<int>>)
    ensures |r| == BranchCount(steps)
    ensures forall j :: 0 <= j < |r| ==> r[j] == answers
  {
    seq(BranchCount(steps), _ => answers)
  }

  lemma BuildableUniform(prompt: seq<int>, response: seq<int>, ranges: seq<(int, int)>, probe: seq<int>,
                         answers: seq<int>)
    ensures Buildable(prompt, response, ranges, probe, Uniform(|ranges|, answers)) <==>
      && prompt != []
      && Contiguous(ranges, |response|)
      && (|ranges| >= 2 ==> LocalAnswersOk(answers, |probe|))
  {
    var perBranch := Uniform(|ranges|, answers);
    assert |ranges| >= 2 ==> perBranch[0] == answers;
    if LocalAnswersOk(answers, |probe|) {
      assert 0 < answers[0] < |probe|;
    }
  }

  method AppendProbes(prompt: seq<int>, response: seq<int>, steps: seq<(int, int)>, probe: seq<int>, answers: seq<int>)
    returns (sequenceIds: seq<int>, positionIds: seq<int>, branches: seq<Branch>)
    ensures sequenceIds == prompt + response + Copies(probe, |steps|)
    ensures positionIds
         == Range(0, |prompt| + |response|) + BranchPositions(|prompt|, steps, |probe|, |steps|)
    ensures |branches| == |steps|
    ensures forall j :: 0 <= j < |steps| ==>
      branches[j] == BranchAt(|prompt|, |response|, steps, |probe|, j, answers)
    ensures forall j :: 0 <= j < |steps| ==>
      branches[j].visiblePrefixEnd == |prompt| + if j == 0 then 0 else steps[j - 1].1
  {
    var original := prompt + response;
    sequenceIds := original;
    positionIds := Range(0, |original|);
    branches := [];
    for index := 0 to |steps|
      invariant sequenceIds == original + Copies(probe, index)
      invariant |sequenceIds| == ProbeStart(|original|, |probe|, index)
      invariant positionIds == Range(0, |original|) + BranchPositions(|prompt|, steps, |probe|, index)
      invariant |branches| == index
      invariant forall j :: 0 <= j < index ==>
        branches[j] == BranchAt(|prompt|, |response|, steps, |probe|, j, answers)
    {
      var responseEnd := if index == 0 then 0 else steps[index - 1].1;
      var visiblePrefixEnd := |prompt| + responseEnd;
      var probeStart := |sequenceIds|;
      var probeEnd := probeStart + |probe|;
      sequenceIds := sequenceIds + probe;
      positionIds := positionIds + Range(visiblePrefixEnd, |probe|);
      branches := branches + [Branch(index, if index == 0 then None else Some(index - 1),
                                     visiblePrefixEnd, probeStart, probeEnd, Shift(answers, probeStart))];
    }
  }

  method BuildLayout(prompt: seq<int>, response: seq<int>, steps: seq<(int, int)>, probe: seq<int>,
                     answers: seq<int>) returns (r: Result<Layout>)
    ensures r.Ok? <==> Buildable(prompt, response, steps, probe, Uniform(|steps|, answers))
    ensures r.Ok? ==> r.value == LayoutOf(prompt, response, steps, probe, Uniform(|steps|, answers))
    ensures r.Ok? ==> Accepted(r.value)
    ensures r.Ok? ==> |r.value.branches| == if |steps| < 2 then 0 else |steps|
    ensures r.Ok? ==> forall j :: 0 <= j < |r.value.branches| ==>
      Measures(r.value, j, prompt, response, steps, probe, answers)
  {
    BuildableUniform(prompt, response, steps, probe, answers);
    if prompt == [] {
      return Err("empty prompt");
    }
    var ok := ValidateRanges(steps, |response|);
    if !ok {
      return Err("semantic ranges");
    }
    var requiresProbe := |steps| >= 2;
    if requiresProbe && (probe == [] || answers == []) {
      assert answers != [] ==> !(0 < answers[0] < |probe|);
      return Err("empty probe");
    }
    if requiresProbe && exists i :: 0 <= i < |answers| && !(0 < answers[i] < |probe|) {
      return Err("answer positions");
    }
    var sequenceIds, positionIds, branches := prompt + response, Range(0, |prompt| + |response|), [];
    if requiresProbe {
      sequenceIds, positionIds, branches := AppendProbes(prompt, response, steps, probe, answers);
    }
    var layout := Layout(sequenceIds, positionIds, |prompt| + |response|, |prompt|, |response|, steps, probe, branches);
    SameLayout(layout, prompt, response, steps, probe, Uniform(|steps|, answers));
    BuiltIsAccepted(prompt, response, steps, probe, Uniform(|steps|, answers));
    var valid := ValidateLayout(layout);
    forall j | 0 <= j < |layout.branches| ensures Measures(layout, j, prompt, response, steps, probe, answers) {
      BuiltMeasures(prompt, response, steps, probe, Uniform(|steps|, answers), j);
    }
    return if valid then Ok(layout) else Err("layout");
  }

  /** What a branch is for: it shows the probe exactly the prompt and the response up to the end of
      the step before it, from nothing of the response for the first branch to all but the last
      step for the last one, and scores the probe's answer tokens. */
  predicate Measures(l: Layout, j: nat, prompt: seq<int>, response: seq<int>, steps: seq<(int, int)>, probe: seq<int>,
                     answers: seq<int>)
    requires j < |l.branches| && j <= |steps|
  {
    var b, end := l.branches[j], if j == 0 then 0 else steps[j - 1].1;
    && b.afterStep == (if j == 0 then None else Some(j - 1))
    && 0 <= end <= |response| && |prompt| + end <= |l.sequenceIds| == |l.positionIds|
    && b.visiblePrefixEnd == |prompt| + end
    && l.sequenceIds[..|prompt| + end] == prompt + response[..end]
    && |prompt| + |response| <= b.probeStart <= b.probeEnd <= |l.sequenceIds|
    && l.sequenceIds[b.probeStart..b.probeEnd] == probe
    && (forall p :: b.probeStart <= p < b.probeEnd ==> l.positionIds[p] == |prompt| + end + (p - b.probeStart))
    && |b.answerPositions| == |answers|
    && forall i :: 0 <= i < |answers| ==> b.answerPositions[i] == b.probeStart + answers[i]
  }

  /** Every accepted layout measures the prefixes of its own rollout. */
  lemma AcceptedMeasures(l: Layout, j: nat)
    requires Accepted(l) && j < |l.branches|
    ensures Measures(l, j, PromptOf(l), ResponseOf(l), l.stepRanges, l.probeIds, AnswersOf(l)[j])
  {
    assert BranchOk(l, j);
    StepStartBounds(l.stepRanges, l.responseLength, j);
    hide Accepted, Shift, ProbeStart, LocalAnswersOk, PreviousEnd;
    var b := l.branches[j];
    var end := if j == 0 then 0 else l.stepRanges[j - 1].1;
    assert l.sequenceIds[..l.promptLength + end] == PromptOf(l) + ResponseOf(l)[..end];
    forall p | b.probeStart <= p < b.probeEnd
      ensures l.positionIds[p] == l.promptLength + end + (p - b.probeStart)
    {
      assert l.positionIds[b.probeStart..b.probeEnd][p - b.probeStart] == l.positionIds[p];
    }
    LocalAnswers(l, j);
  }

  lemma LocalAnswers(l: Layout, j: nat)
    requires j < |l.branches|
    ensures var b := l.branches[j];
            && |b.answerPositions| == |AnswersOf(l)[j]|
            && forall i :: 0 <= i < |b.answerPositions| ==> b.answerPositions[i] == b.probeStart + AnswersOf(l)[j][i]
  {}

  lemma BuiltMeasures(prompt: seq<int>, response: seq<int>, ranges: seq<(int, int)>, probe: seq<int>,
                      answers: seq<seq<int>>, j: nat)
    requires Buildable(prompt, response, ranges, probe, answers) && j < BranchCount(|ranges|)
    ensures Measures(LayoutOf(prompt, response, ranges, probe, answers), j, prompt, response, ranges, probe, answers[j])
  {
    var l := LayoutOf(prompt, response, ranges, probe, answers);
    BuiltIsAccepted(prompt, response, ranges, probe, answers);
    AcceptedMeasures(l, j);
    BuiltParts(prompt, response, ranges, probe, answers, j);
    hide LayoutOf, Accepted, Buildable;
  }

  lemma BuiltParts(prompt: seq<int>, response: seq<int>, ranges: seq<(int, int)>, probe: seq<int>,
                   answers: seq<seq<int>>, j: nat)
    requires |answers| == BranchCount(|ranges|) && j < |answers|
    requires Accepted(LayoutOf(prompt, response, ranges, probe, answers))
    ensures var l := LayoutOf(prompt, response, ranges, probe, answers);
            && PromptOf(l) == prompt && ResponseOf(l) == response && AnswersOf(l)[j] == answers[j]
  {
    var l := LayoutOf(prompt, response, ranges, probe, answers);
    LayoutParts(prompt, response, ranges, probe, answers);
    hide LayoutOf, BranchOk, Copies, BranchPositions, Range, ProbeStart, VisibleEnd, Shift;
    var start := ProbeStart(|prompt| + |response|, |probe|, j);
    assert l.branches[j].probeStart == start && l.branches[j].answerPositions == Shift(answers[j], start);
    assert AnswersOf(l)[j] == Shift(Shift(answers[j], start), -start);
    ShiftedBack(answers[j], start);
  }

  lemma ShiftedBack(positions: seq<int>, offset: int)
    ensures Shift(Shift(positions, offset), -offset) == positions
  {}

  lemma SameLayout(l: Layout, prompt: seq<int>, response: seq<int>, ranges: seq<(int, int)>, probe: seq<int>,
                   answers: seq<seq<int>>)
    requires |answers| == BranchCount(|ranges|) == |l.branches|
    requires var k := BranchCount(|ranges|);
             && l.sequenceIds == prompt + response + Copies(probe, k)
             && l.positionIds == Range(0, |prompt| + |response|) + BranchPositions(|prompt|, ranges, |probe|, k)
             && l.originalLength == |prompt| + |response|
             && l.promptLength == |prompt| && l.responseLength == |response|
             && l.stepRanges == ranges && l.probeIds == probe
             && forall j :: 0 <= j < k ==>
               l.branches[j] == BranchAt(|prompt|, |response|, ranges, |probe|, j, answers[j])
    ensures l == LayoutOf(prompt, response, ranges, probe, answers)
  {
    hide *;
    LayoutParts(prompt, response, ranges, probe, answers);
    var m := LayoutOf(prompt, response, ranges, probe, answers);
    assert l.branches == m.branches;
  }

  lemma LayoutParts(prompt: seq<int>, response: seq<int>, ranges: seq<(int, int)>, probe: seq<int>,
                    answers: seq<seq<int>>)
    requires |answers| == BranchCount(|ranges|)
    ensures var m, k := LayoutOf(prompt, response, ranges, probe, answers), BranchCount(|ranges|);
      && m.sequenceIds == prompt + response + Copies(probe, k)
      && m.positionIds == Range(0, |prompt| + |response|) + BranchPositions(|prompt|, ranges, |probe|, k)
      && m.originalLength == |prompt| + |response|
      && m.promptLength == |prompt| && m.responseLength == |response|
      && m.stepRanges == ranges && m.probeIds == probe && |m.branches| == k
      && forall j :: 0 <= j < k ==>
        m.branches[j] == BranchAt(|prompt|, |response|, ranges, |probe|, j, answers[j])
  {
    hide BranchAt, Copies, BranchPositions, Range;
  }

  // ----- the validator -----

  /** The checks on branch j, with the physical start the previous branch leaves. */
  predicate BranchOk(l: Layout, j: nat)
    requires j < |l.branches| && |l.branches| <= |l.stepRanges| && |l.sequenceIds| == |l.positionIds|
  {
    var b := l.branches[j];
    && b.index == j
    && b.afterStep == (if j == 0 then None else Some(j - 1))
    && b.visiblePrefixEnd == VisibleEnd(l.promptLength, l.stepRanges, j)
    && b.probeStart == PreviousEnd(l, j)
    && 1 <= b.visiblePrefixEnd <= l.originalLength <= b.probeStart < b.probeEnd <= |l.sequenceIds|
    && b.probeEnd - b.probeStart == |l.probeIds|
    && l.sequenceIds[b.probeStart..b.probeEnd] == l.probeIds
    && l.positionIds[b.probeStart..b.probeEnd] == Range(b.visiblePrefixEnd, |l.probeIds|)
    && b.answerPositions != []
    && forall i :: 0 <= i < |b.answerPositions| ==> 0 < b.answerPositions[i] - b.probeStart < |l.probeIds|
  }

  function PreviousEnd(l: Layout, j: nat): int
    requires j <= |l.branches|
  {
    if j == 0 then l.originalLength else l.branches[j - 1].probeEnd
  }

  predicate HeaderOk(l: Layout) {
    && |l.sequenceIds| == |l.positionIds|
    && l.promptLength > 0
    && l.responseLength >= 0
    && l.originalLength == l.promptLength + l.responseLength
    && 1 <= l.originalLength <= |l.sequenceIds|
    && l.positionIds[..l.originalLength] == Range(0, l.originalLength)
    && Contiguous(l.stepRanges, l.responseLength)
    && (l.branches != [] ==> l.probeIds != [])
    && |l.branches| == BranchCount(|l.stepRanges|)
  }

  predicate Accepted(l: Layout) {
    && HeaderOk(l)
    && (forall j :: 0 <= j < |l.branches| ==> BranchOk(l, j))
    && PreviousEnd(l, |l.branches|) == |l.sequenceIds|
  }

  method CheckBranch(l: Layout, j: nat, previousProbeEnd: int) returns (ok: bool)
    requires j < |l.branches| && |l.branches| <= |l.stepRanges| && |l.sequenceIds| == |l.positionIds|
    requires previousProbeEnd == PreviousEnd(l, j)
    requires l.originalLength >= 0
    ensures ok <==> BranchOk(l, j)
  {
    var b := l.branches[j];
    var responseEnd := if j == 0 then 0 else l.stepRanges[j - 1].1;
    if b.index != j { return false; }
    if b.afterStep != (if j == 0 then None else Some(j - 1)) { return false; }
    if b.visiblePrefixEnd != l.promptLength + responseEnd { return false; }
    if b.probeStart != previousProbeEnd { return false; }
    if !(1 <= b.visiblePrefixEnd <= l.originalLength <= b.probeStart < b.probeEnd <= |l.sequenceIds|) {
      return false;
    }
    if b.probeEnd - b.probeStart != |l.probeIds| { return false; }
    if l.sequenceIds[b.probeStart..b.probeEnd] != l.probeIds { return false; }
    if l.positionIds[b.probeStart..b.probeEnd] != Range(b.visiblePrefixEnd, |l.probeIds|) { return false; }
    if b.answerPositions == [] { return false; }
    if exists i :: 0 <= i < |b.answerPositions| && !(0 < b.answerPositions[i] - b.probeStart < |l.probeIds|) {
      return false;
    }
    return true;
  }

  method ValidateLayout(l: Layout) returns (ok: bool)
    ensures ok <==> Accepted(l)
  {
    if |l.sequenceIds| != |l.positionIds| { return false; }
    if l.promptLength <= 0 { return false; }
    if l.responseLength < 0 { return false; }
    if l.originalLength != l.promptLength + l.responseLength { return false; }
    if !(1 <= l.originalLength <= |l.sequenceIds|) { return false; }
    if l.positionIds[..l.originalLength] != Range(0, l.originalLength) { return false; }
    var rangesOk := ValidateRanges(l.stepRanges, l.responseLength);
    if !rangesOk { return false; }
    if l.branches != [] && l.probeIds == [] { return false; }
    if |l.branches| != BranchCount(|l.stepRanges|) { return false; }
    var previousProbeEnd := l.originalLength;
    for j := 0 to |l.branches|
      invariant previousProbeEnd == PreviousEnd(l, j)
      invariant forall i :: 0 <= i < j ==> BranchOk(l, i)
    {
      var branchOk := CheckBranch(l, j, previousProbeEnd);
      if !branchOk {
        assert !BranchOk(l, j);
        return false;
      }
      previousProbeEnd := l.branches[j].probeEnd;
    }
    return previousProbeEnd == |l.sequenceIds|;
  }

  // ----- built layouts are exactly the accepted ones -----

  /** A block in front of the last one is still where it was. */
  lemma SliceBeforeAppend(front: seq<int>, back: seq<int>, s: int, e: int)
    requires 0 <= s <= e <= |front|
    ensures (front + back)[s..e] == front[s..e]
  {}

  /** Branch j of k occupies its own slice of the token stream... */
  lemma {:induction false} CopiesSlice(original: seq<int>, probe: seq<int>, k: nat, j: nat)
    requires j < k
    ensures var s := ProbeStart(|original|, |probe|, j);
            && |original| <= s && s + |probe| <= |original + Copies(probe, k)|
            && (original + Copies(probe, k))[s..s + |probe|] == probe
    decreases k
  {
    var s := ProbeStart(|original|, |probe|, j);
    CopiesLength(original, probe, j);
    CopiesLength(original, probe, k - 1);
    var front := original + Copies(probe, k - 1);
    assert original + Copies(probe, k) == front + probe;
    if j < k - 1 {
      CopiesSlice(original, probe, k - 1, j);
      SliceBeforeAppend(front, probe, s, s + |probe|);
    }
  }

  lemma {:induction false} CopiesLength(original: seq<int>, probe: seq<int>, k: nat)
    ensures |original| + |Copies(probe, k)| == ProbeStart(|original|, |probe|, k)
  {
    if k > 0 {
      CopiesLength(original, probe, k - 1);
    }
  }

  /** ... and of the position stream. */
  lemma {:induction false} PositionsSlice(positions: seq<int>, promptLength: int, ranges: seq<(int, int)>,
                                          m: nat, k: nat, j: nat)
    requires j < k <= |ranges|
    ensures var s := ProbeStart(|positions|, m, j);
            var all := positions + BranchPositions(promptLength, ranges, m, k);
            && |positions| <= s && s + m <= |all|
            && all[s..s + m] == Range(VisibleEnd(promptLength, ranges, j), m)
    decreases k
  {
    var s := ProbeStart(|positions|, m, j);
    PositionsLength(positions, promptLength, ranges, m, j);
    PositionsLength(positions, promptLength, ranges, m, k - 1);
    var front := positions + BranchPositions(promptLength, ranges, m, k - 1);
    var last := Range(VisibleEnd(promptLength, ranges, k - 1), m);
    assert positions + BranchPositions(promptLength, ranges, m, k) == front + last;
    if j < k - 1 {
      PositionsSlice(positions, promptLength, ranges, m, k - 1, j);
      SliceBeforeAppend(front, last, s, s + m);
    }
  }

  lemma {:induction false} PositionsLength(positions: seq<int>, promptLength: int, ranges: seq<(int, int)>, m: nat,
                                           k: nat)
    requires k <= |ranges|
    ensures |positions| + |BranchPositions(promptLength, ranges, m, k)| == ProbeStart(|positions|, m, k)
  {
    if k > 0 {
      PositionsLength(positions, promptLength, ranges, m, k - 1);
    }
  }

  /** A layout of the closed form passes the validator. */
  lemma BuiltIsAccepted(prompt: seq<int>, response: seq<int>, ranges: seq<(int, int)>, probe: seq<int>,
                        answers: seq<seq<int>>)
    requires Buildable(prompt, response, ranges, probe, answers)
    ensures Accepted(LayoutOf(prompt, response, ranges, probe, answers))
  {
    var l := LayoutOf(prompt, response, ranges, probe, answers);
    BuiltHeaderOk(prompt, response, ranges, probe, answers);
    forall j | 0 <= j < |l.branches|
      ensures BranchOk(l, j)
    {
      BuiltBranchOk(prompt, response, ranges, probe, answers, j);
    }
  }

  lemma BuiltHeaderOk(prompt: seq<int>, response: seq<int>, ranges: seq<(int, int)>, probe: seq<int>,
                      answers: seq<seq<int>>)
    requires Buildable(prompt, response, ranges, probe, answers)
    ensures var l := LayoutOf(prompt, response, ranges, probe, answers);
            && HeaderOk(l)
            && PreviousEnd(l, |l.branches|) == |l.sequenceIds|
  {
    var k := BranchCount(|ranges|);
    var l := LayoutOf(prompt, response, ranges, probe, answers);
    CopiesLength(prompt + response, probe, k);
    PositionsLength(Range(0, |prompt| + |response|), |prompt|, ranges, |probe|, k);
    BuiltPreviousEnd(prompt, response, ranges, probe, answers, k);
    assert l.positionIds[..l.originalLength] == Range(0, l.originalLength);
  }

  lemma BuiltPreviousEnd(prompt: seq<int>, response: seq<int>, ranges: seq<(int, int)>, probe: seq<int>,
                         answers: seq<seq<int>>, j: nat)
    requires |answers| == BranchCount(|ranges|) && j <= BranchCount(|ranges|)
    ensures PreviousEnd(LayoutOf(prompt, response, ranges, probe, answers), j)
         == ProbeStart(|prompt| + |response|, |probe|, j)
  {
    if j > 0 {
      assert LayoutOf(prompt, response, ranges, probe, answers).branches[j - 1]
          == BranchAt(|prompt|, |response|, ranges, |probe|, j - 1, answers[j - 1]);
    }
  }

  lemma BuiltBranchOk(prompt: seq<int>, response: seq<int>, ranges: seq<(int, int)>, probe: seq<int>,
                      answers: seq<seq<int>>, j: nat)
    requires Buildable(prompt, response, ranges, probe, answers) && j < BranchCount(|ranges|)
    requires HeaderOk(LayoutOf(prompt, response, ranges, probe, answers))
    ensures BranchOk(LayoutOf(prompt, response, ranges, probe, answers), j)
  {
    hide Copies, BranchPositions, Range, BranchOk, ProbeStart, Shift, VisibleEnd, PreviousEnd, LocalAnswersOk;
    var l := LayoutOf(prompt, response, ranges, probe, answers);
    var original := prompt + response;
    var k := BranchCount(|ranges|);
    var s := ProbeStart(|original|, |probe|, j);
    CopiesSlice(original, probe, k, j);
    PositionsSlice(Range(0, |original|), |prompt|, ranges, |probe|, k, j);
    BuiltPreviousEnd(prompt, response, ranges, probe, answers, j);
    StepStartBounds(ranges, |response|, j);
    ShiftedAnswers(answers[j], s, |probe|);
    assert l.branches[j] == BranchAt(|prompt|, |response|, ranges, |probe|, j, answers[j]);
    PlacedBranchOk(l, j, answers[j]);
  }

  lemma PlacedBranchOk(l: Layout, j: nat, answers: seq<int>)
    requires j < |l.branches| && |l.branches| <= |l.stepRanges| && |l.sequenceIds| == |l.positionIds|
    requires l.promptLength > 0 && l.originalLength == l.promptLength + l.responseLength
    requires l.responseLength >= 0 && l.probeIds != []
    requires l.branches[j] == BranchAt(l.promptLength, l.responseLength, l.stepRanges, |l.probeIds|, j, answers)
    requires var s := ProbeStart(l.originalLength, |l.probeIds|, j);
             && s == PreviousEnd(l, j)
             && l.originalLength <= s && s + |l.probeIds| <= |l.sequenceIds|
             && l.sequenceIds[s..s + |l.probeIds|] == l.probeIds
             && l.positionIds[s..s + |l.probeIds|] == Range(VisibleEnd(l.promptLength, l.stepRanges, j), |l.probeIds|)
             && Shift(answers, s) != []
             && forall i :: 0 <= i < |Shift(answers, s)| ==> 0 < Shift(answers, s)[i] - s < |l.probeIds|
    requires 0 <= StepStart(l.stepRanges, j) && (j > 0 ==> StepStart(l.stepRanges, j) <= l.responseLength)
    ensures BranchOk(l, j)
  {
    hide Range, ProbeStart, Shift, PreviousEnd;
  }

  lemma ShiftedAnswers(answers: seq<int>, start: int, probeLength: nat)
    requires LocalAnswersOk(answers, probeLength)
    ensures Shift(answers, start) != []
    ensures forall i :: 0 <= i < |Shift(answers, start)| ==> 0 < Shift(answers, start)[i] - start < probeLength
  {
    forall i | 0 <= i < |answers|
      ensures 0 < Shift(answers, start)[i] - start < probeLength
    {
      assert 0 < answers[i] < probeLength;
    }
  }

  /** The inputs a layout was built from, read back out of it. */
  function PromptOf(l: Layout): seq<int> requires HeaderOk(l) { l.sequenceIds[..l.promptLength] }
  function ResponseOf(l: Layout): seq<int> requires HeaderOk(l) { l.sequenceIds[l.promptLength..l.originalLength] }
  function AnswersOf(l: Layout): (r: seq<seq<int>>)
    ensures |r| == |l.branches|
  {
    seq(|l.branches|, j requires 0 <= j < |l.branches| =>
      Shift(l.branches[j].answerPositions, -l.branches[j].probeStart))
  }

  lemma AcceptedHeader(l: Layout)
    requires Accepted(l)
    ensures 1 <= l.originalLength <= |l.sequenceIds|
    ensures l.sequenceIds[..l.originalLength] == PromptOf(l) + ResponseOf(l) + Copies(l.probeIds, 0)
    ensures l.positionIds[..l.originalLength]
         == Range(0, l.originalLength) + BranchPositions(l.promptLength, l.stepRanges, |l.probeIds|, 0)
    ensures ProbeStart(l.originalLength, |l.probeIds|, 0) == l.originalLength
  {
    hide BranchOk;
  }

  lemma {:induction false} AcceptedPrefix(l: Layout, j: nat)
    requires Accepted(l) && j <= |l.branches|
    ensures PreviousEnd(l, j) == ProbeStart(l.originalLength, |l.probeIds|, j)
    ensures l.originalLength <= PreviousEnd(l, j) <= |l.sequenceIds|
    ensures l.sequenceIds[..PreviousEnd(l, j)] == PromptOf(l) + ResponseOf(l) + Copies(l.probeIds, j)
    ensures l.positionIds[..PreviousEnd(l, j)]
         == Range(0, l.originalLength) + BranchPositions(l.promptLength, l.stepRanges, |l.probeIds|, j)
  {
    hide HeaderOk, Range, Copies, BranchPositions, ProbeStart, PromptOf, ResponseOf;
    if j == 0 {
      AcceptedHeader(l);
    } else {
      AcceptedPrefix(l, j - 1);
      BranchExtends(l, j - 1);
      NextCopy(PromptOf(l) + ResponseOf(l), l.probeIds, j);
      NextPositions(Range(0, l.originalLength), l.promptLength, l.stepRanges, |l.probeIds|, j);
    }
  }

  lemma NextCopy(original: seq<int>, probe: seq<int>, j: nat)
    requires j > 0
    ensures original + Copies(probe, j) == original + Copies(probe, j - 1) + probe
    ensures forall n: int :: ProbeStart(n, |probe|, j) == ProbeStart(n, |probe|, j - 1) + |probe|
  {}

  lemma NextPositions(original: seq<int>, promptLength: int, ranges: seq<(int, int)>, m: nat, j: nat)
    requires 0 < j <= |ranges|
    ensures original + BranchPositions(promptLength, ranges, m, j)
         == original + BranchPositions(promptLength, ranges, m, j - 1)
             + Range(VisibleEnd(promptLength, ranges, j - 1), m)
  {}

  lemma BranchExtends(l: Layout, j: nat)
    requires Accepted(l) && j < |l.branches|
    ensures j < |l.stepRanges| && 1 <= l.originalLength
    ensures 0 <= PreviousEnd(l, j) < l.branches[j].probeEnd <= |l.sequenceIds| == |l.positionIds|
    ensures l.branches[j].probeStart == PreviousEnd(l, j)
    ensures l.branches[j].probeEnd - l.branches[j].probeStart == |l.probeIds|
    ensures l.sequenceIds[..l.branches[j].probeEnd] == l.sequenceIds[..PreviousEnd(l, j)] + l.probeIds
    ensures l.positionIds[..l.branches[j].probeEnd]
         == l.positionIds[..PreviousEnd(l, j)] + Range(VisibleEnd(l.promptLength, l.stepRanges, j), |l.probeIds|)
  {
    hide Range;
    assert BranchOk(l, j);
    var b := l.branches[j];
    ExtendPrefix(l.sequenceIds, b.probeStart, b.probeEnd);
    ExtendPrefix(l.positionIds, b.probeStart, b.probeEnd);
  }

  lemma ExtendPrefix(s: seq<int>, a: int, b: int)
    requires 0 <= a <= b <= |s|
    ensures s[..b] == s[..a] + s[a..b]
  {}

  lemma AcceptedBranch(l: Layout, j: nat)
    requires Accepted(l) && j < |l.branches|
    ensures LocalAnswersOk(AnswersOf(l)[j], |l.probeIds|)
    ensures l.branches[j]
         == BranchAt(l.promptLength, l.responseLength, l.stepRanges, |l.probeIds|, j, AnswersOf(l)[j])
  {
    assert BranchOk(l, j);
    AcceptedPrefix(l, j);
    assert Shift(AnswersOf(l)[j], l.branches[j].probeStart) == l.branches[j].answerPositions;
  }

  /** Validation is complete: an accepted layout is the closed form of its own inputs, branch
      answer positions included, and those inputs are buildable. */
  lemma AcceptedIsBuilt(l: Layout)
    requires Accepted(l)
    ensures Buildable(PromptOf(l), ResponseOf(l), l.stepRanges, l.probeIds, AnswersOf(l))
    ensures l == LayoutOf(PromptOf(l), ResponseOf(l), l.stepRanges, l.probeIds, AnswersOf(l))
  {
    forall j | 0 <= j < |l.branches|
      ensures LocalAnswersOk(AnswersOf(l)[j], |l.probeIds|)
      ensures l.branches[j]
           == BranchAt(l.promptLength, l.responseLength, l.stepRanges, |l.probeIds|, j, AnswersOf(l)[j])
    {
      AcceptedBranch(l, j);
    }
    AcceptedPrefix(l, |l.branches|);
    assert l.sequenceIds == l.sequenceIds[..|l.sequenceIds|];
    assert l.positionIds == l.positionIds[..|l.positionIds|];
    SameLayout(l, PromptOf(l), ResponseOf(l), l.stepRanges, l.probeIds, AnswersOf(l));
  }

  /** The validator accepts a layout exactly when some buildable inputs produce it. */
  lemma AcceptedIffBuilt(l: Layout)
    ensures Accepted(l) <==>
      exists prompt, response, ranges, probe, answers ::
        Buildable(prompt, response, ranges, probe, answers) && l == LayoutOf(prompt, response, ranges, probe, answers)
  {
    if Accepted(l) {
      AcceptedIsBuilt(l);
    }
    if exists prompt, response, ranges, probe, answers ::
        Buildable(prompt, response, ranges, probe, answers) && l == LayoutOf(prompt, response, ranges, probe, answers) {
      var prompt, response, ranges, probe, answers :|
        Buildable(prompt, response, ranges, probe, answers) && l == LayoutOf(prompt, response, ranges, probe, answers);
      BuiltIsAccepted(prompt, response, ranges, probe, answers);
    }
  }

  // ----- rebuilding from transmitted metadata -----

  method BuildLayoutFromEnds(prompt: seq<int>, response: seq<int>, ends: seq<int>, probe: seq<int>,
                             answers: seq<int>, count: Option<int>) returns (r: Result<Layout>)
    ensures r.Ok? <==>
      && TrimEnds(ends, count).Ok? && TrimEnds(ends, count).value != []
      && Increasing(TrimEnds(ends, count).value, |response|)
      && prompt != []
      && (|TrimEnds(ends, count).value| >= 2 ==> LocalAnswersOk(answers, |probe|))
    ensures r.Ok? ==> Accepted(r.value) && r.value.stepRanges == RangesOfEnds(TrimEnds(ends, count).value)
    ensures r.Ok? ==> PromptOf(r.value) == prompt && ResponseOf(r.value) == response
  {
    var ranges := RangesFromEnds(ends, |response|, count);
    if ranges.Err? {
      return Err(ranges.reason);
    }
    BuildableUniform(prompt, response, ranges.value, probe, answers);
    r := BuildLayout(prompt, response, ranges.value, probe, answers);
  }

  /** What `build_r2opl_probe_metadata` hands over: ends that pass its own check and, from two
      steps on, a probe whose answer positions have an in-probe predecessor. */
  datatype Metadata = Metadata(probe: seq<int>, answers: seq<int>, ends: seq<int>)

  predicate MetadataOk(m: Metadata, responseLength: int) {
    && Increasing(m.ends, responseLength)
    && (|m.ends| >= 2 ==> LocalAnswersOk(m.answers, |m.probe|))
  }

  method ValidateStepEnds(ends: seq<int>, responseLength: int) returns (ok: bool)
    ensures ok <==> Increasing(ends, responseLength)
  {
    var previous := 0;
    for i := 0 to |ends|
      invariant previous == EndBefore(ends, i)
      invariant forall k :: 0 <= k < i ==> EndBefore(ends, k) < ends[k] <= responseLength
    {
      if ends[i] <= previous || ends[i] > responseLength {
        return false;
      }
      previous := ends[i];
    }
    return true;
  }

  /** `probe` is the outcome of building the gold-answer probe, `None` when that raised. */
  method BuildMetadata(ends: seq<int>, responseLength: int, answerIsBlank: bool,
                       probe: Option<(seq<int>, seq<int>)>) returns (r: Result<Metadata>)
    ensures r.Ok? ==> MetadataOk(r.value, responseLength) && r.value.ends == ends
    ensures r.Ok? ==> (|ends| < 2 <==> r.value.probe == [])
    ensures r.Ok? && |ends| >= 2 ==> probe == Some((r.value.probe, r.value.answers))
    ensures r.Ok? <==>
      && Increasing(ends, responseLength)
      && (|ends| >= 2 ==> !answerIsBlank && probe.Some? && LocalAnswersOk(probe.value.1, |probe.value.0|))
  {
    var ok := ValidateStepEnds(ends, responseLength);
    if !ok {
      return Err("semantic step ends");
    }
    if |ends| < 2 {
      return Ok(Metadata([], [], ends));
    }
    if answerIsBlank || probe.None? {
      return Err("gold answer");
    }
    var (ids, positions) := probe.value;
    if ids == [] || positions == [] {
      assert positions != [] ==> !(0 < positions[0] < |ids|);
      return Err("no scored tokens");
    }
    if exists i :: 0 <= i < |positions| && !(0 < positions[i] < |ids|) {
      return Err("answer position without predecessor");
    }
    assert LocalAnswersOk(positions, |ids|) by {
      forall i | 0 <= i < |positions| ensures 0 < positions[i] < |ids| {}
    }
    return Ok(Metadata(ids, positions, ends));
  }

  /** Zero-padding of strictly increasing ends is transparent. */
  lemma PaddingIsTransparent(ends: seq<int>, padding: nat, responseLength: int)
    requires Increasing(ends, responseLength)
    ensures TrimEnds(ends + seq(padding, _ => 0), None) == Ok(ends)
  {
    var padded := ends + seq(padding, _ => 0);
    forall i | 0 <= i < |ends| ensures padded[i] != 0 {
      IncreasingPositive(ends, responseLength, i);
    }
    var k := FirstZero(padded);
    assert k >= |ends|;
    if padding > 0 {
      assert padded[|ends|] == 0;
    }
    assert k == |ends|;
    assert padded[..|ends|] == ends;
  }

  /** Metadata rebuilds into an accepted layout, however it was padded, exactly when the response
      has at least one semantic step: with none, the rebuild raises although a zero-step layout
      is valid and the builder above produces it. */
  method RebuildFromMetadata(prompt: seq<int>, response: seq<int>, m: Metadata, padding: nat)
    returns (r: Result<Layout>)
    requires prompt != [] && MetadataOk(m, |response|)
    ensures r.Ok? <==> m.ends != []
    ensures r.Ok? ==> Accepted(r.value) && r.value.stepRanges == RangesOfEnds(m.ends)
  {
    PaddingIsTransparent(m.ends, padding, |response|);
    r := BuildLayoutFromEnds(prompt, response, m.ends + seq(padding, _ => 0), m.probe, m.answers, None);
  }

  /** The concrete gap: one prompt token, one invisible response token, no steps. */
  method ZeroStepRebuildRaises() returns (direct: Result<Layout>, rebuilt: Result<Layout>)
    ensures direct.Ok? && rebuilt.Err?
  {
    BuildableUniform([7], [0], [], [], []);
    direct := BuildLayout([7], [0], [], [], []);
    rebuilt := RebuildFromMetadata([7], [0], Metadata([], [], []), 0);
  }
}
