/** Splitting a decoded response at high-confidence boundaries, for arbitrary detector output.
    Models utils/conservative_step_splitter.py. */
module TextSteps {
  import opened Basics
  import opened Sorting

  type Range = (int, int)

  // ----- protected ranges -----

  predicate Covered(position: int, ranges: seq<Range>) {
    exists i :: 0 <= i < |ranges| && ranges[i].0 <= position < ranges[i].1
  }

  /** Non-empty, in order, and never touching. */
  ghost predicate Separated(ranges: seq<Range>) {
    && (forall i :: 0 <= i < |ranges| ==> ranges[i].0 < ranges[i].1)
    && forall i, j :: 0 <= i < j < |ranges| ==> ranges[i].1 < ranges[j].0
  }

  /** Tuples sort by start, then by end: two stable passes. */
  function SortRanges(ranges: seq<Range>): seq<Range> {
    Sort(Sort(ranges, (r: Range) => r.1), (r: Range) => r.0)
  }

  lemma SortRangesSorts(ranges: seq<Range>)
    ensures forall i, j :: 0 <= i <= j < |SortRanges(ranges)| ==> SortRanges(ranges)[i].0 <= SortRanges(ranges)[j].0
    ensures forall r :: r in SortRanges(ranges) <==> r in ranges
  {
    var byEnd := Sort(ranges, (r: Range) => r.1);
    SortSorts(ranges, (r: Range) => r.1);
    SortSorts(byEnd, (r: Range) => r.0);
  }

  lemma SameElementsCoverSame(a: seq<Range>, b: seq<Range>, position: int)
    requires forall r :: r in a <==> r in b
    ensures Covered(position, a) <==> Covered(position, b)
  {
    if Covered(position, a) {
      var i :| 0 <= i < |a| && a[i].0 <= position < a[i].1;
      assert a[i] in b;
    }
    if Covered(position, b) {
      var i :| 0 <= i < |b| && b[i].0 <= position < b[i].1;
      assert b[i] in a;
    }
  }

  /** One step of the merge loop. */
  function MergeStep(merged: seq<Range>, start: int, end: int): seq<Range> {
    if start >= end then merged
    else if merged == [] || start > merged[|merged| - 1].1 then merged + [(start, end)]
    else merged[|merged| - 1 := (merged[|merged| - 1].0, Max(merged[|merged| - 1].1, end))]
  }

  /** Merging keeps exactly the covered positions and leaves separated ranges. */
  method MergeRanges(ranges: seq<Range>) returns (merged: seq<Range>)
    ensures Separated(merged)
    ensures forall p :: Covered(p, merged) <==> Covered(p, ranges)
  {
    var ordered := SortRanges(ranges);
    OrderedRanges(ranges, ordered);
    merged := [];
    for k := 0 to |ordered|
      invariant MergedSoFar(ordered, merged, k)
    {
      var (start, end) := ordered[k];
      MergeStepInvariant(ordered, merged, k);
      if start < end {
        if merged == [] || start > merged[|merged| - 1].1 {
          merged := merged + [(start, end)];
        } else {
          merged := merged[|merged| - 1 := (merged[|merged| - 1].0, Max(merged[|merged| - 1].1, end))];
        }
      }
    }
    assert ordered[..|ordered|] == ordered;
  }

  ghost predicate MergedSoFar(ordered: seq<Range>, merged: seq<Range>, k: nat)
    requires k <= |ordered|
  {
    && Separated(merged)
    && (forall i :: 0 <= i < |merged| && k < |ordered| ==> merged[i].0 <= ordered[k].0)
    && forall p :: Covered(p, merged) <==> Covered(p, ordered[..k])
  }

  lemma MergeStepInvariant(ordered: seq<Range>, merged: seq<Range>, k: nat)
    requires forall i, j :: 0 <= i <= j < |ordered| ==> ordered[i].0 <= ordered[j].0
    requires k < |ordered| && MergedSoFar(ordered, merged, k)
    ensures MergedSoFar(ordered, MergeStep(merged, ordered[k].0, ordered[k].1), k + 1)
  {
    MergeStepKeeps(merged, ordered[k].0, ordered[k].1);
    MergeStepCovers(merged, ordered[k].0, ordered[k].1);
    CoveredGrows(ordered, k);
  }

  lemma OrderedRanges(ranges: seq<Range>, ordered: seq<Range>)
    requires ordered == SortRanges(ranges)
    ensures forall i, j :: 0 <= i <= j < |ordered| ==> ordered[i].0 <= ordered[j].0
    ensures forall p :: Covered(p, ordered) <==> Covered(p, ranges)
  {
    SortRangesSorts(ranges);
    forall p ensures Covered(p, ordered) <==> Covered(p, ranges) {
      SameElementsCoverSame(ordered, ranges, p);
    }
  }

  lemma MergeStepKeeps(merged: seq<Range>, start: int, end: int)
    requires Separated(merged) && forall i :: 0 <= i < |merged| ==> merged[i].0 <= start
    ensures Separated(MergeStep(merged, start, end))
    ensures forall i :: 0 <= i < |MergeStep(merged, start, end)| ==> MergeStep(merged, start, end)[i].0 <= start
  {}

  lemma CoveredGrows(ranges: seq<Range>, k: nat)
    requires k < |ranges|
    ensures forall p :: Covered(p, ranges[..k + 1]) <==> Covered(p, ranges[..k]) || ranges[k].0 <= p < ranges[k].1
  {
    var a, b := ranges[..k], ranges[..k + 1];
    forall p ensures Covered(p, b) <==> Covered(p, a) || ranges[k].0 <= p < ranges[k].1 {
      if Covered(p, a) {
        var i :| 0 <= i < |a| && a[i].0 <= p < a[i].1;
        assert b[i] == a[i];
      }
      if ranges[k].0 <= p < ranges[k].1 {
        assert b[k] == ranges[k];
      }
      if Covered(p, b) {
        var i :| 0 <= i < |b| && b[i].0 <= p < b[i].1;
        assert i < k ==> a[i] == b[i];
      }
    }
  }

  lemma MergeStepCovers(merged: seq<Range>, start: int, end: int)
    requires Separated(merged) && forall i :: 0 <= i < |merged| ==> merged[i].0 <= start
    ensures forall p :: Covered(p, MergeStep(merged, start, end)) <==> Covered(p, merged) || start <= p < end
  {
    var after := MergeStep(merged, start, end);
    forall p ensures Covered(p, after) <==> Covered(p, merged) || start <= p < end {
      if Covered(p, merged) {
        var i :| 0 <= i < |merged| && merged[i].0 <= p < merged[i].1;
        assert after[i].0 <= p < after[i].1;
      }
      if start <= p < end {
        var i := |after| - 1;
        assert after[i].0 <= start && end <= after[i].1;
      }
      if Covered(p, after) {
        var i :| 0 <= i < |after| && after[i].0 <= p < after[i].1;
        if i < |merged| {
          assert merged[i].0 <= p;
          assert p < merged[i].1 || start <= p < end;
        }
      }
    }
  }

  // ----- balanced boxes -----

  const BOX: string := "\\boxed{"

  /** The first position at or behind `cursor` where `what` occurs. */
  function Find(text: string, what: string, cursor: nat): (r: Option<nat>)
    requires cursor <= |text|
    ensures r.Some? ==> cursor <= r.value && StartsWith(text, r.value, what)
    ensures forall p: nat :: cursor <= p < (if r.Some? then r.value else |text|) ==> !StartsWith(text, p, what)
    decreases |text| - cursor
  {
    if StartsWith(text, cursor, what) then Some(cursor)
    else if cursor == |text| then None
    else Find(text, what, cursor + 1)
  }

  /** A brace counts here unless the character in front of it is a backslash. */
  function Step(text: string, i: nat): int
    requires i < |text|
  {
    if i > 0 && text[i - 1] == '\\' then 0
    else if text[i] == '{' then 1 else if text[i] == '}' then -1 else 0
  }

  function Depth(text: string, start: nat, end: nat): int
    requires start <= end <= |text|
  {
    if start == end then 1 else Depth(text, start, end - 1) + Step(text, end - 1)
  }

  /** A marker at `start` whose brace first closes just before `end`. */
  ghost predicate Closes(text: string, start: nat, end: nat) {
    && StartsWith(text, start, BOX)
    && start + |BOX| < end <= |text|
    && Depth(text, start + |BOX|, end) == 0
    && var first := start + |BOX|; forall p :: first <= p < end ==> Depth(text, first, p) > 0
  }

  ghost predicate FirstMarkerCloses(text: string) {
    var first := Find(text, BOX, 0);
    first.Some? && exists end: nat :: Closes(text, first.value, end)
  }

  /** Where the scan behind a marker stops: just behind its closing brace, or at the end of the
      text with an open brace. */
  method ScanBox(text: string, start: nat) returns (position: nat, depth: int)
    requires StartsWith(text, start, BOX)
    ensures depth == 0 ==> Closes(text, start, position)
    ensures depth != 0 ==> forall end: nat :: !Closes(text, start, end)
  {
    var first := start + |BOX|;
    position, depth := first, 1;
    while position < |text| && depth != 0
      invariant first <= position <= |text|
      invariant depth == Depth(text, first, position) >= 0
      invariant forall p :: first <= p < position ==> Depth(text, first, p) > 0
      decreases |text| - position
    {
      if text[position] == '{' && (position == 0 || text[position - 1] != '\\') {
        depth := depth + 1;
      } else if text[position] == '}' && (position == 0 || text[position - 1] != '\\') {
        depth := depth - 1;
      }
      position := position + 1;
    }
  }

  function CursorAfter(boxes: seq<Range>): int { if boxes == [] then 0 else boxes[|boxes| - 1].1 }

  /** Each box is the next marker behind the box before it, and closes. */
  ghost predicate BoxChain(text: string, boxes: seq<Range>) {
    && 0 <= CursorAfter(boxes) <= |text|
    && (boxes == [] ||
        (var front, box := boxes[..|boxes| - 1], boxes[|boxes| - 1];
         && BoxChain(text, front) && 0 <= box.0 && 0 <= box.1
         && Find(text, BOX, CursorAfter(front)) == Some(box.0) && Closes(text, box.0, box.1)))
  }

  /** Behind the last box there is no further marker, or it never closes. */
  ghost predicate ChainEnds(text: string, boxes: seq<Range>)
    requires BoxChain(text, boxes)
  {
    var next := Find(text, BOX, CursorAfter(boxes));
    next.None? || forall end: nat :: !Closes(text, next.value, end)
  }

  lemma {:induction false} ChainStarts(text: string, boxes: seq<Range>)
    requires BoxChain(text, boxes) && boxes != []
    ensures FirstMarkerCloses(text) && Find(text, BOX, 0) == Some(boxes[0].0)
  {
    if |boxes| > 1 {
      ChainStarts(text, boxes[..|boxes| - 1]);
    } else {
      assert boxes[..|boxes| - 1] == [];
      assert Closes(text, boxes[0].0, boxes[0].1);
    }
  }

  lemma {:induction false} ChainInside(text: string, boxes: seq<Range>, i: nat)
    requires BoxChain(text, boxes) && i < |boxes|
    ensures 0 <= boxes[i].0 < boxes[i].1 <= CursorAfter(boxes) && boxes[i].0 < |text|
    ensures Closes(text, boxes[i].0, boxes[i].1)
  {
    if i < |boxes| - 1 {
      ChainInside(text, boxes[..|boxes| - 1], i);
    }
  }

  /** All boxes up to the first unclosed one: the whole chain, and nothing but the chain. */
  method BalancedBoxes(text: string) returns (boxes: seq<Range>)
    ensures BoxChain(text, boxes) && ChainEnds(text, boxes)
    ensures boxes != [] <==> FirstMarkerCloses(text)
    ensures forall i :: 0 <= i < |boxes| ==> 0 <= boxes[i].0 < |text|
  {
    boxes := [];
    while true
      invariant BoxChain(text, boxes)
      decreases |text| - CursorAfter(boxes)
    {
      var found := Find(text, BOX, CursorAfter(boxes));
      if found.None? {
        break;
      }
      var start := found.value;
      var position, depth := ScanBox(text, start);
      if depth != 0 {
        break;
      }
      assert (boxes + [(start, position)])[..|boxes|] == boxes;
      boxes := boxes + [(start, position)];
    }
    if boxes != [] {
      ChainStarts(text, boxes);
    }
    forall i | 0 <= i < |boxes| ensures 0 <= boxes[i].0 < |text| {
      ChainInside(text, boxes, i);
    }
  }

  // ----- boundaries -----

  datatype Boundary = Boundary(position: int, reason: string, hard: bool)

  /** What the dictionary holds for position p: the first boundary there, replaced once by the
      first hard one. */
  function Chosen(all: seq<Boundary>, p: int): Option<Boundary> {
    if all == [] then None else
      var before, b := Chosen(all[..|all| - 1], p), all[|all| - 1];
      if b.position == p && (before.None? || (!before.value.hard && b.hard)) then Some(b) else before
  }

  lemma ChosenNext(all: seq<Boundary>, b: Boundary, p: int)
    ensures Chosen(all + [b], p) ==
      var before := Chosen(all, p);
      if b.position == p && (before.None? || (!before.value.hard && b.hard)) then Some(b) else before
  {
    assert (all + [b])[..|all|] == all;
  }

  /** Entry k is the first hard boundary at its position, or the first one there and none is hard. */
  ghost predicate FirstBest(all: seq<Boundary>, k: nat)
    requires k < |all|
  {
    && (forall i :: 0 <= i < k && all[i].position == all[k].position ==> all[k].hard && !all[i].hard)
    && (!all[k].hard ==> forall i :: 0 <= i < |all| && all[i].position == all[k].position ==> !all[i].hard)
  }

  lemma {:induction false} ChosenIsFirstBest(all: seq<Boundary>, p: int) returns (k: nat)
    requires Chosen(all, p).Some?
    ensures k < |all| && all[k] == Chosen(all, p).value && all[k].position == p && FirstBest(all, k)
  {
    var front, last := all[..|all| - 1], all[|all| - 1];
    if Chosen(front, p).Some? && Chosen(all, p) == Chosen(front, p) {
      k := ChosenIsFirstBest(front, p);
      assert forall i :: 0 <= i < |front| ==> front[i] == all[i];
    } else {
      k := |all| - 1;
      if Chosen(front, p).Some? {
        var j := ChosenIsFirstBest(front, p);
        assert forall i :: 0 <= i < |front| ==> front[i] == all[i];
      } else {
        NothingChosen(front, p);
        assert forall i :: 0 <= i < |front| ==> front[i] == all[i];
      }
    }
  }

  lemma {:induction false} NothingChosen(all: seq<Boundary>, p: int)
    requires Chosen(all, p).None?
    ensures forall i :: 0 <= i < |all| ==> all[i].position != p
  {
    if all != [] {
      NothingChosen(all[..|all| - 1], p);
    }
  }

  /** One boundary per position, in order: at each position the first hard one, or else the first. */
  ghost predicate Deduplicated(all: seq<Boundary>, kept: seq<Boundary>) {
    && (forall i, j :: 0 <= i < j < |kept| ==> kept[i].position < kept[j].position)
    && (forall b :: b in kept ==> exists k :: 0 <= k < |all| && all[k] == b && FirstBest(all, k))
    && forall b :: b in all ==> exists k :: 0 <= k < |kept| && kept[k].position == b.position
  }

  method DeduplicateBoundaries(all: seq<Boundary>) returns (kept: seq<Boundary>)
    ensures Deduplicated(all, kept)
  {
    var byPosition: map<int, Boundary> := map[];
    var order: seq<int> := [];
    for i := 0 to |all|
      invariant forall p :: p in order <==> p in byPosition
      invariant Distinct(order)
      invariant forall p :: Chosen(all[..i], p) == if p in byPosition then Some(byPosition[p]) else None
    {
      var b := all[i];
      assert all[..i + 1] == all[..i] + [b];
      forall p ensures Chosen(all[..i + 1], p) ==
        var before := Chosen(all[..i], p);
        if b.position == p && (before.None? || (!before.value.hard && b.hard)) then Some(b) else before
      {
        ChosenNext(all[..i], b, p);
      }
      if b.position !in byPosition {
        order := order + [b.position];
        byPosition := byPosition[b.position := b];
      } else if !byPosition[b.position].hard && b.hard {
        byPosition := byPosition[b.position := b];
      }
    }
    assert all[..|all|] == all;
    var positions := Sort(order, (p: int) => p);
    SortSorts(order, (p: int) => p);
    SortDistinct(order, (p: int) => p);
    forall i | 0 <= i < |positions| ensures positions[i] in byPosition {
      assert positions[i] in positions && positions[i] in order;
    }
    kept := seq(|positions|, i requires 0 <= i < |positions| && positions[i] in byPosition => byPosition[positions[i]]);
    KeptAreDeduplicated(all, byPosition, positions, kept);
  }

  lemma KeptAreDeduplicated(all: seq<Boundary>, byPosition: map<int, Boundary>, positions: seq<int>,
                            kept: seq<Boundary>)
    requires forall i, j :: 0 <= i < j < |positions| ==> positions[i] < positions[j]
    requires forall p :: p in positions <==> p in byPosition
    requires forall p :: Chosen(all, p) == if p in byPosition then Some(byPosition[p]) else None
    requires |kept| == |positions| && forall i :: 0 <= i < |kept| ==>
      positions[i] in byPosition && kept[i] == byPosition[positions[i]]
    ensures Deduplicated(all, kept)
  {
    hide Chosen, FirstBest;
    forall i | 0 <= i < |kept|
      ensures kept[i].position == positions[i] && exists k :: 0 <= k < |all| && all[k] == kept[i] && FirstBest(all, k)
    {
      assert Chosen(all, positions[i]) == Some(kept[i]);
      var k := ChosenIsFirstBest(all, positions[i]);
    }
    forall b | b in all ensures exists k :: 0 <= k < |kept| && kept[k].position == b.position {
      if Chosen(all, b.position).None? {
        NothingChosen(all, b.position);
      }
      assert b.position in byPosition;
      var k :| 0 <= k < |positions| && positions[k] == b.position;
      assert kept[k].position == b.position;
    }
  }

  // ----- steps -----

  datatype TextStep = TextStep(index: nat, start: int, end: int, text: string, isFinal: bool, boundary: Boundary)

  /** The steps tile the response: consecutive, non-empty, each carrying its own text. */
  ghost predicate Partition(steps: seq<TextStep>, response: string) {
    && (response == "" <==> steps == [])
    && (forall i :: 0 <= i < |steps| ==>
      && steps[i].index == i
      && 0 <= steps[i].start < steps[i].end <= |response|
      && steps[i].start == (if i == 0 then 0 else steps[i - 1].end)
      && steps[i].text == response[steps[i].start..steps[i].end])
    && (steps != [] ==> steps[0].start == 0 && steps[|steps| - 1].end == |response|)
  }

  function Texts(steps: seq<TextStep>): string {
    if steps == [] then "" else Texts(steps[..|steps| - 1]) + steps[|steps| - 1].text
  }

  lemma {:induction false} TextsArePrefix(steps: seq<TextStep>, response: string, k: nat)
    requires Partition(steps, response) && k <= |steps|
    ensures Texts(steps[..k]) == response[..if k == 0 then 0 else steps[k - 1].end]
  {
    if k > 0 {
      TextsArePrefix(steps, response, k - 1);
      assert steps[..k][..k - 1] == steps[..k - 1];
      var s := steps[k - 1];
      assert response[..s.end] == response[..s.start] + response[s.start..s.end];
    }
  }

  /** Concatenating the step texts gives the response back. */
  lemma PartitionRecovers(steps: seq<TextStep>, response: string)
    requires Partition(steps, response)
    ensures Texts(steps) == response
  {
    TextsArePrefix(steps, response, |steps|);
    assert steps[..|steps|] == steps;
    assert response[..|response|] == response;
  }

  lemma {:induction false} StepsOrdered(steps: seq<TextStep>, response: string, i: nat, j: nat)
    requires Partition(steps, response) && i < j < |steps|
    ensures steps[i].end <= steps[j].start
  {
    assert steps[j].start == steps[j - 1].end;
    if i < j - 1 {
      StepsOrdered(steps, response, i, j - 1);
    }
  }

  /** Every character lies in exactly one step. */
  lemma {:induction false} OwningStep(steps: seq<TextStep>, response: string, position: nat) returns (k: nat)
    requires Partition(steps, response) && position < |response|
    ensures k < |steps| && steps[k].start <= position < steps[k].end
    ensures forall i :: 0 <= i < |steps| && steps[i].start <= position < steps[i].end ==> i == k
  {
    k := OwnerBelow(steps, response, position, |steps|);
    forall i | 0 <= i < |steps| && steps[i].start <= position < steps[i].end ensures i == k {
      if i < k { StepsOrdered(steps, response, i, k); }
      if k < i { StepsOrdered(steps, response, k, i); }
    }
  }

  lemma {:induction false} OwnerBelow(steps: seq<TextStep>, response: string, position: nat, n: nat) returns (k: nat)
    requires Partition(steps, response) && 0 < n <= |steps| && position < steps[n - 1].end
    ensures k < n && steps[k].start <= position < steps[k].end
    decreases n
  {
    if steps[n - 1].start <= position {
      k := n - 1;
    } else {
      assert steps[n - 1].start == if n == 1 then 0 else steps[n - 2].end;
      k := OwnerBelow(steps, response, position, n - 1);
    }
  }

  // ----- the splitter -----

  /** What the regular-expression detectors report on one response; nothing is assumed of it. */
  datatype Detected = Detected(
    ranges: seq<Range>,
    explicit: seq<Boundary>,
    ranked: seq<seq<Boundary>>,
    heading: Option<Boundary>,
    paragraph: Option<Boundary>)

  /** The boundaries offered: explicit ones, else the first ranked detector that finds any, and
      the final-answer boundary when there is one. */
  function Offered(d: Detected, hasBox: bool): seq<Boundary> {
    (if d.explicit != [] then d.explicit else FirstFound(d.ranked))
    + (if !hasBox then [] else if d.heading.Some? then [d.heading.value]
       else if d.paragraph.Some? then [d.paragraph.value] else [])
  }

  function FirstFound(ranked: seq<seq<Boundary>>): seq<Boundary> {
    if ranked == [] then [] else if ranked[0] != [] then ranked[0] else FirstFound(ranked[1..])
  }

  /** A position where the response may be cut. */
  predicate Cuttable(d: Detected, hasBox: bool, response: string, p: int) {
    && 0 < p < |response|
    && !Covered(p, d.ranges)
    && exists i :: 0 <= i < |Offered(d, hasBox)| && Offered(d, hasBox)[i].position == p
  }

  predicate StartsAt(steps: seq<TextStep>, p: int) { exists k :: 0 < k < |steps| && steps[k].start == p }

  ghost predicate CutPoints(steps: seq<TextStep>, d: Detected, response: string, hasBox: bool) {
    forall p :: Cuttable(d, hasBox, response, p) <==> StartsAt(steps, p)
  }

  predicate HoldsBox(s: TextStep, boxes: seq<Range>) {
    boxes != [] && s.start <= boxes[|boxes| - 1].0 < s.end
  }

  /** Exactly the cuttable positions start a new step, and a step is the final answer exactly
      when it holds the last box's start. */
  ghost predicate CutsExactly(steps: seq<TextStep>, d: Detected, response: string, boxes: seq<Range>) {
    && CutPoints(steps, d, response, boxes != [])
    && forall k :: 0 <= k < |steps| ==> (steps[k].isFinal <==> HoldsBox(steps[k], boxes))
  }

  /** The boundaries that come into question: explicit ones, or the first kind found, and one
      before the final answer. */
  method OfferedBoundaries(d: Detected, hasBox: bool) returns (candidates: seq<Boundary>)
    ensures candidates == Offered(d, hasBox)
  {
    candidates := d.explicit;
    if candidates == [] {
      var i := 0;
      while i < |d.ranked| && candidates == []
        invariant 0 <= i <= |d.ranked|
        invariant FirstFound(d.ranked) == if candidates != [] then candidates else FirstFound(d.ranked[i..])
      {
        candidates := d.ranked[i];
        i := i + 1;
      }
    }
    var final := if !hasBox then None else if d.heading.Some? then d.heading else d.paragraph;
    if final.Some? {
      candidates := candidates + [final.value];
    }
  }

  method SplitTextSteps(response: string, d: Detected) returns (steps: seq<TextStep>, boxes: seq<Range>)
    ensures Partition(steps, response)
    ensures Texts(steps) == response
    ensures BoxChain(response, boxes) && ChainEnds(response, boxes)
    ensures boxes != [] <==> FirstMarkerCloses(response)
    ensures forall i :: 0 <= i < |boxes| ==> 0 <= boxes[i].0 < |response|
    ensures CutsExactly(steps, d, response, boxes)
  {
    hide FirstMarkerCloses, Offered, Deduplicated, HoldsBox, BoxChain;
    boxes := BalancedBoxes(response);
    if response == "" {
      steps := [];
      return;
    }
    var protected := MergeRanges(d.ranges);
    var candidates := OfferedBoundaries(d, boxes != []);
    var unique := DeduplicateBoundaries(candidates);
    var cuts := FilterBoundaries(unique, protected, |response|);
    steps := CutAt(response, cuts, boxes);
    PartitionRecovers(steps, response);
    AllCutPositions(d, response, boxes != [], unique, cuts, protected, steps);
  }

  lemma AllCutPositions(d: Detected, response: string, hasBox: bool, unique: seq<Boundary>, cuts: seq<Boundary>,
                        protected: seq<Range>, steps: seq<TextStep>)
    requires Deduplicated(Offered(d, hasBox), unique)
    requires forall b :: b in cuts <==> b in unique && 0 < b.position < |response| && !Covered(b.position, protected)
    requires forall p :: Covered(p, protected) <==> Covered(p, d.ranges)
    requires |steps| == |cuts| + 1 && forall k :: 0 < k < |steps| ==> steps[k].start == cuts[k - 1].position
    ensures CutPoints(steps, d, response, hasBox)
  {
    hide Deduplicated, Offered, Covered, Cuttable, StartsAt;
    forall p ensures Cuttable(d, hasBox, response, p) <==> StartsAt(steps, p) {
      CutPositions(d, response, hasBox, unique, cuts, protected, steps, p);
    }
  }

  /** The surviving boundaries: inside the text and unprotected. */
  method FilterBoundaries(unique: seq<Boundary>, protected: seq<Range>, length: nat) returns (cuts: seq<Boundary>)
    requires forall i, j :: 0 <= i < j < |unique| ==> unique[i].position < unique[j].position
    ensures forall i, j :: 0 <= i < j < |cuts| ==> cuts[i].position < cuts[j].position
    ensures forall i :: 0 <= i < |cuts| ==> 0 < cuts[i].position < length
    ensures forall b :: b in cuts <==> b in unique && Inside(b, protected, length)
  {
    hide Inside, FilteredTo;
    cuts := [];
    FilterStarts(unique, protected, length);
    for i := 0 to |unique|
      invariant FilteredTo(cuts, unique, i, protected, length)
    {
      FilterStep(cuts, unique, i, protected, length);
      if Inside(unique[i], protected, length) {
        cuts := cuts + [unique[i]];
      }
    }
    FilterEnds(cuts, unique, protected, length);
  }

  predicate Inside(b: Boundary, protected: seq<Range>, length: nat) {
    0 < b.position < length && !Covered(b.position, protected)
  }

  /** The cuts are the first i boundaries that are inside and unprotected, in order. */
  ghost predicate FilteredTo(cuts: seq<Boundary>, unique: seq<Boundary>, i: nat, protected: seq<Range>, length: nat)
    requires i <= |unique|
  {
    && (forall a, b :: 0 <= a < b < |cuts| ==> cuts[a].position < cuts[b].position)
    && (forall a, k :: 0 <= a < |cuts| && i <= k < |unique| ==> cuts[a].position < unique[k].position)
    && forall b :: b in cuts <==> b in unique[..i] && Inside(b, protected, length)
  }

  lemma FilterStarts(unique: seq<Boundary>, protected: seq<Range>, length: nat)
    ensures FilteredTo([], unique, 0, protected, length)
  {}

  lemma FilterStep(cuts: seq<Boundary>, unique: seq<Boundary>, i: nat, protected: seq<Range>, length: nat)
    requires i < |unique| && FilteredTo(cuts, unique, i, protected, length)
    requires forall i, j :: 0 <= i < j < |unique| ==> unique[i].position < unique[j].position
    ensures FilteredTo(if Inside(unique[i], protected, length) then cuts + [unique[i]] else cuts, unique, i + 1,
                       protected, length)
  {
    hide Inside;
    assert unique[..i + 1] == unique[..i] + [unique[i]];
  }

  lemma FilterEnds(cuts: seq<Boundary>, unique: seq<Boundary>, protected: seq<Range>, length: nat)
    requires FilteredTo(cuts, unique, |unique|, protected, length)
    ensures forall i, j :: 0 <= i < j < |cuts| ==> cuts[i].position < cuts[j].position
    ensures forall i :: 0 <= i < |cuts| ==> 0 < cuts[i].position < length
    ensures forall b :: b in cuts <==> b in unique && Inside(b, protected, length)
  {
    assert unique[..|unique|] == unique;
    forall i | 0 <= i < |cuts| ensures 0 < cuts[i].position < length {
      assert cuts[i] in cuts;
    }
  }

  function Starts(cuts: seq<Boundary>): (r: seq<int>)
    ensures |r| == |cuts| + 1
    ensures r[0] == 0 && forall i :: 0 < i < |r| ==> r[i] == cuts[i - 1].position
  {
    [0] + seq(|cuts|, i requires 0 <= i < |cuts| => cuts[i].position)
  }

  predicate CutsInside(cuts: seq<Boundary>, response: string) {
    && response != ""
    && (forall i, j :: 0 <= i < j < |cuts| ==> cuts[i].position < cuts[j].position)
    && forall i :: 0 <= i < |cuts| ==> 0 < cuts[i].position < |response|
  }

  function StepEnd(response: string, cuts: seq<Boundary>, k: nat): int
    requires k <= |cuts|
  {
    if k < |cuts| then cuts[k].position else |response|
  }

  function StepAt(response: string, cuts: seq<Boundary>, boxes: seq<Range>, k: nat): TextStep
    requires CutsInside(cuts, response) && k <= |cuts|
  {
    var start := if k == 0 then 0 else cuts[k - 1].position;
    var end := StepEnd(response, cuts, k);
    TextStep(k, start, end, response[start..end], boxes != [] && start <= boxes[|boxes| - 1].0 < end,
             if k == 0 then Boundary(0, "start", true) else cuts[k - 1])
  }

  method CutAt(response: string, cuts: seq<Boundary>, boxes: seq<Range>) returns (steps: seq<TextStep>)
    requires CutsInside(cuts, response)
    ensures Partition(steps, response)
    ensures |steps| == |cuts| + 1
    ensures forall k :: 0 < k < |steps| ==> steps[k].start == cuts[k - 1].position && steps[k].boundary == cuts[k - 1]
    ensures forall k :: 0 <= k < |steps| ==> (steps[k].isFinal <==> HoldsBox(steps[k], boxes))
  {
    var starts := Starts(cuts);
    var reasons := [Boundary(0, "start", true)] + cuts;
    steps := [];
    for index := 0 to |starts|
      invariant |steps| == index
      invariant forall k :: 0 <= k < index ==> steps[k] == StepAt(response, cuts, boxes, k)
    {
      var start := starts[index];
      var end := if index + 1 < |starts| then starts[index + 1] else |response|;
      assert start < end;
      if start >= end {
        continue;
      }
      var isFinal := boxes != [] && start <= boxes[|boxes| - 1].0 < end;
      steps := steps + [TextStep(|steps|, start, end, response[start..end], isFinal, reasons[index])];
    }
    forall k | 0 <= k < |steps| ensures steps[k] == StepAt(response, cuts, boxes, k) {}
    StepsPartition(steps, response, cuts, boxes);
  }

  lemma StepsPartition(steps: seq<TextStep>, response: string, cuts: seq<Boundary>, boxes: seq<Range>)
    requires CutsInside(cuts, response) && |steps| == |cuts| + 1
    requires forall k :: 0 <= k < |steps| ==> steps[k] == StepAt(response, cuts, boxes, k)
    ensures Partition(steps, response)
  {
    forall i | 0 <= i < |steps|
      ensures steps[i].start == (if i == 0 then 0 else steps[i - 1].end)
      ensures 0 <= steps[i].start < steps[i].end <= |response|
    {
      if i > 0 {
        assert steps[i - 1] == StepAt(response, cuts, boxes, i - 1);
      }
    }
  }

  lemma CutPositions(d: Detected, response: string, hasBox: bool, unique: seq<Boundary>, cuts: seq<Boundary>,
                     protected: seq<Range>, steps: seq<TextStep>, p: int)
    requires Deduplicated(Offered(d, hasBox), unique)
    requires forall b :: b in cuts <==> b in unique && 0 < b.position < |response| && !Covered(b.position, protected)
    requires Covered(p, protected) <==> Covered(p, d.ranges)
    requires |steps| == |cuts| + 1 && forall k :: 0 < k < |steps| ==> steps[k].start == cuts[k - 1].position
    ensures Cuttable(d, hasBox, response, p) <==> StartsAt(steps, p)
  {
    var offered := Offered(d, hasBox);
    if Cuttable(d, hasBox, response, p) {
      var i :| 0 <= i < |offered| && offered[i].position == p;
      assert offered[i] in offered;
      var u :| 0 <= u < |unique| && unique[u].position == p;
      assert unique[u] in cuts;
      var c :| 0 <= c < |cuts| && cuts[c] == unique[u];
      assert steps[c + 1].start == p;
    }
    if StartsAt(steps, p) {
      var k :| 0 < k < |steps| && steps[k].start == p;
      assert cuts[k - 1] in cuts && cuts[k - 1] in offered;
    }
  }

  // ----- what the cuts guarantee -----

  predicate At(bs: seq<Boundary>, p: int) { exists i :: 0 <= i < |bs| && bs[i].position == p }

  /** Where a response may be cut: inside it and outside every protected range, at an explicit
      boundary, or, when there are none, at one of the first detector that finds any; and with a
      box also in front of the final answer, at its heading if there is one, else at its paragraph. */
  lemma CuttableMeans(d: Detected, hasBox: bool, response: string, p: int, first: nat)
    requires first <= |d.ranked| && (forall k :: 0 <= k < first ==> d.ranked[k] == [])
    requires first < |d.ranked| ==> d.ranked[first] != []
    ensures Cuttable(d, hasBox, response, p) <==>
      && 0 < p < |response| && !Covered(p, d.ranges)
      && (|| (d.explicit != [] && At(d.explicit, p))
          || (d.explicit == [] && first < |d.ranked| && At(d.ranked[first], p))
          || (hasBox && d.heading.Some? && d.heading.value.position == p)
          || (hasBox && d.heading.None? && d.paragraph.Some? && d.paragraph.value.position == p))
  {
    FirstFoundIs(d.ranked, first);
    var base := if d.explicit != [] then d.explicit else if first < |d.ranked| then d.ranked[first] else [];
    var final := if !hasBox then [] else if d.heading.Some? then [d.heading.value]
      else if d.paragraph.Some? then [d.paragraph.value] else [];
    AtConcat(base, final, p);
    assert Offered(d, hasBox) == base + final;
    assert final != [] ==> (At(final, p) <==> final[0].position == p);
    assert Cuttable(d, hasBox, response, p) <==>
      0 < p < |response| && !Covered(p, d.ranges) && At(Offered(d, hasBox), p);
  }

  lemma AtConcat(a: seq<Boundary>, b: seq<Boundary>, p: int)
    ensures At(a + b, p) <==> At(a, p) || At(b, p)
  {
    if i :| 0 <= i < |a| && a[i].position == p {
      assert (a + b)[i].position == p;
    }
    if i :| 0 <= i < |b| && b[i].position == p {
      assert (a + b)[|a| + i].position == p;
    }
  }

  lemma {:induction false} FirstFoundIs(ranked: seq<seq<Boundary>>, first: nat)
    requires first <= |ranked| && forall k :: 0 <= k < first ==> ranked[k] == []
    requires first < |ranked| ==> ranked[first] != []
    ensures FirstFound(ranked) == if first < |ranked| then ranked[first] else []
  {
    if first > 0 {
      FirstFoundIs(ranked[1..], first - 1);
    }
  }

  /** A protected region lies wholly inside one step: no two of its characters are separated. */
  lemma ProtectedStaysWhole(steps: seq<TextStep>, d: Detected, response: string, boxes: seq<Range>,
                            r: Range, p: int, q: int, i: nat, j: nat)
    requires Partition(steps, response) && CutsExactly(steps, d, response, boxes)
    requires r in d.ranges && r.0 <= p <= q < r.1
    requires i < |steps| && j < |steps|
    requires steps[i].start <= p < steps[i].end && steps[j].start <= q < steps[j].end
    ensures i == j
  {
    if j < i {
      StepsOrdered(steps, response, j, i);
    }
    if i < j {
      StepsOrdered(steps, response, i, j);
      assert Covered(steps[j].start, d.ranges) by {
        var k :| 0 <= k < |d.ranges| && d.ranges[k] == r;
        assert d.ranges[k].0 <= steps[j].start < d.ranges[k].1;
      }
      assert StartsAt(steps, steps[j].start);
    }
  }

  /** Exactly one step is the final answer when the first box marker closes, else none is. */
  lemma OneFinalAnswer(steps: seq<TextStep>, d: Detected, response: string, boxes: seq<Range>)
    requires Partition(steps, response) && CutsExactly(steps, d, response, boxes)
    requires boxes != [] <==> FirstMarkerCloses(response)
    requires forall i :: 0 <= i < |boxes| ==> 0 <= boxes[i].0 < |response|
    ensures FirstMarkerCloses(response) <==> exists k :: 0 <= k < |steps| && steps[k].isFinal
    ensures forall i, j :: 0 <= i < |steps| && 0 <= j < |steps| && steps[i].isFinal && steps[j].isFinal ==> i == j
    ensures forall k :: 0 <= k < |steps| && steps[k].isFinal ==>
      boxes != [] && steps[k].start <= boxes[|boxes| - 1].0 < steps[k].end
  {
    if boxes != [] {
      var k := OwningStep(steps, response, boxes[|boxes| - 1].0);
      assert steps[k].isFinal;
    }
  }

  /** A box that never closes hides a later one that does: on this response no step is final. */
  lemma UnclosedBoxHidesLater()
    ensures var text := "\\boxed{\\boxed{}"; Closes(text, 7, 15) && !FirstMarkerCloses(text)
  {
    var text := "\\boxed{\\boxed{}";
    assert |text| == 15;
    assert text[7..14] == BOX && text[..7] == BOX;
    assert Depth(text, 14, 14) == 1 && Depth(text, 14, 15) == 0;
    assert Find(text, BOX, 0) == Some(0);
    assert Depth(text, 7, 7) == 1;
    assert Depth(text, 7, 8) == 1 && Depth(text, 7, 9) == 1 && Depth(text, 7, 10) == 1;
    assert Depth(text, 7, 11) == 1 && Depth(text, 7, 12) == 1 && Depth(text, 7, 13) == 1;
    assert Depth(text, 7, 14) == 2 && Depth(text, 7, 15) == 1;
    forall end: nat ensures !Closes(text, 0, end) {
      assert 7 < end <= 15 ==> Depth(text, 7, end) > 0;
    }
  }
}
