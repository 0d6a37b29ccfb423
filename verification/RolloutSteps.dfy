/** The splitter's guarantee to its users: the spans the ERSR sampler draws from, the replacements
    its evaluators cut from proposals, and the step ends the probe metadata stores.
    Models utils/ersr.py and utils/r2opl_probe.py. */
module RolloutSteps {
  import opened Basics
  import opened TextSteps
  import opened TokenAlignment
  import EC = ErsrCases
  import PL = ProbeLayout
  import SE = StagedErsr
  import AP = AnswerProbe
  import BA = BoxedAnswer

  function SpansOf(steps: seq<TokenStep>): seq<EC.Span> {
    seq(|steps|, k requires 0 <= k < |steps| => EC.Span(steps[k].index, steps[k].tokenStart, steps[k].tokenEnd))
  }

  function EndsOf(steps: seq<TokenStep>): (ends: seq<int>)
    ensures |ends| == |steps|
  {
    seq(|steps|, k requires 0 <= k < |steps| => steps[k].tokenEnd)
  }

  /** `r` is what splitting `ids` gives: it raises on no ids that decode to text, and otherwise
      returns the spans of steps that partition the response. */
  ghost predicate IsSplit(decode: Decoder, ids: seq<int>, r: Result<seq<EC.Span>>) {
    && (r.Ok? <==> EmptyDecodesEmpty(decode, ids))
    && (r.Ok? ==> exists steps :: TokenSpans(steps, decode, ids, decode(ids)) && r.value == SpansOf(steps))
  }

  method SplitIds(decode: Decoder, ids: seq<int>, detect: string -> Detected) returns (r: Result<seq<EC.Span>>)
    ensures IsSplit(decode, ids, r)
  {
    var split, _, _ := SplitRolloutSteps(decode, ids, detect);
    r := if split.Ok? then Ok(SpansOf(split.value.1)) else Err(split.reason);
  }

  /** What the ERSR modules demand of their splitter holds of this one, for every decoder. */
  lemma SplitterIsOk(decode: Decoder, split: EC.Splitter)
    requires forall ids :: IsSplit(decode, ids, split(ids))
    ensures EC.SplitterOk(split)
  {
    forall ids | split(ids).Ok? ensures EC.SpansOk(split(ids).value, |ids|) {
      assert IsSplit(decode, ids, split(ids));
      var steps :| TokenSpans(steps, decode, ids, decode(ids)) && split(ids).value == SpansOf(steps);
      SpansFit(steps, decode, ids);
    }
  }

  // ----- the two evaluators on this splitter -----

  /** The proposal of a case's teacher is empty, and the decoder makes text of nothing. */
  predicate ProposesNothing(e: SE.Site, c: EC.Case, decode: Decoder)
    requires e.s.mcK > 0 && 0 <= c.candidate.start <= |c.candidate.responseIds|
  {
    && c.candidate.key.action == EC.TeacherReplace && SE.TeacherBudget(e, c) > 0 && e.teacher.Some?
    && e.generate(e.teacher.value, SE.TeacherQuery(e, c)) == [] && decode([]) != ""
  }

  /** With this splitter the per-case evaluator raises on one occasion only: a teacher with budget
      proposes nothing and the decoder makes text of nothing. The staged evaluation records a skip
      there; everywhere else, so for every case of a decoder that makes no text of nothing, the two
      give the same result. */
  lemma StagedIsPerCase(e: SE.Site, c: EC.Case, decode: Decoder)
    requires SE.CaseReady(e, c) && SE.GradersAgree(e.grade, c.candidate.key.dataset)
    requires forall ids :: IsSplit(decode, ids, e.split(ids))
    ensures SE.EvaluateCase(e, c, None).Err? <==> ProposesNothing(e, c, decode)
    ensures SE.EvaluateCase(e, c, None) == Ok(SE.Expected(e, c)) <==> !ProposesNothing(e, c, decode)
    ensures ProposesNothing(e, c, decode) ==>
      SE.Expected(e, c) == SE.Skipped(c.candidate.key, c.caseId, "teacher_split_error")
    ensures decode([]) == "" ==> SE.EvaluateCase(e, c, None) == Ok(SE.Expected(e, c))
  {
    hide IsSplit, SE.EvaluateCase, SE.Expected, SE.GradersAgree;
    SE.SameAsPerCase(e, c);
    if e.teacher.Some? {
      SplitRaises(decode, e.generate(e.teacher.value, SE.TeacherQuery(e, c)), e.split);
    }
  }

  lemma SplitRaises(decode: Decoder, ids: seq<int>, split: EC.Splitter)
    requires forall ids :: IsSplit(decode, ids, split(ids))
    ensures split(ids).Err? <==> ids == [] && decode([]) != ""
  {
    assert IsSplit(decode, ids, split(ids));
  }

  /** Splitting with the decoder that makes "a" of anything: one step of one token, or an error. */
  function BlurtSplit(ids: seq<int>): Result<seq<EC.Span>> {
    if ids == [] then Err("uncovered") else Ok([EC.Span(0, 0, 1)])
  }

  lemma BlurtSplits(ids: seq<int>)
    ensures IsSplit(Blurt, ids, BlurtSplit(ids))
  {
    if ids != [] {
      var steps := [TokenStep(0, 0, 1, 0, 1, "a", false, Boundary(0, "", false))];
      assert TokenSpans(steps, Blurt, ids, "a");
      assert SpansOf(steps) == [EC.Span(0, 0, 1)];
    }
  }

  function BlurtSite(): SE.Site {
    SE.Site(EC.Settings(["d"], 1, 1, 0, 8, 4), (model, query) => [], (ids, answer, source) => 0.0, BlurtSplit,
            "student", Some("teacher"))
  }

  function BlurtCase(): EC.Case {
    EC.Number(EC.Candidate(EC.Key("d", EC.TeacherReplace), 0, "u", "x", [], [0, 0], 0, 0, 1), 0, BlurtSite().s)
  }

  /** A case on which the two evaluators part: its teacher proposes nothing. */
  lemma EmptyProposalDiverges()
    ensures SE.CaseReady(BlurtSite(), BlurtCase()) && SE.GradersAgree(BlurtSite().grade, "d")
    ensures SE.EvaluateCase(BlurtSite(), BlurtCase(), None).Err?
    ensures SE.Expected(BlurtSite(), BlurtCase())
      == SE.Skipped(BlurtCase().candidate.key, BlurtCase().caseId, "teacher_split_error")
  {
    hide SE.CaseReady, SE.EvaluateCase, SE.Expected, SE.GradersAgree, BlurtSite, BlurtCase, ProposesNothing, IsSplit;
    BlurtReady();
    StagedIsPerCase(BlurtSite(), BlurtCase(), Blurt);
  }

  lemma BlurtReady()
    ensures SE.CaseReady(BlurtSite(), BlurtCase())
    ensures SE.GradersAgree(BlurtSite().grade, BlurtCase().candidate.key.dataset)
    ensures BlurtCase().candidate.key.dataset == "d" && ProposesNothing(BlurtSite(), BlurtCase(), Blurt)
    ensures forall ids :: IsSplit(Blurt, ids, BlurtSite().split(ids))
  {
    hide IsSplit, EC.SplitterOk, EC.CaseId, BlurtSplit, SE.GradersAgree;
    BlurtSplitter();
    ConstantGrade();
  }

  lemma BlurtSplitter()
    ensures (forall ids :: IsSplit(Blurt, ids, BlurtSplit(ids))) && EC.SplitterOk(BlurtSplit)
  {
    hide IsSplit, EC.SplitterOk, BlurtSplit;
    forall ids ensures IsSplit(Blurt, ids, BlurtSplit(ids)) {
      BlurtSplits(ids);
    }
    SplitterIsOk(Blurt, BlurtSplit);
  }

  lemma ConstantGrade()
    ensures SE.GradersAgree(BlurtSite().grade, "d")
  {
    hide EC.CaseId;
  }

  // ----- step ends and probe metadata -----

  /** Steps of an aligned response are numbered, non-empty and inside it, their ends increase, and
      there are none exactly when the response has no text. */
  lemma SpansFit(steps: seq<TokenStep>, decode: Decoder, ids: seq<int>)
    requires TokenSpans(steps, decode, ids, decode(ids))
    ensures EC.SpansOk(SpansOf(steps), |ids|) && PL.Increasing(EndsOf(steps), |ids|)
    ensures TokenTexts(steps) == decode(ids) ==> (steps == [] <==> decode(ids) == "")
  {
    var ends := EndsOf(steps);
    forall k | 0 <= k < |steps| ensures PL.EndBefore(ends, k) < ends[k] <= |ids| {
      assert steps[k].tokenStart == LastTokenEnd(steps[..k]) < steps[k].tokenEnd <= |ids|;
    }
    if steps != [] {
      assert steps[0].charStart < steps[0].charEnd <= |decode(ids)|;
    }
  }

  const PROBE_PREFIX: string := "Therefore, the answer is \\boxed{"
  const PROBE_SUFFIX: string := "}."

  function ProbeText(answer: string): string { PROBE_PREFIX + answer + PROBE_SUFFIX }

  /** A probe shows its answer the way a rollout has to: the verifier reads that answer off the
      probe, if it is balanced, prints no box of its own and needs no repair. */
  lemma ProbeShowsAnswer(cc: BA.CharClass, answer: string)
    requires cc.Sane() && BA.Repaired(answer) && BA.Balanced(answer)
    requires forall p: nat :: p > |PROBE_PREFIX| - |"\\boxed{"| ==> BA.MarkerBrace(cc, ProbeText(answer), p).None?
    ensures BA.ExtractFinalAnswer(cc, ProbeText(answer)) == (BA.Strip(cc, answer), BA.Strip(cc, answer) != "")
  {
    var text := ProbeText(answer);
    var lead := "Therefore, the answer is ";
    assert PROBE_PREFIX == lead + BA.BOXED + "" + "{";
    assert text == lead + BA.BOXED + "" + "{" + answer + "}" + ".";
    ProbeRepaired(answer);
    hide BA.Repaired, BA.Balanced, BA.MarkerBrace, BA.ExtractFinalAnswer, BA.Strip;
    BA.ExtractUndoesPrinting(cc, text, lead, "", answer, ".");
  }

  lemma ProbeRepaired(answer: string)
    requires BA.Repaired(answer)
    ensures BA.Repaired(ProbeText(answer))
  {
    assert forall i :: 0 <= i < |PROBE_PREFIX| ==> ' ' <= PROBE_PREFIX[i] <= '~';
    assert forall i :: 0 <= i < |PROBE_SUFFIX| ==> ' ' <= PROBE_SUFFIX[i] <= '~';
  }

  predicate Blank(isSpace: char -> bool, text: string) { forall i :: 0 <= i < |text| ==> isSpace(text[i]) }

  /** The tokenized probe has a span for every token, decodes back to its text, and its answer is
      overlapped by some token but not by the first one, which nothing predicts. */
  ghost predicate Usable(t: AP.Tokenizer, answer: string) {
    var start, end := |PROBE_PREFIX|, |PROBE_PREFIX| + |answer|;
    AP.Probeable(t, ProbeText(answer), start, end)
    && !AP.Overlaps(AP.OffsetsOf(t, ProbeText(answer)).value[0], start, end)
  }

  /** The gold-answer probe inside the metadata. */
  ghost predicate ProbeIn(m: PL.Metadata, t: AP.Tokenizer, answer: string) {
    && AP.OffsetsOf(t, ProbeText(answer)).Some?
    && m.probe == t.encode(ProbeText(answer)).ids
    && AP.SelectsOverlaps(AP.OffsetsOf(t, ProbeText(answer)).value, |PROBE_PREFIX|, |PROBE_PREFIX| + |answer|,
                          m.answers)
  }

  /** `build_r2opl_probe_metadata` from generated ids, the tokenizer and the dataset's answer: it
      fails exactly when splitting raises, or when there is a step to probe and the answer is blank
      or its probe unusable. What it stores are the probe's ids and exactly the tokens that overlap
      the answer. */
  method BuildRolloutMetadata(decode: Decoder, ids: seq<int>, detect: string -> Detected, t: AP.Tokenizer,
                              answer: string, isSpace: char -> bool)
    returns (r: Result<PL.Metadata>, ghost steps: seq<TokenStep>)
    ensures TokenSpans(steps, decode, ids, decode(ids))
    ensures r.Ok? <==>
      EmptyDecodesEmpty(decode, ids) && (|steps| >= 2 ==> !Blank(isSpace, answer) && Usable(t, answer))
    ensures r.Ok? ==> PL.MetadataOk(r.value, |ids|) && r.value.ends == EndsOf(steps)
    ensures r.Ok? ==> (r.value.ends == [] <==> decode(ids) == "")
    ensures r.Ok? && |steps| >= 2 ==> ProbeIn(r.value, t, answer)
  {
    hide TokenSpans;
    var split, _, _ := SplitRolloutSteps(decode, ids, detect);
    if split.Err? {
      NoSteps(decode, ids);
      return Err(split.reason), [];
    }
    steps := split.value.1;
    SpansFit(steps, decode, ids);
    var probe := None;
    if |split.value.1| >= 2 && !Blank(isSpace, answer) {
      probe := TokenizedProbe(t, answer);
    }
    r := PL.BuildMetadata(EndsOf(split.value.1), |ids|, Blank(isSpace, answer), probe);
  }

  /** `build_r2opl_answer_probe`, `None` where it raises. */
  method TokenizedProbe(t: AP.Tokenizer, answer: string) returns (probe: Option<(seq<int>, seq<int>)>)
    requires answer != ""
    ensures probe.Some? && PL.LocalAnswersOk(probe.value.1, |probe.value.0|) <==> Usable(t, answer)
    ensures probe.Some? ==> ProbeIn(PL.Metadata(probe.value.0, probe.value.1, []), t, answer)
  {
    var built := AP.BuildAnswerProbe(t, PROBE_PREFIX, answer, PROBE_SUFFIX);
    if built.Err? {
      return None;
    }
    FirstIsSelected(AP.OffsetsOf(t, ProbeText(answer)).value, |PROBE_PREFIX|, |PROBE_PREFIX| + |answer|,
                    built.value.positions);
    return Some((built.value.ids, built.value.positions));
  }

  /** Without an offset mapping a probe is usable exactly when it round-trips and its first token
      does not reach into the answer. */
  lemma FallbackUsable(t: AP.Tokenizer, answer: string)
    requires t.encode(ProbeText(answer)).mapping.None? && answer != ""
    ensures var ids := t.encode(ProbeText(answer)).ids;
      Usable(t, answer) <==>
        && ids != [] && t.decode(ids) == ProbeText(answer)
        && AP.Boundary(t.decode, ids, ProbeText(answer), 1) <= |PROBE_PREFIX|
  {
    AP.FallbackProbeable(t, ProbeText(answer), |PROBE_PREFIX|, |PROBE_PREFIX| + |answer|);
  }

  lemma FirstIsSelected(offsets: seq<AP.Span>, start: int, end: int, positions: seq<int>)
    requires AP.SelectsOverlaps(offsets, start, end, positions) && positions != []
    ensures offsets != []
    ensures PL.LocalAnswersOk(positions, |offsets|) <==> !AP.Overlaps(offsets[0], start, end)
  {
    assert positions[0] in positions;
    forall i | 0 <= i < |positions| ensures 0 <= positions[i] < |offsets| {
      assert positions[i] in positions;
    }
  }

  lemma NoSteps(decode: Decoder, ids: seq<int>)
    ensures TokenSpans([], decode, ids, decode(ids))
  {}

  /** Metadata of a response rebuilds, however padded, into an accepted layout with the steps of
      that response, exactly when the response has any text. */
  method RebuildRollout(prompt: seq<int>, ids: seq<int>, m: PL.Metadata, padding: nat,
                        ghost decode: Decoder, ghost steps: seq<TokenStep>) returns (r: Result<PL.Layout>)
    requires prompt != [] && TokenSpans(steps, decode, ids, decode(ids)) && TokenTexts(steps) == decode(ids)
    requires PL.MetadataOk(m, |ids|) && m.ends == EndsOf(steps)
    ensures r.Ok? <==> decode(ids) != ""
    ensures r.Ok? ==> PL.Accepted(r.value) && |r.value.stepRanges| == |steps|
    ensures r.Ok? ==> forall k :: 0 <= k < |steps| ==> r.value.stepRanges[k] == (steps[k].tokenStart, steps[k].tokenEnd)
  {
    SpansFit(steps, decode, ids);
    RangesAreSpans(steps, decode, ids);
    hide TokenSpans;
    r := PL.RebuildFromMetadata(prompt, ids, m, padding);
  }

  lemma RangesAreSpans(steps: seq<TokenStep>, decode: Decoder, ids: seq<int>)
    requires TokenSpans(steps, decode, ids, decode(ids))
    ensures var ranges := PL.RangesOfEnds(EndsOf(steps));
            forall k :: 0 <= k < |steps| ==> ranges[k] == (steps[k].tokenStart, steps[k].tokenEnd)
  {
    forall k | 0 <= k < |steps| ensures PL.EndBefore(EndsOf(steps), k) == steps[k].tokenStart {
      assert steps[k].tokenStart == LastTokenEnd(steps[..k]);
    }
  }
}
