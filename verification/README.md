# Verified models of the R2OPL training and evaluation logic

This project models the logic that is specific to R2OPL and proves what the code relies on. The
models follow the Python, module by module: loops that update variables are methods with
invariants, objects with mutable fields are classes, protocols are state machines over their
steps, and expressions are functions. `dafny verify dfyconfig.toml` checks everything.

Throughout, floats are reals, tokens are integers, a tokenizer is any deterministic function from
ids to text, a model's generation is any function of its name and a request (ids, token budget and
seed), and text detectors built on regular expressions are arbitrary functions. A Python call that
may raise returns a `Result`.

**Packed answer probes** (`ProbeLayout`, `PackedForward`, `TokenModulation`, `ActorBatch`). K copies of a probe are
appended behind prompt and response; each sees its own rollout prefix and itself. The layout has a
closed form; the loop builds it, and the validator accepts exactly the layouts of that form. A
transformer is any embedding and any layers over a query's own state and the ordered list of its
visible keys. For every such model, one packed and padded forward gives each probe token the state it
has in a separate forward of prefix and probe, and leaves every original token as it was. The probe
scores then drive per-step gates and token multipliers: a whole batch is modulated exactly as
separate forwards would modulate it, no row of it is ever refused, and the log-probabilities of the
rollouts are those of unpacked forwards.

**Prompt groups and the training signal** (`PromptGroups`, `TokenAdvantage`). Difficulty is one minus a
group's success rate; over any grouping it adds up to the number of wrong trajectories. From rewards,
groups and modulation to the advantage, every token of a correct trajectory is reinforced within a
bound, every token of a wrong one moves towards the Teacher within a bound, and nothing else moves.

**Token-aligned steps** (`TextSteps`, `TokenAlignment`, `RolloutSteps`, `AnswerProbe`, `PromptTruncation`). A response is
cut at unprotected boundaries into an exact partition, and each cut is moved to a token end found by
a cached bisection with widening windows. The spans are what the ERSR sampler and the probe metadata
demand of their splitter.

**Answers** (`BoxedAnswer`, `LatexRewrite`, `RationalRoot`, `ExactEvaluation`). Escape-aware brace
matching, rightmost-first rewriting of LaTeX, and exact evaluation over fractions including square
roots.

**ERSR** (`Reservoir`, `ErsrCases`, `StagedErsr`, `ErsrMeaning`, `ErsrPhases`, `TeacherPhase`,
`StudentPhase`, `ErsrMetrics`, `ErsrEvaluation`). Uniform sampling of reasoning steps, the per-case
evaluator and what its results say of the engine alone, the batched teacher and student phases over all models, and the report.

**Concurrency and recovery** (`GpuPool`, `CheckpointDocument`, `CheckpointRun`). A work-stealing pool
under every interleaving, including failing and dying workers; and the evaluation of checkpoints into
one result file with exceptions and kills at any point and any number of resumptions. `Basics` and
`Sorting` hold shared datatypes and Python's stable sort.

## Where the code does less than it promises

Each of these is proved, with the exact condition and a concrete input or the failing branch.

- Metadata with no step ends never rebuilds a layout: the strict `zip` at utils/r2opl.py:286-289 gets one
  start and no end. `RebuildFromMetadata` succeeds if and only if there is a step end, which is if and
  only if the response has any text (`RebuildRollout`); `ZeroStepRebuildRaises` is an input.
- Token-aligned splitting raises exactly when there are no ids and the decoder still produces text,
  because the cache presets the empty prefix to the empty text; `SplitWithoutTokensRaises` is an input.
- The windowed boundary search agrees with scanning every token end if and only if no valid end
  outside the answering window beats those inside (`WindowedIff`), that is, if and only if the best
  end lies in that window (`WindowedIffBestInside`). It always does where prefix lengths never
  shrink; `WindowCanMiss` gives a decoder for which it does not.
- The tail split of utils/r2opl_v2.py returns the least valid end if and only if its window of eight
  holds no valid end or none lies before it (`FindTailSplit`); `TailWindowCanMiss` is an input.
- The search for the longest question prefix that fits a prompt budget finds it if and only if every
  length it tries up to that prefix fits (`LongestPrefix`, `RenderDistillationPair`); it does where
  prompts never shrink, and `SearchCanMiss` gives a renderer for which it does not.
- In the text splitter a first box that never closes hides every later box: a step is final if and only
  if the first box closes (`OneFinalAnswer`), and `UnclosedBoxHidesLater` is a response whose second
  box closes and whose first does not.
- ERSR request seeds are pairwise distinct if and only if mc_k is at most 1000.
- Under one grading function the staged and the per-case evaluation of a case agree unless a teacher
  with budget proposes nothing and the decoder makes text of no tokens: if and only if that happens
  the per-case evaluator raises, where the staged one records a skip (`StagedIsPerCase`);
  `EmptyProposalDiverges` is such a case.
- An exact answer beyond the float range compares equal to nothing, itself included: exact answers
  compare equal if and only if they mean one number that `float` can convert (`ExactComparison`,
  `HugeDiffersFromItself`).
- A run with the shared-teacher schedule can never be resumed; any other can, with unchanged
  checkpoints (`ResumeIsAccepted`). Resuming with a checkpoint removed finishes, but the finished
  document holds exactly the discovered steps if and only if it had no row for anything else, and the
  next invocation refuses it if and only if such a row was completed (`NextIsRefusedIff`);
  `LeftoverStep` is such a document.

## Model

| member | source | states |
|---|---|---|
| ProbeLayout.ValidateRanges | utils/r2opl.py:221-247 | accepts exactly the non-empty ranges that tile a response prefix from token zero |
| ProbeLayout.EndsAreRanges | utils/r2opl.py:250-289 | strictly increasing ends and contiguous ranges are the same data |
| ProbeLayout.RangesFromEnds | utils/r2opl.py:250-289 | recovers the ranges, padded or counted, exactly when the trimmed ends are increasing, inside the response and not empty |
| ProbeLayout.AppendProbes | utils/r2opl.py:334-359 | the appending loop produces the closed form of the token stream, the positions and the branches, each behind the end of the step before it |
| ProbeLayout.BuildLayout | utils/r2opl.py:292-374 | succeeds exactly on buildable inputs; from two steps on branch j holds the probe, with its answer tokens, behind exactly the prompt and the response up to the end of step j-1, and counts its positions on from there |
| ProbeLayout.CheckBranch | utils/r2opl.py:450-495 | decides one branch's index, prefix, slice, tokens, positions and answer positions |
| ProbeLayout.ValidateLayout | utils/r2opl.py:417-498 | the validation loop decides acceptance |
| ProbeLayout.BuiltIsAccepted | utils/r2opl.py:292-498 | every built layout passes the validator |
| ProbeLayout.AcceptedIsBuilt | utils/r2opl.py:417-498 | every accepted layout is the closed form of its own prompt, response, ranges, probe and answer positions |
| ProbeLayout.AcceptedIffBuilt | utils/r2opl.py:292-498 | the validator accepts exactly the layouts some buildable inputs produce |
| ProbeLayout.AcceptedMeasures | utils/r2opl.py:417-498 | the same of every accepted layout, for its own prompt, response and step ranges |
| ProbeLayout.BuildLayoutFromEnds | utils/r2opl.py:377-414 | exact success condition of the rebuild; a rebuilt layout is accepted and has the given prompt, response and ranges |
| ProbeLayout.ValidateStepEnds | utils/r2opl_probe.py:52-65 | decides strictly increasing ends inside the response |
| ProbeLayout.BuildMetadata | utils/r2opl_probe.py:84-138 | when it succeeds and that what it returns satisfies the metadata conditions |
| ProbeLayout.PaddingIsTransparent | utils/r2opl.py:250-289 | zero padding of increasing ends is trimmed away again |
| ProbeLayout.RebuildFromMetadata | utils/r2opl.py:377-414 | metadata rebuilds, however padded, into an accepted layout exactly when there is a step end |
| ProbeLayout.ZeroStepRebuildRaises | utils/r2opl.py:286-289 | a concrete prompt and response without steps for which the direct build works and the rebuild raises |
| PackedForward.BuildDenseMask | utils/r2opl.py:501-528 | a mask exactly for accepted layouts, true exactly where a query may see a key |
| PackedForward.DenseMask | utils/r2opl.py:511-528 | slice writes over the causal triangle yield exactly the visibility relation |
| PackedForward.BranchesDisjoint | utils/r2opl.py:417-498 | branches of an accepted layout occupy disjoint slices behind the original tokens |
| PackedForward.ForwardIsLocal | utils/r2opl.py:501-528 | an input embedded in another with the same tokens, positions and ordered visible keys computes the same states at every depth of every model |
| PackedForward.PackedEqualsSeparate | utils/r2opl.py:292-374 | one packed forward equals K separate forwards, token for token, at every depth of every model |
| PackedForward.SeparateIsPrefixAndProbe | utils/r2opl.py:334-374 | what branch j is compared with is the prompt, the response up to the end of step j-1, and the probe |
| PackedForward.OriginalsUnchanged | utils/r2opl.py:501-528 | packing does not change any original token's state |
| PackedForward.OneKeyPerPosition | utils/r2opl.py:501-528 | each query sees exactly one key at each logical position from zero to its own |
| PackedForward.BuildBatch | utils/r2opl.py:577-637 | every padded row is an input for its own layout, padding is never visible, and masks, lengths and step ranges are the layout's; fails exactly on an empty or unaccepted batch |
| PackedForward.PadLayouts | utils/r2opl.py:587-637 | the row loop fills all tensors for every layout, at the widths of the widest |
| PackedForward.FillRow | utils/r2opl.py:608-612 | tokens, positions and visibility of one row are its layout's, the rest is padding, other rows are untouched |
| PackedForward.FillExtents | utils/r2opl.py:613-623 | sequence mask, lengths, step ranges, step and branch masks of one row are its layout's, other rows are untouched |
| PackedForward.ProbeProbabilities | utils/r2opl.py:640-679 | the scores read off one packed, padded forward are the gold scores of the rollout prefixes up to each step boundary, each in a forward of its own; fails exactly on an unaccepted layout |
| PackedForward.PackedScoreIsSeparate | utils/r2opl.py:640-679 | P_j equals the mean gold-token probability of the standalone prefix and probe |
| PackedForward.SeparateIsGold | utils/r2opl.py:640-679 | that score is the mean probability a causal forward of prefix and probe gives to each answer token from the state in front of it |
| TokenModulation.ComputeModulation | utils/r2opl.py:778-929 | succeeds exactly on acceptable rows and returns exactly the deltas, gates, multipliers and masks |
| TokenModulation.CheckRanges | utils/r2opl.py:852-879 | decides the range checks and marks the probed and the last-step tokens |
| TokenModulation.StepsAre | utils/r2opl.py:778-879 | the steps of an accepted row are the marked ranges in front, without a mask the ranges that are not empty |
| TokenModulation.SpreadGates | utils/r2opl.py:907-916 | each token of a non-final step carries its gate, every other token carries one |
| TokenModulation.DeltasTelescope | utils/r2opl.py:778-929 | the deltas add up to the change from the first to the last probability |
| TokenModulation.MultiplierBounds | utils/r2opl.py:778-929 | correct multipliers lie in [epsilon, 1+alpha_R] and error multipliers in [0, 1+alpha_D] |
| TokenModulation.MultiplierIs | utils/r2opl.py:889-916 | a probed token has the multiplier its two probabilities determine, with the floors epsilon and zero |
| TokenModulation.MultiplierFollowsChange | utils/r2opl.py:889-916 | a step that raises the gold probability is reinforced more where correct and followed less where wrong, one that lowers it the other way round; strictly where the settings allow |
| TokenModulation.MultipliersFollowChanges | utils/r2opl.py:889-916 | a larger change never gets a smaller correct or a larger error multiplier, across rows too |
| TokenModulation.MasksAre | utils/r2opl.py:852-879 | the masks mark the tokens of the probed steps and of the last step |
| TokenModulation.UnprobedTokensKeepOne | utils/r2opl.py:778-929 | the final step and every token outside the probed steps keep multiplier one |
| ActorBatch.PackedProbabilities | utils/r2opl.py:682-714 | fails exactly on a wrong batch size or an unaccepted layout; every padded row holds the scores of separate forwards, and its mask marks them |
| ActorBatch.AcceptedRowIsAcceptable | utils/r2opl.py:778-929 | the padded row of an accepted layout passes every check of the modulation, with the layout's steps |
| ActorBatch.ScoreInUnit | utils/r2opl.py:640-679 | probe scores are probabilities |
| ActorBatch.ReadoutRows | verl/verl/workers/engine/fsdp/transformer_impl.py:1566-1604 | every log-probability or entropy row read off the packed forward is that of the unpacked rollout: entry q reads token q+1 off the state of token q in a forward of prompt and response alone; fails exactly on a rollout of one token |
| ActorBatch.ModulatePacked | verl/verl/workers/engine/fsdp/transformer_impl.py:1559-1564 | one packed forward modulates a whole batch as separate forwards would, and refuses no row under valid settings |
| TokenAdvantage.RoutedAdvantage | utils/r2opl.py:1094-1145 | the masks the loss assembles are never refused, and a token gets the reward of a correct, the pull of a wrong trajectory, or nothing outside the response |
| TokenAdvantage.UngatedIsBase | algorithms/r2opl_base.py:330-353 | without a probe the advantage of R2OPL is that of R2OPL-base |
| TokenAdvantage.ActorRow | verl/verl/trainer/distillation/losses.py:970-1022 | the row loss fails exactly on invalid controller fields, shapes or an unacceptable row; else modulation and advantage are composed |
| TokenAdvantage.SignalIsSound | utils/r2opl.py:1064-1145 | for every batch, modulated row and log-probabilities: the masks are never refused, correct tokens of a group with a wrong trajectory get more than zero and at most miu(1+alpha_R), wrong ones move towards the Teacher by at most lambda(1+alpha_D) times the gap, all others get zero |
| TokenAdvantage.HelpfulStepsEarnMore | utils/r2opl.py:1064-1145 | of two probed tokens the one in the more helpful step earns no less where the row is correct, and moves no further towards the Teacher where it is wrong |
| TokenAdvantage.TrainRow | verl/verl/trainer/distillation/losses.py:970-1022 | both of the whole path from rewards to the advantage, with its exact failure condition |
| PromptGroups.OrderedGroups | algorithms/r2opl_base.py:117-118 | groups in order of first appearance |
| PromptGroups.FirstSeenInOrder | algorithms/r2opl_base.py:117-118 | every group stands for its first occurrence, and these ascend |
| PromptGroups.GroupRows | algorithms/r2opl_base.py:223-235 | a group's genuine rows and its number of successes |
| PromptGroups.WriteDifficulty | algorithms/r2opl_base.py:235-251 | the indexed write gives the group its difficulty and changes no other row |
| PromptGroups.GroupDifficulty | algorithms/r2opl_base.py:223-251 | the group loop fills in every genuine row's difficulty and lists the group success rates |
| PromptGroups.ComputeBatch | algorithms/r2opl_base.py:121-327 | exact acceptance, difficulty, and for every row its correctness and masks from its own reward, truncation and probe; the rates match the difficulties, and difficulty conserves the wrong trajectories |
| PromptGroups.RescueIsForTruncated | algorithms/r2opl_base.py:223-251 | a finished genuine row is correct exactly when its reward is one; only a truncated one can be rescued by its probe |
| PromptGroups.RatesAreComplements | algorithms/r2opl_base.py:223-251 | the group rates are one minus the difficulties of genuine rows, one for each group that has any |
| PromptGroups.GroupConservation | algorithms/r2opl_base.py:223-251 | inside a group the difficulties add up to its number of wrong trajectories |
| PromptGroups.DifficultyConservation | algorithms/r2opl_base.py:223-251 | over any grouping the difficulties add up to the number of genuine wrong trajectories after probe rescue |
| PromptGroups.DifficultyBounds | algorithms/correct_r2opl.py:155-178 | difficulty is a rate and vanishes exactly for genuine rows of all-correct groups |
| PromptGroups.MasksPartition | algorithms/r2opl_base.py:223-251 | correct and error masks partition the genuine response tokens |
| PromptGroups.CorrectIsBaseWithoutTeacher | algorithms/correct_r2opl.py:230-269 | Correct-R2OPL's advantage and loss are R2OPL-base's with lambda zero |
| PromptGroups.RowLossIs | algorithms/r2opl_base.py:356-366 | a row loses minus the mean of advantage times log-probability over its response tokens, nothing without any |
| PromptGroups.ZeroDifficultyNoAdvantage | algorithms/r2opl_base.py:330-353 | padding rows and groups without a wrong trajectory contribute no advantage |
| TextSteps.MergeRanges | utils/conservative_step_splitter.py:164-173 | merging keeps exactly the covered positions and leaves separated ranges |
| TextSteps.ScanBox | utils/conservative_step_splitter.py:755-767 | the depth loop stops behind the first closing brace, or no end closes the box |
| TextSteps.BalancedBoxes | utils/conservative_step_splitter.py:751-769 | the whole chain of boxes up to the first unclosed one; non-empty exactly when the first marker closes |
| TextSteps.DeduplicateBoundaries | utils/conservative_step_splitter.py:831-839 | one boundary per position in order: the first hard one offered there, else the first one |
| TextSteps.FilterBoundaries | utils/conservative_step_splitter.py:870-885 | exactly the boundaries inside the text and outside protected ranges, in order |
| TextSteps.CutAt | utils/conservative_step_splitter.py:885-918 | cuts give an exact partition and mark the step that holds the last box |
| TextSteps.SplitTextSteps | utils/conservative_step_splitter.py:842-918 | an exact ordered partition cut at exactly the offered, unprotected positions |
| TextSteps.CuttableMeans | utils/conservative_step_splitter.py:842-885 | those positions are the explicit boundaries, or those of the first detector that finds any, and with a box the final heading or, without one, the final paragraph |
| TextSteps.PartitionRecovers | utils/conservative_step_splitter.py:842-918 | the step texts concatenate to the whole response |
| TextSteps.ProtectedStaysWhole | utils/conservative_step_splitter.py:305-306 | two characters of one protected region never fall into different steps |
| TextSteps.OwningStep | utils/conservative_step_splitter.py:842-918 | every character lies in exactly one step |
| TextSteps.OneFinalAnswer | utils/conservative_step_splitter.py:842-918 | exactly one step is the final answer when the first box marker closes, else none is; it holds the start of the last box |
| TextSteps.UnclosedBoxHidesLater | utils/conservative_step_splitter.py:751-769 | a response whose second box closes and whose first does not |
| TokenAlignment.PrefixCache.DecodePrefix | utils/conservative_step_splitter.py:949-956 | the cache answers with the prefix decode and stays consistent with the decoder |
| TokenAlignment.SearchWindow | utils/conservative_step_splitter.py:968-976 | the minimum over the valid ends of a clipped window, or that there is none |
| TokenAlignment.Bisect | utils/conservative_step_splitter.py:958-966 | the loop computes the bisection by prefix length |
| TokenAlignment.FindTokenBoundary | utils/conservative_step_splitter.py:934-988 | returns the best end of the first window that has one; raises exactly when no end at all is valid |
| TokenAlignment.WindowedIff | utils/conservative_step_splitter.py:958-988 | the windowed result is the minimum over all token ends exactly when no valid end outside the answering window beats those inside |
| TokenAlignment.WindowedIffBestInside | utils/conservative_step_splitter.py:958-988 | ... exactly when the best end of all lies in that window |
| TokenAlignment.WindowedIsExhaustive | utils/conservative_step_splitter.py:958-988 | where lengths never shrink, the windowed result is the shortest prefix that covers the boundary, at its earliest token end |
| TokenAlignment.WindowCanMiss | utils/conservative_step_splitter.py:978-988 | a decoder with shrinking lengths for which the search misses a better end |
| TokenAlignment.AlignStep | utils/conservative_step_splitter.py:1013-1044 | one round keeps the alignment, realizes the text step or skips it when covered, and never fails when there are ids |
| TokenAlignment.SplitRolloutSteps | utils/conservative_step_splitter.py:991-1056 | total for every decoder up to one exact condition; spans are non-empty and contiguous, their prefix decodes are prefixes of the response, their texts concatenate to it, and they are the text steps in order without covered ones |
| TokenAlignment.SplitWithoutTokensRaises | utils/conservative_step_splitter.py:991-1056 | a decoder on which splitting an empty response raises |
| TokenAlignment.FindTailSplit | utils/r2opl_v2.py:52-106 | returns a valid end exactly when there is a delimiter, and the least one exactly when its window holds no valid end or none lies before it |
| TokenAlignment.TailWindowMonotone | utils/r2opl_v2.py:83-106 | where lengths never shrink none lies before the window |
| TokenAlignment.TailWindowCanMiss | utils/r2opl_v2.py:98-105 | a decoder for which the tail search misses the least end |
| RolloutSteps.SplitIds | utils/ersr.py:153-164 | splitting raises exactly on no ids that decode to text, else returns the spans of steps that partition the response |
| RolloutSteps.SplitterIsOk | utils/ersr.py:153-194 | this splitter gives the ERSR sampler what it demands: numbered, non-empty spans inside the response |
| RolloutSteps.StagedIsPerCase | utils/ersr.py:320-410 | with this splitter the staged result of a case is the per-case one, except exactly where a teacher with budget proposes nothing and the decoder makes text of nothing: there the latter raises and the former is a skip |
| RolloutSteps.EmptyProposalDiverges | utils/ersr_evaluation.py:2339-2362 | such a case |
| RolloutSteps.SpansFit | utils/r2opl_probe.py:97-106 | step ends increase inside the response, and there are none exactly when it has no text |
| RolloutSteps.BuildRolloutMetadata | utils/r2opl_probe.py:84-138 | from generated ids, tokenizer and answer to metadata: fails exactly when splitting raises, or with a step to probe on a blank answer or an unusable probe; it holds the probe's ids and exactly the tokens that overlap the answer |
| RolloutSteps.ProbeShowsAnswer | utils/r2opl_probe.py:22-23 | the answer verifier reads off the probe text the answer it was built for |
| RolloutSteps.FallbackUsable | utils/r2opl_probe.py:68-131 | without an offset mapping a probe is usable exactly when it round-trips and its first token does not reach into the answer |
| RolloutSteps.RebuildRollout | utils/r2opl.py:377-414 | a rollout's metadata rebuilds into an accepted layout with its steps exactly when the response has text |
| AnswerProbe.FallbackOffsets | utils/answer_probe.py:37-59 | spans between recovered boundaries; fails exactly when the last boundary is not the text's end |
| AnswerProbe.BoundaryIs | utils/answer_probe.py:37-59 | a boundary is the length of the last prefix decode so far that is a prefix of the text |
| AnswerProbe.AnswerPositions | utils/answer_probe.py:105-116 | exactly the tokens whose span overlaps the answer, in order |
| AnswerProbe.OverlapIsShared | utils/answer_probe.py:105-116 | spans overlap exactly when they share a character |
| AnswerProbe.BuildAnswerProbe | utils/answer_probe.py:62-123 | with or without an offset mapping: succeeds exactly on an answer that is not empty whose probe round-trips, has a span per token and one that overlaps the answer; selects exactly the overlapping tokens |
| AnswerProbe.FallbackProbeable | utils/answer_probe.py:37-123 | without a mapping it succeeds exactly when the probe has tokens and round-trips, and every answer character lies in a selected span for any decoder |
| AnswerProbe.SpansTile | utils/answer_probe.py:37-59 | where lengths never shrink the boundaries ascend inside the text |
| PromptTruncation.LongestPrefix | utils/custom_dataset.py:190-200 | the search keeps a fitting prefix, and the longest one exactly when every length it tries up to that one fits |
| PromptTruncation.MonotoneReaches | utils/custom_dataset.py:190-200 | when fit is monotone the search reaches the longest prefix |
| PromptTruncation.SearchCanMiss | utils/custom_dataset.py:190-200 | a renderer for which it misses a longer fitting prefix |
| PromptTruncation.RenderLimited | utils/custom_dataset.py:145-200 | outside the fail-open exit the prompt fits for any renderer; that exit is taken exactly when not even one character fits |
| PromptTruncation.RenderChatPrompt | utils/custom_dataset.py:145-200 | on a chat template and tokenizer: raises exactly on a limit that is not positive, exceeds it exactly when neither the question nor one character fits |
| PromptTruncation.RenderPair | utils/custom_dataset.py:236-255 | raises exactly when not even one character fits both limits, else keeps a fitting prefix, the longest exactly when the search reaches it |
| PromptTruncation.RenderDistillationPair | utils/custom_dataset.py:203-255 | raises exactly when a limit is not positive or the question and one character each exceed a limit; else both prompts come from one kept prefix, are within both limits, and nothing is cut where the question fits; the prefix is the longest exactly when the search reaches it |
| PromptTruncation.GrowingReaches | utils/custom_dataset.py:203-255 | templates whose prompts never shrink let it reach the longest common prefix |
| BoxedAnswer.RepairIdempotent | utils/answer_verifier.py:35-47 | repairing twice changes nothing more |
| BoxedAnswer.RepairIsReplacements | utils/answer_verifier.py:35-47 | one pass over the characters is the chain of text replacements |
| BoxedAnswer.IsEscaped | utils/answer_verifier.py:50-56 | the parity of the backslash run decides whether the position is escaped |
| BoxedAnswer.MatchingBrace | utils/answer_verifier.py:59-72 | the depth loop finds the matching brace |
| BoxedAnswer.MatchingIffBalanced | utils/answer_verifier.py:59-72 | the match is exactly the closing brace behind a balanced payload |
| BoxedAnswer.ExtractUndoesPrinting | utils/answer_verifier.py:75-91 | a balanced payload printed in the last box comes back without the spaces at its ends, and no more taken off |
| BoxedAnswer.StripIsStripped | utils/answer_verifier.py:75-91 | stripping leaves text between spaces that neither starts nor ends with one |
| BoxedAnswer.StrippedOnce | utils/answer_verifier.py:75-91 | there is only one such text |
| BoxedAnswer.ExtractIffLastBoxCloses | utils/answer_verifier.py:75-91 | an answer is extracted exactly when the last marker closes around a payload that strips to it |
| BoxedAnswer.UnclosedLastBoxFails | utils/answer_verifier.py:75-91 | on any text whose last marker no later brace closes nothing is extracted, whatever boxes stand in front |
| LatexRewrite.ReplaceOne | utils/answer_verifier.py:243-284 | the two-argument and one-argument replacements |
| LatexRewrite.ReplaceDropsBackslash | utils/answer_verifier.py:243-284 | every replacement removes a backslash, so the loop terminates |
| LatexRewrite.ReplaceConstantLatex | utils/answer_verifier.py:243-284 | the loop terminates on every text and computes the iterated rewriting |
| LatexRewrite.ReduceKeepsMeaning | utils/answer_verifier.py:243-284 | replacing the rightmost construct keeps the recursive translation |
| LatexRewrite.StepIsReduce | utils/answer_verifier.py:243-284 | one step of string rewriting is one reduction of the tree |
| LatexRewrite.RewriteIsTranslation | utils/answer_verifier.py:243-284 | iterated string rewriting of a printed tree returns exactly its recursive translation |
| RationalRoot.RootMeansSquares | utils/answer_verifier.py:355-366 | a fraction in lowest terms with a rational root has square numerator and denominator |
| RationalRoot.SquareRootIsExactAndComplete | utils/answer_verifier.py:355-366 | the exact branch is taken exactly when a rational root exists, and returns the non-negative one in lowest terms |
| ExactEvaluation.ExactIsMeaning | utils/answer_verifier.py:313-367 | an exact result is in lowest terms and is the one real number the expression means |
| ExactEvaluation.ResultIsMeaning | utils/answer_verifier.py:313-367 | every result, exact or not, is the value of its expression, as far as the float root and power are those of the reals |
| ExactEvaluation.ExactIff | utils/answer_verifier.py:313-367 | exactly the expressions whose parts all mean rationals, without pi and with exponents in range, evaluate exactly; none of them raises |
| ExactEvaluation.ExactIffAllRational | utils/answer_verifier.py:313-367 | an expression whose parts all mean rationals raises exactly when an exponent is out of range, and an evaluation that returns is exact exactly for these expressions |
| ExactEvaluation.ReducedUnique | utils/answer_verifier.py:384-391 | a rational number has one reduced fraction |
| ExactEvaluation.ExactComparison | utils/answer_verifier.py:370-391 | two exact answers compare equal exactly when their expressions mean one real number and it is in the float range |
| ExactEvaluation.ApproximateComparison | utils/answer_verifier.py:380-391 | a comparison with an inexact answer compares the values of the two expressions |
| ExactEvaluation.HugeDiffersFromItself | utils/answer_verifier.py:380-388 | an integer beyond the float range is not equal to itself |
| Reservoir.AllDrawsAreValid | utils/ersr.py:184-199 | the counted outcomes are exactly the possible sequences of draws |
| Reservoir.SurvivalIsUniform | utils/ersr.py:184-199 | every offered step survives in exactly a cap/N share of all outcomes |
| Reservoir.SelectionIsUniform | utils/ersr.py:184-199 | every set of cap steps is the selection of exactly (N - cap)! outcomes |
| Reservoir.AllSurviveUnderCap | utils/ersr.py:184-199 | up to the cap nothing is drawn and every step is kept |
| ErsrCases.Sampler.Observe | utils/ersr.py:166-199 | one arrival updates reservoir, counter and generator of its own series only, and the reservoir stays what the draws select |
| ErsrCases.SampleRecord | utils/ersr.py:141-199 | a record offers every step but its last, or nothing, for the reason reported; it offers something exactly when the reason says so |
| ErsrCases.OfferedIff | utils/ersr.py:141-199 | exactly the non-final steps of wanted records that can be split are offered |
| ErsrCases.SeriesIff | utils/ersr.py:166-199 | exactly those of its dataset and action are offered to a series |
| ErsrCases.SeriesLength | utils/ersr.py:141-199 | their number is the sum over the records of the steps before the last |
| ErsrCases.OfferedInOrder | utils/ersr.py:141-199 | they are offered by record, and by step inside a record |
| ErsrCases.FateMeans | utils/ersr.py:141-164 | a wanted record fails to split, has nothing to offer, or offers |
| ErsrCases.SampleSteps | utils/ersr.py:141-199 | the discovery loop feeds exactly the offered steps in order, and its counters account for every considered trajectory |
| ErsrCases.ReservoirSound | utils/ersr.py:141-199 | in every run a reservoir holds min(cap, offered) distinct steps and never a trajectory's final one |
| ErsrCases.EmitSeries | utils/ersr.py:207-229 | a series' rows are numbered behind the cases so far, which stay valid |
| ErsrCases.BuildStepCases | utils/ersr.py:112-242 | raises exactly when no action is enabled; else the cases are, series by series in reporting order, the final reservoirs, numbered from zero; each series has min(cap, steps before the last) distinct ones, all selectable; the statistics hold what was discovered, offered and selected |
| ErsrCases.ReportingOrder | utils/ersr.py:203-229 | series go dataset by dataset, the Student action before the Teacher replacement |
| ErsrCases.CaseIs | utils/ersr.py:217-229 | case i has number i, an id of dataset, rollout, step and action, and seed + 10000 i |
| ErsrCases.DigitsStandForIt | utils/ersr.py:220-224 | the numbers in ids are decimal |
| ErsrCases.SelectionSeeds | utils/ersr.py:225-229 | with mc_k at most 1000 no two requests of a selection share a seed |
| ErsrCases.CaseIdNamesStep | utils/ersr.py:220-224 | a case id determines rollout, step and action whatever its parts contain |
| ErsrCases.CaseIdsUnique | utils/ersr.py:210-229 | case ids are pairwise distinct |
| ErsrCases.SeedsDistinctIff | utils/ersr.py:210-229 | all request seeds are pairwise distinct exactly when mc_k is at most 1000 |
| StagedErsr.SelectedAreReady | utils/ersr.py:112-229 | selected cases have valid spans and unique ids |
| StagedErsr.StagedIsPermutation | utils/ersr_evaluation.py:2367-2518 | the staged results are a permutation of the cases' own results |
| StagedErsr.SkipsComeFirst | utils/ersr_evaluation.py:2367-2497 | skipped results stand in front of measured ones |
| StagedErsr.SameAsPerCase | utils/ersr.py:320-410 | under one grading function a staged result is the per-case evaluator's, which raises exactly when a proposal cannot be split; the staged result is a skip there |
| ErsrMeaning.StudentCase | utils/ersr.py:320-410 | a Student action is the mean grade of mc_k continuations of the response up to the step's end, against those of the prefix in front of it |
| ErsrMeaning.TeacherCase | utils/ersr.py:245-410 | a Teacher case is measured behind the prefix and exactly the first step of the proposal; without a budget or a step it is skipped, and it raises on a proposal that cannot be split |
| ErsrMeaning.FirstStepDecides | utils/ersr.py:245-253 | what the Teacher writes behind its first step changes no result |
| ErsrMeaning.StagedMeans | utils/ersr_evaluation.py:2339-2362 | the staged result is that result, and a skip where the per-case evaluator raises |
| ErsrPhases.Work.Plan | utils/ersr_evaluation.py:2291-2325 | exactly the cases without budget are skipped and exactly the others are asked about |
| ErsrPhases.Work.Absorb | utils/ersr_evaluation.py:2339-2362 | proposals become exactly the replacements and skips the per-case evaluator would reach |
| ErsrPhases.ReplacedAt | utils/ersr_evaluation.py:2339-2362 | a surviving case finds its own replacement under its id |
| TeacherPhase.TeacherIdNames | utils/ersr_evaluation.py:2313-2324 | a teacher request id determines its work and, within a model, its case |
| TeacherPhase.GroupDistinct | utils/ersr_evaluation.py:2284-2338 | all request ids of one teacher's run are distinct, over all works |
| TeacherPhase.PlanAll | utils/ersr_evaluation.py:2291-2325 | every work is planned and every needed teacher is listed once |
| TeacherPhase.ServeTeacher | utils/ersr_evaluation.py:2326-2363 | one run of a teacher completes exactly the works that use it |
| TeacherPhase.GenerateReplacements | utils/ersr_evaluation.py:2284-2364 | without a failed job or dead worker it succeeds, and then every work knows the fate of every case it asked about |
| StudentPhase.StudentDistinct | utils/ersr_evaluation.py:2388-2435 | all request ids of the student phase are distinct |
| StudentPhase.ArmIsEstimate | utils/ersr_evaluation.py:2444-2488 | a measured arm is the per-case estimate, with a used-up budget too |
| StudentPhase.BuildArms | utils/ersr_evaluation.py:2407-2435 | exactly the unsettled cases get arms, and all their requests are issued in order |
| StudentPhase.EvaluateStudent | utils/ersr_evaluation.py:2367-2518 | exactly one result per case, each the per-case evaluator's, skips first; fails only before the teacher phase is complete or after a fault |
| StudentPhase.EvaluateErsr | utils/ersr_evaluation.py:2521-2528 | all phases of one model together give the staged results, and succeed without a fault |
| ErsrMetrics.Tabulate | utils/ersr_evaluation.py:127-140 | the dictionaries hold selected, valid and skipped counts and the advantages of every series |
| ErsrMetrics.Summarize | utils/ersr_evaluation.py:114-186 | the loop computes the report's lines, totals, macro and weighted means |
| ErsrMetrics.SummaryBalances | utils/ersr_evaluation.py:114-186 | in every series and in total, selected equals valid plus skipped |
| ErsrMetrics.LineMeans | utils/ersr_evaluation.py:127-150 | a line counts the measured and the skipped results of its series, and its mean is what the actions gained over their baselines |
| ErsrMetrics.MacroMeanIs | utils/ersr_evaluation.py:160-184 | the macro mean weighs every dataset with a mean alike, and is missing exactly when there is none |
| ErsrMetrics.WeightedMeanConserves | utils/ersr_evaluation.py:160-184 | the weighted mean is the dataset means weighted by valid steps, and is missing exactly when nothing is valid |
| ErsrMetrics.Aggregate | utils/ersr.py:421-451 | the training-time report has the same means, zero where there is none, and counts the skip reasons |
| ErsrEvaluation.EvaluateModel | utils/ersr_evaluation.py:2231-2528 | whatever the draws, shuffles, texts and scheduling, a fault-free run succeeds exactly when an action is enabled, and a successful one reports min(cap, offered) selected steps per series, each valid or skipped |
| GpuPool.PlacesPreserved | utils/ersr_evaluation.py:1641-1681 | no step duplicates or loses a batch |
| GpuPool.StepInv | utils/ersr_evaluation.py:1641-1681 | every step of worker or coordinator keeps the invariant |
| GpuPool.InvAlways | utils/ersr_evaluation.py:1876-1927 | in every reachable state of every interleaving each batch is in exactly one place |
| GpuPool.ReturnedIsSequential | utils/ersr_evaluation.py:2034-2052 | a run that returns holds the sequential map in order, with empty queues and idle workers |
| GpuPool.EveryInterleavingIsSequential | utils/ersr_evaluation.py:2034-2052 | the same over every execution |
| GpuPool.RaisedHasCause | utils/ersr_evaluation.py:1876-1927 | a run raises only for a failed job or a dead worker |
| GpuPool.RaisedAfterFault | utils/ersr_evaluation.py:1876-1927 | from live workers a run raises only after a job failed or a worker died in it |
| GpuPool.FaultFreeRunReturns | utils/ersr_evaluation.py:2034-2052 | every maximal execution without a fault returns the sequential map |
| GpuPool.DeathRemains | utils/ersr_evaluation.py:1641-1681 | every fault leaves a dead worker behind |
| GpuPool.StepDecreases | utils/ersr_evaluation.py:1641-1681 | every step uses something up |
| GpuPool.ExecutionsAreBounded | utils/ersr_evaluation.py:1876-1927 | no execution is longer than its initial measure |
| GpuPool.NoDeadlock | utils/ersr_evaluation.py:1876-1927 | while the coordinator waits some step that is no fault is possible |
| GpuPool.Pool.Await | utils/ersr_evaluation.py:1876-1927 | collects one message per job under an arbitrary scheduler that may let any worker die at any time |
| GpuPool.Pool.Run | utils/ersr_evaluation.py:2034-2052 | under an arbitrary scheduler a successful run is the sequential map and leaves the pool ready; without a fault it succeeds, and a failed one leaves a dead worker |
| GpuPool.Chunk | utils/ersr_evaluation.py:2148-2166 | jobs are consecutive, non-empty, within the cap, and lose no request |
| GpuPool.RunGenerationPhase | utils/ersr_evaluation.py:2138-2184 | succeeds without a fault; exactly the request ids are answered, each unique id with its own request's generation |
| CheckpointDocument.HistoryGrows | utils/ersr_evaluation.py:3047-3124 | a sound document that keeps what was completed may follow in the file's history |
| CheckpointDocument.LogGrows | utils/ersr_evaluation.py:3209-3298 | evaluating what the file does not hold as completed re-evaluates nothing any earlier content held |
| CheckpointDocument.WithoutKeeps | utils/ersr_evaluation.py:3233-3247 | dropping a stale row keeps all other rows and their order |
| CheckpointDocument.WithRowKeeps | utils/ersr_evaluation.py:3263-3264 | append and sort keep the steps unique and sorted |
| CheckpointDocument.RewriteKeeps | utils/ersr_evaluation.py:3262-3295 | rewriting an incomplete step keeps the document sound and every completed row |
| CheckpointDocument.ExactIffWithin | utils/ersr_evaluation.py:3102-3111 | a document with every discovered step done holds exactly those steps iff it has no row for anything else |
| CheckpointRun.Evaluator.AtomicWrite | utils/ersr_evaluation.py:2536-2544 | the file holds the old or the new content whenever the write is interrupted, the new one when it returns |
| CheckpointRun.Evaluator.RunStep | utils/ersr_evaluation.py:3232-3298 | a step restarts from base, completes with parts of one new attempt, and touches no other row |
| CheckpointRun.Evaluator.RunInitialBase | utils/ersr_evaluation.py:3127-3206 | the initial base is skipped when completed and then nothing changes, else restarted and completed with parts of one new attempt; the steps stay untouched |
| CheckpointRun.Evaluator.RunAll | utils/ersr_evaluation.py:3209-3298 | completed steps are skipped, all others run, and rows outside the checkpoints are untouched |
| CheckpointRun.Evaluator.Execute | utils/ersr_evaluation.py:3415-3441 | a run behind loading finishes with every discovered step done and other rows untouched, or was interrupted by an exception or a kill |
| CheckpointRun.Evaluator.RunShared | utils/ersr_evaluation.py:3301-3381 | the shared-teacher schedule runs base, teacher and student phases over all checkpoints and completes every one with parts of one attempt started in this run |
| CheckpointRun.Evaluator.EvaluateCheckpoints | utils/ersr_evaluation.py:3384-3441 | with either schedule: an invocation is refused exactly when resuming and an existing file do not go together, the schedule shares the teacher, the signature differs, or a completed document is about other steps; it finds the work completed exactly on other completed documents; without an interruption it finishes with every discovered step done, and with exactly those iff the file had no other row |
| CheckpointRun.ResumeIsAccepted | utils/ersr_evaluation.py:3047-3124 | with unchanged checkpoints any interrupted or finished run can be resumed, exactly unless its schedule shares the teacher |
| CheckpointRun.NextIsRefusedIff | utils/ersr_evaluation.py:3097-3111 | after a finished run the next invocation is refused exactly when the schedule shares the teacher or the document it started from had a completed row outside the checkpoints |
| CheckpointRun.LeftoverStep | utils/ersr_evaluation.py:3097-3111 | a document that is resumed without one of its completed steps, finishes, is not exact and is refused |
| CheckpointRun.Life | utils/ersr_evaluation.py:3384-3441 | over any number of invocations with any configurations, interrupted anywhere: steps stay unique and sorted, nothing completed is dropped, changed or evaluated again, attempts never mix, and with unchanged checkpoints a completed document is exact |

## Left out

- Rounding: floats are reals; infinities from overflowing float arithmetic and float powers are not modelled, conversions of exact values beyond the float range are.
- Tensors: shapes, dtypes and devices are not modelled; `TokenModulation` models one batch row with its padded widths.
- Detector regular expressions, `_replace_style_commands` and symbolic comparison by `math_verify`: opaque text functions.
- Parsing in `_constant_math_expression`: the evaluator starts from the syntax tree; the tree-size limit is not modelled.
- Token-step `confidence`: follows from the boundary and is not carried.
- GPU workers' ready messages, heartbeats, message kinds and process start and stop: the pool starts with all workers ready.
- Time: a worker step is atomic, and the coordinator may give up on a dead worker at any moment, not only after a timed wait in vain.
- The `phase`, `error` and time stamp fields of the result document: no branch reads them.
- Rows inside the result document are values; the reference a run holds to its own row is an update of the row with that step number.
- Malformed result files (unreadable, not a list): rejected by single checks; duplicate steps and a changed signature are modelled.
- Settings validation, data loading, model conversion, charts and printing.
- utils/evaluation.py repeats the pool and the ERSR phases of utils/ersr_evaluation.py.
- algorithms/eopd.py, algorithms/opdvr.py, algorithms/pg_opd.py and algorithms/r2opl.py: elementwise kernels or the group arithmetic modelled here.
- PromptGroups.ComputeBatch: without the metrics and per-trajectory means, which average what it returns.
- TokenAdvantage.TrainRow: one row; that settings are shared by all rows of a batch is a check on equal values.
- Which expressions with floating-point parts raise: settled branch by branch in `ExactEvaluation.Evaluate`.
