/** Recovering token spans of text steps from prefix decodes of the original ids, for any
    deterministic decoder. Models utils/conservative_step_splitter.py and the tail-split search
    of utils/r2opl_v2.py. */
module TokenAlignment {
  import opened Basics
  import opened TextSteps

  type Decoder = seq<int> -> string

  /** The decode of the first `end` ids; the cache is seeded with an empty text for none. */
  function Prefix(decode: Decoder, ids: seq<int>, end: nat): string
    requires end <= |ids|
  {
    if end == 0 then "" else decode(ids[..end])
  }

  /** The prefix-decode cache shared by all searches of one response. */
  class PrefixCache {
    const decode: Decoder
    const ids: seq<int>
    var cache: map<int, string>

    ghost predicate Valid()
      reads this
    {
      && 0 in cache
      && forall e: int :: e in cache ==> 0 <= e <= |ids| && cache[e] == Prefix(decode, ids, e)
    }

    constructor (decode: Decoder, ids: seq<int>)
      ensures Valid() && this.decode == decode && this.ids == ids
    {
      this.decode := decode;
      this.ids := ids;
      this.cache := map[0 := ""];
    }

    method DecodePrefix(end: nat) returns (s: string)
      requires Valid() && end <= |ids|
      modifies this`cache
      ensures Valid() && s == Prefix(decode, ids, end)
    {
      if end !in cache {
        cache := cache[end := decode(ids[..end])];
      }
      s := cache[end];
    }
  }

  // ----- the boundary search -----

  /** A token end whose prefix decode covers `required` characters and agrees with the text. */
  predicate ValidEnd(decode: Decoder, ids: seq<int>, text: string, required: int, end: nat)
    requires end <= |ids|
  {
    required <= |Prefix(decode, ids, end)| && Prefix(decode, ids, end) <= text
  }

  /** A beginning of the text that is long enough. */
  predicate Covers(prefix: string, text: string, required: int) {
    required <= |prefix| <= |text| && text[..|prefix|] == prefix
  }

  lemma ValidEndCovers(decode: Decoder, ids: seq<int>, text: string, required: int, end: nat)
    requires end <= |ids|
    ensures ValidEnd(decode, ids, text, required, end) <==> Covers(Prefix(decode, ids, end), text, required)
    ensures end > 0 ==> Prefix(decode, ids, end) == decode(ids[..end])
  {}

  ghost predicate Monotone(decode: Decoder, ids: seq<int>) {
    forall i, j :: 0 <= i <= j <= |ids| ==> |Prefix(decode, ids, i)| <= |Prefix(decode, ids, j)|
  }

  type End = (int, int)

  /** Smaller decoded length first, then the smaller token end. */
  predicate NoWorse(a: End, b: End) { a.1 < b.1 || (a.1 == b.1 && a.0 <= b.0) }

  ghost predicate IsEnd(decode: Decoder, ids: seq<int>, text: string, required: int, e: End) {
    0 <= e.0 <= |ids| && ValidEnd(decode, ids, text, required, e.0) && e.1 == |Prefix(decode, ids, e.0)|
  }

  /** The best valid end in a window, which is the minimum over that window. */
  ghost predicate BestIn(decode: Decoder, ids: seq<int>, text: string, required: int, low: int, high: int, e: End)
    requires 0 <= low && high <= |ids|
  {
    && low <= e.0 <= high && IsEnd(decode, ids, text, required, e)
    && forall k: nat :: low <= k <= high && ValidEnd(decode, ids, text, required, k) ==>
      NoWorse(e, (k, |Prefix(decode, ids, k)|))
  }

  ghost predicate NoneIn(decode: Decoder, ids: seq<int>, text: string, required: int, low: int, high: int)
    requires 0 <= low && high <= |ids|
  {
    forall k: nat :: low <= k <= high ==> !ValidEnd(decode, ids, text, required, k)
  }

  /** `min(candidates(start, end))`, when there is one. */
  method SearchWindow(pc: PrefixCache, text: string, required: int, minToken: nat, start: int, end: int)
    returns (best: Option<End>)
    requires pc.Valid() && minToken <= |pc.ids|
    modifies pc`cache
    ensures pc.Valid()
    ensures best.None? ==> NoneIn(pc.decode, pc.ids, text, required, Max(minToken, start), Min(|pc.ids|, end))
    ensures best.Some? ==>
      BestIn(pc.decode, pc.ids, text, required, Max(minToken, start), Min(|pc.ids|, end), best.value)
  {
    var low, high := Max(minToken, start), Min(|pc.ids|, end);
    best := None;
    var tokenEnd := low;
    while tokenEnd <= high
      invariant pc.Valid() && low <= tokenEnd
      invariant best.None? ==> NoneIn(pc.decode, pc.ids, text, required, low, Min(tokenEnd - 1, |pc.ids|))
      invariant best.Some? ==>
        tokenEnd > low && BestIn(pc.decode, pc.ids, text, required, low, Min(tokenEnd - 1, |pc.ids|), best.value)
      invariant tokenEnd <= high + 1 || best.None?
    {
      var prefix := pc.DecodePrefix(tokenEnd);
      if |prefix| >= required && prefix <= text {
        var found := (tokenEnd, |prefix|);
        if best.None? || !NoWorse(best.value, found) {
          best := Some(found);
        }
      }
      tokenEnd := tokenEnd + 1;
    }
  }

  /** Bisection by prefix length. */
  function Bisected(decode: Decoder, ids: seq<int>, required: int, low: nat, high: nat): (r: nat)
    requires low <= high <= |ids|
    ensures low <= r <= high
    decreases high - low
  {
    if low == high then low else
      var middle := (low + high) / 2;
      if |Prefix(decode, ids, middle)| < required then Bisected(decode, ids, required, middle + 1, high)
      else Bisected(decode, ids, required, low, middle)
  }

  method Bisect(pc: PrefixCache, required: int, start: nat) returns (low: int)
    requires pc.Valid() && start <= |pc.ids|
    modifies pc`cache
    ensures pc.Valid() && low == Bisected(pc.decode, pc.ids, required, start, |pc.ids|)
  {
    low := start;
    var high := |pc.ids|;
    while low < high
      invariant pc.Valid() && start <= low <= high <= |pc.ids|
      invariant Bisected(pc.decode, pc.ids, required, start, |pc.ids|)
             == Bisected(pc.decode, pc.ids, required, low, high)
    {
      var middle := (low + high) / 2;
      var prefix := pc.DecodePrefix(middle);
      if |prefix| < required {
        low := middle + 1;
      } else {
        high := middle;
      }
    }
  }

  /** Where lengths never shrink, bisection skips only prefixes that are too short. */
  lemma {:induction false} BisectedSkipsShort(decode: Decoder, ids: seq<int>, required: int, low: nat, high: nat)
    requires low <= high <= |ids| && Monotone(decode, ids)
    ensures forall k: nat :: low <= k < Bisected(decode, ids, required, low, high) ==>
      |Prefix(decode, ids, k)| < required
    decreases high - low
  {
    if low < high {
      var middle := (low + high) / 2;
      if |Prefix(decode, ids, middle)| < required {
        BisectedSkipsShort(decode, ids, required, middle + 1, high);
        forall k: nat | low <= k <= middle ensures |Prefix(decode, ids, k)| < required {
          assert |Prefix(decode, ids, k)| <= |Prefix(decode, ids, middle)|;
        }
      } else {
        BisectedSkipsShort(decode, ids, required, low, middle);
      }
    }
  }

  /** The first of the windows +-16, +-128 and everything that holds a valid end. */
  ghost function AnswerWindow(decode: Decoder, ids: seq<int>, text: string, required: int, minToken: nat)
    : (w: (int, int))
    requires minToken <= |ids|
    ensures minToken <= w.0 && w.1 <= |ids|
  {
    var a: int := Bisected(decode, ids, required, minToken, |ids|);
    var near := (Max(minToken, a - 16), Min(|ids|, a + 16));
    var wide := (Max(minToken, a - 128), Min(|ids|, a + 128));
    if !NoneIn(decode, ids, text, required, near.0, near.1) then near
    else if !NoneIn(decode, ids, text, required, wide.0, wide.1) then wide
    else (minToken, |ids|)
  }

  /** The best end of the answering window. */
  ghost predicate FirstWindowBest(decode: Decoder, ids: seq<int>, text: string, required: int, minToken: nat, e: End)
    requires minToken <= |ids|
  {
    var w := AnswerWindow(decode, ids, text, required, minToken);
    BestIn(decode, ids, text, required, w.0, w.1, e)
  }

  /** Bisection and widening windows return a valid end whenever there is one. */
  method FindTokenBoundary(pc: PrefixCache, text: string, charTarget: int, minToken: nat, minChar: int)
    returns (r: Result<End>)
    requires pc.Valid() && minToken <= |pc.ids|
    modifies pc`cache
    ensures pc.Valid()
    ensures r.Err? <==> NoneIn(pc.decode, pc.ids, text, Max(charTarget, minChar), minToken, |pc.ids|)
    ensures r.Ok? ==> minToken <= r.value.0 && IsEnd(pc.decode, pc.ids, text, Max(charTarget, minChar), r.value)
    ensures r.Ok? ==> FirstWindowBest(pc.decode, pc.ids, text, Max(charTarget, minChar), minToken, r.value)
  {
    hide Bisected, ValidEnd;
    var required := Max(charTarget, minChar);
    var approximate := Bisect(pc, required, minToken);
    var found := SearchWindow(pc, text, required, minToken, approximate - 16, approximate + 16);
    if found.None? {
      found := SearchWindow(pc, text, required, minToken, approximate - 128, approximate + 128);
    }
    if found.None? {
      found := SearchWindow(pc, text, required, minToken, minToken, |pc.ids|);
    }
    if found.None? {
      return Err("no prefix covers the boundary");
    }
    return Ok(found.value);
  }

  /** Every valid end outside the answering window is longer than some valid end inside it, or as
      long and not earlier. */
  ghost predicate NothingBetterOutside(decode: Decoder, ids: seq<int>, text: string, required: int, minToken: nat)
    requires minToken <= |ids|
  {
    var w := AnswerWindow(decode, ids, text, required, minToken);
    forall k: nat :: minToken <= k <= |ids| && !(w.0 <= k <= w.1) && ValidEnd(decode, ids, text, required, k) ==>
      exists j: nat :: w.0 <= j <= w.1 && ValidEnd(decode, ids, text, required, j)
                       && NoWorse((j, |Prefix(decode, ids, j)|), (k, |Prefix(decode, ids, k)|))
  }

  /** The search agrees with scanning every token end exactly when no valid end outside the
      answering window beats those inside... */
  lemma WindowedIff(decode: Decoder, ids: seq<int>, text: string, required: int, minToken: nat, e: End)
    requires minToken <= |ids| && FirstWindowBest(decode, ids, text, required, minToken, e)
    ensures BestIn(decode, ids, text, required, minToken, |ids|, e) <==>
            NothingBetterOutside(decode, ids, text, required, minToken)
  {
    hide Bisected, ValidEnd, AnswerWindow;
    var w := AnswerWindow(decode, ids, text, required, minToken);
    if BestIn(decode, ids, text, required, minToken, |ids|, e) {
      var j: nat := e.0;
      assert w.0 <= j <= w.1 && ValidEnd(decode, ids, text, required, j);
      forall k: nat | minToken <= k <= |ids| && ValidEnd(decode, ids, text, required, k)
        ensures NoWorse((j, |Prefix(decode, ids, j)|), (k, |Prefix(decode, ids, k)|))
      {}
    }
    if NothingBetterOutside(decode, ids, text, required, minToken) {
      forall k: nat | minToken <= k <= |ids| && ValidEnd(decode, ids, text, required, k)
        ensures NoWorse(e, (k, |Prefix(decode, ids, k)|))
      {
        if !(w.0 <= k <= w.1) {
          var j: nat :| w.0 <= j <= w.1 && ValidEnd(decode, ids, text, required, j)
                        && NoWorse((j, |Prefix(decode, ids, j)|), (k, |Prefix(decode, ids, k)|));
          assert NoWorse(e, (j, |Prefix(decode, ids, j)|));
        }
      }
    }
  }

  /** ... that is, exactly when the best end of all lies in that window. */
  lemma WindowedIffBestInside(decode: Decoder, ids: seq<int>, text: string, required: int, minToken: nat, e: End,
                              best: End)
    requires minToken <= |ids| && FirstWindowBest(decode, ids, text, required, minToken, e)
    requires BestIn(decode, ids, text, required, minToken, |ids|, best)
    ensures var w := AnswerWindow(decode, ids, text, required, minToken);
      BestIn(decode, ids, text, required, minToken, |ids|, e) <==> w.0 <= best.0 <= w.1
  {
    hide Bisected;
  }

  /** Where lengths never shrink nothing outside the window is better, so the search returns the
      minimum over all token ends. */
  lemma WindowedIsExhaustive(decode: Decoder, ids: seq<int>, text: string, required: int, minToken: nat, e: End)
    requires minToken <= |ids| && Monotone(decode, ids)
    requires FirstWindowBest(decode, ids, text, required, minToken, e)
    ensures BestIn(decode, ids, text, required, minToken, |ids|, e)
    ensures forall k: nat :: minToken <= k <= |ids| && Covers(Prefix(decode, ids, k), text, required) ==>
      |Prefix(decode, ids, e.0)| <= |Prefix(decode, ids, k)|
      && (|Prefix(decode, ids, e.0)| == |Prefix(decode, ids, k)| ==> e.0 <= k)
  {
    var w := AnswerWindow(decode, ids, text, required, minToken);
    WindowCoversApproximation(decode, ids, text, required, minToken);
    hide AnswerWindow, Bisected;
    BisectedSkipsShort(decode, ids, required, minToken, |ids|);
    forall k: nat | minToken <= k <= |ids| && !(w.0 <= k <= w.1) && ValidEnd(decode, ids, text, required, k)
      ensures exists j: nat :: w.0 <= j <= w.1 && ValidEnd(decode, ids, text, required, j)
                               && NoWorse((j, |Prefix(decode, ids, j)|), (k, |Prefix(decode, ids, k)|))
    {
      var j: nat := e.0;
      assert w.1 < k;
      assert |Prefix(decode, ids, j)| <= |Prefix(decode, ids, k)|;
    }
    WindowedIff(decode, ids, text, required, minToken, e);
    forall k: nat | minToken <= k <= |ids| && Covers(Prefix(decode, ids, k), text, required)
      ensures ValidEnd(decode, ids, text, required, k)
    {
      ValidEndCovers(decode, ids, text, required, k);
    }
  }

  /** The answering window starts at or before the bisection's answer, or at the very start. */
  lemma WindowCoversApproximation(decode: Decoder, ids: seq<int>, text: string, required: int, minToken: nat)
    requires minToken <= |ids|
    ensures var w := AnswerWindow(decode, ids, text, required, minToken);
      w.0 <= Bisected(decode, ids, required, minToken, |ids|) && minToken <= w.0
  {}

  /** A decoder whose prefix lengths shrink: the first of forty tokens already gives the whole
      text, the next thirty-eight give nothing. */
  function Flicker(ids: seq<int>): string { if |ids| == 1 || |ids| == 40 then "a" else "" }

  lemma {:induction false} FlickerBisected(ids: seq<int>, low: nat)
    requires |ids| == 40 && 1 < low <= 40
    ensures Bisected(Flicker, ids, 1, low, 40) == 40
    decreases 40 - low
  {
    if low < 40 {
      FlickerBisected(ids, (low + 40) / 2 + 1);
    }
  }

  lemma FlickerStart(ids: seq<int>)
    requires |ids| == 40
    ensures Bisected(Flicker, ids, 1, 0, 40) == 40
  {
    FlickerBisected(ids, 21);
    assert (0 + 40) / 2 == 20 && Prefix(Flicker, ids, 20) == "";
  }

  /** Without monotone lengths the window can miss an earlier end: the one at the first token is
      outside the window and better than the only one inside. */
  lemma WindowCanMiss(ids: seq<int>, e: End)
    requires |ids| == 40 && FirstWindowBest(Flicker, ids, "a", 1, 0, e)
    ensures !NothingBetterOutside(Flicker, ids, "a", 1, 0) && !BestIn(Flicker, ids, "a", 1, 0, 40, e)
    ensures e == (40, 1) && BestIn(Flicker, ids, "a", 1, 0, 40, (1, 1))
  {
    hide Bisected, ValidEnd;
    FlickerStart(ids);
    FlickerPrefixes(ids);
    assert NoWorse((1, 1), (1, 1)) && NoWorse((1, 1), (40, 1)) && !NoWorse((40, 1), (1, 1));
    assert AnswerWindow(Flicker, ids, "a", 1, 0) == (24, 40);
    WindowedIff(Flicker, ids, "a", 1, 0, e);
  }

  lemma FlickerPrefixes(ids: seq<int>)
    requires |ids| == 40
    ensures forall k: nat :: k <= 40 ==> (ValidEnd(Flicker, ids, "a", 1, k) <==> k == 1 || k == 40)
    ensures |Prefix(Flicker, ids, 1)| == |Prefix(Flicker, ids, 40)| == 1
    ensures !NoneIn(Flicker, ids, "a", 1, 24, 40)
  {
    assert forall k: nat :: 1 < k < 40 ==> Prefix(Flicker, ids, k) == "";
    assert Prefix(Flicker, ids, 1) == "a" == Prefix(Flicker, ids, 40);
    assert ValidEnd(Flicker, ids, "a", 1, 40);
    assert !NoneIn(Flicker, ids, "a", 1, 24, 40);
  }

  // ----- the token partition -----

  datatype TokenStep = TokenStep(
    index: nat, charStart: int, charEnd: int, tokenStart: int, tokenEnd: int,
    text: string, isFinal: bool, boundary: Boundary)

  function LastTokenEnd(steps: seq<TokenStep>): int { if steps == [] then 0 else steps[|steps| - 1].tokenEnd }
  function LastCharEnd(steps: seq<TokenStep>): int { if steps == [] then 0 else steps[|steps| - 1].charEnd }

  /** Non-empty, contiguous token and character spans from zero; each span end's prefix decode is
      a prefix of the response of exactly the covered length; each text is its own slice. */
  ghost predicate TokenSpans(steps: seq<TokenStep>, decode: Decoder, ids: seq<int>, response: string) {
    forall i :: 0 <= i < |steps| ==>
      && steps[i].index == i
      && steps[i].tokenStart == LastTokenEnd(steps[..i]) < steps[i].tokenEnd <= |ids|
      && steps[i].charStart == LastCharEnd(steps[..i]) < steps[i].charEnd <= |response|
      && 0 <= steps[i].tokenStart && 0 <= steps[i].charStart
      && Prefix(decode, ids, steps[i].tokenEnd) == response[..steps[i].charEnd]
      && steps[i].text == response[steps[i].charStart..steps[i].charEnd]
  }

  function TokenTexts(steps: seq<TokenStep>): string {
    if steps == [] then "" else TokenTexts(steps[..|steps| - 1]) + steps[|steps| - 1].text
  }

  lemma {:induction false} TokenTextsArePrefix(steps: seq<TokenStep>, decode: Decoder, ids: seq<int>,
                                               response: string, k: nat)
    requires TokenSpans(steps, decode, ids, response) && k <= |steps|
    ensures 0 <= LastCharEnd(steps[..k]) <= |response|
    ensures TokenTexts(steps[..k]) == response[..LastCharEnd(steps[..k])]
  {
    hide TokenSpans;
    if k > 0 {
      TokenTextsArePrefix(steps, decode, ids, response, k - 1);
      SpanText(steps, decode, ids, response, k - 1);
      assert steps[..k][..k - 1] == steps[..k - 1];
    }
  }

  /** A step's text continues the response where the steps before it stop. */
  lemma SpanText(steps: seq<TokenStep>, decode: Decoder, ids: seq<int>, response: string, i: nat)
    requires TokenSpans(steps, decode, ids, response) && i < |steps|
    ensures 0 <= LastCharEnd(steps[..i]) <= steps[i].charEnd <= |response|
    ensures response[..LastCharEnd(steps[..i])] + steps[i].text == response[..steps[i].charEnd]
  {
    var start := steps[i].charStart;
    assert start == LastCharEnd(steps[..i]) && 0 <= start < steps[i].charEnd <= |response|;
    assert steps[i].text == response[start..steps[i].charEnd];
  }

  /** The response decodes to nothing from no ids, or there are ids: the condition under which the
      cached empty prefix and the decoder agree. */
  predicate EmptyDecodesEmpty(decode: Decoder, ids: seq<int>) { ids != [] || decode([]) == "" }

  /** The token step a text step becomes behind `steps`: it starts where they end and ends at the
      first window's best valid end that covers the text step. */
  ghost predicate Realizes(step: TokenStep, t: TextStep, steps: seq<TokenStep>, decode: Decoder, ids: seq<int>,
                           response: string)
  {
    && 0 <= LastTokenEnd(steps) <= |ids| && t.end > LastCharEnd(steps)
    && FirstWindowBest(decode, ids, response, Max(t.end, LastCharEnd(steps) + 1), LastTokenEnd(steps),
                       (step.tokenEnd, step.charEnd))
    && step.isFinal == t.isFinal && step.boundary == t.boundary
  }

  /** The token steps are the text steps in order, each realized behind the ones before it, without
      those that an earlier token already covers to their end. */
  ghost predicate Follows(textSteps: seq<TextStep>, steps: seq<TokenStep>, decode: Decoder, ids: seq<int>,
                          response: string)
  {
    if textSteps == [] then steps == [] else
      var front, t := textSteps[..|textSteps| - 1], textSteps[|textSteps| - 1];
      || (t.end <= LastCharEnd(steps) && Follows(front, steps, decode, ids, response))
      || (steps != [] && Follows(front, steps[..|steps| - 1], decode, ids, response)
          && Realizes(steps[|steps| - 1], t, steps[..|steps| - 1], decode, ids, response))
  }

  lemma FollowsOn(textSteps: seq<TextStep>, t: TextStep, steps: seq<TokenStep>, decode: Decoder, ids: seq<int>,
                  response: string)
    requires Follows(textSteps, steps, decode, ids, response)
    ensures t.end <= LastCharEnd(steps) ==> Follows(textSteps + [t], steps, decode, ids, response)
    ensures forall s :: Realizes(s, t, steps, decode, ids, response) ==>
      Follows(textSteps + [t], steps + [s], decode, ids, response)
  {
    hide Realizes;
    assert (textSteps + [t])[..|textSteps|] == textSteps;
    forall s | Realizes(s, t, steps, decode, ids, response)
      ensures Follows(textSteps + [t], steps + [s], decode, ids, response)
    {
      assert (steps + [s])[..|steps|] == steps;
    }
  }

  lemma FollowsNext(texts: seq<TextStep>, i: nat, steps: seq<TokenStep>, next: seq<TokenStep>, decode: Decoder,
                    ids: seq<int>, response: string)
    requires i < |texts| && Follows(texts[..i], steps, decode, ids, response)
    requires texts[i].end <= LastCharEnd(steps) ==> next == steps
    requires texts[i].end > LastCharEnd(steps) ==>
      exists s :: Realizes(s, texts[i], steps, decode, ids, response) && next == steps + [s]
    ensures Follows(texts[..i + 1], next, decode, ids, response)
  {
    hide Realizes, Follows;
    FollowsOn(texts[..i], texts[i], steps, decode, ids, response);
    assert texts[..i + 1] == texts[..i] + [texts[i]];
  }

  lemma FollowsNone(decode: Decoder, ids: seq<int>, response: string)
    ensures Follows([], [], decode, ids, response) && TokenSpans([], decode, ids, response)
  {}

  /** Splitting succeeds for every deterministic decoder, monotone or not, unless it makes text
      out of no tokens at all; the error exits behind the search are unreachable. */
  method SplitRolloutSteps(decode: Decoder, ids: seq<int>, detect: string -> Detected)
    returns (r: Result<(string, seq<TokenStep>)>, ghost textSteps: seq<TextStep>, ghost boxes: seq<Range>)
    ensures r.Ok? <==> EmptyDecodesEmpty(decode, ids)
    ensures Partition(textSteps, decode(ids)) && CutsExactly(textSteps, detect(decode(ids)), decode(ids), boxes)
    ensures r.Ok? ==> Follows(textSteps, r.value.1, decode, ids, decode(ids))
    ensures r.Ok? ==> r.value.0 == decode(ids)
    ensures r.Ok? ==> TokenSpans(r.value.1, decode, ids, decode(ids))
    ensures r.Ok? ==> TokenTexts(r.value.1) == decode(ids)
    ensures r.Ok? ==> LastCharEnd(r.value.1) == |decode(ids)|
  {
    hide Realizes, Follows, CutsExactly, TokenSpans;
    var response := decode(ids);
    FollowsNone(decode, ids, response);
    var texts, found := SplitTextSteps(response, detect(response));
    textSteps, boxes := texts, found;
    if texts == [] {
      return Ok((response, [])), textSteps, boxes;
    }
    var pc := new PrefixCache(decode, ids);
    var steps: seq<TokenStep> := [];
    for i := 0 to |texts|
      invariant pc.Valid() && pc.decode == decode && pc.ids == ids
      invariant Aligned(steps, decode, ids, response)
      invariant i > 0 ==> LastCharEnd(steps) >= texts[i - 1].end && ids != []
      invariant Follows(texts[..i], steps, decode, ids, response)
    {
      var aligned := AlignStep(pc, response, texts[i], steps);
      if aligned.Err? {
        return Err(aligned.reason), textSteps, boxes;
      }
      FollowsNext(texts, i, steps, aligned.value, decode, ids, response);
      steps := aligned.value;
    }
    assert texts[..|texts|] == texts;
    TokenTextsArePrefix(steps, decode, ids, response, |steps|);
    assert steps[..|steps|] == steps && response[..|response|] == response;
    if LastCharEnd(steps) != |response| {
      return Err("uncovered"), textSteps, boxes;
    }
    return Ok((response, steps)), textSteps, boxes;
  }

  /** A decoder that makes text out of no tokens. */
  function Blurt(ids: seq<int>): string { "a" }

  /** On that decoder splitting an empty response raises. */
  method SplitWithoutTokensRaises(detect: string -> Detected) returns (r: Result<(string, seq<TokenStep>)>)
    ensures r.Err?
  {
    ghost var texts: seq<TextStep>, boxes: seq<Range>;
    r, texts, boxes := SplitRolloutSteps(Blurt, [], detect);
    assert !EmptyDecodesEmpty(Blurt, []);
  }

  /** The steps found so far, with the search's resume point behind them. */
  ghost predicate Aligned(steps: seq<TokenStep>, decode: Decoder, ids: seq<int>, response: string) {
    && TokenSpans(steps, decode, ids, response)
    && 0 <= LastTokenEnd(steps) <= |ids| && 0 <= LastCharEnd(steps) <= |response|
    && Prefix(decode, ids, LastTokenEnd(steps)) == response[..LastCharEnd(steps)]
  }

  /** One round of the alignment loop: a text step already covered is skipped. */
  method AlignStep(pc: PrefixCache, response: string, textStep: TextStep, steps: seq<TokenStep>)
    returns (r: Result<seq<TokenStep>>)
    requires pc.Valid() && response == pc.decode(pc.ids) && response != ""
    requires Aligned(steps, pc.decode, pc.ids, response) && textStep.end <= |response|
    modifies pc`cache
    ensures pc.Valid()
    ensures r.Ok? ==> Aligned(r.value, pc.decode, pc.ids, response) && LastCharEnd(r.value) >= textStep.end
    ensures r.Ok? && textStep.end <= LastCharEnd(steps) ==> r.value == steps
    ensures r.Ok? && textStep.end > LastCharEnd(steps) ==>
      exists s :: Realizes(s, textStep, steps, pc.decode, pc.ids, response) && r.value == steps + [s]
    ensures pc.ids != [] ==> r.Ok?
    ensures pc.ids == [] && textStep.end > 0 ==> r.Err?
  {
    hide TokenSpans, FirstWindowBest, ValidEnd, Aligned, Realizes;
    var previousToken, previousChar := LastTokenEnd(steps), LastCharEnd(steps);
    AlignedBounds(steps, pc.decode, pc.ids, response);
    if textStep.end <= previousChar {
      return Ok(steps);
    }
    var required := Max(textStep.end, previousChar + 1);
    SearchOutcome(pc.decode, pc.ids, response, required, previousToken);
    var found := FindTokenBoundary(pc, response, textStep.end, previousToken, previousChar + 1);
    if found.Err? {
      return Err(found.reason);
    }
    var (tokenEnd, charEnd) := found.value;
    FoundAdvances(steps, pc.decode, pc.ids, response, required, found.value);
    if tokenEnd <= previousToken || charEnd <= previousChar {
      return Ok(steps);
    }
    var step := TokenStep(|steps|, previousChar, charEnd, previousToken, tokenEnd,
                          response[previousChar..charEnd], textStep.isFinal, textStep.boundary);
    StepAppended(steps, step, textStep, pc.decode, pc.ids, response);
    return Ok(steps + [step]);
  }

  lemma AlignedBounds(steps: seq<TokenStep>, decode: Decoder, ids: seq<int>, response: string)
    requires Aligned(steps, decode, ids, response)
    ensures 0 <= LastTokenEnd(steps) <= |ids| && 0 <= LastCharEnd(steps) <= |response|
    ensures ids == [] ==> LastCharEnd(steps) == 0
  {
    hide TokenSpans;
    assert ids == [] ==> response[..LastCharEnd(steps)] == "";
  }

  /** The search cannot fail when there are ids, since all of them decode to the whole response,
      and cannot succeed when there are none. */
  lemma SearchOutcome(decode: Decoder, ids: seq<int>, response: string, required: int, minToken: nat)
    requires response == decode(ids) && 0 < required <= |response| && minToken <= |ids|
    ensures NoneIn(decode, ids, response, required, minToken, |ids|) <==> ids == []
  {
    if ids != [] {
      assert ids[..|ids|] == ids;
      assert ValidEnd(decode, ids, response, required, |ids|);
    }
  }

  /** A valid end for more characters than are covered lies behind the last token. */
  lemma FoundAdvances(steps: seq<TokenStep>, decode: Decoder, ids: seq<int>, response: string, required: int, e: End)
    requires Aligned(steps, decode, ids, response) && required > LastCharEnd(steps)
    requires LastTokenEnd(steps) <= e.0 && IsEnd(decode, ids, response, required, e)
    ensures LastTokenEnd(steps) < e.0 <= |ids| && LastCharEnd(steps) < e.1 <= |response| && required <= e.1
    ensures Prefix(decode, ids, e.0) == response[..e.1]
  {
    hide TokenSpans;
    PrefixLength(decode, ids, response, required, e.0);
  }

  lemma StepAppended(steps: seq<TokenStep>, step: TokenStep, t: TextStep, decode: Decoder, ids: seq<int>,
                     response: string)
    requires Aligned(steps, decode, ids, response) && step.index == |steps|
    requires step.tokenStart == LastTokenEnd(steps) < step.tokenEnd <= |ids|
    requires step.charStart == LastCharEnd(steps) < step.charEnd <= |response|
    requires 0 <= step.charStart
    requires Prefix(decode, ids, step.tokenEnd) == response[..step.charEnd]
    requires step.text == response[step.charStart..step.charEnd]
    requires 0 <= LastTokenEnd(steps) && t.end > LastCharEnd(steps)
    requires FirstWindowBest(decode, ids, response, Max(t.end, LastCharEnd(steps) + 1), LastTokenEnd(steps),
                             (step.tokenEnd, step.charEnd))
    requires step.isFinal == t.isFinal && step.boundary == t.boundary
    ensures Aligned(steps + [step], decode, ids, response) && LastCharEnd(steps + [step]) == step.charEnd
    ensures Realizes(step, t, steps, decode, ids, response)
  {
    hide TokenSpans, FirstWindowBest;
    AppendSpan(steps, step, decode, ids, response);
  }

  lemma PrefixLength(decode: Decoder, ids: seq<int>, text: string, required: int, end: nat)
    requires end <= |ids| && ValidEnd(decode, ids, text, required, end)
    ensures required <= |Prefix(decode, ids, end)| <= |text|
    ensures Prefix(decode, ids, end) == text[..|Prefix(decode, ids, end)|]
  {}

  lemma AppendSpan(steps: seq<TokenStep>, step: TokenStep, decode: Decoder, ids: seq<int>, response: string)
    requires TokenSpans(steps, decode, ids, response)
    requires step.index == |steps|
    requires step.tokenStart == LastTokenEnd(steps) < step.tokenEnd <= |ids| && 0 <= step.tokenStart
    requires step.charStart == LastCharEnd(steps) < step.charEnd <= |response| && 0 <= step.charStart
    requires Prefix(decode, ids, step.tokenEnd) == response[..step.charEnd]
    requires step.text == response[step.charStart..step.charEnd]
    ensures TokenSpans(steps + [step], decode, ids, response)
  {
    var all := steps + [step];
    forall i | 0 <= i < |all|
      ensures all[..i] == if i < |steps| then steps[..i] else steps
    {}
  }

  // ----- the tail split -----

  /** The least valid end in [low, high]. */
  method FirstValid(pc: PrefixCache, text: string, required: int, low: nat, high: int) returns (r: Option<int>)
    requires pc.Valid() && high <= |pc.ids|
    modifies pc`cache
    ensures pc.Valid()
    ensures r.Some? ==> low <= r.value <= high && ValidEnd(pc.decode, pc.ids, text, required, r.value)
    ensures r.Some? ==> forall k: nat :: low <= k < r.value ==> !ValidEnd(pc.decode, pc.ids, text, required, k)
    ensures r.None? ==> forall k: nat :: low <= k <= high ==> !ValidEnd(pc.decode, pc.ids, text, required, k)
  {
    var end: int := low;
    while end <= high
      invariant pc.Valid() && low <= end
      invariant forall k: nat :: low <= k < end && k <= high ==> !ValidEnd(pc.decode, pc.ids, text, required, k)
    {
      var prefix := pc.DecodePrefix(end);
      if |prefix| >= required && prefix <= text {
        return Some(end);
      }
      end := end + 1;
    }
    return None;
  }

  ghost predicate LeastEnd(decode: Decoder, ids: seq<int>, text: string, required: int, end: int) {
    && 0 <= end <= |ids| && ValidEnd(decode, ids, text, required, end)
    && forall k: nat :: k < end ==> !ValidEnd(decode, ids, text, required, k)
  }

  /** The window of eight around the bisection holds no valid end, or there is none before it. */
  ghost predicate TailWindowExact(decode: Decoder, ids: seq<int>, text: string, required: int) {
    var a: int := Bisected(decode, ids, required, 0, |ids|);
    var low, high := Max(0, a - 8), Min(|ids|, a + 8);
    NoneIn(decode, ids, text, required, low, high) || NoneIn(decode, ids, text, required, 0, low - 1)
  }

  /** Where lengths never shrink there is no valid end before the window. */
  lemma TailWindowMonotone(decode: Decoder, ids: seq<int>, text: string, required: int)
    requires Monotone(decode, ids)
    ensures TailWindowExact(decode, ids, text, required)
  {
    hide Bisected;
    BisectedSkipsShort(decode, ids, required, 0, |ids|);
  }

  /** The flickering decoder again: the window answers with the last token, the first would do. */
  lemma TailWindowCanMiss(ids: seq<int>)
    requires |ids| == 40
    ensures !TailWindowExact(Flicker, ids, "a", 1) && LeastEnd(Flicker, ids, "a", 1, 1)
  {
    hide Bisected, ValidEnd;
    FlickerStart(ids);
    FlickerPrefixes(ids);
    assert ValidEnd(Flicker, ids, "a", 1, 1) && ValidEnd(Flicker, ids, "a", 1, 40);
  }

  /** `charEnd` is the end of the last sentence delimiter, when the response has one. The search
      returns a valid end exactly when there is a delimiter, and that is the least valid end of all
      exactly when its window holds none or none lies before the window. */
  method FindTailSplit(decode: Decoder, ids: seq<int>, delimiter: string -> Option<nat>) returns (r: Option<int>)
    requires delimiter(decode(ids)).Some? ==> 0 < delimiter(decode(ids)).value <= |decode(ids)|
    ensures r.Some? <==> ids != [] && delimiter(decode(ids)).Some?
    ensures r.Some? ==> 0 < r.value <= |ids|
    ensures r.Some? ==> ValidEnd(decode, ids, decode(ids), delimiter(decode(ids)).value, r.value)
    ensures r.Some? ==>
      (LeastEnd(decode, ids, decode(ids), delimiter(decode(ids)).value, r.value)
       <==> TailWindowExact(decode, ids, decode(ids), delimiter(decode(ids)).value))
  {
    hide Bisected;
    if ids == [] {
      return None;
    }
    var text := decode(ids);
    if text == "" {
      return None;
    }
    if delimiter(text).None? {
      return None;
    }
    var charEnd := delimiter(text).value;
    assert ids[..|ids|] == ids;
    assert ValidEnd(decode, ids, text, charEnd, |ids|);
    var pc := new PrefixCache(decode, ids);
    var low := Bisect(pc, charEnd, 0);
    r := FirstValid(pc, text, charEnd, Max(0, low - 8), Min(|ids|, low + 8));
    if r.None? {
      r := FirstValid(pc, text, charEnd, 0, |ids|);
    }
  }
}
