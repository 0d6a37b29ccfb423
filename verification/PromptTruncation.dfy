/** Fitting a question into a prompt budget by keeping a prefix of it.
    Models utils/custom_dataset.py; `render` is any chat template with its token count. */
module PromptTruncation {
  import opened Basics

  /** A rendered prompt together with whether it fits its limit(s). */
  datatype Rendered<P> = Rendered(prompt: P, fits: bool)

  /** Longer question prefixes never fit when shorter ones do not. */
  ghost predicate FitMonotone<P>(render: string -> Rendered<P>, question: string) {
    forall i, j :: 0 <= i <= j <= |question| && render(question[..j]).fits ==> render(question[..i]).fits
  }

  ghost predicate PromptOfPrefix<P>(render: string -> Rendered<P>, question: string, prompt: P, k: nat) {
    k <= |question| && render(question[..k]).fits && prompt == render(question[..k]).prompt
  }

  ghost predicate LongestFit<P>(render: string -> Rendered<P>, question: string, k: nat) {
    k <= |question| && forall j :: k < j <= |question| ==> !render(question[..j]).fits
  }

  /** The length of the longest fitting prefix up to n, zero when none fits. */
  function Longest<P>(render: string -> Rendered<P>, question: string, n: nat): (k: nat)
    requires n <= |question|
    ensures k <= n && (0 < k ==> render(question[..k]).fits)
    ensures forall j :: k < j <= n ==> !render(question[..j]).fits
  {
    if n == 0 || render(question[..n]).fits then n else Longest(render, question, n - 1)
  }

  /** Halving [low, high] towards `target` meets no length up to the target that does not fit. */
  predicate Reaches<P>(render: string -> Rendered<P>, question: string, low: nat, high: nat, target: nat)
    requires 1 <= low <= high + 1 && high <= |question|
    decreases high + 1 - low
  {
    low > high ||
    var middle := (low + high) / 2;
    if middle <= target then
      render(question[..middle]).fits && Reaches(render, question, middle + 1, high, target)
    else
      Reaches(render, question, low, middle - 1, target)
  }

  /** Every length the search tries on its way to the longest fitting prefix fits. */
  predicate SearchReaches<P>(render: string -> Rendered<P>, question: string) {
    question == "" || Reaches(render, question, 1, |question|, Longest(render, question, |question|))
  }

  lemma MonotoneReaches<P>(render: string -> Rendered<P>, question: string)
    requires FitMonotone(render, question)
    ensures SearchReaches(render, question)
  {
    if question != "" {
      MonotoneReachesFrom(render, question, 1, |question|);
    }
  }

  lemma MonotoneReachesFrom<P>(render: string -> Rendered<P>, question: string, low: nat, high: nat)
    requires FitMonotone(render, question) && 1 <= low <= high + 1 && high <= |question|
    ensures Reaches(render, question, low, high, Longest(render, question, |question|))
    decreases high + 1 - low
  {
    var target := Longest(render, question, |question|);
    if low <= high {
      var middle := (low + high) / 2;
      if middle <= target {
        assert render(question[..target]).fits;
        MonotoneReachesFrom(render, question, middle + 1, high);
      } else {
        MonotoneReachesFrom(render, question, low, middle - 1);
      }
    }
  }

  /** Where fit is not monotone the search can miss: here four characters fit and two are kept. */
  lemma SearchCanMiss()
    ensures var render: string -> Rendered<string> := q => Rendered(q, |q| in {1, 2, 4});
            Longest(render, "prompt", 6) == 4 && !SearchReaches(render, "prompt")
  {
    var render: string -> Rendered<string> := q => Rendered(q, |q| in {1, 2, 4});
    assert Longest(render, "prompt", 4) == 4;
    assert !render("prompt"[..3]).fits;
  }

  /** The shared binary search over prefix lengths: some fitting prefix, and the longest one
      exactly when the search reaches it. */
  method LongestPrefix<P>(render: string -> Rendered<P>, question: string, first: P)
    returns (best: P, ghost kept: nat)
    requires question != "" && PromptOfPrefix(render, question, first, 1)
    ensures exists k: nat :: 1 <= k && PromptOfPrefix(render, question, best, k)
    ensures 1 <= kept && PromptOfPrefix(render, question, best, kept)
    ensures LongestFit(render, question, kept) <==> SearchReaches(render, question)
  {
    best, kept := first, 1;
    var low, high := 1, |question|;
    ghost var target := Longest(render, question, |question|);
    while low <= high
      invariant 1 <= low <= high + 1 <= |question| + 1 && 1 <= high
      invariant kept == Max(1, low - 1) && PromptOfPrefix(render, question, best, kept)
      invariant if high < target then !SearchReaches(render, question)
        else SearchReaches(render, question) == Reaches(render, question, low, high, target)
      decreases high - low
    {
      var middle := (low + high) / 2;
      var candidate := render(question[..middle]);
      if candidate.fits {
        best, kept := candidate.prompt, middle;
        low := middle + 1;
      } else {
        high := middle - 1;
      }
    }
  }

  /** Student-only rendering. Outside the fail-open exit the prompt fits; a truncated prompt keeps
      the longest fitting prefix exactly when the search reaches it. The exit is taken exactly when not even one
      character fits, and then hands back the full prompt. */
  method RenderLimited<P>(render: string -> Rendered<P>, question: string)
    returns (prompt: P, truncated: bool, ghost kept: nat)
    ensures !truncated <==> render(question).fits
    ensures render(question).fits || !render(question[..Min(1, |question|)]).fits ==> prompt == render(question).prompt
    ensures !render(question).fits && render(question[..Min(1, |question|)]).fits ==>
      PromptOfPrefix(render, question, prompt, kept)
      && 1 <= kept < |question| && (LongestFit(render, question, kept) <==> SearchReaches(render, question))
  {
    assert question[..|question|] == question;
    kept := 0;
    var full := render(question);
    if full.fits {
      return full.prompt, false, 0;
    }
    var first := render(question[..Min(1, |question|)]);
    if !first.fits {
      return full.prompt, true, 0;
    }
    prompt, kept := LongestPrefix(render, question, first.prompt);
    truncated := true;
  }

  /** Paired rendering: `render` fits when both the Student and the Teacher prompt fit, so one
      common prefix serves both; when not even one character fits it raises. */
  method RenderPair<P>(render: string -> Rendered<P>, question: string)
    returns (r: Result<(P, bool)>, ghost kept: nat)
    ensures r.Err? <==> !render(question).fits && !render(question[..Min(1, |question|)]).fits
    ensures r.Ok? ==> PromptOfPrefix(render, question, r.value.0, kept)
    ensures r.Ok? ==> (r.value.1 <==> kept < |question|) && (r.value.1 <==> !render(question).fits)
    ensures r.Ok? ==> (LongestFit(render, question, kept) <==> !r.value.1 || SearchReaches(render, question))
  {
    assert question[..|question|] == question;
    kept := |question|;
    var full := render(question);
    if full.fits {
      return Ok((full.prompt, false)), |question|;
    }
    var first := render(question[..Min(1, |question|)]);
    if !first.fits {
      return Err("budget"), 0;
    }
    var best;
    best, kept := LongestPrefix(render, question, first.prompt);
    r := Ok((best, true));
  }

  // ----- the two entry points, on chat templates and tokenizers -----

  datatype Prompt = Prompt(text: string, ids: seq<int>)

  datatype PromptPair = PromptPair(student: string, teacher: Prompt)

  /** A native chat template with its tokenizer: the prompt of a question and the prompt's ids. */
  type Chat = string -> Prompt

  predicate Fits(chat: Chat, question: string, limit: int) {
    |chat(question).ids| <= limit
  }

  /** Longer prefixes of the question never have shorter prompts. */
  ghost predicate LengthsGrow(chat: Chat, question: string) {
    forall i, j :: 0 <= i <= j <= |question| ==> |chat(question[..i]).ids| <= |chat(question[..j]).ids|
  }

  function ChatRender(chat: Chat, limit: int): string -> Rendered<string> {
    q => Rendered(chat(q).text, Fits(chat, q, limit))
  }

  predicate BothFit(student: Chat, teacher: Chat, studentLimit: int, teacherLimit: int, question: string) {
    Fits(student, question, studentLimit) && Fits(teacher, question, teacherLimit)
  }

  /** The Student and Teacher prompts of one question, the Teacher's ids, and whether both fit. */
  function PairRender(student: Chat, teacher: Chat, studentLimit: int, teacherLimit: int)
    : string -> Rendered<PromptPair>
  {
    q => Rendered(PromptPair(student(q).text, teacher(q)),
                  BothFit(student, teacher, studentLimit, teacherLimit, q))
  }

  /** The Student's prompt: raises exactly on a limit that is not positive, and exceeds the limit
      exactly when neither the question nor its first character fits. */
  method RenderChatPrompt(chat: Chat, limit: int, question: string)
    returns (r: Result<(string, bool)>, ghost kept: nat)
    ensures r.Err? <==> limit <= 0
    ensures r.Ok? ==> kept <= |question| && r.value.0 == chat(question[..kept]).text
    ensures r.Ok? ==> (r.value.1 <==> !Fits(chat, question, limit))
    ensures r.Ok? ==> (Fits(chat, question[..kept], limit)
                  <==> Fits(chat, question, limit) || Fits(chat, question[..Min(1, |question|)], limit))
    ensures r.Ok? && r.value.1 && Fits(chat, question[..kept], limit) ==>
      ((forall j :: kept < j <= |question| ==> !Fits(chat, question[..j], limit))
       <==> SearchReaches(ChatRender(chat, limit), question))
    ensures r.Ok? ==> (r.value.1 <==> |chat(question).ids| > limit)
    ensures r.Ok? && r.value.1 && |chat(question[..Min(1, |question|)]).ids| <= limit ==>
      |chat(question[..kept]).ids| <= limit
  {
    if limit <= 0 { return Err("max_prompt_length"), 0; }
    assert question[..|question|] == question;
    var prompt, truncated, k := RenderLimited(ChatRender(chat, limit), question);
    kept := if Fits(chat, question, limit) || !Fits(chat, question[..Min(1, |question|)], limit)
      then |question| else k;
    r := Ok((prompt, truncated));
  }

  /** The distillation pair: it raises exactly when a limit is not positive or when both the full
      question and one character of it exceed one of the limits. Otherwise both prompts come from
      one kept prefix within both limits, the longest such prefix exactly when the search reaches it. */
  method RenderDistillationPair(student: Chat, teacher: Chat, studentLimit: int, teacherLimit: int, question: string)
    returns (r: Result<(PromptPair, bool)>, ghost kept: nat)
    ensures r.Err? <==>
      || studentLimit <= 0 || teacherLimit <= 0
      || (&& !BothFit(student, teacher, studentLimit, teacherLimit, question)
          && !BothFit(student, teacher, studentLimit, teacherLimit, question[..Min(1, |question|)]))
    ensures r.Ok? ==> kept <= |question| && (r.value.1 <==> kept < |question|)
    ensures r.Ok? ==> r.value.0 == PromptPair(student(question[..kept]).text, teacher(question[..kept]))
    ensures r.Ok? ==> BothFit(student, teacher, studentLimit, teacherLimit, question[..kept])
    ensures r.Ok? ==> |student(question[..kept]).ids| <= studentLimit && |teacher(question[..kept]).ids| <= teacherLimit
    ensures r.Ok? && |student(question).ids| <= studentLimit && |teacher(question).ids| <= teacherLimit ==>
      kept == |question|
    ensures r.Ok? ==>
      ((forall j :: kept < j <= |question| ==> !BothFit(student, teacher, studentLimit, teacherLimit, question[..j]))
       <==> !r.value.1 || SearchReaches(PairRender(student, teacher, studentLimit, teacherLimit), question))
  {
    hide LongestFit, SearchReaches;
    if Min(studentLimit, teacherLimit) <= 0 { return Err("limits"), 0; }
    r, kept := RenderPair(PairRender(student, teacher, studentLimit, teacherLimit), question);
    if r.Ok? {
      PairLongest(student, teacher, studentLimit, teacherLimit, question, kept);
    }
  }

  lemma PairLongest(student: Chat, teacher: Chat, studentLimit: int, teacherLimit: int, question: string, kept: nat)
    requires kept <= |question|
    ensures LongestFit(PairRender(student, teacher, studentLimit, teacherLimit), question, kept)
       <==> forall j :: kept < j <= |question| ==> !BothFit(student, teacher, studentLimit, teacherLimit, question[..j])
  {
    hide BothFit;
    var render := PairRender(student, teacher, studentLimit, teacherLimit);
    assert forall j :: 0 <= j <= |question| ==>
      render(question[..j]).fits == BothFit(student, teacher, studentLimit, teacherLimit, question[..j]);
  }

  /** Templates and tokenizers whose prompts never shrink let the search reach the longest pair. */
  lemma GrowingReaches(student: Chat, teacher: Chat, studentLimit: int, teacherLimit: int, question: string)
    requires LengthsGrow(student, question) && LengthsGrow(teacher, question)
    ensures SearchReaches(PairRender(student, teacher, studentLimit, teacherLimit), question)
  {
    MonotoneReaches(PairRender(student, teacher, studentLimit, teacherLimit), question);
  }
}
