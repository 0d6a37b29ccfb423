/** The sampled-token advantage of one batch row, from prompt groups and probe modulation to the
    signal the actor trains on. Models utils/r2opl.py and verl/trainer/distillation/losses.py. */
module TokenAdvantage {
  import opened Basics
  import opened PromptGroups
  import TM = TokenModulation

  /** What the advantage of one row is computed from. */
  datatype Inputs = Inputs(
    student: seq<real>,
    teacher: seq<real>,
    correctMask: seq<bool>,
    errorMask: seq<bool>,
    difficulty: real,
    responseMask: seq<bool>,
    correctMultiplier: Option<seq<real>>,
    errorMultiplier: Option<seq<real>>)
  {
    predicate Shaped() {
      && |student| == |teacher| == |correctMask| == |errorMask| == |responseMask|
      && (correctMultiplier.Some? ==> |correctMultiplier.value| == |responseMask|)
      && (errorMultiplier.Some? ==> |errorMultiplier.value| == |responseMask|)
    }

    /** What `r2opl_token_advantage` demands. */
    predicate Acceptable(lambda: real, miu: real) {
      && lambda >= 0.0 && miu > 0.0 && Shaped()
      && forall t :: 0 <= t < |responseMask| ==>
        !(correctMask[t] && errorMask[t]) && (correctMask[t] || errorMask[t] ==> responseMask[t])
    }
  }

  function MultiplierAt(multiplier: Option<seq<real>>, t: nat): real
    requires multiplier.Some? ==> t < |multiplier.value|
  {
    if multiplier.Some? then multiplier.value[t] else 1.0
  }

  function Reward(difficulty: real, miu: real, gate: real): real { difficulty * miu * gate }

  function Pull(difficulty: real, lambda: real, gap: real, gate: real): real { difficulty * lambda * gap * gate }

  /** The elementwise kernel. */
  function Advantage(x: Inputs, t: nat, lambda: real, miu: real): real
    requires x.Shaped() && t < |x.responseMask|
  {
    var a := if x.correctMask[t] then Reward(x.difficulty, miu, MultiplierAt(x.correctMultiplier, t)) else 0.0;
    var b := if x.errorMask[t]
      then Pull(x.difficulty, lambda, x.teacher[t] - x.student[t], MultiplierAt(x.errorMultiplier, t))
      else a;
    b * IndicatorOf(x.responseMask[t])
  }

  function TokenAdvantages(x: Inputs, lambda: real, miu: real): (r: Result<seq<real>>)
    ensures r.Ok? <==> x.Acceptable(lambda, miu)
    ensures r.Ok? ==> |r.value| == |x.responseMask|
  {
    if !x.Acceptable(lambda, miu) then Err("advantage inputs") else
      Ok(seq(|x.responseMask|, t requires 0 <= t < |x.responseMask| => Advantage(x, t, lambda, miu)))
  }

  /** The settings of the objective, shared by every row. */
  datatype Settings = Settings(lambda: real, miu: real, gates: TM.Hyper) {
    predicate Valid() { lambda >= 0.0 && miu > 0.0 && gates.Valid() && gates.epsilon > 0.0 }

    function LargestReward(): real { miu * (1.0 + gates.alphaR) }

    function LargestPull(gap: real): real { lambda * gap * (1.0 + gates.alphaD) }
  }

  /** The row as the actor loss assembles it: every response token is routed by the correctness of
      its trajectory and carries the multipliers of the probe modulation. */
  function ActorInputs(student: seq<real>, teacher: seq<real>, mask: seq<bool>, correct: bool, difficulty: real,
                       m: TM.Modulation): Inputs
  {
    Inputs(student, teacher, MaskRow(mask, correct), MaskRow(mask, !correct), difficulty, mask,
           Some(m.correct), Some(m.error))
  }

  /** One row of the actor loss up to the advantage. */
  method ActorRow(row: TM.Row, s: Settings, correct: bool, difficulty: real, student: seq<real>, teacher: seq<real>)
    returns (r: Result<seq<real>>, ghost m: TM.Modulation)
    ensures r.Ok? <==>
      && s.Valid() && difficulty >= 0.0 && TM.Acceptable(row, s.gates)
      && |student| == |teacher| == |row.responseMask|
    ensures r.Ok? ==> TM.IsModulation(row, s.gates, m)
    ensures r.Ok? ==>
      r == TokenAdvantages(ActorInputs(student, teacher, row.responseMask, correct, difficulty, m), s.lambda, s.miu)
  {
    hide TM.Acceptable, TM.IsModulation;
    m := TM.Modulation([], [], [], [], [], [], []);
    if !(|student| == |teacher| == |row.responseMask|) {
      return Err("shapes"), m;
    }
    if !s.Valid() || difficulty < 0.0 {
      return Err("controller fields"), m;
    }
    var modulation := TM.ComputeModulation(row, s.gates);
    if modulation.Err? {
      return Err(modulation.reason), m;
    }
    m := modulation.value;
    ModulationLengths(row, s.gates, m);
    var x := ActorInputs(student, teacher, row.responseMask, correct, difficulty, modulation.value);
    r := TokenAdvantages(x, s.lambda, s.miu);
  }

  lemma ModulationLengths(row: TM.Row, h: TM.Hyper, m: TM.Modulation)
    requires TM.Acceptable(row, h) && TM.IsModulation(row, h, m)
    ensures |m.correct| == |m.error| == |row.responseMask|
  {}

  // ----- what the signal means -----

  ghost predicate GroupHasWrong(b: Batch, i: nat)
    requires b.Shaped() && i < b.Size()
  {
    exists k :: 0 <= k < b.Size() && b.groups[k] == b.groups[i] && b.Wrong(k)
  }

  /** Row i trains exactly when it is genuine and somebody in its group is wrong. */
  ghost predicate Trains(b: Batch, i: nat)
    requires b.Shaped() && i < b.Size()
  {
    b.genuine[i] && GroupHasWrong(b, i)
  }

  /** What token t of row i may be told: a correct trajectory is reinforced, within a bound, and a
      wrong one is moved towards the Teacher, within a bound; nothing else moves. */
  ghost predicate SignalOk(b: Batch, i: nat, t: nat, s: Settings, student: real, teacher: real, a: real)
    requires b.Shaped() && i < b.Size() && t < |b.responseMask[i]|
  {
    if !b.responseMask[i][t] || !Trains(b, i) then a == 0.0
    else if b.Correct(i) then 0.0 < a <= s.LargestReward()
    else
      && (teacher >= student ==> 0.0 <= a <= s.LargestPull(teacher - student))
      && (teacher <= student ==> s.LargestPull(teacher - student) <= a <= 0.0)
  }

  lemma ProductRange(a: real, x: real, b: real, y: real)
    requires 0.0 <= a <= x && 0.0 <= b <= y
    ensures 0.0 <= a * b <= x * y
    ensures a > 0.0 && b > 0.0 ==> a * b > 0.0
  {
    assert x * y - a * b == (x - a) * y + a * (y - b);
  }

  lemma RewardRange(d: real, s: Settings, gate: real)
    requires s.Valid() && 0.0 <= d <= 1.0 && 0.0 < gate <= 1.0 + s.gates.alphaR
    ensures 0.0 <= Reward(d, s.miu, gate) <= s.LargestReward()
    ensures d > 0.0 ==> Reward(d, s.miu, gate) > 0.0
    ensures d == 0.0 ==> Reward(d, s.miu, gate) == 0.0
  {
    ProductRange(d, 1.0, s.miu, s.miu);
    ProductRange(d * s.miu, s.miu, gate, 1.0 + s.gates.alphaR);
  }

  lemma PullRange(d: real, s: Settings, gap: real, gate: real)
    requires s.Valid() && 0.0 <= d <= 1.0 && 0.0 <= gate <= 1.0 + s.gates.alphaD
    ensures gap >= 0.0 ==> 0.0 <= Pull(d, s.lambda, gap, gate) <= s.LargestPull(gap)
    ensures gap <= 0.0 ==> s.LargestPull(gap) <= Pull(d, s.lambda, gap, gate) <= 0.0
    ensures d == 0.0 ==> Pull(d, s.lambda, gap, gate) == 0.0
  {
    var size := if gap >= 0.0 then gap else -gap;
    var top := 1.0 + s.gates.alphaD;
    ProductRange(d, 1.0, s.lambda, s.lambda);
    ProductRange(d * s.lambda, s.lambda, size, size);
    ProductRange(d * s.lambda * size, s.lambda * size, gate, top);
    assert gap < 0.0 ==> d * s.lambda * size * gate == -Pull(d, s.lambda, gap, gate);
    assert gap < 0.0 ==> s.lambda * size * top == -s.LargestPull(gap);
  }

  /** From rewards to the training signal, for any batch, any modulated row and any
      log-probabilities: every token is told what it should be. */
  lemma SignalIsSound(b: Batch, difficulty: seq<real>, i: nat, row: TM.Row, s: Settings, m: TM.Modulation,
                      student: seq<real>, teacher: seq<real>, t: nat)
    requires b.Shaped() && IsDifficulty(b, difficulty) && i < b.Size()
    requires s.Valid() && TM.Acceptable(row, s.gates) && TM.IsModulation(row, s.gates, m)
    requires row.responseMask == b.responseMask[i] && t < |row.responseMask| == |student| == |teacher|
    ensures var x := ActorInputs(student, teacher, row.responseMask, b.Correct(i), difficulty[i], m);
            && x.Acceptable(s.lambda, s.miu)
            && SignalOk(b, i, t, s, student[t], teacher[t], Advantage(x, t, s.lambda, s.miu))
  {
    DifficultyMeans(b, difficulty, i);
    ModulationLengths(row, s.gates, m);
    TM.MultiplierBounds(row, s.gates, m, t);
    hide TM.Acceptable, TM.IsModulation, IsDifficulty, Trains, Advantage, Inputs.Acceptable, ActorInputs;
    hide Reward, Pull, Settings.LargestReward, Settings.LargestPull;
    RoutedKernel(student, teacher, row.responseMask, b.Correct(i), difficulty[i], m, t, s);
    RewardRange(difficulty[i], s, m.correct[t]);
    PullRange(difficulty[i], s, teacher[t] - student[t], m.error[t]);
  }

  lemma DifficultyMeans(b: Batch, difficulty: seq<real>, i: nat)
    requires b.Shaped() && IsDifficulty(b, difficulty) && i < b.Size()
    ensures 0.0 <= difficulty[i] <= 1.0 && (difficulty[i] > 0.0 <==> Trains(b, i))
  {
    DifficultyBounds(b, difficulty, i);
    assert DifficultyAt(b, difficulty, i);
  }

  lemma RoutedKernel(student: seq<real>, teacher: seq<real>, mask: seq<bool>, correct: bool, difficulty: real,
                     m: TM.Modulation, t: nat, s: Settings)
    requires s.Valid() && t < |mask| == |student| == |teacher| == |m.correct| == |m.error|
    ensures var x := ActorInputs(student, teacher, mask, correct, difficulty, m);
            && x.Acceptable(s.lambda, s.miu)
            && Advantage(x, t, s.lambda, s.miu) ==
               if !mask[t] then 0.0
               else if correct then Reward(difficulty, s.miu, m.correct[t])
               else Pull(difficulty, s.lambda, teacher[t] - student[t], m.error[t])
  {}

  /** The masks the loss assembles are never refused; a response token of a correct trajectory gets
      d miu R, one of a wrong trajectory d lambda (Teacher - Student) D, and any other token zero. */
  lemma RoutedAdvantage(student: seq<real>, teacher: seq<real>, mask: seq<bool>, correct: bool, difficulty: real,
                        m: TM.Modulation, t: nat, s: Settings)
    requires s.Valid() && t < |mask| == |student| == |teacher| == |m.correct| == |m.error|
    ensures var x := ActorInputs(student, teacher, mask, correct, difficulty, m);
            && x.Acceptable(s.lambda, s.miu)
            && Advantage(x, t, s.lambda, s.miu) ==
               if !mask[t] then 0.0
               else if correct then difficulty * s.miu * m.correct[t]
               else difficulty * s.lambda * (teacher[t] - student[t]) * m.error[t]
  {
    RoutedKernel(student, teacher, mask, correct, difficulty, m, t, s);
    hide ActorInputs, Advantage, Inputs.Acceptable;
  }

  /** Without a probe the signal is R2OPL-base's. */
  lemma UngatedIsBase(student: seq<real>, teacher: seq<real>, mask: seq<bool>, correct: bool, difficulty: real, t: nat,
                      lambda: real, miu: real)
    requires t < |mask| == |student| == |teacher|
    ensures
      var x :=
        Inputs(student, teacher, MaskRow(mask, correct), MaskRow(mask, !correct), difficulty, mask, None, None);
      Advantage(x, t, lambda, miu)
      == BaseAdvantage(student[t], teacher[t], correct, difficulty, mask[t], lambda, miu)
  {}

  // ----- helpful steps -----

  /** Of two probed tokens of a correct row the one in the more helpful step earns no less, and more
      where its step raises the gold answer's probability; of two in a wrong row, as far from the
      Teacher as each other, the one in the more helpful step is moved no further. */
  ghost predicate FollowsSteps(b: Batch, i: nat, row: TM.Row, s: Settings, student: seq<real>, teacher: seq<real>,
                               a: seq<real>)
    requires b.Shaped() && i < b.Size() && |student| == |teacher| == |a|
  {
    forall k: nat, t: nat, k2: nat, t2: nat ::
      TM.Probed(row, k, t) && TM.Probed(row, k2, t2) && t < |a| && t2 < |a|
      && TM.Change(row, k) >= TM.Change(row, k2) ==>
        InStepOrder(b.Correct(i), Trains(b, i), TM.Change(row, k), TM.Change(row, k2), s,
                    teacher[t] - student[t], teacher[t2] - student[t2], a[t], a[t2])
  }

  /** How two advantages compare when the first token's step changes the probability by c, the
      second one's by d, no more than c. */
  predicate InStepOrder(correct: bool, trains: bool, c: real, d: real, s: Settings, gap: real, gap2: real, a: real,
                        a2: real)
  {
    if correct then a >= a2 && (trains && c > d && c > 0.0 && s.gates.alphaR > 0.0 ==> a > a2)
    else (gap == gap2 >= 0.0 ==> a <= a2) && (gap == gap2 <= 0.0 ==> a >= a2)
  }

  lemma RewardInOrder(d: real, miu: real, gate: real, gate2: real)
    requires d >= 0.0 && miu > 0.0 && gate >= gate2
    ensures Reward(d, miu, gate) >= Reward(d, miu, gate2)
    ensures d > 0.0 && gate > gate2 ==> Reward(d, miu, gate) > Reward(d, miu, gate2)
  {
    ProductRange(d, d, miu, miu);
    var scale := d * miu;
    assert Reward(d, miu, gate) == TM.Scale(scale, gate) && Reward(d, miu, gate2) == TM.Scale(scale, gate2);
    hide Reward, TM.Scale;
    TM.ScaleInOrder(scale, gate, gate2);
  }

  lemma PullInOrder(d: real, lambda: real, gap: real, gate: real, gate2: real)
    requires d >= 0.0 && lambda >= 0.0 && gate <= gate2
    ensures gap >= 0.0 ==> Pull(d, lambda, gap, gate) <= Pull(d, lambda, gap, gate2)
    ensures gap <= 0.0 ==> Pull(d, lambda, gap, gate) >= Pull(d, lambda, gap, gate2)
  {
    ProductRange(d, d, lambda, lambda);
    var scale := d * lambda;
    var size := if gap >= 0.0 then gap else -gap;
    ProductRange(scale, scale, size, size);
    var pull := scale * size;
    assert gap < 0.0 ==> scale * gap == -pull;
    SignedPull(d, lambda, gap, pull, gate);
    SignedPull(d, lambda, gap, pull, gate2);
    hide Pull, TM.Scale;
    TM.ScaleInOrder(pull, gate2, gate);
  }

  lemma SignedPull(d: real, lambda: real, gap: real, pull: real, gate: real)
    requires d * lambda * gap == if gap >= 0.0 then pull else -pull
    ensures Pull(d, lambda, gap, gate) == if gap >= 0.0 then TM.Scale(pull, gate) else -TM.Scale(pull, gate)
  {}

  lemma HelpfulStepsEarnMore(b: Batch, difficulty: seq<real>, i: nat, row: TM.Row, s: Settings, m: TM.Modulation,
                             student: seq<real>, teacher: seq<real>, k: nat, t: nat, k2: nat, t2: nat)
    requires b.Shaped() && IsDifficulty(b, difficulty) && i < b.Size()
    requires s.Valid() && TM.Acceptable(row, s.gates) && TM.IsModulation(row, s.gates, m)
    requires row.responseMask == b.responseMask[i] && |row.responseMask| == |student| == |teacher|
    requires TM.Probed(row, k, t) && TM.Probed(row, k2, t2) && t < |student| && t2 < |student|
    requires TM.Change(row, k) >= TM.Change(row, k2)
    ensures var x := ActorInputs(student, teacher, row.responseMask, b.Correct(i), difficulty[i], m);
      && x.Acceptable(s.lambda, s.miu)
      && InStepOrder(b.Correct(i), Trains(b, i), TM.Change(row, k), TM.Change(row, k2), s,
                     teacher[t] - student[t], teacher[t2] - student[t2],
                     Advantage(x, t, s.lambda, s.miu), Advantage(x, t2, s.lambda, s.miu))
  {
    DifficultyMeans(b, difficulty, i);
    ModulationLengths(row, s.gates, m);
    TM.MultipliersFollowChanges(row, m, k, t, row, m, k2, t2, s.gates);
    TM.MultiplierFollowsChange(row, s.gates, m, k, t);
    ProbedInResponse(row, s.gates, k, t);
    ProbedInResponse(row, s.gates, k2, t2);
    hide TM.Acceptable, TM.IsModulation, IsDifficulty, Trains, Advantage, Inputs.Acceptable, ActorInputs;
    hide Reward, Pull, TM.Probed, TM.Change;
    RoutedKernel(student, teacher, row.responseMask, b.Correct(i), difficulty[i], m, t, s);
    RoutedKernel(student, teacher, row.responseMask, b.Correct(i), difficulty[i], m, t2, s);
    RewardInOrder(difficulty[i], s.miu, m.correct[t], m.correct[t2]);
    PullInOrder(difficulty[i], s.lambda, teacher[t] - student[t], m.error[t], m.error[t2]);
  }

  lemma ProbedInResponse(row: TM.Row, h: TM.Hyper, k: nat, t: nat)
    requires TM.Acceptable(row, h) && TM.Probed(row, k, t) && t < |row.responseMask|
    ensures row.responseMask[t]
  {
    assert TM.RangeAcceptable(row, k);
  }

  /** The whole path for row i: it fails exactly when the batch, the row, the settings or the
      shapes are refused, never on the masks, and otherwise every token's signal is sound. */
  method TrainRow(b: Batch, i: nat, row: TM.Row, s: Settings, student: seq<real>, teacher: seq<real>)
    returns (r: Result<seq<real>>)
    requires i < |b.groups| && (b.Shaped() ==> row.responseMask == b.responseMask[i])
    ensures r.Ok? <==>
      && b.Acceptable() && s.Valid() && TM.Acceptable(row, s.gates)
      && |student| == |teacher| == |row.responseMask|
    ensures r.Ok? ==> |r.value| == |student|
    ensures r.Ok? ==> forall t :: 0 <= t < |r.value| ==>
      SignalOk(b, i, t, s, student[t], teacher[t], r.value[t])
    ensures r.Ok? ==> FollowsSteps(b, i, row, s, student, teacher, r.value)
  {
    hide TM.Acceptable, TM.IsModulation, IsDifficulty, SignalOk, InStepOrder, RatesMatch, OutcomeAt, Rates, MaskRow;
    var groups := ComputeBatch(b);
    if groups.Err? {
      return Err(groups.reason);
    }
    var difficulty := groups.value.difficulty;
    DifficultyBounds(b, difficulty, i);
    ghost var m;
    r, m := ActorRow(row, s, groups.value.correctness[i], difficulty[i], student, teacher);
    if r.Ok? {
      ModulationLengths(row, s.gates, m);
      forall t | 0 <= t < |r.value| ensures SignalOk(b, i, t, s, student[t], teacher[t], r.value[t]) {
        SignalIsSound(b, difficulty, i, row, s, m, student, teacher, t);
      }
      StepsAreFollowed(b, difficulty, i, row, s, m, student, teacher, r.value);
    }
  }

  lemma StepsAreFollowed(b: Batch, difficulty: seq<real>, i: nat, row: TM.Row, s: Settings, m: TM.Modulation,
                         student: seq<real>, teacher: seq<real>, a: seq<real>)
    requires b.Shaped() && IsDifficulty(b, difficulty) && i < b.Size()
    requires s.Valid() && TM.Acceptable(row, s.gates) && TM.IsModulation(row, s.gates, m)
    requires row.responseMask == b.responseMask[i] && |row.responseMask| == |student| == |teacher| == |a|
    requires Ok(a) == TokenAdvantages(
      ActorInputs(student, teacher, row.responseMask, b.Correct(i), difficulty[i], m), s.lambda, s.miu)
    ensures FollowsSteps(b, i, row, s, student, teacher, a)
  {
    hide TM.Acceptable, TM.IsModulation, IsDifficulty, InStepOrder, Advantage, ActorInputs, TM.Change;
    forall k: nat, t: nat, k2: nat, t2: nat |
      TM.Probed(row, k, t) && TM.Probed(row, k2, t2) && t < |a| && t2 < |a|
      && TM.Change(row, k) >= TM.Change(row, k2)
      ensures InStepOrder(b.Correct(i), Trains(b, i), TM.Change(row, k), TM.Change(row, k2), s,
                          teacher[t] - student[t], teacher[t2] - student[t2], a[t], a[t2])
    {
      HelpfulStepsEarnMore(b, difficulty, i, row, s, m, student, teacher, k, t, k2, t2);
    }
  }
}
