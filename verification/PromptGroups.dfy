/** Prompt-group difficulty, outcome masks, advantages and losses of the group controllers.
    Models algorithms/r2opl_base.py and algorithms/correct_r2opl.py. */
module PromptGroups {
  import opened Basics

  /** One batch, one entry per trajectory. Rewards are the sequence rewards. */
  datatype Batch = Batch(
    groups: seq<string>,
    genuine: seq<bool>,
    rewards: seq<real>,
    truncated: seq<bool>,
    probeCorrect: seq<bool>,
    responseMask: seq<seq<bool>>)
  {
    predicate Shaped() {
      |groups| == |genuine| == |rewards| == |truncated| == |probeCorrect| == |responseMask|
    }

    function Size(): nat { |groups| }

    /** The verifier's verdict, or a truncated row the probe rescues; genuine rows only. */
    predicate Correct(i: nat)
      requires Shaped() && i < Size()
    {
      genuine[i] && (rewards[i] == 1.0 || Rescued(i))
    }

    predicate Rescued(i: nat)
      requires Shaped() && i < Size()
    {
      truncated[i] && probeCorrect[i] && rewards[i] != 1.0
    }

    predicate Wrong(i: nat)
      requires Shaped() && i < Size()
    {
      genuine[i] && !Correct(i)
    }

    /** What the controllers demand of a batch. */
    predicate Acceptable() {
      && Shaped()
      && (forall i :: 0 <= i < Size() && genuine[i] ==> true in responseMask[i])
      && (forall i :: 0 <= i < Size() && genuine[i] ==> rewards[i] == 0.0 || rewards[i] == 1.0)
      && exists i :: 0 <= i < Size() && genuine[i]
    }
  }

  /** Without a probe's rescue the verifier decides: a finished genuine row is correct exactly when
      its reward is one, and so is a truncated one whose probe failed. */
  lemma RescueIsForTruncated(b: Batch, i: nat)
    requires b.Shaped() && i < b.Size() && b.genuine[i]
    ensures !b.truncated[i] || !b.probeCorrect[i] ==> (b.Correct(i) <==> b.rewards[i] == 1.0)
    ensures b.truncated[i] && b.probeCorrect[i] ==> b.Correct(i)
    ensures b.Wrong(i) <==> !b.Correct(i)
  {}

  // ----- sums over rows -----

  function IndicatorOf(flag: bool): real { if flag then 1.0 else 0.0 }

  /** Sum of f over the first n rows of group g. */
  ghost function GroupSum(f: seq<real>, groups: seq<string>, g: string, n: nat): real
    requires n <= |f| == |groups|
  {
    if n == 0 then 0.0 else GroupSum(f, groups, g, n - 1) + if groups[n - 1] == g then f[n - 1] else 0.0
  }

  /** Sum of f over the first n rows whose group is listed. */
  ghost function ListedSum(f: seq<real>, groups: seq<string>, listed: seq<string>, n: nat): real
    requires n <= |f| == |groups|
  {
    if n == 0 then 0.0 else ListedSum(f, groups, listed, n - 1) + if groups[n - 1] in listed then f[n - 1] else 0.0
  }

  lemma {:induction false} ListedSumGrows(f: seq<real>, groups: seq<string>, listed: seq<string>, g: string, n: nat)
    requires n <= |f| == |groups| && g !in listed
    ensures ListedSum(f, groups, listed + [g], n) == ListedSum(f, groups, listed, n) + GroupSum(f, groups, g, n)
  {
    if n > 0 {
      ListedSumGrows(f, groups, listed, g, n - 1);
    }
  }

  /** Two row weights that agree on every group's total agree on the whole total. */
  lemma {:induction false} GroupTotalsDecide(f: seq<real>, e: seq<real>, groups: seq<string>, listed: seq<string>)
    requires |f| == |e| == |groups| && Distinct(listed)
    requires forall g :: g in listed ==> GroupSum(f, groups, g, |f|) == GroupSum(e, groups, g, |f|)
    ensures ListedSum(f, groups, listed, |f|) == ListedSum(e, groups, listed, |f|)
  {
    if listed == [] {
      NothingListed(f, groups, |f|);
      NothingListed(e, groups, |f|);
    } else {
      var front, g := listed[..|listed| - 1], listed[|listed| - 1];
      assert listed == front + [g];
      GroupTotalsDecide(f, e, groups, front);
      ListedSumGrows(f, groups, front, g, |f|);
      ListedSumGrows(e, groups, front, g, |f|);
    }
  }

  lemma {:induction false} NothingListed(f: seq<real>, groups: seq<string>, n: nat)
    requires n <= |f| == |groups|
    ensures ListedSum(f, groups, [], n) == 0.0
  {
    if n > 0 {
      NothingListed(f, groups, n - 1);
    }
  }

  lemma {:induction false} EverythingListed(f: seq<real>, groups: seq<string>, listed: seq<string>, n: nat)
    requires n <= |f| == |groups| && forall i :: 0 <= i < |groups| ==> groups[i] in listed
    ensures ListedSum(f, groups, listed, n) == Sum(f[..n])
  {
    if n > 0 {
      EverythingListed(f, groups, listed, n - 1);
      assert f[..n][..n - 1] == f[..n - 1];
    }
  }

  // ----- difficulty -----

  /** Genuine rows of group g among the first n, and the correct ones among those. */
  function Members(b: Batch, g: string, n: nat): nat
    requires b.Shaped() && n <= b.Size()
  {
    if n == 0 then 0 else Members(b, g, n - 1) + if b.groups[n - 1] == g && b.genuine[n - 1] then 1 else 0
  }

  function Successes(b: Batch, g: string, n: nat): nat
    requires b.Shaped() && n <= b.Size()
  {
    if n == 0 then 0 else Successes(b, g, n - 1) + if b.groups[n - 1] == g && b.Correct(n - 1) then 1 else 0
  }

  lemma {:induction false} SuccessBound(b: Batch, g: string, n: nat)
    requires b.Shaped() && n <= b.Size()
    ensures Successes(b, g, n) <= Members(b, g, n)
  {
    if n > 0 {
      SuccessBound(b, g, n - 1);
    }
  }

  lemma {:induction false} GenuineRowCounts(b: Batch, g: string, n: nat, i: nat)
    requires b.Shaped() && i < n <= b.Size() && b.genuine[i] && b.groups[i] == g
    ensures Members(b, g, n) > 0
  {
    if n - 1 > i {
      GenuineRowCounts(b, g, n - 1, i);
    }
  }

  /** One minus the group's success rate on genuine rows, zero elsewhere. */
  ghost predicate IsDifficulty(b: Batch, difficulty: seq<real>)
    requires b.Shaped()
  {
    && |difficulty| == b.Size()
    && forall i :: 0 <= i < b.Size() ==> DifficultyAt(b, difficulty, i)
  }

  ghost predicate DifficultyAt(b: Batch, difficulty: seq<real>, i: nat)
    requires b.Shaped() && i < b.Size() == |difficulty|
  {
    if b.genuine[i] then
      var n := Members(b, b.groups[i], b.Size());
      n > 0 && difficulty[i] == 1.0 - Successes(b, b.groups[i], b.Size()) as real / n as real
    else difficulty[i] == 0.0
  }

  /** Groups in order of first appearance. */
  function FirstSeen(ids: seq<string>): seq<string> {
    if ids == [] then [] else
      var before := FirstSeen(ids[..|ids| - 1]);
      if ids[|ids| - 1] in before then before else before + [ids[|ids| - 1]]
  }

  lemma {:induction false} FirstSeenLists(ids: seq<string>)
    ensures Distinct(FirstSeen(ids))
    ensures forall g :: g in FirstSeen(ids) <==> g in ids
  {
    if ids != [] {
      FirstSeenLists(ids[..|ids| - 1]);
      assert ids == ids[..|ids| - 1] + [ids[|ids| - 1]];
    }
  }

  /** Entry k of the groups is their first occurrence at at[k], and these increase. */
  lemma {:induction false} FirstSeenInOrder(ids: seq<string>) returns (at: seq<nat>)
    ensures |at| == |FirstSeen(ids)|
    ensures forall k :: 0 <= k < |at| ==>
      at[k] < |ids| && FirstSeen(ids)[k] == ids[at[k]] && ids[at[k]] !in ids[..at[k]]
    ensures forall k, l :: 0 <= k < l < |at| ==> at[k] < at[l]
  {
    at := [];
    if ids != [] {
      var n: nat := |ids| - 1;
      at := FirstSeenInOrder(ids[..n]);
      FirstSeenLists(ids[..n]);
      forall k | 0 <= k < |at| ensures ids[..n][..at[k]] == ids[..at[k]] {}
      if ids[n] !in ids[..n] {
        at := at + [n];
      }
    }
  }

  method OrderedGroups(ids: seq<string>) returns (ordered: seq<string>)
    ensures ordered == FirstSeen(ids)
  {
    ordered := [];
    for i := 0 to |ids|
      invariant ordered == FirstSeen(ids[..i])
    {
      assert ids[..i + 1][..i] == ids[..i];
      if ids[i] !in ordered {
        ordered := ordered + [ids[i]];
      }
    }
    assert ids[..|ids|] == ids;
  }

  /** One group's rows and how many of them succeeded. */
  method GroupRows(b: Batch, g: string) returns (indices: seq<nat>, successes: nat)
    requires b.Shaped()
    ensures |indices| == Members(b, g, b.Size()) && successes == Successes(b, g, b.Size())
    ensures forall i :: i in indices <==> 0 <= i < b.Size() && b.groups[i] == g && b.genuine[i]
  {
    indices, successes := [], 0;
    for i := 0 to b.Size()
      invariant |indices| == Members(b, g, i) && successes == Successes(b, g, i)
      invariant forall k :: k in indices <==> 0 <= k < i && b.groups[k] == g && b.genuine[k]
    {
      if b.groups[i] == g && b.genuine[i] {
        indices := indices + [i];
        if b.Correct(i) {
          successes := successes + 1;
        }
      }
    }
  }

  datatype GroupResult = GroupResult(
    correctMask: seq<seq<bool>>,
    errorMask: seq<seq<bool>>,
    difficulty: seq<real>,
    correctness: seq<bool>,
    groupSuccess: seq<real>)

  function MaskRow(mask: seq<bool>, on: bool): (r: seq<bool>)
    ensures |r| == |mask|
  {
    seq(|mask|, t requires 0 <= t < |mask| => mask[t] && on)
  }

  /** Success rates of the groups that have genuine rows. */
  function Rates(b: Batch, groups: seq<string>): seq<real>
    requires b.Shaped()
  {
    if groups == [] then [] else
      var g := groups[|groups| - 1];
      var n := Members(b, g, b.Size());
      Rates(b, groups[..|groups| - 1])
      + if n > 0 then [Successes(b, g, b.Size()) as real / n as real] else []
  }

  /** The controllers' batch computation: difficulty, which conserves the wrong trajectories, the
      group rates and the outcome masks. */
  method ComputeBatch(b: Batch) returns (r: Result<GroupResult>)
    ensures r.Ok? <==> b.Acceptable()
    ensures r.Ok? ==> |r.value.difficulty| == b.Size()
    ensures r.Ok? ==> IsDifficulty(b, r.value.difficulty) && Sum(r.value.difficulty) == Sum(WrongRows(b))
    ensures r.Ok? ==> |r.value.correctness| == |r.value.correctMask| == |r.value.errorMask| == b.Size()
    ensures r.Ok? ==> forall i :: 0 <= i < b.Size() ==>
      && r.value.correctness[i] == b.Correct(i)
      && r.value.correctMask[i] == MaskRow(b.responseMask[i], b.Correct(i))
      && r.value.errorMask[i] == MaskRow(b.responseMask[i], b.Wrong(i))
    ensures r.Ok? ==> forall i :: 0 <= i < b.Size() ==>
      OutcomeAt(b, i, r.value.correctness[i], r.value.correctMask[i], r.value.errorMask[i])
    ensures r.Ok? ==> r.value.groupSuccess == Rates(b, FirstSeen(b.groups))
    ensures r.Ok? ==> RatesMatch(b, r.value.difficulty, b.groups, r.value.groupSuccess)
  {
    hide MaskRow, OutcomeAt, RatesMatch, Rates, FirstSeen, IsDifficulty, WrongRows, Batch.Correct, Batch.Wrong;
    if !b.Shaped() {
      return Err("shapes");
    }
    var n := b.Size();
    if exists i :: 0 <= i < n && b.genuine[i] && true !in b.responseMask[i] {
      return Err("empty trajectory");
    }
    if exists i :: 0 <= i < n && b.genuine[i] && b.rewards[i] != 0.0 && b.rewards[i] != 1.0 {
      return Err("non-binary reward");
    }
    var groups := OrderedGroups(b.groups);
    FirstSeenLists(b.groups);
    var difficulty, groupSuccess := GroupDifficulty(b, groups);
    if groupSuccess == [] {
      return Err("no genuine group");
    }
    DifficultyConservation(b, difficulty);
    RatesAreComplements(b, difficulty, groups);
    SameListed(b, difficulty, groups, groupSuccess);
    var correctness, correctMask, errorMask := Outcomes(b);
    return Ok(GroupResult(correctMask, errorMask, difficulty, correctness, groupSuccess));
  }

  method Outcomes(b: Batch) returns (correctness: seq<bool>, correctMask: seq<seq<bool>>, errorMask: seq<seq<bool>>)
    requires b.Shaped()
    ensures |correctness| == |correctMask| == |errorMask| == b.Size()
    ensures forall i :: 0 <= i < b.Size() ==>
      && correctness[i] == b.Correct(i)
      && correctMask[i] == MaskRow(b.responseMask[i], b.Correct(i))
      && errorMask[i] == MaskRow(b.responseMask[i], b.Wrong(i))
    ensures forall i :: 0 <= i < b.Size() ==> OutcomeAt(b, i, correctness[i], correctMask[i], errorMask[i])
  {
    hide MaskRow, OutcomeAt;
    var n := b.Size();
    correctness := seq(n, i requires 0 <= i < n => b.Correct(i));
    correctMask := seq(n, i requires 0 <= i < n => MaskRow(b.responseMask[i], b.Correct(i)));
    errorMask := seq(n, i requires 0 <= i < n => MaskRow(b.responseMask[i], b.Wrong(i)));
    forall i | 0 <= i < n ensures OutcomeAt(b, i, correctness[i], correctMask[i], errorMask[i]) {
      OutcomeIs(b, i);
    }
  }

  /** A genuine row is correct when its reward is one or a probe rescues its truncation; the masks
      are its response tokens, in the one its outcome names. */
  predicate OutcomeAt(b: Batch, i: nat, correct: bool, correctMask: seq<bool>, errorMask: seq<bool>)
    requires b.Shaped() && i < b.Size()
  {
    && (correct <==> b.genuine[i] && (b.rewards[i] == 1.0 || (b.truncated[i] && b.probeCorrect[i])))
    && |correctMask| == |errorMask| == |b.responseMask[i]|
    && forall t :: 0 <= t < |b.responseMask[i]| ==>
      && (correctMask[t] <==> b.responseMask[i][t] && correct)
      && (errorMask[t] <==> b.responseMask[i][t] && b.genuine[i] && !correct)
  }

  lemma OutcomeIs(b: Batch, i: nat)
    requires b.Shaped() && i < b.Size()
    ensures OutcomeAt(b, i, b.Correct(i), MaskRow(b.responseMask[i], b.Correct(i)),
                      MaskRow(b.responseMask[i], b.Wrong(i)))
  {}

  /** The listed groups that have a genuine row. */
  ghost function GenuineGroups(b: Batch, listed: seq<string>): set<string>
    requires b.Shaped()
  {
    set i: nat | i < b.Size() && b.genuine[i] && b.groups[i] in listed :: b.groups[i]
  }

  /** The rates say what the difficulties say: every listed genuine row finds one minus its
      difficulty among them, they are nothing else, and each group has one. */
  ghost predicate RatesMatch(b: Batch, difficulty: seq<real>, listed: seq<string>, rates: seq<real>)
    requires b.Shaped() && |difficulty| == b.Size()
  {
    && (forall i :: 0 <= i < b.Size() && b.genuine[i] && b.groups[i] in listed ==> IsRate(rates, 1.0 - difficulty[i]))
    && (forall k :: 0 <= k < |rates| ==> HasRate(b, difficulty, rates[k]))
    && |rates| == |GenuineGroups(b, listed)|
  }

  predicate IsRate(rates: seq<real>, x: real) { exists k :: 0 <= k < |rates| && rates[k] == x }

  predicate HasRate(b: Batch, difficulty: seq<real>, x: real)
    requires b.Shaped() && |difficulty| == b.Size()
  {
    exists i :: 0 <= i < b.Size() && b.genuine[i] && difficulty[i] == 1.0 - x
  }

  lemma {:induction false} RatesAreComplements(b: Batch, difficulty: seq<real>, listed: seq<string>)
    requires b.Shaped() && IsDifficulty(b, difficulty) && Distinct(listed)
    ensures RatesMatch(b, difficulty, listed, Rates(b, listed))
  {
    if listed == [] {
      assert GenuineGroups(b, listed) == {};
    } else {
      var front, g := listed[..|listed| - 1], listed[|listed| - 1];
      assert listed == front + [g];
      RatesAreComplements(b, difficulty, front);
      GroupRate(b, difficulty, g);
      RateOfGroup(b, g);
      hide IsDifficulty, Members, Successes;
      OneMoreRate(b, difficulty, front, g, Rates(b, front));
    }
  }

  /** A group has genuine members exactly when some row of it is genuine. */
  lemma RateOfGroup(b: Batch, g: string)
    requires b.Shaped()
    ensures Members(b, g, b.Size()) > 0 <==> exists i :: 0 <= i < b.Size() && b.groups[i] == g && b.genuine[i]
  {
    if i :| 0 <= i < b.Size() && b.groups[i] == g && b.genuine[i] {
      GenuineRowCounts(b, g, b.Size(), i);
    } else {
      NoMembers(b, g, b.Size());
    }
  }

  lemma {:induction false} NoMembers(b: Batch, g: string, n: nat)
    requires b.Shaped() && n <= b.Size() && forall i :: 0 <= i < n ==> !(b.groups[i] == g && b.genuine[i])
    ensures Members(b, g, n) == 0
  {
    if n > 0 {
      NoMembers(b, g, n - 1);
    }
  }

  lemma OneMoreRate(b: Batch, difficulty: seq<real>, front: seq<string>, g: string, rates: seq<real>)
    requires b.Shaped() && |difficulty| == b.Size() && g !in front && RatesMatch(b, difficulty, front, rates)
    requires RateOn(b, difficulty, g, DifficultyRate(Members(b, g, b.Size()), Successes(b, g, b.Size())))
    requires Members(b, g, b.Size()) > 0 <==> exists i :: 0 <= i < b.Size() && b.groups[i] == g && b.genuine[i]
    ensures var n, c := Members(b, g, b.Size()), Successes(b, g, b.Size());
      RatesMatch(b, difficulty, front + [g], rates + if n > 0 then [c as real / n as real] else [])
  {
    hide Members, Successes, RatesMatch, RateOn;
    var n, c := Members(b, g, b.Size()), Successes(b, g, b.Size());
    if n > 0 {
      AnotherRate(b, difficulty, front, g, rates, c as real / n as real);
    } else {
      NoOtherRate(b, difficulty, front, g, rates);
      assert rates + [] == rates;
    }
  }

  lemma AnotherRate(b: Batch, difficulty: seq<real>, front: seq<string>, g: string, rates: seq<real>, rate: real)
    requires b.Shaped() && |difficulty| == b.Size() && g !in front && RatesMatch(b, difficulty, front, rates)
    requires RateOn(b, difficulty, g, 1.0 - rate)
    requires exists i :: 0 <= i < b.Size() && b.groups[i] == g && b.genuine[i]
    ensures RatesMatch(b, difficulty, front + [g], rates + [rate])
  {
    hide IsRate, HasRate;
    var i :| 0 <= i < b.Size() && b.groups[i] == g && b.genuine[i];
    GroupJoins(b, front, g);
    OwnRate(b, difficulty, rate, i);
    forall k | 0 <= k < b.Size() && b.genuine[k] && b.groups[k] in front + [g]
      ensures IsRate(rates + [rate], 1.0 - difficulty[k])
    {
      StaysRate(rates, rate, 1.0 - difficulty[k]);
    }
  }

  lemma OwnRate(b: Batch, difficulty: seq<real>, rate: real, i: nat)
    requires b.Shaped() && |difficulty| == b.Size() && i < b.Size() && b.genuine[i] && difficulty[i] == 1.0 - rate
    ensures HasRate(b, difficulty, rate)
  {}

  lemma StaysRate(rates: seq<real>, rate: real, x: real)
    ensures IsRate(rates + [rate], x) <==> IsRate(rates, x) || x == rate
  {
    if k :| 0 <= k < |rates| && rates[k] == x {
      assert (rates + [rate])[k] == x;
    }
    assert (rates + [rate])[|rates|] == rate;
  }

  lemma GroupJoins(b: Batch, front: seq<string>, g: string)
    requires b.Shaped() && g !in front && exists i :: 0 <= i < b.Size() && b.groups[i] == g && b.genuine[i]
    ensures |GenuineGroups(b, front + [g])| == |GenuineGroups(b, front)| + 1
  {
    assert GenuineGroups(b, front + [g]) == GenuineGroups(b, front) + {g};
    assert g !in GenuineGroups(b, front);
  }

  lemma NoOtherRate(b: Batch, difficulty: seq<real>, front: seq<string>, g: string, rates: seq<real>)
    requires b.Shaped() && |difficulty| == b.Size() && RatesMatch(b, difficulty, front, rates)
    requires !exists i :: 0 <= i < b.Size() && b.groups[i] == g && b.genuine[i]
    ensures RatesMatch(b, difficulty, front + [g], rates)
  {
    hide IsRate, HasRate;
    assert GenuineGroups(b, front + [g]) == GenuineGroups(b, front);
  }

  lemma SameListed(b: Batch, difficulty: seq<real>, groups: seq<string>, rates: seq<real>)
    requires b.Shaped() && |difficulty| == b.Size() && RatesMatch(b, difficulty, groups, rates)
    requires forall g :: g in groups <==> g in b.groups
    ensures RatesMatch(b, difficulty, b.groups, rates)
  {
    assert GenuineGroups(b, groups) == GenuineGroups(b, b.groups);
  }

  /** The group loop: fill in each group's difficulty in place. */
  method GroupDifficulty(b: Batch, groups: seq<string>) returns (result: seq<real>, groupSuccess: seq<real>)
    requires b.Shaped() && Distinct(groups) && forall g :: g in groups <==> g in b.groups
    ensures |result| == b.Size() && IsDifficulty(b, result) && groupSuccess == Rates(b, groups)
    ensures groupSuccess == [] <==> forall i :: 0 <= i < b.Size() ==> !b.genuine[i]
  {
    var n := b.Size();
    var difficulty := new real[n](_ => 0.0);
    groupSuccess := [];
    NothingFilled(b, difficulty[..]);
    hide Filled, DifficultyAt, IsDifficulty, Rates, NoGenuine, Members, Successes;
    for k := 0 to |groups|
      invariant fresh(difficulty)
      invariant Filled(b, difficulty[..], groups[..k])
      invariant groupSuccess == Rates(b, groups[..k])
      invariant groupSuccess == [] <==> NoGenuine(b, groups[..k])
    {
      var g := groups[k];
      var indices, successes := GroupRows(b, g);
      assert groups[..k + 1] == groups[..k] + [g] && g !in groups[..k];
      RatesNext(b, groups[..k], g);
      MoreGenuine(b, groups[..k], g, indices);
      if indices != [] {
        var success := successes as real / |indices| as real;
        WriteDifficulty(b, difficulty, indices, g, 1.0 - success, groups[..k]);
        groupSuccess := groupSuccess + [success];
      } else {
        NothingToFill(b, difficulty[..], groups[..k], g, indices);
      }
    }
    assert groups[..|groups|] == groups;
    result := difficulty[..];
    AllFilled(b, result, groups);
  }

  lemma RatesNext(b: Batch, listed: seq<string>, g: string)
    requires b.Shaped()
    ensures var n := Members(b, g, b.Size());
      Rates(b, listed + [g]) == Rates(b, listed) + if n > 0 then [Successes(b, g, b.Size()) as real / n as real] else []
  {
    assert (listed + [g])[..|listed|] == listed;
  }

  lemma MoreGenuine(b: Batch, listed: seq<string>, g: string, indices: seq<nat>)
    requires b.Shaped() && forall i :: i in indices <==> 0 <= i < b.Size() && b.groups[i] == g && b.genuine[i]
    ensures NoGenuine(b, listed + [g]) <==> NoGenuine(b, listed) && indices == []
  {
    if indices != [] {
      assert indices[0] in indices;
    }
  }

  lemma NothingToFill(b: Batch, difficulty: seq<real>, listed: seq<string>, g: string, indices: seq<nat>)
    requires b.Shaped() && Filled(b, difficulty, listed) && indices == []
    requires forall i :: i in indices <==> 0 <= i < b.Size() && b.groups[i] == g && b.genuine[i]
    ensures Filled(b, difficulty, listed + [g])
  {
    hide DifficultyAt;
  }

  lemma NothingFilled(b: Batch, difficulty: seq<real>)
    requires b.Shaped() && |difficulty| == b.Size() && forall i :: 0 <= i < b.Size() ==> difficulty[i] == 0.0
    ensures Filled(b, difficulty, []) && Rates(b, []) == [] && NoGenuine(b, [])
  {}

  lemma AllFilled(b: Batch, difficulty: seq<real>, groups: seq<string>)
    requires b.Shaped() && Filled(b, difficulty, groups) && forall g :: g in groups <==> g in b.groups
    ensures IsDifficulty(b, difficulty)
    ensures NoGenuine(b, groups) <==> forall i :: 0 <= i < b.Size() ==> !b.genuine[i]
  {
    hide DifficultyAt;
    forall i | 0 <= i < b.Size() ensures b.groups[i] in groups && DifficultyAt(b, difficulty, i) {
      assert b.groups[i] in b.groups;
    }
  }

  /** Every row of a listed group, and every row that is not genuine, has its final value. */
  ghost predicate Filled(b: Batch, difficulty: seq<real>, listed: seq<string>)
    requires b.Shaped()
  {
    && |difficulty| == b.Size()
    && forall i :: 0 <= i < b.Size() && (b.groups[i] in listed || !b.genuine[i]) ==> DifficultyAt(b, difficulty, i)
  }

  ghost predicate NoGenuine(b: Batch, listed: seq<string>)
    requires b.Shaped()
  {
    forall i :: 0 <= i < b.Size() && b.groups[i] in listed ==> !b.genuine[i]
  }

  lemma RateBounds(a: nat, n: nat)
    requires a <= n && n > 0
    ensures 0.0 <= a as real / n as real <= 1.0
  {}

  /** `difficulty[index_tensor] = value`. */
  method WriteDifficulty(b: Batch, difficulty: array<real>, indices: seq<nat>, g: string, value: real,
                         done: seq<string>)
    requires b.Shaped() && difficulty.Length == b.Size() && g !in done && indices != []
    requires forall i :: i in indices <==> 0 <= i < b.Size() && b.groups[i] == g && b.genuine[i]
    requires |indices| == Members(b, g, b.Size())
    requires value == 1.0 - Successes(b, g, b.Size()) as real / |indices| as real
    requires Filled(b, difficulty[..], done)
    modifies difficulty
    ensures Filled(b, difficulty[..], done + [g])
  {
    ghost var before := difficulty[..];
    forall i | i in indices {
      difficulty[i] := value;
    }
    forall i | 0 <= i < b.Size() && (b.groups[i] in done + [g] || !b.genuine[i])
      ensures DifficultyAt(b, difficulty[..], i)
    {
      if i !in indices {
        assert DifficultyAt(b, before, i);
      }
    }
  }

  // ----- conservation -----

  ghost function WrongRows(b: Batch): (r: seq<real>)
    requires b.Shaped()
    ensures |r| == b.Size()
  {
    seq(b.Size(), i requires 0 <= i < b.Size() => IndicatorOf(b.Wrong(i)))
  }

  /** Inside one group the difficulties add up to the number of its wrong trajectories. */
  lemma GroupConservation(b: Batch, difficulty: seq<real>, g: string)
    requires b.Shaped() && IsDifficulty(b, difficulty)
    ensures GroupSum(difficulty, b.groups, g, b.Size()) == GroupSum(WrongRows(b), b.groups, g, b.Size())
  {
    var n := Members(b, g, b.Size());
    var c := Successes(b, g, b.Size());
    hide IsDifficulty, RateOn, Members, Successes, WrongRows, GroupSum, DifficultyRate;
    GroupRate(b, difficulty, g);
    WrongCount(b, g, b.Size());
    SuccessBound(b, g, b.Size());
    ConstantGroupSum(b, difficulty, g, DifficultyRate(n, c), b.Size());
    ScaleRate(n, c);
  }

  /** The difficulty of a group with c successes among n genuine rows. */
  function DifficultyRate(n: nat, c: nat): real { if n == 0 then 0.0 else 1.0 - c as real / n as real }

  lemma ScaleRate(n: nat, c: nat)
    requires c <= n
    ensures n as real * DifficultyRate(n, c) == n as real - c as real
  {
    if n > 0 {
      var q := c as real / n as real;
      assert n as real * q == c as real;
    }
  }

  /** The rows of group g carry one rate where they are genuine, and nothing elsewhere. */
  ghost predicate RateOn(b: Batch, difficulty: seq<real>, g: string, rate: real)
    requires b.Shaped() && |difficulty| == b.Size()
  {
    forall i :: 0 <= i < b.Size() && b.groups[i] == g ==> difficulty[i] == if b.genuine[i] then rate else 0.0
  }

  lemma {:induction false} ConstantGroupSum(b: Batch, difficulty: seq<real>, g: string, rate: real, k: nat)
    requires b.Shaped() && |difficulty| == b.Size() && RateOn(b, difficulty, g, rate) && k <= b.Size()
    ensures GroupSum(difficulty, b.groups, g, k) == Members(b, g, k) as real * rate
  {
    if k > 0 {
      ConstantGroupSum(b, difficulty, g, rate, k - 1);
      OneMore(Members(b, g, k - 1), rate);
    }
  }

  lemma OneMore(n: nat, rate: real)
    ensures (n + 1) as real * rate == n as real * rate + rate
  {
    var m := n as real;
    assert (m + 1.0) * rate == m * rate + rate;
  }

  /** Inside one group the difficulty is one minus its success rate. */
  lemma GroupRate(b: Batch, difficulty: seq<real>, g: string)
    requires b.Shaped() && IsDifficulty(b, difficulty)
    ensures RateOn(b, difficulty, g, DifficultyRate(Members(b, g, b.Size()), Successes(b, g, b.Size())))
  {
    forall i | 0 <= i < b.Size() && b.groups[i] == g
      ensures DifficultyAt(b, difficulty, i) && (b.genuine[i] ==> Members(b, g, b.Size()) > 0)
    {
      if b.genuine[i] {
        GenuineRowCounts(b, g, b.Size(), i);
      }
    }
  }

  lemma {:induction false} WrongCount(b: Batch, g: string, k: nat)
    requires b.Shaped() && k <= b.Size()
    ensures GroupSum(WrongRows(b), b.groups, g, k) == Members(b, g, k) as real - Successes(b, g, k) as real
  {
    if k > 0 {
      WrongCount(b, g, k - 1);
      assert WrongRows(b)[k - 1] == IndicatorOf(b.Wrong(k - 1));
    }
  }

  /** Difficulty is conserved: over any grouping the difficulties of a batch add up to the number
      of genuine trajectories still wrong after probe rescue. */
  lemma DifficultyConservation(b: Batch, difficulty: seq<real>)
    requires b.Shaped() && IsDifficulty(b, difficulty)
    ensures Sum(difficulty) == Sum(WrongRows(b))
  {
    var groups := FirstSeen(b.groups);
    FirstSeenLists(b.groups);
    forall g | g in groups
      ensures GroupSum(difficulty, b.groups, g, b.Size()) == GroupSum(WrongRows(b), b.groups, g, b.Size())
    {
      GroupConservation(b, difficulty, g);
    }
    GroupTotalsDecide(difficulty, WrongRows(b), b.groups, groups);
    EverythingListed(difficulty, b.groups, groups, b.Size());
    EverythingListed(WrongRows(b), b.groups, groups, b.Size());
    assert difficulty[..b.Size()] == difficulty && WrongRows(b)[..b.Size()] == WrongRows(b);
  }

  /** Difficulty is a rate; it is zero exactly for genuine rows of all-correct groups. */
  lemma DifficultyBounds(b: Batch, difficulty: seq<real>, i: nat)
    requires b.Shaped() && IsDifficulty(b, difficulty) && i < b.Size()
    ensures 0.0 <= difficulty[i] <= 1.0
    ensures b.genuine[i] ==>
      (difficulty[i] == 0.0 <==> forall k :: 0 <= k < b.Size() && b.groups[k] == b.groups[i] ==> !b.Wrong(k))
  {
    assert DifficultyAt(b, difficulty, i);
    if b.genuine[i] {
      var g := b.groups[i];
      var n, c := Members(b, g, b.Size()), Successes(b, g, b.Size());
      SuccessBound(b, g, b.Size());
      RateBounds(c, n);
      FullSuccess(b, g, b.Size());
      RateOne(c, n);
    }
  }

  lemma RateOne(c: nat, n: nat)
    requires n > 0
    ensures c as real / n as real == 1.0 <==> c == n
  {
    var q := c as real / n as real;
    assert q * n as real == c as real;
    if c == n {
      assert (q - 1.0) * n as real == 0.0;
    }
  }

  lemma {:induction false} FullSuccess(b: Batch, g: string, k: nat)
    requires b.Shaped() && k <= b.Size()
    ensures Successes(b, g, k) == Members(b, g, k) <==> forall i :: 0 <= i < k && b.groups[i] == g ==> !b.Wrong(i)
  {
    if k > 0 {
      FullSuccess(b, g, k - 1);
      SuccessBound(b, g, k - 1);
    }
  }

  /** On genuine rows the correct and error masks partition the response tokens; other rows are in
      neither. */
  lemma MasksPartition(b: Batch, i: nat, t: nat)
    requires b.Shaped() && i < b.Size() && t < |b.responseMask[i]|
    ensures var c := MaskRow(b.responseMask[i], b.Correct(i))[t];
            var e := MaskRow(b.responseMask[i], b.Wrong(i))[t];
            !(c && e) && (c || e <==> b.genuine[i] && b.responseMask[i][t])
  {}

  // ----- advantages and losses -----

  function BaseAdvantage(student: real, teacher: real, correct: bool, difficulty: real, inResponse: bool,
                         lambda: real, miu: real): real
  {
    (if correct then difficulty * miu else difficulty * lambda * (teacher - student)) * IndicatorOf(inResponse)
  }

  function CorrectAdvantage(correct: bool, difficulty: real, inResponse: bool, miu: real): real {
    difficulty * miu * IndicatorOf(correct) * IndicatorOf(inResponse)
  }

  type Matrix = seq<seq<real>>

  predicate SameShape<A, B>(a: seq<seq<A>>, b: seq<seq<B>>) {
    |a| == |b| && forall i :: 0 <= i < |a| ==> |a[i]| == |b[i]|
  }

  function BaseAdvantages(student: Matrix, teacher: Matrix, correct: seq<seq<bool>>, difficulty: Matrix,
                          mask: seq<seq<bool>>, lambda: real, miu: real): Matrix
    requires SameShape(student, teacher) && SameShape(student, correct)
    requires SameShape(student, difficulty) && SameShape(student, mask)
  {
    seq(|student|, i requires 0 <= i < |student| =>
      seq(|student[i]|, t requires 0 <= t < |student[i]| =>
        BaseAdvantage(student[i][t], teacher[i][t], correct[i][t], difficulty[i][t], mask[i][t], lambda, miu)))
  }

  function CorrectAdvantages(correct: seq<seq<bool>>, difficulty: Matrix, mask: seq<seq<bool>>, miu: real): Matrix
    requires SameShape(correct, difficulty) && SameShape(correct, mask)
  {
    seq(|correct|, i requires 0 <= i < |correct| =>
      seq(|correct[i]|, t requires 0 <= t < |correct[i]| =>
        CorrectAdvantage(correct[i][t], difficulty[i][t], mask[i][t], miu)))
  }

  /** `-(A * log pi) * mask`, summed and divided by the row's masked length, at least one. */
  function RowLoss(student: seq<real>, advantage: seq<real>, mask: seq<bool>): real
    requires |student| == |advantage| == |mask|
  {
    var weights := seq(|mask|, t requires 0 <= t < |mask| => IndicatorOf(mask[t]));
    var losses := seq(|mask|, t requires 0 <= t < |mask| => -(advantage[t] * student[t]) * weights[t]);
    var length := if Sum(weights) < 1.0 then 1.0 else Sum(weights);
    Sum(losses) / length
  }

  function Loss(student: Matrix, advantage: Matrix, mask: seq<seq<bool>>): real
    requires SameShape(student, advantage) && SameShape(student, mask) && student != []
  {
    Sum(seq(|student|, i requires 0 <= i < |student| => RowLoss(student[i], advantage[i], mask[i]))) / |student| as real
  }

  lemma {:induction false} NegatedSum(a: seq<real>, b: seq<real>)
    requires |a| == |b| && forall i :: 0 <= i < |a| ==> a[i] == -b[i]
    ensures Sum(a) == -Sum(b)
  {
    if a != [] {
      NegatedSum(a[..|a| - 1], b[..|b| - 1]);
    }
  }

  /** The places a mask marks. */
  ghost function TruePlaces(mask: seq<bool>): set<nat> { Hits(mask, (on: bool) => on) }

  lemma {:induction false} IndicatorsCount(mask: seq<bool>, ones: seq<real>)
    requires |ones| == |mask| && forall t :: 0 <= t < |mask| ==> ones[t] == IndicatorOf(mask[t])
    ensures Sum(ones) == |TruePlaces(mask)| as real
  {
    HitsNext(mask, (on: bool) => on);
    if mask != [] {
      IndicatorsCount(mask[..|mask| - 1], ones[..|ones| - 1]);
    }
  }

  /** A row's loss is minus the mean, over its response tokens, of advantage times log-probability,
      and zero without any: what has a positive advantage is made more likely. */
  lemma RowLossIs(student: seq<real>, advantage: seq<real>, mask: seq<bool>)
    requires |student| == |advantage| == |mask|
    ensures var n := |TruePlaces(mask)|;
      RowLoss(student, advantage, mask) * (if n == 0 then 1.0 else n as real)
      == -Sum(seq(|mask|, t requires 0 <= t < |mask| => if mask[t] then advantage[t] * student[t] else 0.0))
  {
    var weights := seq(|mask|, t requires 0 <= t < |mask| => IndicatorOf(mask[t]));
    IndicatorsCount(mask, weights);
    var losses := seq(|mask|, t requires 0 <= t < |mask| => -(advantage[t] * student[t]) * weights[t]);
    var gains := seq(|mask|, t requires 0 <= t < |mask| => if mask[t] then advantage[t] * student[t] else 0.0);
    NegatedSum(losses, gains);
  }

  lemma LossIsMean(student: Matrix, advantage: Matrix, mask: seq<seq<bool>>)
    requires SameShape(student, advantage) && SameShape(student, mask) && student != []
    ensures Loss(student, advantage, mask) * |student| as real
         == Sum(seq(|student|, i requires 0 <= i < |student| => RowLoss(student[i], advantage[i], mask[i])))
  {}

  /** Correct-R2OPL is R2OPL-base with lambda zero: same token advantages, same loss. */
  lemma CorrectIsBaseWithoutTeacher(student: Matrix, teacher: Matrix, correct: seq<seq<bool>>, difficulty: Matrix,
                                    mask: seq<seq<bool>>, miu: real)
    requires SameShape(student, teacher) && SameShape(student, correct)
    requires SameShape(student, difficulty) && SameShape(student, mask)
    requires SameShape(correct, difficulty) && SameShape(correct, mask) && student != []
    ensures BaseAdvantages(student, teacher, correct, difficulty, mask, 0.0, miu)
         == CorrectAdvantages(correct, difficulty, mask, miu)
    ensures Loss(student, CorrectAdvantages(correct, difficulty, mask, miu), mask)
         == Loss(student, BaseAdvantages(student, teacher, correct, difficulty, mask, 0.0, miu), mask)
  {
    var a := BaseAdvantages(student, teacher, correct, difficulty, mask, 0.0, miu);
    var c := CorrectAdvantages(correct, difficulty, mask, miu);
    forall i | 0 <= i < |a| ensures a[i] == c[i] {
      forall t | 0 <= t < |a[i]| ensures a[i][t] == c[i][t] {}
    }
    assert a == c;
  }

  /** Padding rows and all-correct groups contribute no advantage in R2OPL-base. */
  lemma ZeroDifficultyNoAdvantage(b: Batch, difficulty: seq<real>, i: nat, student: real, teacher: real,
                                  inResponse: bool, lambda: real, miu: real)
    requires b.Shaped() && IsDifficulty(b, difficulty) && i < b.Size()
    requires !b.genuine[i] || forall k :: 0 <= k < b.Size() && b.groups[k] == b.groups[i] ==> !b.Wrong(k)
    ensures BaseAdvantage(student, teacher, b.Correct(i), difficulty[i], inResponse, lambda, miu) == 0.0
  {
    DifficultyBounds(b, difficulty, i);
    assert DifficultyAt(b, difficulty, i);
  }
}
