/** Reservoir sampling of one (dataset, action) series, as utils/ersr.py does it while the steps
    are discovered, and its uniformity over all outcomes of the random draws. */
module Reservoir {
  import opened Basics

  /** Draw i happens when item cap + i arrives and is a `randrange(cap + i + 1)`. */
  ghost predicate ValidDraws(cap: nat, n: nat, draws: seq<nat>) {
    && |draws| == (if n <= cap then 0 else n - cap)
    && forall i :: 0 <= i < |draws| ==> draws[i] <= cap + i
  }

  /** Arrival numbers of the items held, by slot, after n items. */
  ghost function Kept(cap: nat, n: nat, draws: seq<nat>): (kept: seq<nat>)
    requires ValidDraws(cap, n, draws)
    ensures |kept| == Min(cap, n)
    ensures forall i :: 0 <= i < |kept| ==> kept[i] < n
    ensures Distinct(kept)
    decreases n
  {
    if n <= cap then seq(n, i => i) else
      var before := Kept(cap, n - 1, draws[..|draws| - 1]);
      var r := draws[|draws| - 1];
      if r < cap then before[r := n - 1] else before
  }

  /** All outcomes of the draws for n items. */
  ghost function AllDraws(cap: nat, n: nat): set<seq<nat>>
    decreases n
  {
    if n <= cap then {[]} else Branches(AllDraws(cap, n - 1), d => UpTo(n))
  }

  ghost function UpTo(n: nat): (r: set<nat>)
    ensures forall i: nat :: i in r <==> i < n
    ensures |r| == n
  {
    if n == 0 then {} else UpTo(n - 1) + {n - 1}
  }

  /** Extend each outcome by every last draw allowed after it. */
  ghost function Branches(heads: set<seq<nat>>, lasts: seq<nat> -> set<nat>): set<seq<nat>> {
    set d, r | d in heads && r in lasts(d) :: d + [r]
  }

  ghost function Extensions(d: seq<nat>, lasts: set<nat>): set<seq<nat>> { set r | r in lasts :: d + [r] }

  ghost function Union<K(!new)>(keys: set<K>, family: K -> set<seq<nat>>): set<seq<nat>> {
    set k, d | k in keys && d in family(k) :: d
  }

  lemma FromBranches(heads: set<seq<nat>>, lasts: seq<nat> -> set<nat>, a: seq<nat>)
    requires a in Branches(heads, lasts)
    ensures a != [] && a[..|a| - 1] in heads && a[|a| - 1] in lasts(a[..|a| - 1])
  {
    var d, r :| d in heads && r in lasts(d) && a == d + [r];
    assert a[..|a| - 1] == d;
  }

  lemma IntoBranches(heads: set<seq<nat>>, lasts: seq<nat> -> set<nat>, a: seq<nat>)
    requires a != [] && a[..|a| - 1] in heads && a[|a| - 1] in lasts(a[..|a| - 1])
    ensures a in Branches(heads, lasts)
  {
    assert a == a[..|a| - 1] + [a[|a| - 1]];
  }

  lemma {:induction false} AllDrawsAreValid(cap: nat, n: nat, draws: seq<nat>)
    ensures draws in AllDraws(cap, n) <==> ValidDraws(cap, n, draws)
    decreases n
  {
    hide Branches, UpTo;
    if n > cap {
      var heads := AllDraws(cap, n - 1);
      if ValidDraws(cap, n, draws) {
        AllDrawsAreValid(cap, n - 1, draws[..|draws| - 1]);
        IntoBranches(heads, d => UpTo(n), draws);
      }
      if draws in AllDraws(cap, n) {
        FromBranches(heads, d => UpTo(n), draws);
        AllDrawsAreValid(cap, n - 1, draws[..|draws| - 1]);
      }
    }
  }

  // ----- counting -----

  lemma {:induction false} ExtensionsSize(d: seq<nat>, lasts: set<nat>)
    ensures |Extensions(d, lasts)| == |lasts|
  {
    if lasts == {} {
      assert Extensions(d, lasts) == {};
    } else {
      var r :| r in lasts;
      var rest := Extensions(d, lasts - {r});
      ExtensionsSize(d, lasts - {r});
      assert Extensions(d, lasts) == rest + {d + [r]};
      assert d + [r] !in rest by {
        forall s | s in lasts - {r} ensures d + [s] != d + [r] {
          AppendInjective(d, s, d, r);
        }
      }
    }
  }

  /** The union of |keys| disjoint sets of f outcomes has |keys| * f outcomes. */
  lemma {:induction false} UnionSize<K(!new)>(keys: set<K>, family: K -> set<seq<nat>>, f: nat)
    requires forall k :: k in keys ==> |family(k)| == f
    requires forall k, l :: k in keys && l in keys && k != l ==> family(k) !! family(l)
    ensures |Union(keys, family)| == |keys| * f
  {
    if keys == {} {
      assert Union(keys, family) == {};
    } else {
      hide Union;
      var k :| k in keys;
      var rest := Union(keys - {k}, family);
      UnionSize(keys - {k}, family, f);
      UnionSplit(keys, family, k);
      assert |rest + family(k)| == |rest| + |family(k)|;
      OneTimesMore(|keys|, f);
    }
  }

  lemma OneTimesMore(n: nat, f: nat)
    ensures (n - 1) * f + f == n * f
  {}

  lemma UnionSplit<K(!new)>(keys: set<K>, family: K -> set<seq<nat>>, k: K)
    requires k in keys
    ensures Union(keys, family) == Union(keys - {k}, family) + family(k)
    ensures (forall l :: l in keys && k != l ==> family(l) !! family(k)) ==> Union(keys - {k}, family) !! family(k)
  {}

  /** k choices of the last draw after each of |heads| outcomes make |heads| * k outcomes. */
  lemma BranchesSize(heads: set<seq<nat>>, lasts: seq<nat> -> set<nat>, k: nat)
    requires forall d :: d in heads ==> |lasts(d)| == k
    ensures |Branches(heads, lasts)| == |heads| * k
  {
    var family := d => Extensions(d, lasts(d));
    forall d | d in heads ensures |family(d)| == k {
      ExtensionsSize(d, lasts(d));
    }
    forall d, e | d in heads && e in heads && d != e ensures family(d) !! family(e) {
      ExtensionsDisjoint(d, lasts(d), e, lasts(e));
    }
    UnionSize(heads, family, k);
    BranchesAreUnion(heads, lasts);
  }

  lemma BranchesAreUnion(heads: set<seq<nat>>, lasts: seq<nat> -> set<nat>)
    ensures Branches(heads, lasts) == Union(heads, d => Extensions(d, lasts(d)))
  {
    var union := Union(heads, d => Extensions(d, lasts(d)));
    forall a | a in union ensures a in Branches(heads, lasts) {
      var d :| d in heads && a in Extensions(d, lasts(d));
    }
    forall a | a in Branches(heads, lasts) ensures a in union {
      FromBranches(heads, lasts, a);
      var d := a[..|a| - 1];
      assert a == d + [a[|a| - 1]];
      IntoUnion(heads, d => Extensions(d, lasts(d)), d, a);
    }
  }

  lemma ExtensionsDisjoint(d: seq<nat>, lasts: set<nat>, e: seq<nat>, lasts': set<nat>)
    requires d != e
    ensures Extensions(d, lasts) !! Extensions(e, lasts')
  {
    forall r, s | r in lasts && s in lasts' ensures d + [r] != e + [s] {
      AppendInjective(d, r, e, s);
    }
  }

  lemma AppendInjective(d: seq<nat>, r: nat, e: seq<nat>, s: nat)
    ensures d + [r] == e + [s] ==> d == e && r == s
  {
    if d + [r] == e + [s] {
      assert (d + [r])[..|d|] == d && (e + [s])[..|e|] == e;
      assert (d + [r])[|d|] == r && (e + [s])[|e|] == s;
    }
  }

  // ----- each item survives in a cap/n share of the outcomes -----

  ghost predicate Holds(cap: nat, n: nat, draws: seq<nat>, item: nat) {
    ValidDraws(cap, n, draws) && item in Kept(cap, n, draws)
  }

  ghost function Surviving(cap: nat, n: nat, item: nat): set<seq<nat>> {
    set d | d in AllDraws(cap, n) && Holds(cap, n, d, item)
  }

  ghost function SlotOf(kept: seq<nat>, item: nat): (s: nat)
    requires item in kept
    ensures s < |kept| && kept[s] == item
  {
    var s :| 0 <= s < |kept| && kept[s] == item;
    s
  }

  /** The draws after `d` that leave `item` in the reservoir when item n - 1 arrives. */
  ghost function Sparing(cap: nat, n: nat, item: nat, d: seq<nat>): set<nat>
    requires n > cap
  {
    if item == n - 1 then UpTo(cap)
    else if Holds(cap, n - 1, d, item) then UpTo(n) - {SlotOf(Kept(cap, n - 1, d), item) as nat}
    else {}
  }

  lemma StepHolds(cap: nat, n: nat, item: nat, d: seq<nat>, r: nat)
    requires n > cap && item < n && ValidDraws(cap, n - 1, d) && r < n
    ensures ValidDraws(cap, n, d + [r])
    ensures Holds(cap, n, d + [r], item) <==> r in Sparing(cap, n, item, d)
  {
    hide Kept, ValidDraws, UpTo, SlotOf, Distinct;
    KeptStep(cap, n, d, r);
    var before := Kept(cap, n - 1, d);
    WriteHolds(before, n - 1, r, item);
    if item != n - 1 && item in before {
      SlotIs(before, item);
    }
  }

  /** One more item: a draw below cap gives it that slot. */
  lemma KeptStep(cap: nat, n: nat, d: seq<nat>, r: nat)
    requires n > cap && ValidDraws(cap, n - 1, d) && r < n
    ensures ValidDraws(cap, n, d + [r]) && |Kept(cap, n - 1, d)| == cap
    ensures n - 1 !in Kept(cap, n - 1, d)
    ensures Kept(cap, n, d + [r]) == if r < cap then Kept(cap, n - 1, d)[r := n - 1] else Kept(cap, n - 1, d)
  {
    assert (d + [r])[..|d|] == d;
  }

  /** Writing x into slot r, or nowhere, keeps every other entry but the one in that slot. */
  lemma WriteHolds(before: seq<nat>, x: nat, r: nat, item: nat)
    requires Distinct(before) && x !in before
    ensures var after := if r < |before| then before[r := x] else before;
      item in after <==> (item == x && r < |before|) || (item in before && !(r < |before| && before[r] == item))
  {
    if r < |before| {
      var after := before[r := x];
      assert after[r] == x;
      if item in before {
        var i :| 0 <= i < |before| && before[i] == item;
        assert i != r ==> after[i] == item;
      }
    }
  }

  /** Entries of a list without repetitions have one slot. */
  lemma SlotIs(kept: seq<nat>, item: nat)
    requires Distinct(kept) && item in kept
    ensures forall r :: 0 <= r < |kept| ==> (kept[r] == item <==> r == SlotOf(kept, item))
  {}

  lemma SurvivingStep(cap: nat, n: nat, item: nat)
    requires n > cap && item < n
    ensures var heads := if item == n - 1 then AllDraws(cap, n - 1) else Surviving(cap, n - 1, item);
            Surviving(cap, n, item) == Branches(heads, d => Sparing(cap, n, item, d))
  {
    hide Branches, Sparing, AllDraws, Holds;
    var heads := if item == n - 1 then AllDraws(cap, n - 1) else Surviving(cap, n - 1, item);
    var built := Branches(heads, d => Sparing(cap, n, item, d));
    forall a | a in Surviving(cap, n, item)
      ensures a in built
    {
      SurvivingParts(cap, n, item, a);
      IntoBranches(heads, d => Sparing(cap, n, item, d), a);
    }
    forall a | a in built
      ensures a in Surviving(cap, n, item)
    {
      FromBranches(heads, d => Sparing(cap, n, item, d), a);
      SparedSurvives(cap, n, item, a);
    }
  }

  lemma SurvivingParts(cap: nat, n: nat, item: nat, a: seq<nat>)
    requires n > cap && item < n && a in AllDraws(cap, n) && Holds(cap, n, a, item)
    ensures a != []
    ensures var d := a[..|a| - 1];
      && d in AllDraws(cap, n - 1) && (item != n - 1 ==> Holds(cap, n - 1, d, item))
      && a[|a| - 1] in Sparing(cap, n, item, d)
  {
    var d, r := a[..|a| - 1], a[|a| - 1];
    assert a == d + [r];
    AllDrawsAreValid(cap, n, a);
    AllDrawsAreValid(cap, n - 1, d);
    StepHolds(cap, n, item, d, r);
  }

  lemma SparedSurvives(cap: nat, n: nat, item: nat, a: seq<nat>)
    requires n > cap && item < n && a != []
    requires var d := a[..|a| - 1]; d in AllDraws(cap, n - 1) && a[|a| - 1] in Sparing(cap, n, item, d)
    ensures a in AllDraws(cap, n) && Holds(cap, n, a, item)
  {
    hide AllDraws, Kept;
    var d, r := a[..|a| - 1], a[|a| - 1];
    assert a == d + [r];
    AllDrawsAreValid(cap, n - 1, d);
    StepHolds(cap, n, item, d, r);
    AllDrawsAreValid(cap, n, a);
  }

  lemma AllDrawsSize(cap: nat, n: nat)
    requires n > cap
    ensures |AllDraws(cap, n)| == |AllDraws(cap, n - 1)| * n
  {
    BranchesSize(AllDraws(cap, n - 1), d => UpTo(n), n);
  }

  lemma SparingSize(cap: nat, n: nat, item: nat, d: seq<nat>)
    requires n > cap && item < n
    requires item != n - 1 ==> Holds(cap, n - 1, d, item)
    ensures |Sparing(cap, n, item, d)| == if item == n - 1 then cap else n - 1
  {
    if item != n - 1 {
      var s := SlotOf(Kept(cap, n - 1, d), item);
      assert s in UpTo(n);
    }
  }

  /** With cap < n, every item is kept in exactly a cap/n share of all outcomes. */
  lemma {:induction false} SurvivalIsUniform(cap: nat, n: nat, item: nat)
    requires cap <= n && item < n
    ensures |Surviving(cap, n, item)| * n == cap * |AllDraws(cap, n)|
    decreases n
  {
    hide Surviving, AllDraws;
    if n == cap {
      AllSurviveUnderCap(cap, n, item);
      Commute(|AllDraws(cap, n)|, n);
    } else {
      var total := |AllDraws(cap, n - 1)|;
      SurvivingShare(cap, n, item);
      AllDrawsSize(cap, n);
      if item != n - 1 {
        SurvivalIsUniform(cap, n - 1, item);
      }
      ShareCarries(|Surviving(cap, n, item)|, cap, total, n, |AllDraws(cap, n)|);
    }
  }

  /** What the last arrival leaves of an item's share, in terms of the arrivals before it. */
  lemma SurvivingShare(cap: nat, n: nat, item: nat)
    requires n > cap && item < n
    ensures item != n - 1 ==> |Surviving(cap, n, item)| == |Surviving(cap, n - 1, item)| * (n - 1)
    ensures item == n - 1 ==> |Surviving(cap, n, item)| == cap * |AllDraws(cap, n - 1)|
  {
    hide Surviving, AllDraws;
    SurvivingSize(cap, n, item);
    Commute(cap, |AllDraws(cap, n - 1)|);
  }

  lemma Commute(a: nat, b: nat)
    ensures a * b == b * a
  {}

  lemma ShareCarries(survivors: nat, cap: nat, before: nat, n: nat, total: nat)
    requires survivors == cap * before && total == before * n
    ensures survivors * n == cap * total
  {
    assert (cap * before) * n == cap * (before * n);
  }

  lemma SurvivingSize(cap: nat, n: nat, item: nat)
    requires n > cap && item < n
    ensures |Surviving(cap, n, item)|
         == if item == n - 1 then |AllDraws(cap, n - 1)| * cap else |Surviving(cap, n - 1, item)| * (n - 1)
  {
    var heads := if item == n - 1 then AllDraws(cap, n - 1) else Surviving(cap, n - 1, item);
    var k := if item == n - 1 then cap else n - 1;
    SurvivingStep(cap, n, item);
    forall d | d in heads ensures |Sparing(cap, n, item, d)| == k {
      SparingSize(cap, n, item, d);
    }
    BranchesSize(heads, d => Sparing(cap, n, item, d), k);
  }

  /** Up to the cap, no draw is made and every item is kept. */
  lemma AllSurviveUnderCap(cap: nat, n: nat, item: nat)
    requires n <= cap && item < n
    ensures AllDraws(cap, n) == {[]}
    ensures Surviving(cap, n, item) == AllDraws(cap, n)
  {
    assert ValidDraws(cap, n, []);
    assert Kept(cap, n, [])[item] == item;
  }

  // ----- every cap-element selection is equally likely -----

  ghost function Selection(cap: nat, n: nat, draws: seq<nat>): set<nat>
    requires ValidDraws(cap, n, draws)
  {
    set x | x in Kept(cap, n, draws)
  }

  ghost predicate Selects(cap: nat, n: nat, draws: seq<nat>, s: set<nat>) {
    ValidDraws(cap, n, draws) && Selection(cap, n, draws) == s
  }

  ghost function Selecting(cap: nat, n: nat, s: set<nat>): set<seq<nat>> {
    set d | d in AllDraws(cap, n) && Selects(cap, n, d, s)
  }

  /** (n - cap)!, the number of outcomes behind each selection. */
  function Ways(cap: nat, n: nat): nat
    requires cap <= n
    decreases n
  {
    if n == cap then 1 else Ways(cap, n - 1) * (n - cap)
  }

  lemma StepSelection(cap: nat, n: nat, d: seq<nat>, r: nat)
    requires n > cap && ValidDraws(cap, n - 1, d) && r < n
    ensures ValidDraws(cap, n, d + [r])
    ensures Selection(cap, n, d + [r]) ==
      var before := Kept(cap, n - 1, d);
      if r < cap then Selection(cap, n - 1, d) - {before[r]} + {n - 1} else Selection(cap, n - 1, d)
  {
    hide Kept, ValidDraws, Distinct;
    KeptStep(cap, n, d, r);
    var before := Kept(cap, n - 1, d);
    if r < cap {
      var expected, next := Selection(cap, n - 1, d) - {before[r]} + {n - 1}, Selection(cap, n, d + [r]);
      forall x | x in expected ensures x in next {
        WriteHolds(before, n - 1, r, x);
      }
      forall x | x in next ensures x in expected {
        WriteHolds(before, n - 1, r, x);
      }
      assert next == expected;
    }
  }

  /** The last draws after `d` that produce selection `s`. */
  ghost function Completing(cap: nat, n: nat, s: set<nat>, d: seq<nat>): set<nat>
    requires n > cap
  {
    set r | r in UpTo(n) && Selects(cap, n, d + [r], s)
  }

  /** `s` with item n - 1 traded back for x. */
  ghost function Traded(n: nat, s: set<nat>, x: nat): set<nat>
    requires n > 0
  {
    s - {n - 1} + {x}
  }

  /** The outcomes one draw short of selecting `s`. */
  ghost predicate IsParent(cap: nat, n: nat, s: set<nat>, d: seq<nat>)
    requires n > cap
  {
    if n - 1 in s then exists x :: x in UpTo(n - 1) - s && Selects(cap, n - 1, d, Traded(n, s, x))
    else Selects(cap, n - 1, d, s)
  }

  ghost function Parents(cap: nat, n: nat, s: set<nat>): set<seq<nat>>
    requires n > cap
  {
    set d | d in AllDraws(cap, n - 1) && IsParent(cap, n, s, d)
  }

  lemma ParentsAreSelecting(cap: nat, n: nat, s: set<nat>, d: seq<nat>, r: nat)
    requires n > cap && ValidDraws(cap, n - 1, d) && r < n && Selects(cap, n, d + [r], s)
    ensures IsParent(cap, n, s, d)
  {
    StepSelection(cap, n, d, r);
    if n - 1 in s {
      var x := Kept(cap, n - 1, d)[r];
      assert x in Selection(cap, n - 1, d);
      assert Selection(cap, n - 1, d) == Traded(n, s, x);
      assert x in UpTo(n - 1) - s;
    }
  }

  lemma CompletingSize(cap: nat, n: nat, s: set<nat>, d: seq<nat>)
    requires n > cap && IsParent(cap, n, s, d)
    ensures |Completing(cap, n, s, d)| == if n - 1 in s then 1 else n - cap
  {
    if n - 1 in s {
      var x :| x in UpTo(n - 1) - s && Selects(cap, n - 1, d, Traded(n, s, x));
      CompletingSlot(cap, n, s, d, x);
      assert Completing(cap, n, s, d) == {SlotOf(Kept(cap, n - 1, d), x) as nat};
    } else {
      CompletingPast(cap, n, s, d);
      assert Completing(cap, n, s, d) == UpTo(n) - UpTo(cap);
      assert UpTo(cap) <= UpTo(n);
    }
  }

  lemma CompletingPast(cap: nat, n: nat, s: set<nat>, d: seq<nat>)
    requires n > cap && n - 1 !in s && Selects(cap, n - 1, d, s)
    ensures forall r: nat :: r < n ==> (Selects(cap, n, d + [r], s) <==> r >= cap)
  {
    forall r: nat | r < n ensures Selects(cap, n, d + [r], s) <==> r >= cap {
      StepSelection(cap, n, d, r);
    }
  }

  lemma CompletingSlot(cap: nat, n: nat, s: set<nat>, d: seq<nat>, x: nat)
    requires n > cap && n - 1 in s && x < n - 1 && x !in s
    requires Selects(cap, n - 1, d, Traded(n, s, x))
    ensures x in Kept(cap, n - 1, d)
    ensures forall r: nat :: r < n ==> (Selects(cap, n, d + [r], s) <==> r == SlotOf(Kept(cap, n - 1, d), x))
  {
    hide Kept;
    var before := Kept(cap, n - 1, d);
    assert x in Selection(cap, n - 1, d);
    var slot := SlotOf(before, x);
    forall r: nat | r < n ensures Selects(cap, n, d + [r], s) <==> r == slot {
      StepSelection(cap, n, d, r);
      if r == slot {
        assert Traded(n, s, x) - {x} + {n - 1} == s;
      } else if r < cap {
        assert before[r] != x;
        assert x in Selection(cap, n, d + [r]);
      }
    }
  }

  lemma SelectingStep(cap: nat, n: nat, s: set<nat>)
    requires n > cap
    ensures Selecting(cap, n, s) == Branches(Parents(cap, n, s), d => Completing(cap, n, s, d))
  {
    var parents := Parents(cap, n, s);
    var built := Branches(parents, d => Completing(cap, n, s, d));
    forall a | a in Selecting(cap, n, s) ensures a in built {
      SelectingParts(cap, n, s, a);
      IntoBranches(parents, d => Completing(cap, n, s, d), a);
    }
    forall a | a in built ensures a in Selecting(cap, n, s) {
      FromBranches(parents, d => Completing(cap, n, s, d), a);
      assert a == a[..|a| - 1] + [a[|a| - 1]];
      AllDrawsAreValid(cap, n, a);
    }
  }

  lemma SelectingParts(cap: nat, n: nat, s: set<nat>, a: seq<nat>)
    requires n > cap && a in AllDraws(cap, n) && Selects(cap, n, a, s)
    ensures a != []
    ensures var d := a[..|a| - 1]; d in Parents(cap, n, s) && a[|a| - 1] in Completing(cap, n, s, d)
  {
    var d, r := a[..|a| - 1], a[|a| - 1];
    assert a == d + [r];
    AllDrawsAreValid(cap, n - 1, d);
    ParentsAreSelecting(cap, n, s, d, r);
  }

  /** Every cap-element selection among n items comes from exactly f outcomes. */
  ghost predicate UniformAt(cap: nat, n: nat, f: nat) {
    forall t :: t <= UpTo(n) && |t| == cap ==> |Selecting(cap, n, t)| == f
  }

  lemma ParentsSize(cap: nat, n: nat, s: set<nat>, f: nat)
    requires n > cap && s <= UpTo(n) && |s| == cap && UniformAt(cap, n - 1, f)
    ensures |Parents(cap, n, s)| == if n - 1 in s then (n - cap) * f else f
  {
    hide Parents, Selecting, Union, Traded, UpTo;
    if n - 1 in s {
      FamilySize(cap, n, s, f);
      MissingSize(n, s);
      ParentsAreUnion(cap, n, s);
    } else {
      ParentsAlone(cap, n, s);
    }
  }

  lemma FamilySize(cap: nat, n: nat, s: set<nat>, f: nat)
    requires n > cap && s <= UpTo(n) && |s| == cap && n - 1 in s && UniformAt(cap, n - 1, f)
    ensures |Union(UpTo(n - 1) - s, x => Selecting(cap, n - 1, Traded(n, s, x)))| == |UpTo(n - 1) - s| * f
  {
    hide Selecting, Union, Traded, UpTo;
    var missing := UpTo(n - 1) - s;
    var family := x => Selecting(cap, n - 1, Traded(n, s, x));
    forall x | x in missing ensures |family(x)| == f {
      TradedSize(n, s, x);
    }
    forall x, y | x in missing && y in missing && x != y ensures family(x) !! family(y) {
      TradedDisjoint(cap, n, s, x, y);
    }
    UnionSize(missing, family, f);
  }

  lemma ParentsAlone(cap: nat, n: nat, s: set<nat>)
    requires n > cap && s <= UpTo(n) && n - 1 !in s
    ensures Parents(cap, n, s) == Selecting(cap, n - 1, s) && s <= UpTo(n - 1)
  {}

  lemma TradedSize(n: nat, s: set<nat>, x: nat)
    requires n > 0 && n - 1 in s && s <= UpTo(n) && x in UpTo(n - 1) - s
    ensures |Traded(n, s, x)| == |s| && Traded(n, s, x) <= UpTo(n - 1)
  {}

  lemma TradedDisjoint(cap: nat, n: nat, s: set<nat>, x: nat, y: nat)
    requires n > cap && x !in s && y !in s && x != y
    ensures Selecting(cap, n - 1, Traded(n, s, x)) !! Selecting(cap, n - 1, Traded(n, s, y))
  {
    assert x in Traded(n, s, x) && x !in Traded(n, s, y);
  }

  lemma ParentsAreUnion(cap: nat, n: nat, s: set<nat>)
    requires n > cap && n - 1 in s
    ensures Parents(cap, n, s) == Union(UpTo(n - 1) - s, x => Selecting(cap, n - 1, Traded(n, s, x)))
  {
    var family := x => Selecting(cap, n - 1, Traded(n, s, x));
    forall d | d in Parents(cap, n, s) ensures d in Union(UpTo(n - 1) - s, family) {
      var x :| x in UpTo(n - 1) - s && Selects(cap, n - 1, d, Traded(n, s, x));
      IntoUnion(UpTo(n - 1) - s, family, x, d);
    }
  }

  lemma IntoUnion<K(!new)>(keys: set<K>, family: K -> set<seq<nat>>, k: K, d: seq<nat>)
    requires k in keys && d in family(k)
    ensures d in Union(keys, family)
  {}

  lemma MissingSize(n: nat, s: set<nat>)
    requires n > 0 && s <= UpTo(n) && n - 1 in s
    ensures |UpTo(n - 1) - s| == n - |s|
  {
    assert UpTo(n) == (UpTo(n - 1) - s) + s;
  }

  /** Every set of cap items is the selection of exactly (n - cap)! outcomes. */
  lemma {:induction false} SelectionIsUniform(cap: nat, n: nat)
    requires cap <= n
    ensures UniformAt(cap, n, Ways(cap, n))
    decreases n
  {
    if n > cap {
      SelectionIsUniform(cap, n - 1);
    }
    forall s | s <= UpTo(n) && |s| == cap ensures |Selecting(cap, n, s)| == Ways(cap, n) {
      if n == cap {
        OnlySelection(cap, s);
      } else {
        SelectingSize(cap, n, s, Ways(cap, n - 1));
      }
    }
  }

  lemma SelectingSize(cap: nat, n: nat, s: set<nat>, f: nat)
    requires n > cap && s <= UpTo(n) && |s| == cap && UniformAt(cap, n - 1, f)
    ensures |Selecting(cap, n, s)| == f * (n - cap)
  {
    var k := if n - 1 in s then 1 else n - cap;
    ParentsSize(cap, n, s, f);
    SelectingStep(cap, n, s);
    AllCompletingSize(cap, n, s, k);
    BranchesSize(Parents(cap, n, s), d => Completing(cap, n, s, d), k);
  }

  lemma AllCompletingSize(cap: nat, n: nat, s: set<nat>, k: nat)
    requires n > cap && k == if n - 1 in s then 1 else n - cap
    ensures forall d :: d in Parents(cap, n, s) ==> |Completing(cap, n, s, d)| == k
  {
    forall d | d in Parents(cap, n, s) ensures |Completing(cap, n, s, d)| == k {
      CompletingSize(cap, n, s, d);
    }
  }

  lemma OnlySelection(cap: nat, s: set<nat>)
    requires s <= UpTo(cap) && |s| == cap
    ensures Selecting(cap, cap, s) == {[]}
  {
    assert |UpTo(cap) - s| == |UpTo(cap)| - |s|;
    assert s == UpTo(cap);
    assert ValidDraws(cap, cap, []);
    forall x | x in UpTo(cap) ensures x in Kept(cap, cap, []) {
      assert Kept(cap, cap, [])[x] == x;
    }
    assert Selection(cap, cap, []) == s;
    assert AllDraws(cap, cap) == {[]};
  }
}
