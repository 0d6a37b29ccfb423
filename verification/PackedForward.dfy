/** The branch-causal visibility mask, and the theorem it exists for: one packed forward of a
    transformer gives every probe branch exactly the states of its own separate forward.
    Models utils/r2opl.py. */
module PackedForward {
  import opened Basics
  import opened ProbeLayout

  // ----- the visibility relation and the mask -----

  predicate InBranch(b: Branch, q: int) { b.probeStart <= q < b.probeEnd }

  predicate BranchSees(b: Branch, q: int, k: int) { k < b.visiblePrefixEnd || b.probeStart <= k <= q }

  /** Query q may attend to key k: ordinary causal attention among original tokens; a probe
      token sees its rollout prefix and its own branch up to itself. */
  predicate Sees(l: Layout, q: int, k: int) {
    if q < l.originalLength then k <= q
    else exists j :: 0 <= j < |l.branches| && InBranch(l.branches[j], q) && BranchSees(l.branches[j], q, k)
  }

  lemma BranchPlacement(l: Layout, j: nat)
    requires Accepted(l) && j < |l.branches|
    ensures var b := l.branches[j];
      0 <= b.visiblePrefixEnd <= l.originalLength <= PreviousEnd(l, j) == b.probeStart < b.probeEnd <= |l.sequenceIds|
  {
    assert BranchOk(l, j);
  }

  /** Accepted branches occupy disjoint slices behind the original tokens. */
  lemma {:induction false} BranchesDisjoint(l: Layout, i: nat, j: nat)
    requires Accepted(l) && i < j < |l.branches|
    ensures l.originalLength <= l.branches[i].probeStart
    ensures l.branches[i].probeEnd <= l.branches[j].probeStart
  {
    BranchPlacement(l, i);
    BranchPlacement(l, j);
    if i < j - 1 {
      BranchesDisjoint(l, i, j - 1);
      BranchPlacement(l, j - 1);
    }
  }

  lemma SeesInBranch(l: Layout, j: nat, q: int, k: int)
    requires Accepted(l) && j < |l.branches| && InBranch(l.branches[j], q)
    ensures q >= l.originalLength
    ensures Sees(l, q, k) <==> BranchSees(l.branches[j], q, k)
  {
    BranchPlacement(l, j);
    forall i | 0 <= i < |l.branches| && InBranch(l.branches[i], q)
      ensures i == j
    {
      if i < j { BranchesDisjoint(l, i, j); }
      if j < i { BranchesDisjoint(l, j, i); }
    }
  }

  method BuildDenseMask(l: Layout) returns (r: Result<array2<bool>>)
    ensures r.Ok? <==> Accepted(l)
    ensures r.Ok? ==> r.value.Length0 == r.value.Length1 == |l.sequenceIds|
    ensures r.Ok? ==> forall q, k :: 0 <= q < r.value.Length0 && 0 <= k < r.value.Length1 ==>
      (r.value[q, k] <==> Sees(l, q, k))
  {
    var valid := ValidateLayout(l);
    if !valid {
      return Err("layout");
    }
    var mask := DenseMask(l);
    return Ok(mask);
  }

  method DenseMask(l: Layout) returns (mask: array2<bool>)
    requires Accepted(l)
    ensures fresh(mask)
    ensures mask.Length0 == mask.Length1 == |l.sequenceIds|
    ensures forall q, k :: 0 <= q < mask.Length0 && 0 <= k < mask.Length1 ==> (mask[q, k] <==> Sees(l, q, k))
  {
    var n := |l.sequenceIds|;
    mask := new bool[n, n]((q, k) => false);
    forall q, k | 0 <= q < l.originalLength && 0 <= k < l.originalLength {
      mask[q, k] := k <= q;
    }
    for j := 0 to |l.branches|
      invariant fresh(mask)
      invariant l.originalLength <= PreviousEnd(l, j) <= n
      invariant forall q, k :: 0 <= q < l.originalLength && 0 <= k < n ==> (mask[q, k] <==> k <= q)
      invariant forall q, k :: PreviousEnd(l, j) <= q < n && 0 <= k < n ==> !mask[q, k]
      invariant forall q, k :: l.originalLength <= q < PreviousEnd(l, j) && 0 <= k < n ==>
        (mask[q, k] <==> Sees(l, q, k))
    {
      var b := l.branches[j];
      BranchPlacement(l, j);
      forall q, k | b.probeStart <= q < b.probeEnd && 0 <= k < b.visiblePrefixEnd {
        mask[q, k] := true;
      }
      forall q, k | b.probeStart <= q < b.probeEnd && b.probeStart <= k < b.probeEnd {
        mask[q, k] := k <= q;
      }
      forall q, k | b.probeStart <= q < b.probeEnd && 0 <= k < n
        ensures mask[q, k] <==> Sees(l, q, k)
      {
        SeesInBranch(l, j, q, k);
      }
    }
  }

  // ----- a transformer over ordered visible keys -----

  /** One model input: token ids, logical positions, and who may attend to whom. */
  datatype Input = Input(tokens: seq<int>, positions: seq<int>, mask: seq<seq<bool>>) {
    predicate Valid() {
      |tokens| == |positions| == |mask| && forall q :: 0 <= q < |mask| ==> |mask[q]| == |tokens|
    }
  }

  /** Any embedding of (token, position) and any layers; a layer maps a query's own state and
      position together with the states and positions of its visible keys, in order. */
  datatype Model<!H> = Model(embed: (int, int) -> H, layers: seq<(H, int, seq<(H, int)>) -> H>)

  /** The keys a mask row lets through, in increasing physical order. */
  function Visible(row: seq<bool>): (keys: seq<nat>)
    ensures forall i :: 0 <= i < |keys| ==> keys[i] < |row|
  {
    if row == [] then [] else
      var n := |row| - 1;
      Visible(row[..n]) + if row[n] then [n] else []
  }

  function Hidden<H>(m: Model<H>, x: Input, depth: nat, q: nat): H
    requires depth <= |m.layers| && x.Valid() && q < |x.tokens|
    decreases depth, 0
  {
    if depth == 0 then m.embed(x.tokens[q], x.positions[q]) else
      m.layers[depth - 1](Hidden(m, x, depth - 1, q), x.positions[q], KeyStates(m, x, depth - 1, Visible(x.mask[q])))
  }

  function KeyStates<H>(m: Model<H>, x: Input, depth: nat, keys: seq<nat>): (r: seq<(H, int)>)
    requires depth <= |m.layers| && x.Valid() && forall i :: 0 <= i < |keys| ==> keys[i] < |x.tokens|
    ensures |r| == |keys|
    ensures forall i :: 0 <= i < |keys| ==> r[i] == (Hidden(m, x, depth, keys[i]), x.positions[keys[i]])
    decreases depth, |keys| + 1
  {
    if keys == [] then [] else
      KeyStates(m, x, depth, keys[..|keys| - 1])
      + [(Hidden(m, x, depth, keys[|keys| - 1]), x.positions[keys[|keys| - 1]])]
  }

  /** A strictly increasing list that names exactly the true entries of a row. */
  ghost predicate KeyList(row: seq<bool>, keys: seq<nat>) {
    && (forall i, j :: 0 <= i < j < |keys| ==> keys[i] < keys[j])
    && (forall i :: 0 <= i < |keys| ==> keys[i] < |row| && row[keys[i]])
    && forall k :: 0 <= k < |row| && row[k] ==> k in keys
  }

  /** There is one such list, the row's keys. */
  lemma {:induction false} VisibleIs(row: seq<bool>, keys: seq<nat>)
    requires KeyList(row, keys)
    ensures Visible(row) == keys
  {
    assert keys != [] ==> keys[0] < |row|;
    if row != [] {
      hide KeyList;
      var n := |row| - 1;
      LastKey(row, keys);
      VisibleIs(row[..n], if row[n] then keys[..|keys| - 1] else keys);
    }
  }

  /** When the last entry is true it is the last key; the other keys are those of the rest. */
  lemma LastKey(row: seq<bool>, keys: seq<nat>)
    requires row != [] && KeyList(row, keys)
    ensures var n: nat := |row| - 1;
      if row[n] then keys != [] && keys == keys[..|keys| - 1] + [n] && KeyList(row[..n], keys[..|keys| - 1])
      else KeyList(row[..n], keys)
  {
    var n: nat := |row| - 1;
    if row[n] {
      LastIsLast(row, keys);
      FrontKeys(row, keys[..|keys| - 1]);
    } else {
      forall i | 0 <= i < |keys| ensures keys[i] < n {}
    }
  }

  lemma LastIsLast(row: seq<bool>, keys: seq<nat>)
    requires row != [] && row[|row| - 1] && KeyList(row, keys)
    ensures keys != [] && keys == keys[..|keys| - 1] + [|row| - 1]
  {
    var n: nat := |row| - 1;
    assert n in keys;
    var i :| 0 <= i < |keys| && keys[i] == n;
    assert keys[i] <= keys[|keys| - 1];
  }

  lemma FrontKeys(row: seq<bool>, front: seq<nat>)
    requires row != [] && KeyList(row, front + [|row| - 1])
    ensures KeyList(row[..|row| - 1], front)
  {
    var n: nat := |row| - 1;
    var keys := front + [n];
    forall i, j | 0 <= i < j < |front| ensures front[i] < front[j] {
      assert keys[i] < keys[j];
    }
    forall i | 0 <= i < |front| ensures front[i] < n && row[..n][front[i]] {
      assert keys[i] < keys[|front|] && row[keys[i]];
    }
    forall k: nat | k < n && row[..n][k] ensures k in front {
      assert k in keys;
    }
  }

  /** `at` places input `y` inside input `x`: same tokens and positions, and every placed query
      sees exactly the placed images of what it sees in `y`, in the same order. */
  ghost predicate Embeds(x: Input, y: Input, at: seq<nat>) {
    && x.Valid() && y.Valid() && |at| == |y.tokens|
    && forall i :: 0 <= i < |at| ==>
      && at[i] < |x.tokens|
      && x.tokens[at[i]] == y.tokens[i]
      && x.positions[at[i]] == y.positions[i]
      && Visible(x.mask[at[i]]) == Placed(at, Visible(y.mask[i]))
  }

  ghost function Placed(at: seq<nat>, keys: seq<nat>): (r: seq<nat>)
    requires forall i :: 0 <= i < |keys| ==> keys[i] < |at|
    ensures |r| == |keys|
  {
    seq(|keys|, i requires 0 <= i < |keys| => at[keys[i]])
  }

  /** Masked attention is local: an embedded input computes the same states at every depth. */
  lemma {:induction false} ForwardIsLocal<H>(m: Model<H>, x: Input, y: Input, at: seq<nat>, depth: nat, i: nat)
    requires depth <= |m.layers| && Embeds(x, y, at) && i < |at|
    ensures Hidden(m, x, depth, at[i]) == Hidden(m, y, depth, i)
    decreases depth
  {
    if depth > 0 {
      ForwardIsLocal(m, x, y, at, depth - 1, i);
      var keys := Visible(y.mask[i]);
      var placed := Visible(x.mask[at[i]]);
      assert placed == Placed(at, keys);
      var statesX, statesY := KeyStates(m, x, depth - 1, placed), KeyStates(m, y, depth - 1, keys);
      forall c | 0 <= c < |keys|
        ensures statesX[c] == statesY[c]
      {
        ForwardIsLocal(m, x, y, at, depth - 1, keys[c]);
        assert placed[c] == at[keys[c]];
      }
      assert statesX == statesY;
    }
  }

  // ----- packed against separate -----

  /** The ordinary causal input of a token sequence on its own. */
  function Standalone(tokens: seq<int>): (x: Input)
    ensures x.Valid()
  {
    Input(tokens, Range(0, |tokens|),
          seq(|tokens|, q => seq(|tokens|, k => k <= q)))
  }

  function UpTo(n: nat): (r: seq<nat>)
    ensures |r| == n
  {
    seq(n, i => i)
  }

  lemma StandaloneKeys(tokens: seq<int>, i: nat)
    requires i < |tokens|
    ensures Visible(Standalone(tokens).mask[i]) == UpTo(i + 1)
  {
    var row := Standalone(tokens).mask[i];
    forall k | 0 <= k < |row| && row[k] ensures k in UpTo(i + 1) {
      assert UpTo(i + 1)[k] == k;
    }
    VisibleIs(row, UpTo(i + 1));
  }

  /** In an ordinary causal forward a token's next state depends on its own state and on the states
      of all tokens up to it, in order. */
  lemma CausalForward<H>(m: Model<H>, tokens: seq<int>, depth: nat, q: nat)
    requires depth < |m.layers| && q < |tokens|
    ensures var x := Standalone(tokens);
      && Hidden(m, x, 0, q) == m.embed(tokens[q], q)
      && Hidden(m, x, depth + 1, q) == m.layers[depth](Hidden(m, x, depth, q), q,
           seq(q + 1, k requires 0 <= k < q + 1 => (Hidden(m, x, depth, k), k)))
  {
    var x := Standalone(tokens);
    StandaloneKeys(tokens, q);
    var states := seq(q + 1, k requires 0 <= k < q + 1 => (Hidden(m, x, depth, k), k));
    assert KeyStates(m, x, depth, UpTo(q + 1)) == states;
  }

  /** A model input for layout `l`, possibly padded on the right: pad tokens and positions are
      arbitrary, pad keys are never visible to a real query. */
  ghost predicate InputFor(x: Input, l: Layout) {
    && x.Valid() && |l.sequenceIds| == |l.positionIds| <= |x.tokens|
    && x.tokens[..|l.sequenceIds|] == l.sequenceIds
    && x.positions[..|l.sequenceIds|] == l.positionIds
    && forall q, k :: 0 <= q < |l.sequenceIds| && 0 <= k < |x.tokens| ==>
      (x.mask[q][k] <==> k < |l.sequenceIds| && Sees(l, q, k))
  }

  /** Where branch j's separate input sits inside the packed sequence. */
  function Place(b: Branch, m: nat): (at: seq<nat>)
    requires 0 <= b.visiblePrefixEnd && 0 <= b.probeStart
    ensures |at| == b.visiblePrefixEnd + m
  {
    seq(b.visiblePrefixEnd + m, i => if i < b.visiblePrefixEnd then i else b.probeStart + (i - b.visiblePrefixEnd))
  }

  /** The rollout prefix a branch measures, followed by the probe. */
  function SeparateTokens(l: Layout, j: nat): seq<int>
    requires Accepted(l) && j < |l.branches|
  {
    assert BranchOk(l, j);
    l.sequenceIds[..l.branches[j].visiblePrefixEnd] + l.probeIds
  }

  lemma OriginalKeys(x: Input, l: Layout, q: nat)
    requires Accepted(l) && InputFor(x, l) && q < l.originalLength
    ensures Visible(x.mask[q]) == UpTo(q + 1)
  {
    forall k | 0 <= k < |x.mask[q]| && x.mask[q][k] ensures k in UpTo(q + 1) {
      assert UpTo(q + 1)[k] == k;
    }
    VisibleIs(x.mask[q], UpTo(q + 1));
  }

  lemma BranchKeys(x: Input, l: Layout, j: nat, i: nat)
    requires Accepted(l) && InputFor(x, l) && j < |l.branches|
    requires BranchOk(l, j)
    requires l.branches[j].visiblePrefixEnd <= i < l.branches[j].visiblePrefixEnd + |l.probeIds|
    ensures var at := Place(l.branches[j], |l.probeIds|); Visible(x.mask[at[i]]) == at[..i + 1]
  {
    var b := l.branches[j];
    var at := Place(b, |l.probeIds|);
    var row := x.mask[at[i]];
    forall k: nat | k < |row|
      ensures row[k] <==> k < b.visiblePrefixEnd || b.probeStart <= k <= at[i]
    {
      SeesInBranch(l, j, at[i], k);
    }
    forall k | 0 <= k < |row| && row[k] ensures k in at[..i + 1] {
      if k < b.visiblePrefixEnd {
        assert at[..i + 1][k] == k;
      } else {
        assert at[..i + 1][b.visiblePrefixEnd + (k - b.probeStart)] == k;
      }
    }
    VisibleIs(row, at[..i + 1]);
  }

  /** Every branch embeds its own separate input... */
  lemma BranchEmbeds(x: Input, l: Layout, j: nat)
    requires Accepted(l) && InputFor(x, l) && j < |l.branches|
    ensures BranchOk(l, j)
    ensures Embeds(x, Standalone(SeparateTokens(l, j)), Place(l.branches[j], |l.probeIds|))
  {
    assert BranchOk(l, j);
    var b := l.branches[j];
    var y := Standalone(SeparateTokens(l, j));
    var at := Place(b, |l.probeIds|);
    forall i | 0 <= i < |at|
      ensures at[i] < |x.tokens|
      ensures x.tokens[at[i]] == y.tokens[i]
      ensures x.positions[at[i]] == y.positions[i]
      ensures Visible(x.mask[at[i]]) == Placed(at, Visible(y.mask[i]))
    {
      PlacedToken(x, l, j, i);
      StandaloneKeys(y.tokens, i);
      if i < b.visiblePrefixEnd {
        OriginalKeys(x, l, i);
        assert Placed(at, UpTo(i + 1)) == UpTo(i + 1);
      } else {
        BranchKeys(x, l, j, i);
        assert Placed(at, UpTo(i + 1)) == at[..i + 1];
      }
    }
  }

  lemma PlacedToken(x: Input, l: Layout, j: nat, i: nat)
    requires Accepted(l) && InputFor(x, l) && j < |l.branches| && BranchOk(l, j)
    requires i < l.branches[j].visiblePrefixEnd + |l.probeIds|
    ensures var at := Place(l.branches[j], |l.probeIds|);
            && at[i] < |l.sequenceIds|
            && x.tokens[at[i]] == SeparateTokens(l, j)[i]
            && x.positions[at[i]] == i
  {
    var b := l.branches[j];
    var at := Place(b, |l.probeIds|);
    assert x.tokens[at[i]] == l.sequenceIds[at[i]] by {
      assert x.tokens[..|l.sequenceIds|][at[i]] == l.sequenceIds[at[i]];
    }
    assert x.positions[at[i]] == l.positionIds[at[i]] by {
      assert x.positions[..|l.sequenceIds|][at[i]] == l.positionIds[at[i]];
    }
    if i < b.visiblePrefixEnd {
      assert l.positionIds[..l.originalLength][i] == Range(0, l.originalLength)[i];
    } else {
      var t := i - b.visiblePrefixEnd;
      assert l.sequenceIds[b.probeStart..b.probeEnd][t] == l.probeIds[t];
      assert l.positionIds[b.probeStart..b.probeEnd][t] == Range(b.visiblePrefixEnd, |l.probeIds|)[t];
    }
  }

  /** ... so one packed forward equals K separate forwards: at every depth of every model, probe
      token t of branch j has the state of position visiblePrefixEnd + t of the causal sequence
      prefix + probe, whatever padding the batch added. */
  lemma PackedEqualsSeparate<H>(m: Model<H>, x: Input, l: Layout, j: nat, depth: nat, t: nat)
    requires Accepted(l) && InputFor(x, l) && j < |l.branches| && depth <= |m.layers|
    requires t < |l.probeIds|
    ensures BranchOk(l, j)
    ensures Hidden(m, x, depth, l.branches[j].probeStart + t)
         == Hidden(m, Standalone(SeparateTokens(l, j)), depth, l.branches[j].visiblePrefixEnd + t)
  {
    hide Hidden, Embeds, InputFor, Accepted;
    BranchEmbeds(x, l, j);
    var at := Place(l.branches[j], |l.probeIds|);
    var i := l.branches[j].visiblePrefixEnd + t;
    assert at[i] == l.branches[j].probeStart + t;
    ForwardIsLocal(m, x, Standalone(SeparateTokens(l, j)), at, depth, i);
  }

  /** Packing never changes an original token: its state is that of the unpacked rollout. */
  lemma OriginalsUnchanged<H>(m: Model<H>, x: Input, l: Layout, depth: nat, q: nat)
    requires Accepted(l) && InputFor(x, l) && depth <= |m.layers| && q < l.originalLength
    ensures Hidden(m, x, depth, q) == Hidden(m, Standalone(PromptOf(l) + ResponseOf(l)), depth, q)
  {
    var y := Standalone(PromptOf(l) + ResponseOf(l));
    var at := UpTo(l.originalLength);
    forall i | 0 <= i < |at|
      ensures x.tokens[at[i]] == y.tokens[i]
      ensures x.positions[at[i]] == y.positions[i]
      ensures Visible(x.mask[at[i]]) == Placed(at, Visible(y.mask[i]))
    {
      assert x.tokens[..|l.sequenceIds|][i] == l.sequenceIds[i];
      assert x.positions[..|l.sequenceIds|][i] == l.positionIds[i];
      assert l.positionIds[..l.originalLength][i] == Range(0, l.originalLength)[i];
      OriginalKeys(x, l, i);
      StandaloneKeys(y.tokens, i);
      assert Placed(at, UpTo(i + 1)) == UpTo(i + 1);
    }
    ForwardIsLocal(m, x, y, at, depth, q);
  }

  /** In the packed sequence a query sees exactly one key at each logical position from zero to
      its own, and none beyond: the visible positions, in key order, are 0, 1, ..., own. */
  lemma OneKeyPerPosition(x: Input, l: Layout, q: nat)
    requires Accepted(l) && InputFor(x, l) && q < |l.sequenceIds|
    ensures var keys := Visible(x.mask[q]);
            && x.positions[q] >= 0 && |keys| == x.positions[q] + 1
            && forall p :: 0 <= p <= x.positions[q] ==> x.positions[keys[p]] == p
  {
    if q < l.originalLength {
      OriginalKeys(x, l, q);
      forall p | 0 <= p <= q ensures x.positions[p] == p {
        assert x.positions[..|l.sequenceIds|][p] == l.positionIds[p];
        assert l.positionIds[..l.originalLength][p] == Range(0, l.originalLength)[p];
      }
    } else {
      var j := OwningBranch(l, q, |l.branches|);
      assert BranchOk(l, j);
      var b := l.branches[j];
      var at := Place(b, |l.probeIds|);
      var i := b.visiblePrefixEnd + (q - b.probeStart);
      assert at[i] == q;
      BranchKeys(x, l, j, i);
      forall p | 0 <= p <= i ensures x.positions[at[p]] == p {
        PlacedToken(x, l, j, p);
      }
    }
  }

  lemma {:induction false} OwningBranch(l: Layout, q: nat, k: nat) returns (j: nat)
    requires Accepted(l) && k <= |l.branches| && l.originalLength <= q < PreviousEnd(l, k)
    ensures j < k && InBranch(l.branches[j], q)
    decreases k
  {
    assert BranchOk(l, k - 1);
    if q >= l.branches[k - 1].probeStart {
      j := k - 1;
    } else {
      j := OwningBranch(l, q, k - 1);
    }
  }

  // ----- batching -----

  /** Row `row` of the padded tensors, as a model input. */
  ghost function RowInput(ids: array2<int>, positions: array2<int>, attention: array3<bool>, row: nat): (x: Input)
    requires row < ids.Length0 && row < positions.Length0 && row < attention.Length0
    requires ids.Length1 == positions.Length1 == attention.Length1 == attention.Length2
    reads ids, positions, attention
    ensures x.Valid() && |x.tokens| == ids.Length1
    ensures forall k :: 0 <= k < ids.Length1 ==> x.tokens[k] == ids[row, k] && x.positions[k] == positions[row, k]
    ensures forall q, k :: 0 <= q < ids.Length1 && 0 <= k < ids.Length1 ==> x.mask[q][k] == attention[row, q, k]
  {
    var n := ids.Length1;
    Input(seq(n, k requires 0 <= k < n reads ids => ids[row, k]),
          seq(n, k requires 0 <= k < n reads positions => positions[row, k]),
          seq(n, q requires 0 <= q < n reads attention =>
            seq(n, k requires 0 <= k < n reads attention => attention[row, q, k])))
  }

  ghost predicate RowHolds(ids: array2<int>, positions: array2<int>, attention: array3<bool>, row: nat, l: Layout)
    requires row < ids.Length0 && row < positions.Length0 && row < attention.Length0
    requires ids.Length1 == positions.Length1 == attention.Length1 == attention.Length2
    reads ids, positions, attention
  {
    var n := |l.sequenceIds|;
    && n == |l.positionIds| <= ids.Length1
    && (forall k :: 0 <= k < n ==> ids[row, k] == l.sequenceIds[k] && positions[row, k] == l.positionIds[k])
    && (forall q, k :: 0 <= q < n && 0 <= k < ids.Length1 ==> (attention[row, q, k] <==> k < n && Sees(l, q, k)))
  }

  /** `max(..., default=0)` */
  function Widest(sizes: seq<nat>): (w: nat)
    ensures forall i :: 0 <= i < |sizes| ==> sizes[i] <= w
    ensures w == 0 || w in sizes
  {
    if sizes == [] then 0 else Max(Widest(sizes[..|sizes| - 1]), sizes[|sizes| - 1])
  }

  function Lengths(layouts: seq<Layout>): seq<nat> {
    seq(|layouts|, i requires 0 <= i < |layouts| => |layouts[i].sequenceIds|)
  }

  function StepCounts(layouts: seq<Layout>): seq<nat> {
    seq(|layouts|, i requires 0 <= i < |layouts| => |layouts[i].stepRanges|)
  }

  function BranchCounts(layouts: seq<Layout>): seq<nat> {
    seq(|layouts|, i requires 0 <= i < |layouts| => |layouts[i].branches|)
  }

  /** Row `row` of a mask is true on its first `count` columns. */
  ghost predicate PrefixRow(mask: array2<bool>, row: nat, count: nat)
    requires row < mask.Length0
    reads mask
  {
    count <= mask.Length1 && forall k :: 0 <= k < mask.Length1 ==> (mask[row, k] <==> k < count)
  }

  /** Row `row` holds the ranges, and zeros behind them. */
  ghost predicate RangeRow(a: array3<int>, row: nat, ranges: seq<(int, int)>)
    requires row < a.Length0
    reads a
  {
    && |ranges| <= a.Length1 && a.Length2 == 2
    && (forall k :: 0 <= k < a.Length1 ==> a[row, k, 0] == if k < |ranges| then ranges[k].0 else 0)
    && (forall k :: 0 <= k < a.Length1 ==> a[row, k, 1] == if k < |ranges| then ranges[k].1 else 0)
  }

  /** The rows before `row` are true on their prefixes, the others are false. */
  ghost predicate PrefixRows(mask: array2<bool>, counts: seq<nat>, row: nat)
    requires mask.Length0 == |counts|
    reads mask
  {
    forall r :: 0 <= r < |counts| ==> PrefixRow(mask, r, if r < row then counts[r] else 0)
  }

  ghost predicate RangeRows(a: array3<int>, layouts: seq<Layout>, row: nat)
    requires a.Length0 == |layouts|
    reads a
  {
    && (forall r :: 0 <= r < row && r < |layouts| ==> RangeRow(a, r, layouts[r].stepRanges))
    && forall r :: row <= r < |layouts| ==> RangeRow(a, r, [])
  }

  ghost predicate LengthRows(original: array<int>, response: array<int>, layouts: seq<Layout>, row: nat)
    requires original.Length == response.Length == |layouts|
    reads original, response
  {
    forall r :: 0 <= r < row && r < |layouts| ==>
      original[r] == layouts[r].originalLength && response[r] == layouts[r].responseLength
  }

  /** What else a batch says about each of its rows. */
  datatype Extents = Extents(
    sequenceMask: array2<bool>,
    originalLengths: array<int>,
    responseLengths: array<int>,
    stepRanges: array3<int>,
    stepMask: array2<bool>,
    branchMask: array2<bool>)
  {
    predicate Rows(n: nat) {
      && sequenceMask.Length0 == stepRanges.Length0 == stepMask.Length0 == branchMask.Length0 == n
      && originalLengths.Length == responseLengths.Length == n
      && stepRanges.Length1 == stepMask.Length1 && stepRanges.Length2 == 2
    }

    ghost predicate Holds(row: nat, l: Layout)
      requires Rows(sequenceMask.Length0) && row < sequenceMask.Length0
      reads sequenceMask, originalLengths, responseLengths, stepRanges, stepMask, branchMask
    {
      && PrefixRow(sequenceMask, row, |l.sequenceIds|)
      && originalLengths[row] == l.originalLength && responseLengths[row] == l.responseLength
      && RangeRow(stepRanges, row, l.stepRanges)
      && PrefixRow(stepMask, row, |l.stepRanges|)
      && PrefixRow(branchMask, row, |l.branches|)
    }

    /** The rows before `row` hold their layouts, the others are still blank. */
    ghost predicate Filled(layouts: seq<Layout>, row: nat)
      requires Rows(|layouts|)
      reads sequenceMask, originalLengths, responseLengths, stepRanges, stepMask, branchMask
    {
      && PrefixRows(sequenceMask, Lengths(layouts), row)
      && PrefixRows(stepMask, StepCounts(layouts), row)
      && PrefixRows(branchMask, BranchCounts(layouts), row)
      && RangeRows(stepRanges, layouts, row)
      && LengthRows(originalLengths, responseLengths, layouts, row)
    }

    predicate Wide(layouts: seq<Layout>) {
      && sequenceMask.Length1 == Widest(Lengths(layouts))
      && stepMask.Length1 == Widest(StepCounts(layouts))
      && branchMask.Length1 == Widest(BranchCounts(layouts))
      && sequenceMask != stepMask && sequenceMask != branchMask && stepMask != branchMask
      && originalLengths != responseLengths
    }
  }

  datatype Batch = Batch(ids: array2<int>, positions: array2<int>, attention: array3<bool>, extents: Extents)

  ghost predicate BatchHolds(b: Batch, layouts: seq<Layout>)
    reads b.ids, b.positions, b.attention
    reads b.extents.sequenceMask, b.extents.originalLengths, b.extents.responseLengths
    reads b.extents.stepRanges, b.extents.stepMask, b.extents.branchMask
  {
    && b.ids.Length0 == b.positions.Length0 == b.attention.Length0 == |layouts|
    && b.ids.Length1 == b.positions.Length1 == b.attention.Length1 == b.attention.Length2
    && b.ids.Length1 == b.extents.sequenceMask.Length1
    && b.extents.Rows(|layouts|)
    && forall row :: 0 <= row < |layouts| ==>
      InputFor(RowInput(b.ids, b.positions, b.attention, row), layouts[row]) && b.extents.Holds(row, layouts[row])
  }

  /** Every row of a padded batch is an input for its own layout, padding is never visible, and the
      row's step ranges, masks and lengths are its layout's. */
  method BuildBatch(layouts: seq<Layout>, padToken: int) returns (r: Result<Batch>)
    ensures r.Ok? <==> layouts != [] && forall i :: 0 <= i < |layouts| ==> Accepted(layouts[i])
    ensures r.Ok? ==> BatchHolds(r.value, layouts) && r.value.extents.Wide(layouts)
  {
    if layouts == [] {
      return Err("empty batch");
    }
    for i := 0 to |layouts|
      invariant forall k :: 0 <= k < i ==> Accepted(layouts[k])
    {
      var valid := ValidateLayout(layouts[i]);
      if !valid {
        return Err("layout");
      }
    }
    var batch := PadLayouts(layouts, padToken);
    return Ok(batch);
  }

  method PadLayouts(layouts: seq<Layout>, padToken: int) returns (b: Batch)
    requires layouts != [] && forall i :: 0 <= i < |layouts| ==> Accepted(layouts[i])
    ensures BatchHolds(b, layouts) && b.extents.Wide(layouts)
  {
    hide InputFor, TensorRows, Extents.Filled, Extents.Holds, Accepted, Widest;
    var n := |layouts|;
    var ids, positions, attention := NewTensors(layouts, padToken);
    var extents := NewExtents(layouts);
    for row := 0 to n
      invariant fresh(ids) && fresh(positions) && fresh(attention)
      invariant TensorRows(ids, positions, attention, layouts, row) && extents.Filled(layouts, row)
    {
      FillTensors(layouts, row, ids, positions, attention);
      FillExtents(layouts, row, extents);
    }
    forall row | 0 <= row < n
      ensures InputFor(RowInput(ids, positions, attention, row), layouts[row]) && extents.Holds(row, layouts[row])
    {
      RowIsInput(ids, positions, attention, row, layouts);
      FilledHolds(extents, layouts, row);
    }
    b := Batch(ids, positions, attention, extents);
  }

  predicate Shaped(ids: array2<int>, positions: array2<int>, attention: array3<bool>, layouts: seq<Layout>) {
    && ids.Length0 == positions.Length0 == attention.Length0 == |layouts|
    && ids.Length1 == positions.Length1 == attention.Length1 == attention.Length2 == Widest(Lengths(layouts))
    && ids != positions
  }

  /** The rows before `row` hold their layouts, the others see nothing yet. */
  ghost predicate TensorRows(ids: array2<int>, positions: array2<int>, attention: array3<bool>,
                             layouts: seq<Layout>, row: nat)
    requires Shaped(ids, positions, attention, layouts)
    reads ids, positions, attention
  {
    && (forall r :: 0 <= r < row && r < |layouts| ==> RowHolds(ids, positions, attention, r, layouts[r]))
    && forall r, q, k :: row <= r < |layouts| && 0 <= q < ids.Length1 && 0 <= k < ids.Length1 ==> !attention[r, q, k]
  }

  method NewTensors(layouts: seq<Layout>, padToken: int)
    returns (ids: array2<int>, positions: array2<int>, attention: array3<bool>)
    ensures fresh(ids) && fresh(positions) && fresh(attention)
    ensures Shaped(ids, positions, attention, layouts) && TensorRows(ids, positions, attention, layouts, 0)
  {
    var n, width := |layouts|, Widest(Lengths(layouts));
    ids := new int[n, width]((r, k) => padToken);
    positions := new int[n, width]((r, k) => 0);
    attention := new bool[n, width, width]((r, q, k) => false);
  }

  method FillTensors(layouts: seq<Layout>, row: nat, ids: array2<int>, positions: array2<int>, attention: array3<bool>)
    requires Shaped(ids, positions, attention, layouts) && row < |layouts| && Accepted(layouts[row])
    requires TensorRows(ids, positions, attention, layouts, row)
    modifies ids, positions, attention
    ensures TensorRows(ids, positions, attention, layouts, row + 1)
  {
    hide Accepted, Widest;
    assert |layouts[row].sequenceIds| == Lengths(layouts)[row];
    FillRow(layouts[row], row, ids, positions, attention);
    forall r | 0 <= r < row ensures RowHolds(ids, positions, attention, r, layouts[r]) {
      assert old(RowHolds(ids, positions, attention, r, layouts[r]));
    }
  }

  lemma FilledHolds(e: Extents, layouts: seq<Layout>, row: nat)
    requires e.Rows(|layouts|) && e.Filled(layouts, |layouts|) && row < |layouts|
    ensures e.Holds(row, layouts[row])
  {
    hide PrefixRow, RangeRow;
    assert PrefixRow(e.sequenceMask, row, Lengths(layouts)[row]);
    assert PrefixRow(e.stepMask, row, StepCounts(layouts)[row]);
    assert PrefixRow(e.branchMask, row, BranchCounts(layouts)[row]);
  }

  lemma FitsWidths(layouts: seq<Layout>, row: nat)
    requires row < |layouts|
    ensures |layouts[row].sequenceIds| <= Widest(Lengths(layouts))
    ensures |layouts[row].stepRanges| <= Widest(StepCounts(layouts))
    ensures |layouts[row].branches| <= Widest(BranchCounts(layouts))
  {
    assert Lengths(layouts)[row] <= Widest(Lengths(layouts));
    assert StepCounts(layouts)[row] <= Widest(StepCounts(layouts));
    assert BranchCounts(layouts)[row] <= Widest(BranchCounts(layouts));
  }

  method NewExtents(layouts: seq<Layout>) returns (e: Extents)
    ensures e.Rows(|layouts|) && e.Wide(layouts) && e.Filled(layouts, 0)
    ensures fresh(e.sequenceMask) && fresh(e.originalLengths) && fresh(e.responseLengths)
    ensures fresh(e.stepRanges) && fresh(e.stepMask) && fresh(e.branchMask)
  {
    hide PrefixRows, RangeRows, Widest;
    var n := |layouts|;
    var sequenceMask := NewMask(Lengths(layouts));
    var originalLengths := new int[n];
    var responseLengths := new int[n];
    var stepRanges := NewRanges(layouts);
    var stepMask := NewMask(StepCounts(layouts));
    var branchMask := NewMask(BranchCounts(layouts));
    e := Extents(sequenceMask, originalLengths, responseLengths, stepRanges, stepMask, branchMask);
  }

  method NewMask(counts: seq<nat>) returns (mask: array2<bool>)
    ensures fresh(mask) && mask.Length0 == |counts| && mask.Length1 == Widest(counts) && PrefixRows(mask, counts, 0)
  {
    mask := new bool[|counts|, Widest(counts)]((r, k) => false);
    assert forall r :: 0 <= r < |counts| ==> PrefixRow(mask, r, 0);
  }

  method NewRanges(layouts: seq<Layout>) returns (ranges: array3<int>)
    ensures fresh(ranges) && ranges.Length0 == |layouts|
    ensures ranges.Length1 == Widest(StepCounts(layouts)) && ranges.Length2 == 2
    ensures RangeRows(ranges, layouts, 0)
  {
    ranges := new int[|layouts|, Widest(StepCounts(layouts)), 2]((r, k, side) => 0);
    assert forall r :: 0 <= r < |layouts| ==> RangeRow(ranges, r, []);
  }

  /** The rest of one row: its masks, lengths and step ranges. */
  method FillExtents(layouts: seq<Layout>, row: nat, e: Extents)
    requires e.Rows(|layouts|) && e.Wide(layouts) && row < |layouts| && e.Filled(layouts, row)
    modifies e.sequenceMask, e.originalLengths, e.responseLengths, e.stepRanges, e.stepMask, e.branchMask
    ensures e.Filled(layouts, row + 1)
  {
    hide PrefixRows, RangeRows, Widest;
    FillPrefix(e.sequenceMask, Lengths(layouts), row);
    FillLengths(e.originalLengths, e.responseLengths, layouts, row);
    FillRanges(e.stepRanges, layouts, row);
    FillPrefix(e.stepMask, StepCounts(layouts), row);
    FillPrefix(e.branchMask, BranchCounts(layouts), row);
  }

  /** `mask[row, :count] = True` */
  method FillPrefix(mask: array2<bool>, counts: seq<nat>, row: nat)
    requires mask.Length0 == |counts| && mask.Length1 == Widest(counts) && row < |counts|
    requires PrefixRows(mask, counts, row)
    modifies mask
    ensures PrefixRows(mask, counts, row + 1)
  {
    forall k | 0 <= k < counts[row] {
      mask[row, k] := true;
    }
  }

  method FillRanges(a: array3<int>, layouts: seq<Layout>, row: nat)
    requires a.Length0 == |layouts| && a.Length1 == Widest(StepCounts(layouts)) && row < |layouts|
    requires RangeRows(a, layouts, row)
    modifies a
    ensures RangeRows(a, layouts, row + 1)
  {
    hide Widest;
    assert |layouts[row].stepRanges| == StepCounts(layouts)[row];
    assert RangeRow(a, row, []);
    WriteRanges(a, row, layouts[row].stepRanges);
    forall r | 0 <= r < row ensures RangeRow(a, r, layouts[r].stepRanges) {
      assert old(RangeRow(a, r, layouts[r].stepRanges));
    }
    forall r | row < r < |layouts| ensures RangeRow(a, r, []) {
      assert old(RangeRow(a, r, []));
    }
  }

  method WriteRanges(a: array3<int>, row: nat, ranges: seq<(int, int)>)
    requires row < a.Length0 && |ranges| <= a.Length1 && RangeRow(a, row, [])
    modifies a
    ensures RangeRow(a, row, ranges)
    ensures forall r, k, side :: 0 <= r < a.Length0 && 0 <= k < a.Length1 && 0 <= side < a.Length2 && r != row ==>
      a[r, k, side] == old(a[r, k, side])
  {
    forall k | 0 <= k < |ranges| {
      a[row, k, 0] := ranges[k].0;
    }
    forall k | 0 <= k < |ranges| {
      a[row, k, 1] := ranges[k].1;
    }
  }

  method FillLengths(original: array<int>, response: array<int>, layouts: seq<Layout>, row: nat)
    requires original.Length == response.Length == |layouts| && original != response && row < |layouts|
    requires LengthRows(original, response, layouts, row)
    modifies original, response
    ensures LengthRows(original, response, layouts, row + 1)
  {
    original[row] := layouts[row].originalLength;
    response[row] := layouts[row].responseLength;
  }

  method FillRow(l: Layout, row: nat, ids: array2<int>, positions: array2<int>, attention: array3<bool>)
    requires Accepted(l) && row < ids.Length0 && row < positions.Length0 && row < attention.Length0
    requires ids.Length1 == positions.Length1 == attention.Length1 == attention.Length2
    requires |l.sequenceIds| <= ids.Length1 && ids != positions
    requires forall q, k :: 0 <= q < ids.Length1 && 0 <= k < ids.Length1 ==> !attention[row, q, k]
    modifies ids, positions, attention
    ensures RowHolds(ids, positions, attention, row, l)
    ensures forall r, k :: 0 <= r < ids.Length0 && 0 <= k < ids.Length1 && r != row ==> ids[r, k] == old(ids[r, k])
    ensures forall r, k :: 0 <= r < positions.Length0 && 0 <= k < ids.Length1 && r != row ==>
      positions[r, k] == old(positions[r, k])
    ensures forall r, q, k :: 0 <= r < attention.Length0 && 0 <= q < ids.Length1 && 0 <= k < ids.Length1 && r != row ==>
      attention[r, q, k] == old(attention[r, q, k])
  {
    var n := |l.sequenceIds|;
    forall k | 0 <= k < n {
      ids[row, k] := l.sequenceIds[k];
    }
    forall k | 0 <= k < n {
      positions[row, k] := l.positionIds[k];
    }
    var mask := DenseMask(l);
    forall q, k | 0 <= q < n && 0 <= k < n {
      attention[row, q, k] := mask[q, k];
    }
  }

  lemma RowIsInput(ids: array2<int>, positions: array2<int>, attention: array3<bool>, row: nat, layouts: seq<Layout>)
    requires Shaped(ids, positions, attention, layouts) && row < |layouts|
    requires TensorRows(ids, positions, attention, layouts, |layouts|)
    ensures InputFor(RowInput(ids, positions, attention, row), layouts[row])
  {
    var l := layouts[row];
    assert RowHolds(ids, positions, attention, row, l);
    var x := RowInput(ids, positions, attention, row);
    assert x.tokens[..|l.sequenceIds|] == l.sequenceIds;
    assert x.positions[..|l.sequenceIds|] == l.positionIds;
  }

  // ----- scoring -----

  /** The final states of every position of an input. */
  function States<H>(m: Model<H>, x: Input): (r: seq<H>)
    requires x.Valid()
    ensures |r| == |x.tokens|
  {
    seq(|x.tokens|, q requires 0 <= q < |x.tokens| => Hidden(m, x, |m.layers|, q))
  }

  /** Mean probability of the tokens at `targets`, each predicted from the state before it;
      `prob(state, token)` is the softmaxed logit. */
  function MeanProbability<H>(prob: (H, int) -> real, states: seq<H>, ids: seq<int>, targets: seq<int>): real
    requires targets != [] && |ids| <= |states|
    requires forall i :: 0 <= i < |targets| ==> 0 < targets[i] < |ids|
  {
    Sum(TargetProbabilities(prob, states, ids, targets)) / |targets| as real
  }

  function TargetProbabilities<H>(prob: (H, int) -> real, states: seq<H>, ids: seq<int>, targets: seq<int>)
    : (r: seq<real>)
    requires |ids| <= |states| && forall i :: 0 <= i < |targets| ==> 0 < targets[i] < |ids|
    ensures |r| == |targets|
  {
    seq(|targets|, i requires 0 <= i < |targets| => prob(states[targets[i] - 1], ids[targets[i]]))
  }

  /** P_j as a forward of its own would score it: the probe's answer tokens behind the prefix. */
  function SeparateScore<H>(m: Model<H>, prob: (H, int) -> real, l: Layout, j: nat): real
    requires Accepted(l) && j < |l.branches|
  {
    assert BranchOk(l, j);
    AcceptedBranch(l, j);
    var tokens := SeparateTokens(l, j);
    MeanProbability(prob, States(m, Standalone(tokens)), tokens, Shift(AnswersOf(l)[j], l.branches[j].visiblePrefixEnd))
  }

  /** Scores read off one packed, possibly padded forward are the separate scores. */
  method ProbeProbabilities<H>(prob: (H, int) -> real, states: seq<H>, l: Layout, ghost m: Model<H>, ghost x: Input)
    returns (r: Result<seq<real>>)
    requires Accepted(l) ==> InputFor(x, l) && states == States(m, x)
    ensures r.Ok? <==> Accepted(l)
    ensures r.Ok? ==> |r.value| == |l.branches|
    ensures r.Ok? ==> forall j :: 0 <= j < |r.value| ==> r.value[j] == SeparateScore(m, prob, l, j)
    ensures r.Ok? ==> forall j :: 0 <= j < |r.value| ==>
      MeasuredPrefix(l, j).Some? && LocalAnswersOk(AnswersOf(l)[j], |l.probeIds|)
      && r.value[j] == GoldScore(m, prob, MeasuredPrefix(l, j).value, l.probeIds, AnswersOf(l)[j])
  {
    hide SeparateScore, InputFor, MeanProbability, Accepted, BranchOk, States;
    var valid := ValidateLayout(l);
    if !valid {
      return Err("layout");
    }
    InputCovers(x, l);
    var scores := [];
    for j := 0 to |l.branches|
      invariant |scores| == j
      invariant forall i :: 0 <= i < j ==> scores[i] == SeparateScore(m, prob, l, i)
    {
      TargetsInside(l, j);
      PackedScoreIsSeparate(m, prob, x, l, j);
      scores := scores + [MeanProbability(prob, states, l.sequenceIds, l.branches[j].answerPositions)];
    }
    forall j | 0 <= j < |scores|
      ensures MeasuredPrefix(l, j).Some? && LocalAnswersOk(AnswersOf(l)[j], |l.probeIds|)
      ensures scores[j] == GoldScore(m, prob, MeasuredPrefix(l, j).value, l.probeIds, AnswersOf(l)[j])
    {
      SeparateIsGold(m, prob, l, j);
    }
    return Ok(scores);
  }

  /** The rollout up to the end of step j - 1, or the prompt alone. */
  function MeasuredPrefix(l: Layout, j: nat): Option<seq<int>> {
    if !HeaderOk(l) || j > |l.stepRanges| then None else
      var end := if j == 0 then 0 else l.stepRanges[j - 1].1;
      if 0 <= end <= |ResponseOf(l)| then Some(PromptOf(l) + ResponseOf(l)[..end]) else None
  }

  /** What P_j is meant to be: in an ordinary forward of prefix and probe, the mean over the probe's
      answer tokens of the probability each has in the state before it. */
  ghost function GoldScore<H>(m: Model<H>, prob: (H, int) -> real, prefix: seq<int>, probe: seq<int>,
                              answers: seq<int>): real
    requires LocalAnswersOk(answers, |probe|)
  {
    var x := Standalone(prefix + probe);
    Sum(seq(|answers|, i requires 0 <= i < |answers| =>
      prob(Hidden(m, x, |m.layers|, |prefix| + answers[i] - 1), probe[answers[i]]))) / |answers| as real
  }

  /** The separate input of a branch is its measured prefix and the probe. */
  lemma SeparateIsPrefixAndProbe(l: Layout, j: nat)
    requires Accepted(l) && j < |l.branches|
    ensures MeasuredPrefix(l, j).Some? && SeparateTokens(l, j) == MeasuredPrefix(l, j).value + l.probeIds
  {
    assert BranchOk(l, j);
    AcceptedMeasures(l, j);
  }

  lemma SeparateIsGold<H>(m: Model<H>, prob: (H, int) -> real, l: Layout, j: nat)
    requires Accepted(l) && j < |l.branches|
    ensures MeasuredPrefix(l, j).Some? && LocalAnswersOk(AnswersOf(l)[j], |l.probeIds|)
    ensures SeparateScore(m, prob, l, j)
         == GoldScore(m, prob, MeasuredPrefix(l, j).value, l.probeIds, AnswersOf(l)[j])
  {
    hide Hidden, States, Standalone, SeparateTokens, MeanProbability, GoldScore, AnswersOf, Shift, MeasuredPrefix;
    SeparateIsPrefixAndProbe(l, j);
    AcceptedBranch(l, j);
    PrefixLength(l, j);
    ScoresAreGold(m, prob, MeasuredPrefix(l, j).value, l.probeIds, AnswersOf(l)[j]);
  }

  lemma PrefixLength(l: Layout, j: nat)
    requires Accepted(l) && j < |l.branches| && MeasuredPrefix(l, j).Some?
    ensures l.branches[j].visiblePrefixEnd == |MeasuredPrefix(l, j).value|
  {
    AcceptedMeasures(l, j);
  }

  lemma ScoresAreGold<H>(m: Model<H>, prob: (H, int) -> real, prefix: seq<int>, probe: seq<int>, answers: seq<int>)
    requires LocalAnswersOk(answers, |probe|)
    ensures var tokens, targets := prefix + probe, Shift(answers, |prefix|);
      && (forall i :: 0 <= i < |targets| ==> 0 < targets[i] < |tokens|)
      && |States(m, Standalone(tokens))| == |tokens|
      && MeanProbability(prob, States(m, Standalone(tokens)), tokens, targets)
         == GoldScore(m, prob, prefix, probe, answers)
  {
    hide Hidden;
    var tokens, targets := prefix + probe, Shift(answers, |prefix|);
    var gold := seq(|answers|, i requires 0 <= i < |answers| =>
      prob(Hidden(m, Standalone(tokens), |m.layers|, |prefix| + answers[i] - 1), probe[answers[i]]));
    assert TargetProbabilities(prob, States(m, Standalone(tokens)), tokens, targets) == gold;
  }

  lemma TargetsInside(l: Layout, j: nat)
    requires Accepted(l) && j < |l.branches|
    ensures BranchOk(l, j) && l.branches[j].answerPositions != [] && 0 <= l.branches[j].probeStart
    ensures forall i :: 0 <= i < |l.branches[j].answerPositions| ==>
      l.branches[j].probeStart < l.branches[j].answerPositions[i] < l.branches[j].probeEnd <= |l.sequenceIds|
  {
    assert BranchOk(l, j);
  }

  lemma PackedScoreIsSeparate<H>(m: Model<H>, prob: (H, int) -> real, x: Input, l: Layout, j: nat)
    requires Accepted(l) && InputFor(x, l) && j < |l.branches|
    requires BranchOk(l, j)
    requires forall i :: 0 <= i < |l.branches[j].answerPositions| ==>
      0 < l.branches[j].answerPositions[i] < |l.sequenceIds|
    ensures MeanProbability(prob, States(m, x), l.sequenceIds, l.branches[j].answerPositions)
         == SeparateScore(m, prob, l, j)
  {
    hide Hidden, States, Accepted, BranchOk, InputFor, SeparateTokens, Standalone, AnswersOf, Shift;
    ScoreTargets(l, j);
    InputCovers(x, l);
    var b := l.branches[j];
    var tokens := SeparateTokens(l, j);
    var targets := Shift(AnswersOf(l)[j], b.visiblePrefixEnd);
    var packed := TargetProbabilities(prob, States(m, x), l.sequenceIds, b.answerPositions);
    var alone := TargetProbabilities(prob, States(m, Standalone(tokens)), tokens, targets);
    forall i | 0 <= i < |packed|
      ensures packed[i] == alone[i]
    {
      PackedTarget(m, prob, x, l, j, b.answerPositions[i] - b.probeStart);
    }
    assert packed == alone;
  }

  /** Each answer position of a branch and its place in the branch's separate sequence. */
  lemma ScoreTargets(l: Layout, j: nat)
    requires Accepted(l) && j < |l.branches|
    ensures BranchOk(l, j)
    ensures var b := l.branches[j];
            var targets := Shift(AnswersOf(l)[j], b.visiblePrefixEnd);
            && |targets| == |b.answerPositions| > 0
            && |Standalone(SeparateTokens(l, j)).tokens| == |SeparateTokens(l, j)|
            && forall i :: 0 <= i < |targets| ==>
              && 0 < b.answerPositions[i] - b.probeStart < |l.probeIds|
              && targets[i] == b.visiblePrefixEnd + (b.answerPositions[i] - b.probeStart)
              && 0 < targets[i] < |SeparateTokens(l, j)|
  {
    assert BranchOk(l, j);
    AcceptedBranch(l, j);
  }

  lemma PackedTarget<H>(m: Model<H>, prob: (H, int) -> real, x: Input, l: Layout, j: nat, t: nat)
    requires Accepted(l) && InputFor(x, l) && j < |l.branches| && 0 < t < |l.probeIds|
    ensures BranchOk(l, j)
    ensures var b := l.branches[j];
            var tokens := SeparateTokens(l, j);
            && l.sequenceIds[b.probeStart + t] == tokens[b.visiblePrefixEnd + t]
            && States(m, x)[b.probeStart + t - 1] == States(m, Standalone(tokens))[b.visiblePrefixEnd + t - 1]
  {
    hide States, Hidden, SeparateTokens, Standalone, Accepted, BranchOk, InputFor;
    TargetToken(l, j, t);
    InputCovers(x, l);
    var b := l.branches[j];
    StateAt(m, x, b.probeStart + t - 1);
    StateAt(m, Standalone(SeparateTokens(l, j)), b.visiblePrefixEnd + t - 1);
    PackedEqualsSeparate(m, x, l, j, |m.layers|, t - 1);
  }

  lemma InputCovers(x: Input, l: Layout)
    requires InputFor(x, l)
    ensures x.Valid() && |l.sequenceIds| <= |x.tokens|
  {}

  lemma StateAt<H>(m: Model<H>, x: Input, q: nat)
    requires x.Valid() && q < |x.tokens|
    ensures States(m, x)[q] == Hidden(m, x, |m.layers|, q)
  {}

  lemma TargetToken(l: Layout, j: nat, t: nat)
    requires Accepted(l) && j < |l.branches| && t < |l.probeIds|
    ensures BranchOk(l, j)
    ensures var b := l.branches[j];
            && 0 <= b.probeStart && b.probeStart + t < |l.sequenceIds|
            && 0 <= b.visiblePrefixEnd && b.visiblePrefixEnd + t < |SeparateTokens(l, j)|
            && l.sequenceIds[b.probeStart + t] == SeparateTokens(l, j)[b.visiblePrefixEnd + t]
            && |Standalone(SeparateTokens(l, j)).tokens| == |SeparateTokens(l, j)|
  {
    assert BranchOk(l, j);
    var b := l.branches[j];
    assert l.sequenceIds[b.probeStart..b.probeEnd][t] == l.probeIds[t];
  }
}
