/** Token positions of the gold answer inside a tokenized probe. Models utils/answer_probe.py. */
module AnswerProbe {
  import opened Basics

  type Span = (int, int)

  /** An encoded text; tokenizers without an offset mapping give ids only. */
  datatype Encoded = Encoded(ids: seq<int>, mapping: Option<seq<Span>>)

  datatype Tokenizer = Tokenizer(encode: string -> Encoded, decode: seq<int> -> string)

  /** The scored token positions of a tokenized probe. */
  datatype Probe = Probe(ids: seq<int>, positions: seq<int>)

  /** Boundaries recovered from prefix decodes: a prefix that is not a prefix of the probe text
      (half a character, say) holds the preceding boundary. */
  function Boundary(decode: seq<int> -> string, ids: seq<int>, text: string, k: nat): int
    requires k <= |ids|
  {
    if k == 0 then 0
    else if decode(ids[..k]) <= text then |decode(ids[..k])|
    else Boundary(decode, ids, text, k - 1)
  }

  /** The boundary behind k tokens is the length of the last prefix among them that is one of the
      text, or zero. */
  lemma {:induction false} BoundaryIs(decode: seq<int> -> string, ids: seq<int>, text: string, k: nat)
    returns (j: nat)
    requires k <= |ids|
    ensures j <= k && Boundary(decode, ids, text, k) == if j == 0 then 0 else |decode(ids[..j])|
    ensures j > 0 ==> decode(ids[..j]) <= text
    ensures forall i :: j < i <= k ==> !(decode(ids[..i]) <= text)
  {
    if k == 0 || decode(ids[..k]) <= text {
      j := k;
    } else {
      j := BoundaryIs(decode, ids, text, k - 1);
    }
  }

  /** The spans between consecutive boundaries. */
  function Recovered(decode: seq<int> -> string, ids: seq<int>, text: string): (r: seq<Span>)
    ensures |r| == |ids|
  {
    seq(|ids|, p requires 0 <= p < |ids| => (Boundary(decode, ids, text, p), Boundary(decode, ids, text, p + 1)))
  }

  method FallbackOffsets(decode: seq<int> -> string, ids: seq<int>, text: string) returns (r: Result<seq<Span>>)
    ensures r.Ok? <==> Boundary(decode, ids, text, |ids|) == |text|
    ensures r.Ok? ==> r.value == Recovered(decode, ids, text)
  {
    var boundaries := [0];
    for end := 1 to |ids| + 1
      invariant |boundaries| == end
      invariant forall k {:trigger boundaries[k]} :: 0 <= k < end ==> boundaries[k] == Boundary(decode, ids, text, k)
    {
      var decoded := decode(ids[..end]);
      boundaries := boundaries + [if decoded <= text then |decoded| else boundaries[|boundaries| - 1]];
    }
    if boundaries[|boundaries| - 1] != |text| {
      return Err("offsets");
    }
    return Ok(seq(|ids|, i requires 0 <= i < |ids| => (boundaries[i], boundaries[i + 1])));
  }

  /** Some step of a walk from at or below `c` to above it steps across `c`. */
  lemma {:induction false} Crossing(decode: seq<int> -> string, ids: seq<int>, text: string, c: int, n: nat)
    returns (i: nat)
    requires n <= |ids| && 0 <= c < Boundary(decode, ids, text, n)
    ensures i < n && Boundary(decode, ids, text, i) <= c < Boundary(decode, ids, text, i + 1)
  {
    if Boundary(decode, ids, text, n - 1) <= c {
      i := n - 1;
    } else {
      i := Crossing(decode, ids, text, c, n - 1);
    }
  }

  predicate Overlaps(s: Span, start: int, end: int) { s.1 > start && s.0 < end }

  /** A token with text overlaps an answer with text exactly when they share a character. */
  lemma OverlapIsShared(s: Span, start: int, end: int)
    requires s.0 < s.1 && start < end
    ensures Overlaps(s, start, end) <==> exists c :: Between(s.0, c, s.1) && Between(start, c, end)
  {
    if Overlaps(s, start, end) {
      var c := Max(s.0, start);
      assert Between(s.0, c, s.1) && Between(start, c, end);
    }
  }

  predicate Between(low: int, c: int, high: int) { low <= c < high }

  ghost predicate SelectsOverlaps(offsets: seq<Span>, start: int, end: int, positions: seq<int>) {
    && (forall p :: p in positions <==> 0 <= p < |offsets| && Overlaps(offsets[p], start, end))
    && forall i, j :: 0 <= i < j < |positions| ==> positions[i] < positions[j]
  }

  method AnswerPositions(offsets: seq<Span>, start: int, end: int) returns (positions: seq<int>)
    ensures SelectsOverlaps(offsets, start, end, positions)
  {
    positions := [];
    for i := 0 to |offsets|
      invariant forall p :: p in positions <==> 0 <= p < i && Overlaps(offsets[p], start, end)
      invariant forall a :: 0 <= a < |positions| ==> positions[a] < i
      invariant forall a, b :: 0 <= a < b < |positions| ==> positions[a] < positions[b]
    {
      if offsets[i].1 > start && offsets[i].0 < end {
        positions := positions + [i];
      }
    }
  }

  /** Character c of the probe text lies in the span of a selected token. */
  ghost predicate Scored(decode: seq<int> -> string, ids: seq<int>, positions: seq<int>, c: int) {
    exists i :: i in positions && 0 <= i < |ids| && Spans(decode, ids, i, c)
  }

  ghost predicate Spans(decode: seq<int> -> string, ids: seq<int>, i: nat, c: int)
    requires i < |ids|
  {
    Boundary(decode, ids, decode(ids), i) <= c < Boundary(decode, ids, decode(ids), i + 1)
  }

  /** The span of every token: the tokenizer's own mapping, else recovered from prefix decodes;
      none where the mapping has another length or the recovery misses the text's end. */
  function OffsetsOf(t: Tokenizer, text: string): (r: Option<seq<Span>>)
    ensures r.Some? ==> |r.value| == |t.encode(text).ids|
  {
    var e := t.encode(text);
    match e.mapping
    case Some(m) => if |m| == |e.ids| then Some(m) else None
    case None =>
      if Boundary(t.decode, e.ids, text, |e.ids|) != |text| then None
      else Some(Recovered(t.decode, e.ids, text))
  }

  /** The probe round-trips, its tokens have spans, and some span overlaps the answer. */
  ghost predicate Probeable(t: Tokenizer, text: string, start: int, end: int) {
    && t.decode(t.encode(text).ids) == text
    && OffsetsOf(t, text).Some?
    && exists p :: 0 <= p < |OffsetsOf(t, text).value| && Overlaps(OffsetsOf(t, text).value[p], start, end)
  }

  /** Build the probe: it succeeds exactly on an answer that is not empty and a probeable text, and
      selects exactly the tokens whose span overlaps the answer. */
  method BuildAnswerProbe(t: Tokenizer, prefix: string, answer: string, suffix: string) returns (r: Result<Probe>)
    ensures r.Ok? <==>
      answer != "" && Probeable(t, prefix + answer + suffix, |prefix|, |prefix| + |answer|)
    ensures r.Ok? ==> r.value.ids == t.encode(prefix + answer + suffix).ids && r.value.positions != []
    ensures r.Ok? ==>
      SelectsOverlaps(OffsetsOf(t, prefix + answer + suffix).value, |prefix|, |prefix| + |answer|, r.value.positions)
  {
    if answer == "" {
      return Err("empty answer");
    }
    var text := prefix + answer + suffix;
    var start, end := |prefix|, |prefix| + |answer|;
    var encoded := t.encode(text);
    var ids := encoded.ids;
    var offsets: seq<Span>;
    if encoded.mapping.Some? {
      offsets := encoded.mapping.value;
    } else {
      var recovered := FallbackOffsets(t.decode, ids, text);
      if recovered.Err? {
        return Err(recovered.reason);
      }
      offsets := recovered.value;
    }
    if |offsets| != |ids| {
      return Err("offset mapping");
    }
    if t.decode(ids) != text {
      return Err("round trip");
    }
    assert OffsetsOf(t, text) == Some(offsets);
    var positions := AnswerPositions(offsets, start, end);
    if positions == [] {
      return Err("no overlap");
    }
    assert positions[0] in positions;
    return Ok(Probe(ids, positions));
  }

  /** Without an offset mapping an answer that is not empty is probeable exactly when some token was
      produced and the ids decode back to the text; and then every answer character lies in the
      span of a selected token, even where prefix lengths go backwards. */
  lemma FallbackProbeable(t: Tokenizer, text: string, start: int, end: int)
    requires t.encode(text).mapping.None? && 0 <= start < end <= |text|
    ensures Probeable(t, text, start, end) <==> t.encode(text).ids != [] && t.decode(t.encode(text).ids) == text
    ensures Probeable(t, text, start, end) ==>
      forall c, positions :: start <= c < end && SelectsOverlaps(OffsetsOf(t, text).value, start, end, positions) ==>
        Scored(t.decode, t.encode(text).ids, positions, c)
  {
    var ids := t.encode(text).ids;
    if ids != [] && t.decode(ids) == text {
      assert ids[..|ids|] == ids;
      var i := Covering(t, text, start, end, start);
      forall c, positions | start <= c < end && SelectsOverlaps(OffsetsOf(t, text).value, start, end, positions)
        ensures Scored(t.decode, ids, positions, c)
      {
        var i := Covering(t, text, start, end, c);
        assert i in positions;
      }
    }
  }

  /** Some token's span covers an answer character, and overlaps the answer. */
  lemma Covering(t: Tokenizer, text: string, start: int, end: int, c: int) returns (i: nat)
    requires t.encode(text).mapping.None? && t.encode(text).ids != [] && t.decode(t.encode(text).ids) == text
    requires 0 <= start <= c < end <= |text|
    ensures OffsetsOf(t, text).Some? && i < |t.encode(text).ids| && Spans(t.decode, t.encode(text).ids, i, c)
    ensures Overlaps(OffsetsOf(t, text).value[i], start, end)
  {
    var ids := t.encode(text).ids;
    assert ids[..|ids|] == ids;
    i := Crossing(t.decode, ids, text, c, |ids|);
  }

  /** Where prefix lengths never shrink, the spans tile the probe text. */
  lemma {:induction false} SpansTile(decode: seq<int> -> string, ids: seq<int>, text: string, i: nat, j: nat)
    requires i <= j <= |ids|
    requires forall a, b :: 0 <= a <= b <= |ids| ==> |decode(ids[..a])| <= |decode(ids[..b])|
    ensures 0 <= Boundary(decode, ids, text, i) <= Boundary(decode, ids, text, j) <= |text|
    ensures j > 0 ==> Boundary(decode, ids, text, j) <= |decode(ids[..j])|
    decreases j, i
  {
    if j > 0 {
      SpansTile(decode, ids, text, j - 1, j - 1);
      if i < j {
        SpansTile(decode, ids, text, i, j - 1);
      }
      assert |decode(ids[..j - 1])| <= |decode(ids[..j])|;
    }
  }
}
