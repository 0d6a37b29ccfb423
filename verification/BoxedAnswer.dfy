/** Escape-aware brace matching and extraction of the final boxed answer.
    Models utils/answer_verifier.py. */
module BoxedAnswer {
  import opened Basics

  /** Python's character classes, of which only these facts are used. */
  datatype CharClass = CharClass(isSpace: char -> bool, isWord: char -> bool) {
    predicate Sane() {
      && !isSpace('{') && !isSpace('\\')
      && !isWord('{') && forall c: char :: isSpace(c) ==> !isWord(c)
    }
  }

  // ----- repair -----

  function RepairChar(c: char): string {
    if c == '\r' then "\n"
    else if c == '\U{200b}' || c == '\U{feff}' then ""
    else if c == '\U{fe68}' || c == '\U{ff3c}' then "\\"
    else if c == '\U{2212}' || c == '\U{2013}' then "-"
    else if c == '\U{ff0b}' then "+"
    else [c]
  }

  /** Line ends to a line feed, invisible marks dropped, look-alikes to ASCII. */
  function Repair(text: string): string {
    if text == "" then ""
    else if |text| >= 2 && text[0] == '\r' && text[1] == '\n' then "\n" + Repair(text[2..])
    else RepairChar(text[0]) + Repair(text[1..])
  }

  /** `text.replace(what, put)`: leftmost occurrences first, none inside what was put in. */
  function ReplaceAll(text: string, what: string, put: string): string
    requires what != ""
  {
    if |text| < |what| then text
    else if text[..|what|] == what then put + ReplaceAll(text[|what|..], what, put)
    else [text[0]] + ReplaceAll(text[1..], what, put)
  }

  /** The eight replacements of single characters that follow the one of CR LF, in their order. */
  function ReplaceMarks(text: string): string {
    var t1 := ReplaceAll(text, "\r", "\n");
    var t2 := ReplaceAll(ReplaceAll(t1, "\U{200b}", ""), "\U{feff}", "");
    var t3 := ReplaceAll(ReplaceAll(t2, "\U{fe68}", "\\"), "\U{ff3c}", "\\");
    var t4 := ReplaceAll(ReplaceAll(t3, "\U{2212}", "-"), "\U{2013}", "-");
    ReplaceAll(t4, "\U{ff0b}", "+")
  }

  /** The replacements one after another amount to the single pass. */
  lemma {:induction false} RepairIsReplacements(text: string)
    ensures ReplaceMarks(ReplaceAll(text, "\r\n", "\n")) == Repair(text)
  {
    if text == "" {
      MarksOfNothing();
    } else if |text| >= 2 && text[0] == '\r' && text[1] == '\n' {
      assert text[..2] == "\r\n";
      RepairIsReplacements(text[2..]);
      MarksOfOne('\n', ReplaceAll(text[2..], "\r\n", "\n"));
    } else {
      RepairIsReplacements(text[1..]);
      RestOfLine(text);
      MarksOfOne(text[0], ReplaceAll(text[1..], "\r\n", "\n"));
    }
  }

  lemma MarksOfNothing()
    ensures ReplaceMarks("") == ""
  {}

  lemma RestOfLine(text: string)
    requires text != "" && !(|text| >= 2 && text[0] == '\r' && text[1] == '\n')
    ensures ReplaceAll(text, "\r\n", "\n") == [text[0]] + ReplaceAll(text[1..], "\r\n", "\n")
  {
    assert |text| >= 2 ==> text[..2] != "\r\n" by {
      if |text| >= 2 {
        assert text[..2][0] == text[0] && text[..2][1] == text[1];
      }
    }
  }

  /** Replacing a single character goes through a concatenation. */
  lemma {:induction false} ReplaceDistributes(a: string, b: string, what: string, put: string)
    requires |what| == 1
    ensures ReplaceAll(a + b, what, put) == ReplaceAll(a, what, put) + ReplaceAll(b, what, put)
  {
    if a == "" {
      assert a + b == b;
    } else {
      hide ReplaceAll;
      var rest := a[1..];
      ReplaceDistributes(rest, b, what, put);
      ReplaceStep(a, what, put);
      ReplaceStep(a + b, what, put);
      Tail(a, b);
      Associative(if a[0] == what[0] then put else [a[0]], ReplaceAll(rest, what, put), ReplaceAll(b, what, put));
    }
  }

  lemma ReplaceStep(s: string, what: string, put: string)
    requires |what| == 1 && s != ""
    ensures ReplaceAll(s, what, put) == (if s[0] == what[0] then put else [s[0]]) + ReplaceAll(s[1..], what, put)
  {
    assert s[..1] == [s[0]] && what == [what[0]];
  }

  lemma Tail(a: string, b: string)
    requires a != ""
    ensures (a + b)[0] == a[0] && (a + b)[1..] == a[1..] + b
  {}

  lemma Associative(a: string, b: string, c: string)
    ensures (a + b) + c == a + (b + c)
  {}

  lemma MarksDistribute(a: string, b: string)
    ensures ReplaceMarks(a + b) == ReplaceMarks(a) + ReplaceMarks(b)
  {
    hide ReplaceAll;
    var a1, b1 := ReplaceAll(a, "\r", "\n"), ReplaceAll(b, "\r", "\n");
    ReplaceDistributes(a, b, "\r", "\n");
    var a2, b2 := ReplaceAll(a1, "\U{200b}", ""), ReplaceAll(b1, "\U{200b}", "");
    ReplaceDistributes(a1, b1, "\U{200b}", "");
    var a3, b3 := ReplaceAll(a2, "\U{feff}", ""), ReplaceAll(b2, "\U{feff}", "");
    ReplaceDistributes(a2, b2, "\U{feff}", "");
    var a4, b4 := ReplaceAll(a3, "\U{fe68}", "\\"), ReplaceAll(b3, "\U{fe68}", "\\");
    ReplaceDistributes(a3, b3, "\U{fe68}", "\\");
    var a5, b5 := ReplaceAll(a4, "\U{ff3c}", "\\"), ReplaceAll(b4, "\U{ff3c}", "\\");
    ReplaceDistributes(a4, b4, "\U{ff3c}", "\\");
    var a6, b6 := ReplaceAll(a5, "\U{2212}", "-"), ReplaceAll(b5, "\U{2212}", "-");
    ReplaceDistributes(a5, b5, "\U{2212}", "-");
    var a7, b7 := ReplaceAll(a6, "\U{2013}", "-"), ReplaceAll(b6, "\U{2013}", "-");
    ReplaceDistributes(a6, b6, "\U{2013}", "-");
    ReplaceDistributes(a7, b7, "\U{ff0b}", "+");
  }

  lemma ReplaceInChar(c: char, what: string, put: string)
    requires |what| == 1
    ensures ReplaceAll([c], what, put) == if c == what[0] then put else [c]
    ensures ReplaceAll("", what, put) == ""
  {
    assert [c][..1] == [c] && [c][1..] == "";
  }

  lemma MarksOfChar(c: char)
    ensures ReplaceMarks([c]) == RepairChar(c)
  {
    hide ReplaceAll;
    ReplaceInChar(c, "\r", "\n");
    var d := if c == '\r' then '\n' else c;
    ReplaceInChar(d, "\U{200b}", "");
    ReplaceInChar(d, "\U{feff}", "");
    ReplaceInChar(d, "\U{fe68}", "\\");
    var e := if d == '\U{fe68}' then '\\' else d;
    ReplaceInChar(e, "\U{ff3c}", "\\");
    var f := if e == '\U{ff3c}' then '\\' else e;
    ReplaceInChar(f, "\U{2212}", "-");
    var g := if f == '\U{2212}' then '-' else f;
    ReplaceInChar(g, "\U{2013}", "-");
    var h := if g == '\U{2013}' then '-' else g;
    ReplaceInChar(h, "\U{ff0b}", "+");
  }

  lemma MarksOfOne(c: char, rest: string)
    ensures ReplaceMarks([c] + rest) == RepairChar(c) + ReplaceMarks(rest)
  {
    hide ReplaceMarks, RepairChar;
    MarksDistribute([c], rest);
    MarksOfChar(c);
  }

  predicate Repaired(text: string) { forall i :: 0 <= i < |text| ==> RepairChar(text[i]) == [text[i]] }

  lemma {:induction false} RepairRepairs(text: string)
    ensures Repaired(Repair(text))
  {
    if text != "" {
      if |text| >= 2 && text[0] == '\r' && text[1] == '\n' {
        RepairRepairs(text[2..]);
      } else {
        RepairRepairs(text[1..]);
        assert Repaired(RepairChar(text[0]));
      }
    }
  }

  lemma {:induction false} RepairedIsFixed(text: string)
    requires Repaired(text)
    ensures Repair(text) == text
  {
    if text != "" {
      assert RepairChar(text[0]) == [text[0]];
      RepairedIsFixed(text[1..]);
    }
  }

  /** Repairing twice changes nothing more. */
  lemma RepairIdempotent(text: string)
    ensures Repair(Repair(text)) == Repair(text)
  {
    RepairRepairs(text);
    RepairedIsFixed(Repair(text));
  }

  // ----- escapes -----

  /** A position is escaped when the backslash in front of it is not itself escaped. */
  predicate Escaped(text: string, position: nat)
    requires position <= |text|
  {
    position > 0 && text[position - 1] == '\\' && !Escaped(text, position - 1)
  }

  /** Counting the backslash run backwards and taking its parity decides the same thing. */
  method IsEscaped(text: string, position: nat) returns (r: bool)
    requires position <= |text|
    ensures r == Escaped(text, position)
  {
    var backslashes, p := 0, position - 1;
    while p >= 0 && text[p] == '\\'
      invariant -1 <= p < position || (p == -1 && position == 0)
      invariant Escaped(text, position)
        == (if backslashes % 2 == 0 then Escaped(text, p + 1) else !Escaped(text, p + 1))
      invariant backslashes >= 0
    {
      backslashes := backslashes + 1;
      p := p - 1;
    }
    return backslashes % 2 == 1;
  }

  // ----- matching -----

  /** +1 for an unescaped opening brace, -1 for an unescaped closing one. */
  function Delta(text: string, i: nat): int
    requires i < |text|
  {
    if Escaped(text, i) then 0 else if text[i] == '{' then 1 else if text[i] == '}' then -1 else 0
  }

  /** Net nesting of text[start..end], escapes read in the whole text. */
  function Nest(text: string, start: nat, end: nat): int
    requires start <= end <= |text|
  {
    if start == end then 0 else Nest(text, start, end - 1) + Delta(text, end - 1)
  }

  /** A payload that can stand between braces: its unescaped braces pair up inside it, and it
      does not escape the brace behind it. */
  predicate Balanced(payload: string) {
    && Nest(payload, 0, |payload|) == 0
    && (forall i :: 0 <= i <= |payload| ==> Nest(payload, 0, i) >= 0)
    && !Escaped(payload, |payload|)
  }

  /** The first position from `position` on where the depth reaches zero. */
  function Scan(text: string, position: nat, depth: int): (r: Option<nat>)
    requires position <= |text|
    ensures r.Some? ==> position <= r.value < |text|
    decreases |text| - position
  {
    if position == |text| then None
    else
      var d := depth + Delta(text, position);
      if Delta(text, position) == -1 && d == 0 then Some(position) else Scan(text, position + 1, d)
  }

  function Matching(text: string, opening: nat): (r: Option<nat>)
    ensures r.Some? ==> opening < r.value < |text|
  {
    if opening >= |text| || text[opening] != '{' then None else Scan(text, opening + 1, 1)
  }

  method MatchingBrace(text: string, opening: nat) returns (r: Option<nat>)
    ensures r == Matching(text, opening)
  {
    if opening >= |text| || text[opening] != '{' {
      return None;
    }
    var depth := 1;
    for position := opening + 1 to |text|
      invariant Matching(text, opening) == Scan(text, position, depth)
    {
      var escaped := IsEscaped(text, position);
      if escaped {
        continue;
      }
      if text[position] == '{' {
        depth := depth + 1;
      } else if text[position] == '}' {
        depth := depth - 1;
        if depth == 0 {
          return Some(position);
        }
      }
    }
    return None;
  }

  /** Behind an opening brace, escapes restart: a payload's escapes are its own. */
  lemma {:induction false} EscapesAreLocal(text: string, start: nat, end: nat, i: nat)
    requires 0 < start <= end <= |text| && text[start - 1] == '{' && i <= end - start
    ensures Escaped(text, start + i) == Escaped(text[start..end], i)
  {
    if i > 0 {
      EscapesAreLocal(text, start, end, i - 1);
    }
  }

  lemma {:induction false} NestIsLocal(text: string, start: nat, end: nat, i: nat)
    requires 0 < start <= end <= |text| && text[start - 1] == '{' && i <= end - start
    ensures Nest(text, start, start + i) == Nest(text[start..end], 0, i)
  {
    if i > 0 {
      NestIsLocal(text, start, end, i - 1);
      EscapesAreLocal(text, start, end, i - 1);
    }
  }

  /** `close` is where the nesting that starts with `depth` at `position` first returns to zero. */
  ghost predicate FirstZeroAt(text: string, position: nat, depth: int, close: nat) {
    && position <= close < |text|
    && depth + Nest(text, position, close) == 1 && Delta(text, close) == -1
    && forall p :: position <= p <= close ==> depth + Nest(text, position, p) > 0
  }

  lemma {:induction false} NestFromFront(text: string, start: nat, end: nat)
    requires start < end <= |text|
    ensures Nest(text, start, end) == Delta(text, start) + Nest(text, start + 1, end)
  {
    if start + 1 < end {
      NestFromFront(text, start, end - 1);
    }
  }

  lemma {:induction false} ScanFindsFirstZero(text: string, position: nat, depth: int, close: nat)
    requires position <= |text| && depth > 0
    ensures Scan(text, position, depth) == Some(close) <==> FirstZeroAt(text, position, depth, close)
    decreases |text| - position
  {
    if position < |text| {
      var d := depth + Delta(text, position);
      assert Nest(text, position, position) == 0;
      if d == 0 {
        NestFromFront(text, position, position + 1);
        assert depth + Nest(text, position, position + 1) == 0;
      } else {
        ScanFindsFirstZero(text, position + 1, d, close);
        FirstZeroShifts(text, position, depth, close);
      }
    }
  }

  lemma FirstZeroShifts(text: string, position: nat, depth: int, close: nat)
    requires position < |text| && depth > 0 && depth + Delta(text, position) > 0
    ensures FirstZeroAt(text, position, depth, close)
       <==> FirstZeroAt(text, position + 1, depth + Delta(text, position), close)
  {
    var d := depth + Delta(text, position);
    forall p: nat | position < p <= |text|
      ensures depth + Nest(text, position, p) == d + Nest(text, position + 1, p)
    {
      NestFromFront(text, position, p);
    }
    assert Nest(text, position, position) == 0;
    assert Nest(text, position + 1, position + 1) == 0;
    if FirstZeroAt(text, position + 1, d, close) {
      forall p | position <= p <= close ensures depth + Nest(text, position, p) > 0 {
        if p > position { assert d + Nest(text, position + 1, p) > 0; }
      }
    }
    if FirstZeroAt(text, position, depth, close) {
      assert close > position;
      var next := position + 1;
      forall p | next <= p <= close ensures d + Nest(text, next, p) > 0 {
        assert depth + Nest(text, position, p) > 0;
      }
    }
  }

  /** The matching brace of an opening brace is exactly the closing brace behind a balanced
      payload. */
  lemma MatchingIffBalanced(text: string, opening: nat, close: nat)
    requires opening < |text| && text[opening] == '{'
    ensures Matching(text, opening) == Some(close)
       <==> opening < close < |text| && text[close] == '}' && Balanced(text[opening + 1..close])
  {
    ScanFindsFirstZero(text, opening + 1, 1, close);
    if opening < close < |text| {
      var start := opening + 1;
      var payload := text[start..close];
      forall i | 0 <= i <= |payload|
        ensures Nest(text, start, start + i) == Nest(payload, 0, i)
      {
        NestIsLocal(text, start, close, i);
      }
      EscapesAreLocal(text, start, close, |payload|);
      if FirstZeroAt(text, start, 1, close) {
        forall i | 0 <= i <= |payload| ensures Nest(payload, 0, i) >= 0 {
          assert 1 + Nest(text, start, start + i) > 0;
        }
      }
      if Balanced(payload) && text[close] == '}' {
        forall p | start <= p <= close ensures 1 + Nest(text, start, p) > 0 {
          assert Nest(payload, 0, p - start) >= 0;
        }
      }
    }
  }

  // ----- the final box -----

  const BOXED: string := "\\boxed"

  function SkipSpaces(cc: CharClass, text: string, i: nat): (j: nat)
    requires i <= |text|
    ensures i <= j <= |text|
    ensures forall k :: i <= k < j ==> cc.isSpace(text[k])
    ensures j < |text| ==> !cc.isSpace(text[j])
    decreases |text| - i
  {
    if i < |text| && cc.isSpace(text[i]) then SkipSpaces(cc, text, i + 1) else i
  }

  /** Where the opening brace of a box marker starting at p is, if one starts there. */
  function MarkerBrace(cc: CharClass, text: string, p: nat): (r: Option<nat>)
    ensures r.Some? ==> p < r.value < |text| && text[r.value] == '{'
  {
    if !StartsWith(text, p, BOXED) then None else
      var brace := SkipSpaces(cc, text, p + |BOXED|);
      if brace < |text| && text[brace] == '{' then Some(brace) else None
  }

  /** The start of the last marker below `limit`. */
  function LastMarker(cc: CharClass, text: string, limit: nat): (r: Option<nat>)
    ensures r.Some? ==> r.value < limit && MarkerBrace(cc, text, r.value).Some?
    ensures forall p: nat :: (if r.Some? then r.value else -1) < p < limit ==> MarkerBrace(cc, text, p).None?
  {
    if limit == 0 then None
    else if MarkerBrace(cc, text, limit - 1).Some? then Some(limit - 1)
    else LastMarker(cc, text, limit - 1)
  }

  function Lstrip(cc: CharClass, s: string): string {
    s[SkipSpaces(cc, s, 0)..]
  }

  function Strip(cc: CharClass, s: string): string {
    Rstrip(cc, Lstrip(cc, s))
  }

  function Rstrip(cc: CharClass, s: string): string {
    if s != "" && cc.isSpace(s[|s| - 1]) then Rstrip(cc, s[..|s| - 1]) else s
  }

  /** `inner` is what is left of s without the spaces at its ends. */
  ghost predicate IsStripped(cc: CharClass, s: string, inner: string) {
    && (inner != "" ==> !cc.isSpace(inner[0]) && !cc.isSpace(inner[|inner| - 1]))
    && exists a, b :: s == a + inner + b && AllSpace(cc, a) && AllSpace(cc, b)
  }

  predicate AllSpace(cc: CharClass, s: string) { forall i :: 0 <= i < |s| ==> cc.isSpace(s[i]) }

  /** Stripping removes exactly the spaces at both ends. */
  lemma StripIsStripped(cc: CharClass, s: string)
    ensures IsStripped(cc, s, Strip(cc, s))
  {
    var cut := SkipSpaces(cc, s, 0);
    var front, rest := s[..cut], s[cut..];
    var b := RstripSplits(cc, rest);
    var inner := Rstrip(cc, rest);
    assert s == front + inner + b && AllSpace(cc, front);
    assert inner != "" ==> inner[0] == rest[0] == s[cut];
  }

  lemma {:induction false} RstripSplits(cc: CharClass, s: string) returns (b: string)
    ensures s == Rstrip(cc, s) + b && AllSpace(cc, b)
    ensures Rstrip(cc, s) != "" ==> !cc.isSpace(Rstrip(cc, s)[|Rstrip(cc, s)| - 1])
  {
    if s != "" && cc.isSpace(s[|s| - 1]) {
      b := RstripSplits(cc, s[..|s| - 1]);
      b := b + [s[|s| - 1]];
    } else {
      b := "";
    }
  }

  /** ... and there is only one way to do that. */
  lemma StrippedOnce(cc: CharClass, s: string, inner: string)
    requires IsStripped(cc, s, inner)
    ensures inner == Strip(cc, s)
  {
    StripIsStripped(cc, s);
    var other := Strip(cc, s);
    var a, b :| s == a + inner + b && AllSpace(cc, a) && AllSpace(cc, b);
    var a2, b2 :| s == a2 + other + b2 && AllSpace(cc, a2) && AllSpace(cc, b2);
    SameSpan(cc, s, a, inner, b, a2, other, b2);
  }

  lemma SameSpan(cc: CharClass, s: string, a: string, inner: string, b: string, a2: string, other: string, b2: string)
    requires s == a + inner + b == a2 + other + b2
    requires AllSpace(cc, a) && AllSpace(cc, b) && AllSpace(cc, a2) && AllSpace(cc, b2)
    requires inner != "" ==> !cc.isSpace(inner[0]) && !cc.isSpace(inner[|inner| - 1])
    requires other != "" ==> !cc.isSpace(other[0]) && !cc.isSpace(other[|other| - 1])
    ensures inner == other
  {
    NotAllSpace(cc, s, a, inner, b);
    NotAllSpace(cc, s, a2, other, b2);
    if inner != "" && other != "" {
      FrontNoLater(cc, s, a, inner, b, a2, other + b2);
      FrontNoLater(cc, s, a2, other, b2, a, inner + b);
      BackNoLonger(cc, s, a, inner, b, a2 + other, b2);
      BackNoLonger(cc, s, a2, other, b2, a + inner, b);
      assert s[|a|..|s| - |b|] == inner && s[|a2|..|s| - |b2|] == other;
    }
  }

  lemma FrontNoLater(cc: CharClass, s: string, a: string, inner: string, b: string, spaces: string, rest: string)
    requires s == a + inner + b && inner != "" && !cc.isSpace(inner[0])
    requires s == spaces + rest && AllSpace(cc, spaces)
    ensures |spaces| <= |a|
  {
    forall k | 0 <= k < |spaces| ensures cc.isSpace(s[k]) {
      assert s[k] == spaces[k];
    }
    assert s[|a|] == inner[0];
  }

  lemma BackNoLonger(cc: CharClass, s: string, a: string, inner: string, b: string, rest: string, spaces: string)
    requires s == a + inner + b && inner != "" && !cc.isSpace(inner[|inner| - 1])
    requires s == rest + spaces && AllSpace(cc, spaces)
    ensures |spaces| <= |b|
  {
    forall k | |rest| <= k < |s| ensures cc.isSpace(s[k]) {
      assert s[k] == spaces[k - |rest|];
    }
    assert s[|a| + |inner| - 1] == inner[|inner| - 1];
  }

  lemma NotAllSpace(cc: CharClass, s: string, a: string, inner: string, b: string)
    requires s == a + inner + b && AllSpace(cc, a) && AllSpace(cc, b)
    requires inner != "" ==> !cc.isSpace(inner[0])
    ensures AllSpace(cc, s) <==> inner == ""
  {
    if inner != "" {
      assert s[|a|] == inner[0];
    } else {
      assert s == a + b;
    }
  }

  function ExtractFinalAnswer(cc: CharClass, response: string): (string, bool) {
    ExtractFromRepaired(cc, Repair(response))
  }

  function ExtractFromRepaired(cc: CharClass, text: string): (string, bool) {
    match LastMarker(cc, text, |text|)
    case None => ("", false)
    case Some(p) =>
      var brace := MarkerBrace(cc, text, p).value;
      match Matching(text, brace)
      case None => ("", false)
      case Some(close) =>
        var answer := Strip(cc, text[brace + 1..close]);
        (answer, answer != "")
  }

  /** `text` shows a box with this payload, and no later marker. */
  ghost predicate LastBox(cc: CharClass, text: string, pre: string, spaces: string, payload: string, tail: string) {
    && text == pre + BOXED + spaces + "{" + payload + "}" + tail
    && (forall i :: 0 <= i < |spaces| ==> cc.isSpace(spaces[i]))
    && Balanced(payload)
    && forall p: nat :: |pre| < p ==> MarkerBrace(cc, text, p).None?
  }

  lemma PrintedMarker(cc: CharClass, text: string, pre: string, spaces: string, rest: string)
    requires cc.Sane() && text == pre + BOXED + spaces + "{" + rest
    requires forall i :: 0 <= i < |spaces| ==> cc.isSpace(spaces[i])
    ensures MarkerBrace(cc, text, |pre|) == Some(|pre| + |BOXED| + |spaces|)
  {
    var at := |pre| + |BOXED|;
    assert text[|pre|..at] == BOXED;
    var brace := SkipSpaces(cc, text, at);
    assert text[at + |spaces|] == '{';
    forall k | at <= k < at + |spaces| ensures cc.isSpace(text[k]) {
      assert text[k] == spaces[k - at];
    }
    assert brace >= at + |spaces|;
  }

  lemma PrintedMatch(text: string, pre: string, payload: string, tail: string)
    requires text == pre + "{" + payload + "}" + tail && Balanced(payload)
    ensures Matching(text, |pre|) == Some(|pre| + 1 + |payload|)
    ensures text[|pre| + 1..|pre| + 1 + |payload|] == payload
  {
    var close := |pre| + 1 + |payload|;
    assert text[|pre| + 1..close] == payload && text[close] == '}';
    MatchingIffBalanced(text, |pre|, close);
  }

  lemma LastMarkerIs(cc: CharClass, text: string, p: nat, limit: nat)
    requires p < limit && MarkerBrace(cc, text, p).Some?
    requires forall q: nat :: p < q ==> MarkerBrace(cc, text, q).None?
    ensures LastMarker(cc, text, limit) == Some(p)
  {}

  /** Extraction undoes printing: the last box's payload comes back stripped, whatever boxes
      stand in front of it. */
  lemma ExtractUndoesPrinting(cc: CharClass, text: string, pre: string, spaces: string, payload: string, tail: string)
    requires cc.Sane() && Repaired(text) && LastBox(cc, text, pre, spaces, payload, tail)
    ensures ExtractFinalAnswer(cc, text) == (Strip(cc, payload), Strip(cc, payload) != "")
    ensures IsStripped(cc, payload, ExtractFinalAnswer(cc, text).0)
  {
    StripIsStripped(cc, payload);
    hide IsStripped, Strip;
    RepairedIsFixed(text);
    ExtractLastBox(cc, text, pre, spaces, payload, tail);
  }

  lemma ExtractLastBox(cc: CharClass, text: string, pre: string, spaces: string, payload: string, tail: string)
    requires cc.Sane() && LastBox(cc, text, pre, spaces, payload, tail)
    ensures ExtractFromRepaired(cc, text) == (Strip(cc, payload), Strip(cc, payload) != "")
  {
    hide LastBox, LastMarker, MarkerBrace, Matching, Strip;
    LastBoxIndices(cc, text, pre, spaces, payload, tail);
    LastMarkerOf(cc, text, pre, spaces, payload, tail);
  }

  lemma LastBoxIndices(cc: CharClass, text: string, pre: string, spaces: string, payload: string, tail: string)
    requires cc.Sane() && LastBox(cc, text, pre, spaces, payload, tail)
    ensures |pre| < |text|
    ensures var brace := |pre| + |BOXED| + |spaces|;
            var close := brace + 1 + |payload|;
            && MarkerBrace(cc, text, |pre|) == Some(brace)
            && Matching(text, brace) == Some(close)
            && close < |text| && text[brace + 1..close] == payload
  {
    var rest := payload + "}" + tail;
    var front := pre + BOXED + spaces;
    assert text == front + "{" + payload + "}" + tail;
    PrintedMatch(text, front, payload, tail);
    assert text == pre + BOXED + spaces + "{" + rest;
    PrintedMarker(cc, text, pre, spaces, rest);
  }

  lemma LastMarkerOf(cc: CharClass, text: string, pre: string, spaces: string, payload: string, tail: string)
    requires LastBox(cc, text, pre, spaces, payload, tail) && MarkerBrace(cc, text, |pre|).Some?
    ensures LastMarker(cc, text, |text|) == Some(|pre|)
  {
    assert |pre| < |text|;
    hide MarkerBrace, Balanced, LastMarker;
    LastMarkerIs(cc, text, |pre|, |text|);
  }

  /** The last marker of `text` closes around a payload that is `answer` between spaces. */
  ghost predicate ShowsAnswer(cc: CharClass, text: string, answer: string) {
    exists pre, spaces, payload, tail ::
      LastBox(cc, text, pre, spaces, payload, tail) && IsStripped(cc, payload, answer)
  }

  /** ... and only such text yields an answer: an answer is extracted exactly when the last
      marker is closed around a balanced, non-blank payload. */
  lemma ExtractIffLastBoxCloses(cc: CharClass, response: string, answer: string)
    requires cc.Sane()
    ensures ExtractFinalAnswer(cc, response) == (answer, true)
       <==> answer != "" && ShowsAnswer(cc, Repair(response), answer)
  {
    var text := Repair(response);
    if ExtractFromRepaired(cc, text) == (answer, true) {
      ExtractedIsShown(cc, text, answer);
    }
    if answer != "" && ShowsAnswer(cc, text, answer) {
      var pre, spaces, payload, tail :|
        LastBox(cc, text, pre, spaces, payload, tail) && IsStripped(cc, payload, answer);
      StrippedOnce(cc, payload, answer);
      ExtractLastBox(cc, text, pre, spaces, payload, tail);
    }
  }

  lemma ExtractedIsShown(cc: CharClass, text: string, answer: string)
    requires ExtractFromRepaired(cc, text) == (answer, true)
    ensures answer != "" && ShowsAnswer(cc, text, answer)
  {
    hide LastMarker, MarkerBrace, Matching, Balanced, ShowsAnswer, Strip;
    var p := LastMarker(cc, text, |text|).value;
    var brace := MarkerBrace(cc, text, p).value;
    var close := Matching(text, brace).value;
    MatchingIffBalanced(text, brace, close);
    LastBoxShows(cc, text, p, brace, close);
  }

  lemma LastBoxShows(cc: CharClass, text: string, p: nat, brace: nat, close: nat)
    requires LastMarker(cc, text, |text|) == Some(p) && MarkerBrace(cc, text, p) == Some(brace)
    requires brace < close < |text| && text[close] == '}' && Balanced(text[brace + 1..close])
    ensures ShowsAnswer(cc, text, Strip(cc, text[brace + 1..close]))
  {
    hide LastBox, LastMarker, Balanced, Strip, IsStripped;
    StripIsStripped(cc, text[brace + 1..close]);
    LastBoxOf(cc, text, p, brace, close);
  }

  lemma LastBoxOf(cc: CharClass, text: string, p: nat, brace: nat, close: nat)
    requires LastMarker(cc, text, |text|) == Some(p) && MarkerBrace(cc, text, p) == Some(brace)
    requires brace < close < |text| && text[close] == '}' && Balanced(text[brace + 1..close])
    ensures LastBox(cc, text, text[..p], text[p + |BOXED|..brace], text[brace + 1..close], text[close + 1..])
  {
    MarkerSpaces(cc, text, p, text[p + |BOXED|..brace]);
    CutAround(text, p, brace, close);
    hide MarkerBrace, Balanced, SkipSpaces;
  }

  /** Between a marker and its brace there are only spaces. */
  lemma MarkerSpaces(cc: CharClass, text: string, p: nat, spaces: string)
    requires MarkerBrace(cc, text, p).Some?
    requires p + |BOXED| <= MarkerBrace(cc, text, p).value
    requires spaces == text[p + |BOXED|..MarkerBrace(cc, text, p).value]
    ensures text[p..p + |BOXED|] == BOXED
    ensures forall i :: 0 <= i < |spaces| ==> cc.isSpace(spaces[i])
  {}

  lemma CutAround(text: string, p: nat, brace: nat, close: nat)
    requires p + |BOXED| <= brace < close < |text|
    requires text[p..p + |BOXED|] == BOXED && text[brace] == '{' && text[close] == '}'
    ensures text
      == text[..p] + BOXED + text[p + |BOXED|..brace] + "{" + text[brace + 1..close] + "}" + text[close + 1..]
  {}

  /** A last box that no brace behind it closes yields nothing; boxes in front of it, closed or
      not, are never consulted. */
  lemma UnclosedLastBoxFails(cc: CharClass, text: string, pre: string, spaces: string, rest: string)
    requires cc.Sane() && Repaired(text) && text == pre + BOXED + spaces + "{" + rest
    requires forall i :: 0 <= i < |spaces| ==> cc.isSpace(spaces[i])
    requires forall p: nat :: |pre| < p ==> MarkerBrace(cc, text, p).None?
    requires forall k :: 0 <= k < |rest| && rest[k] == '}' ==> !Balanced(rest[..k])
    ensures ExtractFinalAnswer(cc, text) == ("", false)
  {
    hide MarkerBrace, Matching, Repaired, Balanced, LastMarker, Repair, ExtractFromRepaired, CharClass.Sane;
    RepairedIsFixed(text);
    PrintedMarker(cc, text, pre, spaces, rest);
    var front := pre + BOXED + spaces;
    assert |front| == |pre| + |BOXED| + |spaces| && |pre| < |text|;
    UnclosedHasNoMatch(text, front, rest);
    UnclosedAt(cc, text, |pre|, |front|);
  }

  lemma UnclosedAt(cc: CharClass, text: string, p: nat, brace: nat)
    requires p < |text| && MarkerBrace(cc, text, p) == Some(brace) && Matching(text, brace).None?
    requires forall q: nat :: p < q ==> MarkerBrace(cc, text, q).None?
    ensures ExtractFromRepaired(cc, text) == ("", false)
  {
    hide MarkerBrace, Matching, LastMarker;
    LastMarkerIs(cc, text, p, |text|);
  }

  lemma UnclosedHasNoMatch(text: string, front: string, rest: string)
    requires text == front + "{" + rest
    requires forall k :: 0 <= k < |rest| && rest[k] == '}' ==> !Balanced(rest[..k])
    ensures Matching(text, |front|).None?
  {
    var start := |front| + 1;
    forall close: nat | start <= close < |text| && text[close] == '}'
      ensures !Balanced(text[start..close])
    {
      assert rest[close - start] == text[close];
      assert rest[..close - start] == text[start..close];
    }
    var found := Matching(text, |front|);
    if found.Some? {
      MatchingIffBalanced(text, |front|, found.value);
    }
  }
}
