/** Rewriting constant LaTeX to Python syntax by repeated rightmost-first string replacement.
    Models utils/answer_verifier.py; the reference is the recursive translation of a tree. */
module LatexRewrite {
  import opened Basics
  import opened BoxedAnswer

  const FRAC: string := "\\frac"
  const SQRT: string := "\\sqrt"

  // ----- the rewriting -----

  /** `\frac` or `\sqrt` at p, ending at a word boundary. */
  predicate ConstructAt(cc: CharClass, text: string, p: nat) {
    && (StartsWith(text, p, FRAC) || StartsWith(text, p, SQRT))
    && (p + 5 == |text| || !cc.isWord(text[p + 5]))
  }

  function LastConstruct(cc: CharClass, text: string, limit: nat): (r: Option<nat>)
    ensures r.Some? ==> r.value < limit && ConstructAt(cc, text, r.value)
    ensures forall p: nat :: (if r.Some? then r.value else -1) < p < limit ==> !ConstructAt(cc, text, p)
  {
    if limit == 0 then None
    else if ConstructAt(cc, text, limit - 1) then Some(limit - 1)
    else LastConstruct(cc, text, limit - 1)
  }

  /** The brace group behind optional spaces: the positions of its two braces. */
  function Argument(cc: CharClass, text: string, at: nat): (r: Option<(nat, nat)>)
    requires at <= |text|
    ensures r.Some? ==> at <= r.value.0 < r.value.1 < |text|
  {
    var opening := SkipSpaces(cc, text, at);
    match Matching(text, opening)
    case None => None
    case Some(close) => Some((opening, close))
  }

  function Fraction(numerator: string, denominator: string): string {
    "((" + numerator + ")/(" + denominator + "))"
  }

  function Root(radicand: string): string { "sqrt(" + radicand + ")" }

  /** Replace the construct at p by its Python form. */
  function ReplaceAt(cc: CharClass, text: string, p: nat): Option<string>
    requires p < |text| && ConstructAt(cc, text, p)
  {
    match Argument(cc, text, p + 5)
    case None => None
    case Some(first) =>
      if StartsWith(text, p, FRAC) then
        match Argument(cc, text, first.1 + 1)
        case None => None
        case Some(second) => 
          Some(text[..p] + Fraction(text[first.0 + 1..first.1], text[second.0 + 1..second.1]) + text[second.1 + 1..])
      else
        Some(text[..p] + Root(text[first.0 + 1..first.1]) + text[first.1 + 1..])
  }

  /** Backslashes among text[i..j], counted in place. */
  function Count(text: string, i: nat, j: nat): nat
    requires i <= j <= |text|
  {
    if i == j then 0 else Count(text, i, j - 1) + if text[j - 1] == '\\' then 1 else 0
  }

  lemma {:induction false} CountSplits(text: string, i: nat, j: nat, k: nat)
    requires i <= j <= k <= |text|
    ensures Count(text, i, k) == Count(text, i, j) + Count(text, j, k)
    decreases k
  {
    if j < k {
      CountSplits(text, i, j, k - 1);
    }
  }

  function Backslashes(s: string): nat { Count(s, 0, |s|) }

  /** Counting inside a surrounding text. */
  lemma {:induction false} CountInside(a: string, b: string, c: string, i: nat)
    requires i <= |b|
    ensures Count(a + b + c, |a|, |a| + i) == Count(b, 0, i)
  {
    if i > 0 {
      CountInside(a, b, c, i - 1);
      assert (a + b + c)[|a| + i - 1] == b[i - 1];
    }
  }

  lemma BackslashesSlice(text: string, i: nat, j: nat)
    requires i <= j <= |text|
    ensures Backslashes(text[i..j]) == Count(text, i, j)
  {
    hide Count;
    assert text == text[..i] + text[i..j] + text[j..];
    CountInside(text[..i], text[i..j], text[j..], j - i);
  }

  lemma Pieces(a: string, b: string, c: string)
    ensures Backslashes(a + b + c) == Backslashes(a) + Backslashes(b) + Backslashes(c)
  {
    var all := a + b + c;
    CountSplits(all, 0, |a|, |all|);
    CountSplits(all, |a|, |a| + |b|, |all|);
    CountInside("", a, b + c, |a|);
    CountInside(a, b, c, |b|);
    CountInside(a + b, c, "", |c|);
    assert all == "" + a + (b + c) && all == (a + b) + c + "";
  }

  /** Every replacement removes a backslash. */
  lemma ReplaceDropsBackslash(cc: CharClass, text: string, p: nat)
    requires p < |text| && ConstructAt(cc, text, p) && ReplaceAt(cc, text, p).Some?
    ensures Backslashes(ReplaceAt(cc, text, p).value) < Backslashes(text)
  {
    hide Backslashes, Fraction, Root;
    var first := Argument(cc, text, p + 5).value;
    ConstructHead(text, p);
    if StartsWith(text, p, FRAC) {
      FractionDropsBackslash(text, p, first, Argument(cc, text, first.1 + 1).value);
    } else {
      RootDropsBackslash(text, p, first);
    }
  }

  lemma ConstructHead(text: string, p: nat)
    requires StartsWith(text, p, FRAC) || StartsWith(text, p, SQRT)
    ensures text[p] == '\\'
  {
    assert text[p] == text[p..p + 5][0];
  }

  lemma HeadCounts(text: string, p: nat, i: nat)
    requires p < i <= |text| && text[p] == '\\'
    ensures Count(text, 0, |text|) > Count(text, 0, p) + Count(text, i, |text|)
  {
    CountSplits(text, 0, p, |text|);
    CountSplits(text, p, p + 1, |text|);
    CountSplits(text, p + 1, i, |text|);
    assert Count(text, p, p + 1) == Count(text, p, p) + 1;
  }

  lemma FractionCounts(text: string, p: nat, num: (nat, nat), den: (nat, nat))
    requires p < num.0 < num.1 < den.0 < den.1 < |text| && text[p] == '\\'
    ensures Count(text, 0, |text|) > Count(text, 0, p) + Count(text, num.0 + 1, num.1)
                                   + Count(text, den.0 + 1, den.1) + Count(text, den.1 + 1, |text|)
  {
    HeadCounts(text, p, num.0 + 1);
    CountSplits(text, num.0 + 1, num.1, |text|);
    CountSplits(text, num.1, den.0 + 1, |text|);
    CountSplits(text, den.0 + 1, den.1, |text|);
    CountSplits(text, den.1, den.1 + 1, |text|);
  }

  lemma FractionDropsBackslash(text: string, p: nat, num: (nat, nat), den: (nat, nat))
    requires p < num.0 < num.1 < den.0 < den.1 < |text| && text[p] == '\\'
    ensures Backslashes(text[..p] + Fraction(text[num.0 + 1..num.1], text[den.0 + 1..den.1]) + text[den.1 + 1..])
          < Backslashes(text)
  {
    FractionCounts(text, p, num, den);
    PrefixSuffix(text, p, den.1 + 1);
    BackslashesSlice(text, num.0 + 1, num.1);
    BackslashesSlice(text, den.0 + 1, den.1);
    Pieces(text[..p], Fraction(text[num.0 + 1..num.1], text[den.0 + 1..den.1]), text[den.1 + 1..]);
    FractionBackslashes(text[num.0 + 1..num.1], text[den.0 + 1..den.1]);
  }

  lemma PrefixSuffix(text: string, p: nat, q: nat)
    requires p <= |text| && q <= |text|
    ensures Backslashes(text[..p]) == Count(text, 0, p)
    ensures Backslashes(text[q..]) == Count(text, q, |text|)
  {
    BackslashesSlice(text, 0, p);
    BackslashesSlice(text, q, |text|);
    assert text[..p] == text[0..p] && text[q..] == text[q..|text|];
  }

  lemma FractionBackslashes(a: string, b: string)
    ensures Backslashes(Fraction(a, b)) == Backslashes(a) + Backslashes(b)
  {
    Pieces("((", a, ")/(" + b + "))");
    Pieces(")/(", b, "))");
    assert Fraction(a, b) == "((" + a + (")/(" + b + "))");
    Literals();
  }

  lemma RootBackslashes(a: string)
    ensures Backslashes(Root(a)) == Backslashes(a)
  {
    Pieces("sqrt(", a, ")");
    Literals();
  }

  lemma {:induction false} NoBackslashes(s: string, i: nat)
    requires i <= |s| && '\\' !in s
    ensures Count(s, 0, i) == 0
  {
    if i > 0 {
      NoBackslashes(s, i - 1);
    }
  }

  lemma Literals()
    ensures Backslashes("((") == Backslashes(")/(") == Backslashes("))") == 0
    ensures Backslashes("sqrt(") == Backslashes(")") == 0
  {
    NoBackslashes("((", 2);
    NoBackslashes(")/(", 3);
    NoBackslashes("))", 2);
    NoBackslashes("sqrt(", 5);
    NoBackslashes(")", 1);
  }

  lemma RootDropsBackslash(text: string, p: nat, arg: (nat, nat))
    requires p < arg.0 < arg.1 < |text| && text[p] == '\\'
    ensures Backslashes(text[..p] + Root(text[arg.0 + 1..arg.1]) + text[arg.1 + 1..]) < Backslashes(text)
  {
    HeadCounts(text, p, arg.0 + 1);
    CountSplits(text, arg.0 + 1, arg.1, |text|);
    CountSplits(text, arg.1, arg.1 + 1, |text|);
    PrefixSuffix(text, p, arg.1 + 1);
    BackslashesSlice(text, arg.0 + 1, arg.1);
    Pieces(text[..p], Root(text[arg.0 + 1..arg.1]), text[arg.1 + 1..]);
    RootBackslashes(text[arg.0 + 1..arg.1]);
  }

  /** The whole rewriting; `None` when a construct lacks an argument. */
  function Rewrite(cc: CharClass, text: string): Option<string>
    decreases Backslashes(text)
  {
    match LastConstruct(cc, text, |text|)
    case None => Some(text)
    case Some(p) =>
      match ReplaceAt(cc, text, p)
      case None => None
      case Some(next) =>
        ReplaceDropsBackslash(cc, text, p);
        Rewrite(cc, next)
  }

  lemma RewriteStep(cc: CharClass, text: string, p: nat, next: string)
    requires LastConstruct(cc, text, |text|) == Some(p) && ReplaceAt(cc, text, p) == Some(next)
    ensures Rewrite(cc, text) == Rewrite(cc, next) && Backslashes(next) < Backslashes(text)
  {
    ReplaceDropsBackslash(cc, text, p);
  }

  method FindArgument(cc: CharClass, text: string, at: nat) returns (r: Option<(nat, nat)>)
    requires at <= |text|
    ensures r == Argument(cc, text, at)
  {
    var cursor := SkipSpaces(cc, text, at);
    if cursor >= |text| || text[cursor] != '{' {
      return None;
    }
    var close := MatchingBrace(text, cursor);
    if close.None? {
      return None;
    }
    return Some((cursor, close.value));
  }

  method ReplaceOne(cc: CharClass, text: string, p: nat) returns (r: Option<string>)
    requires p < |text| && ConstructAt(cc, text, p)
    ensures r == ReplaceAt(cc, text, p)
  {
    hide Argument, Fraction, Root;
    var first := FindArgument(cc, text, p + 5);
    if first.None? {
      return None;
    }
    if StartsWith(text, p, FRAC) {
      var second := FindArgument(cc, text, first.value.1 + 1);
      if second.None? {
        return None;
      }
      return Some(text[..p]
                  + Fraction(text[first.value.0 + 1..first.value.1], text[second.value.0 + 1..second.value.1])
                  + text[second.value.1 + 1..]);
    }
    return Some(text[..p] + Root(text[first.value.0 + 1..first.value.1]) + text[first.value.1 + 1..]);
  }

  /** The source's loop: it terminates on every text and computes the rewriting. */
  method ReplaceConstantLatex(cc: CharClass, text: string) returns (r: Option<string>)
    ensures r == Rewrite(cc, text)
  {
    var value := text;
    while true
      invariant Rewrite(cc, text) == Rewrite(cc, value)
      decreases Backslashes(value)
    {
      var last := LastConstruct(cc, value, |value|);
      if last.None? {
        return Some(value);
      }
      var next := ReplaceOne(cc, value, last.value);
      if next.None? {
        return None;
      }
      RewriteStep(cc, value, last.value, next.value);
      value := next.value;
    }
  }

  // ----- the reference translation -----

  /** Expressions over brace-free, backslash-free atoms; commands may be followed by spaces. */
  datatype Tex =
    | Atom(text: string)
    | Cat(left: Tex, right: Tex)
    | Group(body: Tex)
    | Frac(gap1: string, num: Tex, gap2: string, den: Tex)
    | Sqrt(gap: string, arg: Tex)

  predicate AllSpaces(cc: CharClass, s: string) { forall i :: 0 <= i < |s| ==> cc.isSpace(s[i]) }

  predicate PlainText(s: string) { forall i :: 0 <= i < |s| ==> s[i] != '{' && s[i] != '}' && s[i] != '\\' }

  predicate WellFormed(cc: CharClass, t: Tex) {
    match t
    case Atom(s) => PlainText(s)
    case Cat(a, b) => WellFormed(cc, a) && WellFormed(cc, b)
    case Group(b) => WellFormed(cc, b)
    case Frac(g1, n, g2, d) => AllSpaces(cc, g1) && AllSpaces(cc, g2) && WellFormed(cc, n) && WellFormed(cc, d)
    case Sqrt(g, a) => AllSpaces(cc, g) && WellFormed(cc, a)
  }

  function Braced(s: string): string { "{" + s + "}" }

  function PrintFrac(g1: string, n: string, g2: string, d: string): string {
    FRAC + g1 + Braced(n) + g2 + Braced(d)
  }

  function PrintSqrt(g: string, a: string): string { SQRT + g + Braced(a) }

  function Print(t: Tex): string {
    match t
    case Atom(s) => s
    case Cat(a, b) => Print(a) + Print(b)
    case Group(b) => Braced(Print(b))
    case Frac(g1, n, g2, d) => PrintFrac(g1, Print(n), g2, Print(d))
    case Sqrt(g, a) => PrintSqrt(g, Print(a))
  }

  /** What each construct means in Python syntax, by recursion. */
  function Translate(t: Tex): string {
    match t
    case Atom(s) => s
    case Cat(a, b) => Translate(a) + Translate(b)
    case Group(b) => Braced(Translate(b))
    case Frac(_, n, _, d) => "((" + Translate(n) + ")/(" + Translate(d) + "))"
    case Sqrt(_, a) => "sqrt(" + Translate(a) + ")"
  }

  function Constructs(t: Tex): nat {
    match t
    case Atom(_) => 0
    case Cat(a, b) => Constructs(a) + Constructs(b)
    case Group(b) => Constructs(b)
    case Frac(_, n, _, d) => 1 + Constructs(n) + Constructs(d)
    case Sqrt(_, a) => 1 + Constructs(a)
  }

  // ----- one replacement, on trees -----

  /** A construct without constructs inside, in Python form. */
  function Literal(t: Tex): Tex
    requires t.Frac? || t.Sqrt?
  {
    if t.Frac? then Cat(Cat(Cat(Cat(Atom("(("), t.num), Atom(")/(")), t.den), Atom("))"))
    else Cat(Cat(Atom("sqrt("), t.arg), Atom(")"))
  }

  /** The rightmost construct of `t`, replaced by its Python form. */
  function Reduce(t: Tex): Tex
    requires Constructs(t) > 0
  {
    match t
    case Cat(a, b) => if Constructs(b) > 0 then Cat(a, Reduce(b)) else Cat(Reduce(a), b)
    case Group(b) => Group(Reduce(b))
    case Frac(g1, n, g2, d) =>
      if Constructs(d) > 0 then Frac(g1, n, g2, Reduce(d))
      else if Constructs(n) > 0 then Frac(g1, Reduce(n), g2, d)
      else Literal(t)
    case Sqrt(g, a) => if Constructs(a) > 0 then Sqrt(g, Reduce(a)) else Literal(t)
  }

  /** The rightmost construct itself, and the text printed around it. */
  function Redex(t: Tex): (r: Tex)
    requires Constructs(t) > 0
    ensures (r.Frac? && Constructs(r.num) == Constructs(r.den) == 0) || (r.Sqrt? && Constructs(r.arg) == 0)
  {
    match t
    case Cat(a, b) => if Constructs(b) > 0 then Redex(b) else Redex(a)
    case Group(b) => Redex(b)
    case Frac(_, n, _, d) => if Constructs(d) > 0 then Redex(d) else if Constructs(n) > 0 then Redex(n) else t
    case Sqrt(_, a) => if Constructs(a) > 0 then Redex(a) else t
  }

  function Before(t: Tex): string
    requires Constructs(t) > 0
  {
    match t
    case Cat(a, b) => if Constructs(b) > 0 then Print(a) + Before(b) else Before(a)
    case Group(b) => "{" + Before(b)
    case Frac(g1, n, g2, d) =>
      if Constructs(d) > 0 then FRAC + g1 + Braced(Print(n)) + g2 + "{" + Before(d)
      else if Constructs(n) > 0 then FRAC + g1 + "{" + Before(n)
      else ""
    case Sqrt(g, a) => if Constructs(a) > 0 then SQRT + g + "{" + Before(a) else ""
  }

  function After(t: Tex): string
    requires Constructs(t) > 0
  {
    match t
    case Cat(a, b) => if Constructs(b) > 0 then After(b) else After(a) + Print(b)
    case Group(b) => After(b) + "}"
    case Frac(g1, n, g2, d) =>
      if Constructs(d) > 0 then After(d) + "}"
      else if Constructs(n) > 0 then After(n) + "}" + g2 + Braced(Print(d))
      else ""
    case Sqrt(g, a) => if Constructs(a) > 0 then After(a) + "}" else ""
  }

  lemma {:induction false} ReduceKeepsMeaning(cc: CharClass, t: Tex)
    requires Constructs(t) > 0 && WellFormed(cc, t)
    ensures WellFormed(cc, Reduce(t))
    ensures Translate(Reduce(t)) == Translate(t)
    ensures Constructs(Reduce(t)) == Constructs(t) - 1
  {
    match t
    case Cat(a, b) => if Constructs(b) > 0 { ReduceKeepsMeaning(cc, b); } else { ReduceKeepsMeaning(cc, a); }
    case Group(b) => ReduceKeepsMeaning(cc, b);
    case Frac(_, n, _, d) =>
      if Constructs(d) > 0 { ReduceKeepsMeaning(cc, d); }
      else if Constructs(n) > 0 { ReduceKeepsMeaning(cc, n); }
      else { LiteralMeaning(cc, t); }
    case Sqrt(_, a) => if Constructs(a) > 0 { ReduceKeepsMeaning(cc, a); } else { LiteralMeaning(cc, t); }
  }

  lemma LiteralMeaning(cc: CharClass, t: Tex)
    requires (t.Frac? && Constructs(t.num) == Constructs(t.den) == 0) || (t.Sqrt? && Constructs(t.arg) == 0)
    requires WellFormed(cc, t)
    ensures WellFormed(cc, Literal(t)) && Translate(Literal(t)) == Translate(t) && Constructs(Literal(t)) == 0
    ensures Print(Literal(t)) == if t.Frac? then Fraction(Print(t.num), Print(t.den)) else Root(Print(t.arg))
  {
    if t.Frac? {
      var t1 := Cat(Atom("(("), t.num);
      var t2 := Cat(t1, Atom(")/("));
      var t3 := Cat(t2, t.den);
      CatMeaning(cc, Atom("(("), t.num);
      CatMeaning(cc, t1, Atom(")/("));
      CatMeaning(cc, t2, t.den);
      CatMeaning(cc, t3, Atom("))"));
    } else {
      CatMeaning(cc, Atom("sqrt("), t.arg);
      CatMeaning(cc, Cat(Atom("sqrt("), t.arg), Atom(")"));
    }
  }

  lemma CatMeaning(cc: CharClass, a: Tex, b: Tex)
    ensures WellFormed(cc, Cat(a, b)) <==> WellFormed(cc, a) && WellFormed(cc, b)
    ensures Translate(Cat(a, b)) == Translate(a) + Translate(b)
    ensures Print(Cat(a, b)) == Print(a) + Print(b)
    ensures Constructs(Cat(a, b)) == Constructs(a) + Constructs(b)
  {}

  /** Printing around the rightmost construct: only that construct's text changes. */
  ghost predicate Around(t: Tex)
    requires Constructs(t) > 0
  {
    && Print(t) == Before(t) + Print(Redex(t)) + After(t)
    && Print(Reduce(t)) == Before(t) + Print(Literal(Redex(t))) + After(t)
    && '\\' !in After(t)
  }

  lemma {:induction false} PrintAroundRedex(cc: CharClass, t: Tex)
    requires cc.Sane() && Constructs(t) > 0 && WellFormed(cc, t)
    ensures WellFormed(cc, Redex(t))
    ensures Around(t)
  {
    match t
    case Cat(a, b) =>
      if Constructs(b) > 0 {
        PrintAroundRedex(cc, b);
        AroundRight(a, b);
      } else {
        PrintAroundRedex(cc, a);
        PlainPrint(cc, b);
        AroundLeft(a, b);
      }
    case Group(b) =>
      PrintAroundRedex(cc, b);
      AroundGroup(b);
    case Frac(g1, n, g2, d) =>
      if Constructs(d) > 0 {
        PrintAroundRedex(cc, d);
        AroundDenominator(g1, n, g2, d);
      } else if Constructs(n) > 0 {
        PrintAroundRedex(cc, n);
        PlainPrint(cc, d);
        SpacesPlain(cc, g2);
        AroundNumerator(g1, n, g2, d);
      }
    case Sqrt(g, a) =>
      if Constructs(a) > 0 {
        PrintAroundRedex(cc, a);
        AroundArgument(g, a);
      }
  }

  lemma AroundRight(a: Tex, b: Tex)
    requires Constructs(b) > 0 && Around(b)
    ensures Around(Cat(a, b))
  {
    WrapLeft(Print(a), Before(b), Print(Redex(b)), After(b));
    WrapLeft(Print(a), Before(b), Print(Literal(Redex(b))), After(b));
  }

  lemma AroundLeft(a: Tex, b: Tex)
    requires Constructs(a) > 0 && Constructs(b) == 0 && Around(a) && '\\' !in Print(b)
    ensures Around(Cat(a, b))
  {
    WrapRight(Before(a), Print(Redex(a)), After(a), Print(b));
    WrapRight(Before(a), Print(Literal(Redex(a))), After(a), Print(b));
  }

  lemma AroundGroup(b: Tex)
    requires Constructs(b) > 0 && Around(b)
    ensures Around(Group(b))
  {
    Wrap("{", Before(b), Print(Redex(b)), After(b), "}");
    Wrap("{", Before(b), Print(Literal(Redex(b))), After(b), "}");
  }

  lemma AroundDenominator(g1: string, n: Tex, g2: string, d: Tex)
    requires Constructs(d) > 0 && Around(d)
    ensures Around(Frac(g1, n, g2, d))
  {
    var head := FRAC + g1 + Braced(Print(n)) + g2;
    Wrap(head + "{", Before(d), Print(Redex(d)), After(d), "}");
    Wrap(head + "{", Before(d), Print(Literal(Redex(d))), After(d), "}");
    SecondArgument(head, Print(d));
    SecondArgument(head, Print(Reduce(d)));
  }

  lemma NumeratorWrap(g1: string, g2: string, d: string, before: string, middle: string, after: string)
    ensures PrintFrac(g1, before + middle + after, g2, d)
      == (FRAC + g1 + "{" + before) + middle + (after + "}" + g2 + Braced(d))
  {
    var head, tail := FRAC + g1 + "{", "}" + g2 + Braced(d);
    Wrap(head, before, middle, after, tail);
    FirstArgument(FRAC + g1, before + middle + after, g2, Braced(d));
    assert after + tail == after + "}" + g2 + Braced(d);
  }

  lemma AroundNumerator(g1: string, n: Tex, g2: string, d: Tex)
    requires Constructs(n) > 0 && Constructs(d) == 0 && Around(n) && '\\' !in g2 && '\\' !in Print(d)
    ensures Around(Frac(g1, n, g2, d))
  {
    hide Braced, PrintFrac;
    NumeratorWrap(g1, g2, Print(d), Before(n), Print(Redex(n)), After(n));
    NumeratorWrap(g1, g2, Print(d), Before(n), Print(Literal(Redex(n))), After(n));
    PlainTail(After(n), g2, Print(d));
  }

  lemma PlainTail(after: string, gap: string, arg: string)
    requires '\\' !in after && '\\' !in gap && '\\' !in arg
    ensures '\\' !in after + "}" + gap + Braced(arg)
  {}

  lemma AroundArgument(g: string, a: Tex)
    requires Constructs(a) > 0 && Around(a)
    ensures Around(Sqrt(g, a))
  {
    Wrap(SQRT + g + "{", Before(a), Print(Redex(a)), After(a), "}");
    Wrap(SQRT + g + "{", Before(a), Print(Literal(Redex(a))), After(a), "}");
    SecondArgument(SQRT + g, Print(a));
    SecondArgument(SQRT + g, Print(Reduce(a)));
  }

  lemma Wrap(head: string, before: string, middle: string, after: string, tail: string)
    ensures head + (before + middle + after) + tail == (head + before) + middle + (after + tail)
  {}

  lemma WrapLeft(head: string, before: string, middle: string, after: string)
    ensures head + (before + middle + after) == (head + before) + middle + after
  {}

  lemma WrapRight(before: string, middle: string, after: string, tail: string)
    ensures (before + middle + after) + tail == before + middle + (after + tail)
  {}

  lemma SecondArgument(head: string, arg: string)
    ensures head + Braced(arg) == head + "{" + arg + "}"
  {}

  lemma FirstArgument(head: string, arg: string, gap: string, tail: string)
    ensures head + Braced(arg) + gap + tail == head + "{" + arg + ("}" + gap + tail)
  {}

  lemma SpacesPlain(cc: CharClass, s: string)
    requires AllSpaces(cc, s) && cc.Sane()
    ensures '\\' !in s
  {}

  /** Without constructs, printing and translating agree, and no backslash is printed. */
  lemma {:induction false} PlainPrint(cc: CharClass, t: Tex)
    requires Constructs(t) == 0 && WellFormed(cc, t)
    ensures Print(t) == Translate(t)
    ensures '\\' !in Print(t)
  {
    match t
    case Atom(s) =>
    case Cat(a, b) => PlainPrint(cc, a); PlainPrint(cc, b);
    case Group(b) => PlainPrint(cc, b);
  }

  // ----- one replacement, on strings -----

  lemma {:induction false} Unescaped(s: string, i: nat)
    requires i <= |s| && '\\' !in s
    ensures !Escaped(s, i)
  {}

  lemma {:induction false} NestPrefix(a: string, b: string, i: nat)
    requires i <= |a| && '\\' !in a && '\\' !in b
    ensures Nest(a + b, 0, i) == Nest(a, 0, i)
  {
    if i > 0 {
      NestPrefix(a, b, i - 1);
      Unescaped(a + b, i - 1);
      Unescaped(a, i - 1);
    }
  }

  lemma {:induction false} NestConcat(a: string, b: string, i: nat)
    requires i <= |b| && '\\' !in a && '\\' !in b
    ensures Nest(a + b, 0, |a| + i) == Nest(a, 0, |a|) + Nest(b, 0, i)
  {
    if i == 0 {
      NestPrefix(a, b, |a|);
    } else {
      NestConcat(a, b, i - 1);
      Unescaped(a + b, |a| + i - 1);
      Unescaped(b, i - 1);
    }
  }

  lemma BalancedConcat(a: string, b: string)
    requires Balanced(a) && Balanced(b) && '\\' !in a && '\\' !in b
    ensures Balanced(a + b)
  {
    forall i | 0 <= i <= |a + b| ensures Nest(a + b, 0, i) >= 0 {
      if i <= |a| {
        NestPrefix(a, b, i);
        assert Nest(a, 0, i) >= 0;
      } else {
        NestConcat(a, b, i - |a|);
        assert Nest(b, 0, i - |a|) >= 0;
      }
    }
    NestConcat(a, b, |b|);
    Unescaped(a + b, |a + b|);
  }

  lemma BalancedBraced(a: string)
    requires Balanced(a) && '\\' !in a
    ensures Balanced(Braced(a)) && '\\' !in Braced(a)
  {
    var s := Braced(a);
    assert s == "{" + (a + "}");
    assert Nest("{", 0, 1) == 1 by {
      assert Nest("{", 0, 0) == 0;
    }
    forall i | 0 <= i <= |s| ensures Nest(s, 0, i) >= 0 && (i == |s| ==> Nest(s, 0, i) == 0) {
      if i > 0 {
        NestConcat("{", a + "}", i - 1);
        if i - 1 <= |a| {
          NestPrefix(a, "}", i - 1);
          assert Nest(a, 0, i - 1) >= 0;
        } else {
          NestConcat(a, "}", 1);
          assert Nest("}", 0, 1) == Nest("}", 0, 0) + Delta("}", 0);
        }
      }
    }
    Unescaped(s, |s|);
  }

  lemma {:induction false} BalancedAtom(s: string, i: nat)
    requires PlainText(s) && i <= |s|
    ensures Nest(s, 0, i) == 0
  {
    if i > 0 {
      BalancedAtom(s, i - 1);
    }
  }

  /** A construct-free tree prints a payload that can stand between braces. */
  lemma {:induction false} PlainIsBalanced(cc: CharClass, t: Tex)
    requires Constructs(t) == 0 && WellFormed(cc, t)
    ensures Balanced(Print(t)) && '\\' !in Print(t)
  {
    PlainPrint(cc, t);
    match t
    case Atom(s) =>
      forall i | 0 <= i <= |s| ensures Nest(s, 0, i) == 0 {
        BalancedAtom(s, i);
      }
      Unescaped(s, |s|);
    case Cat(a, b) =>
      PlainIsBalanced(cc, a);
      PlainIsBalanced(cc, b);
      BalancedConcat(Print(a), Print(b));
    case Group(b) =>
      PlainIsBalanced(cc, b);
      BalancedBraced(Print(b));
  }

  /** A printed argument is found where it was printed. */
  lemma ArgumentFound(cc: CharClass, text: string, head: string, gap: string, arg: string, rest: string)
    requires cc.Sane() && AllSpaces(cc, gap) && Balanced(arg)
    requires text == head + gap + Braced(arg) + rest
    ensures var open := |head| + |gap|;
            var close := open + 1 + |arg|;
            && close < |text|
            && Argument(cc, text, |head|) == Some((open, close))
            && text[open + 1..close] == arg && text[close + 1..] == rest
  {
    var open := |head| + |gap|;
    assert text == (head + gap) + "{" + arg + "}" + rest;
    PrintedMatch(text, head + gap, arg, rest);
    forall k | |head| <= k < open ensures cc.isSpace(text[k]) {
      assert text[k] == gap[k - |head|];
    }
    assert SkipSpaces(cc, text, |head|) == open;
  }

  lemma ReplaceFraction(cc: CharClass, text: string, before: string, g1: string, n: string, g2: string, d: string,
                        after: string)
    requires cc.Sane() && AllSpaces(cc, g1) && AllSpaces(cc, g2) && Balanced(n) && Balanced(d)
    requires text == (before + FRAC) + g1 + Braced(n) + (g2 + Braced(d) + after)
    requires text == (before + FRAC + g1 + Braced(n)) + g2 + Braced(d) + after
    requires text == before + FRAC + g1 + (Braced(n) + (g2 + Braced(d) + after))
    ensures |before| < |text| && ConstructAt(cc, text, |before|)
    ensures ReplaceAt(cc, text, |before|) == Some(before + Fraction(n, d) + after)
  {
    hide Argument, ConstructAt, ReplaceAt, Balanced, Braced, AllSpaces, Fraction;
    FirstOfFraction(cc, text, before, g1, n, g2 + Braced(d) + after);
    var first := Argument(cc, text, |before| + 5).value;
    ArgumentFound(cc, text, before + FRAC + g1 + Braced(n), g2, d, after);
    var second := Argument(cc, text, first.1 + 1).value;
    FractionReplaced(cc, text, |before|, first, second, before, n, d, after);
  }

  lemma FractionReplaced(cc: CharClass, text: string, p: nat, first: (nat, nat), second: (nat, nat),
                         before: string, n: string, d: string, after: string)
    requires p < |text| && ConstructAt(cc, text, p) && StartsWith(text, p, FRAC)
    requires Argument(cc, text, p + 5) == Some(first) && Argument(cc, text, first.1 + 1) == Some(second)
    requires text[..p] == before && text[first.0 + 1..first.1] == n
    requires text[second.0 + 1..second.1] == d && text[second.1 + 1..] == after
    ensures ReplaceAt(cc, text, p) == Some(before + Fraction(n, d) + after)
  {}

  lemma FirstOfFraction(cc: CharClass, text: string, before: string, g1: string, n: string, rest: string)
    requires cc.Sane() && AllSpaces(cc, g1) && Balanced(n)
    requires text == (before + FRAC) + g1 + Braced(n) + rest
    requires text == before + FRAC + g1 + (Braced(n) + rest)
    ensures |before| < |text| && ConstructAt(cc, text, |before|) && StartsWith(text, |before|, FRAC)
    ensures text[..|before|] == before
    ensures |before| + 5 <= |text| && Argument(cc, text, |before| + 5).Some?
    ensures var first := Argument(cc, text, |before| + 5).value;
            first.1 + 1 == |before + FRAC + g1 + Braced(n)| && text[first.0 + 1..first.1] == n
  {
    ArgumentFound(cc, text, before + FRAC, g1, n, rest);
    CommandFound(cc, text, before, FRAC, g1, Braced(n) + rest);
  }

  lemma RegroupFraction(before: string, g1: string, n: string, g2: string, d: string, after: string)
    ensures before + (FRAC + g1 + n + g2 + d) + after == (before + FRAC) + g1 + n + (g2 + d + after)
    ensures before + (FRAC + g1 + n + g2 + d) + after == (before + FRAC + g1 + n) + g2 + d + after
    ensures before + (FRAC + g1 + n + g2 + d) + after == before + FRAC + g1 + (n + (g2 + d + after))
  {}

  lemma CommandFound(cc: CharClass, text: string, before: string, command: string, gap: string, rest: string)
    requires cc.Sane() && AllSpaces(cc, gap) && command in {FRAC, SQRT} && rest != "" && rest[0] == '{'
    requires text == before + command + gap + rest
    ensures |before| < |text| && ConstructAt(cc, text, |before|) && StartsWith(text, |before|, command)
    ensures text[..|before|] == before
  {
    var p := |before|;
    assert text[p..p + 5] == command;
    assert text[p + 5] == (gap + rest)[0];
  }

  lemma ReplaceRoot(cc: CharClass, text: string, before: string, g: string, a: string, after: string)
    requires cc.Sane() && AllSpaces(cc, g) && Balanced(a)
    requires text == (before + SQRT) + g + Braced(a) + after
    requires text == before + SQRT + g + (Braced(a) + after)
    ensures |before| < |text| && ConstructAt(cc, text, |before|)
    ensures ReplaceAt(cc, text, |before|) == Some(before + Root(a) + after)
  {
    ArgumentFound(cc, text, before + SQRT, g, a, after);
    CommandFound(cc, text, before, SQRT, g, Braced(a) + after);
    assert text[|before|..|before| + 5] == SQRT != FRAC;
    RootReplaced(cc, text, |before|, Argument(cc, text, |before| + 5).value, before, a, after);
  }

  lemma RootReplaced(cc: CharClass, text: string, p: nat, arg: (nat, nat), before: string, a: string, after: string)
    requires p < |text| && ConstructAt(cc, text, p) && !StartsWith(text, p, FRAC)
    requires Argument(cc, text, p + 5) == Some(arg)
    requires text[..p] == before && text[arg.0 + 1..arg.1] == a && text[arg.1 + 1..] == after
    ensures ReplaceAt(cc, text, p) == Some(before + Root(a) + after)
  {}

  lemma RegroupRoot(before: string, g: string, a: string, after: string)
    ensures before + (SQRT + g + a) + after == (before + SQRT) + g + a + after
    ensures before + (SQRT + g + a) + after == before + SQRT + g + (a + after)
  {}

  /** Behind the first character of the rightmost construct no backslash follows, so it is the
      last match. */
  lemma {:induction false} LastConstructIs(cc: CharClass, text: string, p: nat, limit: nat)
    requires p < limit <= |text| && ConstructAt(cc, text, p)
    requires forall q :: p < q < |text| ==> text[q] != '\\'
    ensures LastConstruct(cc, text, limit) == Some(p)
  {
    if limit - 1 > p {
      if ConstructAt(cc, text, limit - 1) {
        ConstructHead(text, limit - 1);
      }
      LastConstructIs(cc, text, p, limit - 1);
    }
  }

  lemma PlainBraced(s: string)
    requires '\\' !in s
    ensures '\\' !in Braced(s)
  {}

  lemma WellFormedParts(cc: CharClass, t: Tex)
    requires WellFormed(cc, t)
    ensures t.Frac? ==> WellFormed(cc, t.num) && WellFormed(cc, t.den) && AllSpaces(cc, t.gap1) && AllSpaces(cc, t.gap2)
    ensures t.Sqrt? ==> WellFormed(cc, t.arg) && AllSpaces(cc, t.gap)
  {}

  lemma RedexTail(cc: CharClass, t: Tex)
    requires cc.Sane() && WellFormed(cc, t)
    requires (t.Frac? && Constructs(t.num) == Constructs(t.den) == 0) || (t.Sqrt? && Constructs(t.arg) == 0)
    ensures forall i :: 0 < i < |Print(t)| ==> Print(t)[i] != '\\'
  {
    hide Braced, WellFormed;
    WellFormedParts(cc, t);
    if t.Frac? {
      PlainPrint(cc, t.num);
      PlainPrint(cc, t.den);
      SpacesPlain(cc, t.gap1);
      SpacesPlain(cc, t.gap2);
      var tail := "frac" + t.gap1 + Braced(Print(t.num)) + t.gap2 + Braced(Print(t.den));
      PlainBraced(Print(t.num));
      PlainBraced(Print(t.den));
      assert '\\' !in tail;
      assert Print(t) == "\\" + tail;
    } else {
      PlainPrint(cc, t.arg);
      SpacesPlain(cc, t.gap);
      var tail := "sqrt" + t.gap + Braced(Print(t.arg));
      PlainBraced(Print(t.arg));
      assert '\\' !in tail;
      assert Print(t) == "\\" + tail;
    }
  }

  /** One step of the string rewriting is one reduction of the tree. */
  lemma StepIsReduce(cc: CharClass, t: Tex)
    requires cc.Sane() && WellFormed(cc, t) && Constructs(t) > 0
    ensures Rewrite(cc, Print(t)) == Rewrite(cc, Print(Reduce(t)))
  {
    PrintAroundRedex(cc, t);
    var r := Redex(t);
    LiteralMeaning(cc, r);
    RedexTail(cc, r);
    ReplaceRedex(cc, Print(t), Before(t), r, After(t));
    hide *;
    NothingBehind(Print(t), Before(t), Print(r), After(t));
    LastConstructIs(cc, Print(t), |Before(t)|, |Print(t)|);
    RewriteStep(cc, Print(t), |Before(t)|, Print(Reduce(t)));
  }

  /** Behind the first character of the rightmost construct there is no backslash. */
  lemma NothingBehind(text: string, before: string, middle: string, after: string)
    requires text == before + middle + after && middle != ""
    requires '\\' !in middle[1..] && '\\' !in after
    ensures forall q :: |before| < q < |text| ==> text[q] != '\\'
  {
    forall q | |before| < q < |text| ensures text[q] != '\\' {
      if q < |before| + |middle| {
        assert text[q] == middle[1..][q - |before| - 1];
      } else {
        assert text[q] == after[q - |before| - |middle|];
      }
    }
  }

  lemma ReplaceRedex(cc: CharClass, text: string, before: string, r: Tex, after: string)
    requires cc.Sane() && WellFormed(cc, r)
    requires (r.Frac? && Constructs(r.num) == Constructs(r.den) == 0) || (r.Sqrt? && Constructs(r.arg) == 0)
    requires text == before + Print(r) + after
    ensures |before| < |text| && ConstructAt(cc, text, |before|)
    ensures ReplaceAt(cc, text, |before|) == Some(before + Print(Literal(r)) + after)
  {
    LiteralMeaning(cc, r);
    if r.Frac? {
      PlainIsBalanced(cc, r.num);
      PlainIsBalanced(cc, r.den);
      RegroupFraction(before, r.gap1, Braced(Print(r.num)), r.gap2, Braced(Print(r.den)), after);
      ReplaceFraction(cc, text, before, r.gap1, Print(r.num), r.gap2, Print(r.den), after);
    } else {
      PlainIsBalanced(cc, r.arg);
      RegroupRoot(before, r.gap, Braced(Print(r.arg)), after);
      ReplaceRoot(cc, text, before, r.gap, Print(r.arg), after);
    }
  }

  /** Iterated rightmost-first replacement of a printed expression returns exactly its recursive
      translation. */
  lemma {:induction false} RewriteIsTranslation(cc: CharClass, t: Tex)
    requires cc.Sane() && WellFormed(cc, t)
    ensures Rewrite(cc, Print(t)) == Some(Translate(t))
    decreases Constructs(t)
  {
    if Constructs(t) == 0 {
      PlainPrint(cc, t);
      NoConstruct(cc, Print(t), |Print(t)|);
    } else {
      ReduceKeepsMeaning(cc, t);
      StepIsReduce(cc, t);
      RewriteIsTranslation(cc, Reduce(t));
    }
  }

  lemma {:induction false} NoConstruct(cc: CharClass, text: string, limit: nat)
    requires '\\' !in text && limit <= |text|
    ensures LastConstruct(cc, text, limit) == None
  {
    if limit > 0 {
      if ConstructAt(cc, text, limit - 1) {
        ConstructHead(text, limit - 1);
      }
      NoConstruct(cc, text, limit - 1);
    }
  }
}
