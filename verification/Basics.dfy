/** Datatypes and sequence facts shared by the component models. */
module Basics {

  datatype Option<+T> = None | Some(value: T)

  /** A Python call that either returns or raises; `reason` names the exit taken. */
  datatype Result<+T> = Ok(value: T) | Err(reason: string)

  function Max(a: int, b: int): int { if a < b then b else a }

  function Min(a: int, b: int): int { if a < b then a else b }

  function Sum(s: seq<real>): real {
    if s == [] then 0.0 else Sum(s[..|s| - 1]) + s[|s| - 1]
  }

  /** `range(from, from + n)` as a list. */
  function Range(from: int, n: nat): (r: seq<int>)
    ensures |r| == n
  {
    seq(n, i => from + i)
  }

  /** The elements of `s`, concatenated in order. */
  function Flatten<T>(s: seq<seq<T>>): seq<T> {
    if s == [] then [] else Flatten(s[..|s| - 1]) + s[|s| - 1]
  }

  function Map<A, B>(f: A -> B, s: seq<A>): (r: seq<B>)
    ensures |r| == |s|
  {
    seq(|s|, i requires 0 <= i < |s| => f(s[i]))
  }

  /** Where the elements of `s` meet `p`. */
  ghost function Hits<T(!new)>(s: seq<T>, p: T -> bool): set<nat> { set i: nat | i < |s| && p(s[i]) }

  lemma HitsNext<T(!new)>(s: seq<T>, p: T -> bool)
    ensures s == [] ==> |Hits(s, p)| == 0
    ensures s != [] ==> |Hits(s, p)| == |Hits(s[..|s| - 1], p)| + if p(s[|s| - 1]) then 1 else 0
  {
    if s == [] {
      assert Hits(s, p) == {};
    } else {
      var n: nat := |s| - 1;
      assert Hits(s, p) == Hits(s[..n], p) + if p(s[n]) then {n} else {};
    }
  }

  lemma NoHits<T(!new)>(s: seq<T>, p: T -> bool)
    ensures |Hits(s, p)| == 0 <==> forall i :: 0 <= i < |s| ==> !p(s[i])
  {
    if |Hits(s, p)| == 0 {
      forall i: nat | i < |s| ensures !p(s[i]) {
        assert i !in Hits(s, p);
      }
    } else {
      var i :| i in Hits(s, p);
    }
  }

  lemma SumSnoc(s: seq<real>, x: real)
    ensures Sum(s + [x]) == Sum(s) + x
  {
    assert (s + [x])[..|s|] == s;
  }

  ghost predicate Distinct<T>(s: seq<T>) {
    forall i, j :: 0 <= i < j < |s| ==> s[i] != s[j]
  }

  predicate StartsWith(text: string, at: nat, what: string) {
    at + |what| <= |text| && text[at..at + |what|] == what
  }
}
