/** Helpers shared by the task manager model: optional values, error results,
    JavaScript's Array.prototype.filter on sequences, and decimal rendering of
    numbers inside messages. */
module Util {

  /** A value that may be absent (JavaScript's null or undefined). */
  datatype Option<T> = None | Some(value: T) {
    function GetOr(default: T): T {
      if Some? then value else default
    }
  }

  /** The outcome of an operation that either returns a value or throws. */
  datatype Result<T, E> = Success(value: T) | Failure(error: E)

  /** JavaScript's `s || fallback` for an optional string: an absent or empty
      string gives the fallback. */
  function OrElse(s: Option<string>, fallback: string): (r: string)
    ensures r == fallback || (s.Some? && r == s.value && r != "")
    ensures s.Some? && s.value != "" ==> r == s.value
  {
    if s.Some? && s.value != "" then s.value else fallback
  }

  /** JavaScript's `s || null` for an optional string. */
  function NonEmpty(s: Option<string>): (r: Option<string>)
    ensures r.Some? <==> s.Some? && s.value != ""
    ensures r.Some? ==> r == s
  {
    if s.Some? && s.value != "" then s else None
  }

  function Min(a: int, b: int): int {
    if a <= b then a else b
  }

  /** The elements of `s` that satisfy `p`, in their order in `s`. */
  function Filter<T(!new)>(s: seq<T>, p: T -> bool): (r: seq<T>)
    ensures |r| <= |s|
    ensures forall x :: x in r <==> x in s && p(x)
  {
    if s == [] then []
    else
      var init := s[..|s| - 1];
      assert forall x :: x in s <==> x in init || x == s[|s| - 1];
      Filter(init, p) + (if p(s[|s| - 1]) then [s[|s| - 1]] else [])
  }

  /** The positions of `s` whose element satisfies `p`. */
  function Matching<T(!new)>(s: seq<T>, p: T -> bool): set<nat> {
    set k: nat | k < |s| && p(s[k])
  }

  /** Predicates that agree on every position match the same positions. */
  lemma MatchingAgree<T(!new)>(s: seq<T>, p: T -> bool, q: T -> bool)
    requires forall k :: 0 <= k < |s| ==> p(s[k]) == q(s[k])
    ensures Matching(s, p) == Matching(s, q)
  {
  }

  /** One more element adds its position to the matches when it matches. */
  lemma MatchingSnoc<T(!new)>(s: seq<T>, p: T -> bool)
    requires s != []
    ensures |Matching(s, p)| == |Matching(s[..|s| - 1], p)| + (if p(s[|s| - 1]) then 1 else 0)
  {
    var n := |s| - 1;
    var before := Matching(s[..n], p);
    if p(s[n]) {
      assert Matching(s, p) == before + {n};
      assert n !in before;
    } else {
      assert Matching(s, p) == before;
    }
  }

  /** Filtering keeps exactly one element per matching position: the length
      of a filtered sequence is the number of positions that match. */
  lemma {:induction false} FilterCount<T(!new)>(s: seq<T>, p: T -> bool)
    ensures |Filter(s, p)| == |Matching(s, p)|
  {
    if s != [] {
      var n := |s| - 1;
      FilterCount(s[..n], p);
      MatchingSnoc(s, p);
      assert |Filter(s, p)| == |Filter(s[..n], p)| + (if p(s[n]) then 1 else 0);
    }
  }

  /** Filtering a concatenation filters each part: the order of elements is
      preserved. */
  lemma {:induction false} FilterConcat<T(!new)>(a: seq<T>, b: seq<T>, p: T -> bool)
    ensures Filter(a + b, p) == Filter(a, p) + Filter(b, p)
  {
    if b == [] {
      assert a + b == a;
    } else {
      var n := |b| - 1;
      assert (a + b)[..|a + b| - 1] == a + b[..n];
      FilterConcat(a, b[..n], p);
    }
  }

  /** The conjunction of two predicates. */
  function Both<T>(p: T -> bool, q: T -> bool): T -> bool {
    x => p(x) && q(x)
  }

  /** Filtering twice is filtering once by the conjunction. */
  lemma {:induction false} FilterFilter<T(!new)>(s: seq<T>, p: T -> bool, q: T -> bool)
    ensures Filter(Filter(s, p), q) == Filter(s, Both(p, q))
  {
    if s != [] {
      var n := |s| - 1;
      FilterFilter(s[..n], p, q);
      var lastP := if p(s[n]) then [s[n]] else [];
      FilterConcat(Filter(s[..n], p), lastP, q);
      if p(s[n]) {
        assert lastP[..0] == [];
      }
    }
  }

  lemma SplitAt<T>(s: seq<T>, i: nat)
    requires i < |s|
    ensures s == (s[..i] + [s[i]]) + s[i + 1..]
  {
  }

  /** Filtering a sequence extended by one element. */
  lemma FilterSnoc<T(!new)>(a: seq<T>, y: T, p: T -> bool)
    ensures Filter(a + [y], p) == Filter(a, p) + (if p(y) then [y] else [])
  {
    assert (a + [y])[..|a|] == a;
  }

  /** Filtering splits around any position. */
  lemma FilterAround<T(!new)>(s: seq<T>, p: T -> bool, i: nat)
    requires i < |s|
    ensures Filter(s, p) == Filter(s[..i], p) + (if p(s[i]) then [s[i]] else []) + Filter(s[i + 1..], p)
  {
    SplitAt(s, i);
    FilterConcat(s[..i] + [s[i]], s[i + 1..], p);
    FilterSnoc(s[..i], s[i], p);
  }

  /** Replacing one element changes the number of matches by at most one:
      minus one if the old element matched, plus one if the new one does. */
  lemma FilterUpdateCount<T(!new)>(s: seq<T>, p: T -> bool, i: nat, x: T)
    requires i < |s|
    ensures |Filter(s[i := x], p)| ==
            |Filter(s, p)| - (if p(s[i]) then 1 else 0) + (if p(x) then 1 else 0)
  {
    var t := s[i := x];
    assert t[..i] == s[..i] && t[i + 1..] == s[i + 1..];
    FilterAround(s, p, i);
    FilterAround(t, p, i);
  }

  /** Replacing a non-matching element by another non-matching one leaves the
      filtered sequence as it was. */
  lemma FilterUpdateUnmatched<T(!new)>(s: seq<T>, p: T -> bool, i: nat, x: T)
    requires i < |s| && !p(s[i]) && !p(x)
    ensures Filter(s[i := x], p) == Filter(s, p)
  {
    var t := s[i := x];
    assert t[..i] == s[..i] && t[i + 1..] == s[i + 1..];
    FilterAround(s, p, i);
    FilterAround(t, p, i);
  }

  /** Replacing an element by one that matches exactly when it did changes the
      filtered sequence at one position at most and never its length. */
  lemma {:induction false} FilterUpdateSameMatch<T(!new)>(s: seq<T>, p: T -> bool, i: nat, x: T)
    requires i < |s| && p(s[i]) == p(x)
    ensures |Filter(s[i := x], p)| == |Filter(s, p)|
  {
    FilterUpdateCount(s, p, i, x);
  }

  // Decimal rendering, as JavaScript interpolates a non-negative integer into a template string.

  function DigitChar(d: nat): (c: char)
    requires d < 10
    ensures '0' <= c <= '9'
  {
    ('0' as int + d) as char
  }

  function DigitValue(c: char): nat {
    if '0' <= c <= '9' then (c as int - '0' as int) as nat else 0
  }

  /** The decimal digits of `n`, most significant first, with no leading zero. */
  function NatToString(n: nat): (r: string)
    ensures |r| >= 1
    ensures forall k :: 0 <= k < |r| ==> '0' <= r[k] <= '9'
    ensures |r| > 1 ==> r[0] != '0'
  {
    if n < 10 then [DigitChar(n)] else NatToString(n / 10) + [DigitChar(n % 10)]
  }

  /** The number a string of decimal digits denotes. */
  function DecimalValue(s: string): nat {
    if s == [] then 0 else DecimalValue(s[..|s| - 1]) * 10 + DigitValue(s[|s| - 1])
  }

  /** Reading back the rendered digits gives the number again. */
  lemma {:induction false} NatToStringRoundTrip(n: nat)
    ensures DecimalValue(NatToString(n)) == n
  {
    if n >= 10 {
      var q, d := n / 10, n % 10;
      NatToStringRoundTrip(q);
      var s := NatToString(n);
      assert s == NatToString(q) + [DigitChar(d)];
      assert s[..|s| - 1] == NatToString(q);
      assert DigitValue(s[|s| - 1]) == d;
      assert DecimalValue(s) == q * 10 + d;
    }
  }
}
