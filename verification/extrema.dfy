/**
 This module defines the maximum and minimum of a non-empty sequence of reals,
 the values `np.max` and `np.min` return on a slice, and the facts about
 suffixes of a sequence that the tail-extrema computation relies on.

 Only the ordering of the values matters, so the floating-point numbers of
 the plotted sequence are modelled as mathematical reals.
 */
module Extrema {

  function Max(a: real, b: real): (r: real)
    ensures a <= r && b <= r
    ensures r == a || r == b
  {
    if a < b then b else a
  }

  function Min(a: real, b: real): (r: real)
    ensures r <= a && r <= b
    ensures r == a || r == b
  {
    if b < a then b else a
  }

  /** Some element of `s` at index `i` or later equals `v`. */
  ghost predicate AttainedFrom(s: seq<real>, i: nat, v: real) {
    exists j :: i <= j < |s| && s[j] == v
  }

  /** `m` is an upper bound of `s` that some element of `s` attains. */
  ghost predicate IsMaxOf(s: seq<real>, m: real) {
    && (forall j :: 0 <= j < |s| ==> s[j] <= m)
    && AttainedFrom(s, 0, m)
  }

  /** `m` is a lower bound of `s` that some element of `s` attains. */
  ghost predicate IsMinOf(s: seq<real>, m: real) {
    && (forall j :: 0 <= j < |s| ==> m <= s[j])
    && AttainedFrom(s, 0, m)
  }

  /** The largest element of a non-empty sequence, folded from the right. */
  function SeqMax(s: seq<real>): (r: real)
    requires |s| > 0
    ensures forall j :: 0 <= j < |s| ==> s[j] <= r
    ensures exists j :: 0 <= j < |s| && s[j] == r
  {
    if |s| == 1 then s[0]
    else
      var rest := SeqMax(s[1..]);
      assert forall j :: 1 <= j < |s| ==> s[j] == s[1..][j - 1];
      Max(s[0], rest)
  }

  /** The smallest element of a non-empty sequence, folded from the right. */
  function SeqMin(s: seq<real>): (r: real)
    requires |s| > 0
    ensures forall j :: 0 <= j < |s| ==> r <= s[j]
    ensures exists j :: 0 <= j < |s| && s[j] == r
  {
    if |s| == 1 then s[0]
    else
      var rest := SeqMin(s[1..]);
      assert forall j :: 1 <= j < |s| ==> s[j] == s[1..][j - 1];
      Min(s[0], rest)
  }

  /** An attained upper bound is unique: it is exactly `SeqMax`. */
  lemma MaxCharacterised(s: seq<real>, m: real)
    requires |s| > 0
    ensures IsMaxOf(s, m) <==> m == SeqMax(s)
  {
  }

  /** An attained lower bound is unique: it is exactly `SeqMin`. */
  lemma MinCharacterised(s: seq<real>, m: real)
    requires |s| > 0
    ensures IsMinOf(s, m) <==> m == SeqMin(s)
  {
  }

  /** The maximum of the suffix from `i` is `x[i]` against the maximum of the suffix from `i + 1`. */
  lemma SuffixMaxStep(x: seq<real>, i: nat)
    requires i + 1 < |x|
    ensures SeqMax(x[i..]) == Max(x[i], SeqMax(x[i + 1..]))
  {
    assert x[i..][1..] == x[i + 1..];
  }

  /** The minimum of the suffix from `i` is `x[i]` against the minimum of the suffix from `i + 1`. */
  lemma SuffixMinStep(x: seq<real>, i: nat)
    requires i + 1 < |x|
    ensures SeqMin(x[i..]) == Min(x[i], SeqMin(x[i + 1..]))
  {
    assert x[i..][1..] == x[i + 1..];
  }

  /** A longer suffix has a maximum at least as large. */
  lemma SuffixMaxAntitone(x: seq<real>, i: nat, j: nat)
    requires i <= j < |x|
    ensures SeqMax(x[j..]) <= SeqMax(x[i..])
  {
    var k :| 0 <= k < |x[j..]| && x[j..][k] == SeqMax(x[j..]);
    assert x[j..][k] == x[i..][k + j - i];
  }

  /** A longer suffix has a minimum at most as large. */
  lemma SuffixMinMonotone(x: seq<real>, i: nat, j: nat)
    requires i <= j < |x|
    ensures SeqMin(x[i..]) <= SeqMin(x[j..])
  {
    var k :| 0 <= k < |x[j..]| && x[j..][k] == SeqMin(x[j..]);
    assert x[j..][k] == x[i..][k + j - i];
  }
}
