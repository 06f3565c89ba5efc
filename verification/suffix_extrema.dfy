/**
 The partial supremum and partial infimum of a finite sequence: for every
 index `i`, the maximum and the minimum of the suffix `x[i..]`.

 `PartialExtrema` mirrors the plotting script's loop, which rescans every
 suffix; `RunningSup` and `RunningInf` are the right-to-left running
 maximum and minimum, proved to produce the same sequences.
 */
module SuffixExtrema {
  import opened Extrema

  /** Reference definition: entry `i` is the maximum of `x[i..]`. */
  function TailSup(x: seq<real>): seq<real> {
    seq(|x|, i requires 0 <= i < |x| => SeqMax(x[i..]))
  }

  /** Reference definition: entry `i` is the minimum of `x[i..]`. */
  function TailInf(x: seq<real>): seq<real> {
    seq(|x|, i requires 0 <= i < |x| => SeqMin(x[i..]))
  }

  /** `np.max(x[i:])`: a left-to-right scan of the suffix from `i`. */
  method ScanMax(x: seq<real>, i: nat) returns (m: real)
    requires i < |x|
    ensures forall j :: i <= j < |x| ==> x[j] <= m
    ensures AttainedFrom(x, i, m)
    ensures m == SeqMax(x[i..])
  {
    m := x[i];
    var k := i + 1;
    while k < |x|
      invariant i < k <= |x|
      invariant forall j :: i <= j < k ==> x[j] <= m
      invariant exists j :: i <= j < k && x[j] == m
    {
      if m < x[k] {
        m := x[k];
      }
      k := k + 1;
    }
    assert IsMaxOf(x[i..], m) by {
      var j :| i <= j < |x| && x[j] == m;
      assert x[i..][j - i] == m;
    }
    MaxCharacterised(x[i..], m);
  }

  /** `np.min(x[i:])`: a left-to-right scan of the suffix from `i`. */
  method ScanMin(x: seq<real>, i: nat) returns (m: real)
    requires i < |x|
    ensures forall j :: i <= j < |x| ==> m <= x[j]
    ensures AttainedFrom(x, i, m)
    ensures m == SeqMin(x[i..])
  {
    m := x[i];
    var k := i + 1;
    while k < |x|
      invariant i < k <= |x|
      invariant forall j :: i <= j < k ==> m <= x[j]
      invariant exists j :: i <= j < k && x[j] == m
    {
      if x[k] < m {
        m := x[k];
      }
      k := k + 1;
    }
    assert IsMinOf(x[i..], m) by {
      var j :| i <= j < |x| && x[j] == m;
      assert x[i..][j - i] == m;
    }
    MinCharacterised(x[i..], m);
  }

  /**
   The script's loop: two arrays as long as `x`, and for every index `i`
   the maximum and the minimum of the suffix from `i` stored at `i`.
   */
  method PartialExtrema(x: seq<real>) returns (partialSup: seq<real>, partialInf: seq<real>)
    ensures |partialSup| == |x| && |partialInf| == |x|
    ensures partialSup == TailSup(x) && partialInf == TailInf(x)
    ensures forall i, j :: 0 <= i <= j < |x| ==> partialInf[i] <= x[j] <= partialSup[i]
    ensures forall i :: 0 <= i < |x| ==>
              AttainedFrom(x, i, partialSup[i]) && AttainedFrom(x, i, partialInf[i])
    ensures forall i :: 0 <= i < |x| ==> partialInf[i] <= x[i] <= partialSup[i]
    ensures forall i, j :: 0 <= i <= j < |x| ==>
              partialSup[j] <= partialSup[i] && partialInf[i] <= partialInf[j]
  {
    ghost var tailSup, tailInf := TailSup(x), TailInf(x);
    var sup := new real[|x|];
    var inf := new real[|x|];
    var i := 0;
    while i < |x|
      invariant 0 <= i <= |x|
      invariant forall k :: 0 <= k < i ==> sup[k] == tailSup[k]
      invariant forall k :: 0 <= k < i ==> inf[k] == tailInf[k]
    {
      sup[i] := ScanMax(x, i);
      inf[i] := ScanMin(x, i);
      i := i + 1;
    }
    partialSup, partialInf := sup[..], inf[..];
    TailProperties(x);
  }

  /**
   What the suffix extrema mean: bounds over the whole suffix, attained
   inside it, around `x[i]`, and monotone in `i`.
   */
  lemma TailProperties(x: seq<real>)
    ensures forall i, j :: 0 <= i <= j < |x| ==> TailInf(x)[i] <= x[j] <= TailSup(x)[i]
    ensures forall i :: 0 <= i < |x| ==>
              AttainedFrom(x, i, TailSup(x)[i]) && AttainedFrom(x, i, TailInf(x)[i])
    ensures forall i :: 0 <= i < |x| ==> TailInf(x)[i] <= x[i] <= TailSup(x)[i]
    ensures forall i, j :: 0 <= i <= j < |x| ==>
              TailSup(x)[j] <= TailSup(x)[i] && TailInf(x)[i] <= TailInf(x)[j]
  {
    forall i | 0 <= i < |x|
      ensures AttainedFrom(x, i, TailSup(x)[i]) && AttainedFrom(x, i, TailInf(x)[i])
      ensures forall j :: i <= j < |x| ==> TailInf(x)[i] <= x[j] <= TailSup(x)[i]
    {
      SuffixAttains(x, i);
    }
    forall i, j | 0 <= i <= j < |x|
      ensures TailSup(x)[j] <= TailSup(x)[i] && TailInf(x)[i] <= TailInf(x)[j]
    {
      SuffixMaxAntitone(x, i, j);
      SuffixMinMonotone(x, i, j);
    }
  }

  /** Index form of the bound and attainment of the suffix extrema. */
  lemma SuffixAttains(x: seq<real>, i: nat)
    requires i < |x|
    ensures forall j :: i <= j < |x| ==> SeqMin(x[i..]) <= x[j] <= SeqMax(x[i..])
    ensures AttainedFrom(x, i, SeqMax(x[i..]))
    ensures AttainedFrom(x, i, SeqMin(x[i..]))
  {
    forall j | i <= j < |x|
      ensures SeqMin(x[i..]) <= x[j] <= SeqMax(x[i..])
    {
      assert x[i..][j - i] == x[j];
    }
    var a :| 0 <= a < |x[i..]| && x[i..][a] == SeqMax(x[i..]);
    assert x[i + a] == SeqMax(x[i..]);
    var b :| 0 <= b < |x[i..]| && x[i..][b] == SeqMin(x[i..]);
    assert x[i + b] == SeqMin(x[i..]);
  }

  /** The right-to-left running maximum: one pass from the last index to the first. */
  function RunningSup(x: seq<real>): (r: seq<real>)
    ensures |r| == |x|
  {
    if |x| <= 1 then x
    else
      var rest := RunningSup(x[1..]);
      [Max(x[0], rest[0])] + rest
  }

  /** The right-to-left running minimum: one pass from the last index to the first. */
  function RunningInf(x: seq<real>): (r: seq<real>)
    ensures |r| == |x|
  {
    if |x| <= 1 then x
    else
      var rest := RunningInf(x[1..]);
      [Min(x[0], rest[0])] + rest
  }

  /** The suffix maximum sequence of `x` is the maximum of `x` followed by that of `x[1..]`. */
  lemma TailSupCons(x: seq<real>)
    requires |x| > 1
    ensures TailSup(x) == [SeqMax(x)] + TailSup(x[1..])
  {
    var t, u := TailSup(x), TailSup(x[1..]);
    forall i | 0 <= i < |x|
      ensures t[i] == ([SeqMax(x)] + u)[i]
    {
      if i == 0 {
        assert x[0..] == x;
      } else {
        assert x[1..][i - 1..] == x[i..];
      }
    }
  }

  /** The running maximum produces exactly the rescanned suffix maxima. */
  lemma {:induction false} RunningSupIsTailSup(x: seq<real>)
    ensures RunningSup(x) == TailSup(x)
  {
    if |x| > 1 {
      RunningSupIsTailSup(x[1..]);
      TailSupCons(x);
      assert TailSup(x[1..])[0] == SeqMax(x[1..]) by {
        assert x[1..][0..] == x[1..];
      }
    } else if |x| == 1 {
      assert x[0..] == x;
    }
  }

  /** The suffix minimum sequence of `x` is the minimum of `x` followed by that of `x[1..]`. */
  lemma TailInfCons(x: seq<real>)
    requires |x| > 1
    ensures TailInf(x) == [SeqMin(x)] + TailInf(x[1..])
  {
    var t, u := TailInf(x), TailInf(x[1..]);
    forall i | 0 <= i < |x|
      ensures t[i] == ([SeqMin(x)] + u)[i]
    {
      if i == 0 {
        assert x[0..] == x;
      } else {
        assert x[1..][i - 1..] == x[i..];
      }
    }
  }

  /** The running minimum produces exactly the rescanned suffix minima. */
  lemma {:induction false} RunningInfIsTailInf(x: seq<real>)
    ensures RunningInf(x) == TailInf(x)
  {
    if |x| > 1 {
      RunningInfIsTailInf(x[1..]);
      TailInfCons(x);
      assert TailInf(x[1..])[0] == SeqMin(x[1..]) by {
        assert x[1..][0..] == x[1..];
      }
    } else if |x| == 1 {
      assert x[0..] == x;
    }
  }

  /** Values confined to `[lo, hi]` give partial extrema confined to `[lo, hi]`. */
  lemma TailsWithinRange(x: seq<real>, lo: real, hi: real)
    requires forall j :: 0 <= j < |x| ==> lo <= x[j] <= hi
    ensures forall i :: 0 <= i < |x| ==> lo <= TailInf(x)[i] && TailSup(x)[i] <= hi
  {
    TailProperties(x);
  }

  /** The example `[0.5, -0.3, 0.8, -0.8]`: suffix maxima and minima. */
  lemma SmallExample()
    ensures TailSup([0.5, -0.3, 0.8, -0.8]) == [0.8, 0.8, 0.8, -0.8]
    ensures TailInf([0.5, -0.3, 0.8, -0.8]) == [-0.8, -0.8, -0.8, -0.8]
  {
    var x := [0.5, -0.3, 0.8, -0.8];
    RunningSupIsTailSup(x);
    RunningInfIsTailInf(x);
    assert x[1..] == [-0.3, 0.8, -0.8];
    assert x[1..][1..] == [0.8, -0.8];
    assert x[1..][1..][1..] == [-0.8];
  }
}
