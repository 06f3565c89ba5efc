/**
 The data the liminf/limsup figure is drawn from: a sequence of 603 values
 whose last two entries are forced to `1` and `-1`, and its partial
 supremum and partial infimum.

 The values before the override, `(1 + exp(-0.01 n)) * sin(2 pi n / 100)`,
 are floating-point numerics; here they are an arbitrary sequence `wave`
 of the right length, since the partial extrema depend only on their order.
 */
module LimInfLimSup {
  import opened Extrema
  import opened SuffixExtrema

  /** Number of indices, `n = 0, 1, ..., 602`. */
  const Length: nat := 603

  /** Index forced to `1`. */
  const UpperIndex: nat := 601

  /** Index forced to `-1`: the last index. */
  const LowerIndex: nat := 602

  /**
   The two-point override: `x[601]` becomes `1`, `x[602]` becomes `-1`, and
   nothing else changes. Both indices must exist.
   */
  function Override(x: seq<real>): (y: seq<real>)
    requires LowerIndex < |x|
    ensures |y| == |x|
    ensures y[UpperIndex] == 1.0 && y[LowerIndex] == -1.0
    ensures forall k :: 0 <= k < |x| && k != UpperIndex && k != LowerIndex ==> y[k] == x[k]
  {
    x[UpperIndex := 1.0][LowerIndex := -1.0]
  }

  /**
   The partial extrema of the overridden sequence at its end: the last
   suffix is `[-1]`, the one before it `[1, -1]`, and every earlier suffix
   contains both, so it reaches at least `1` and at most `-1`.
   */
  lemma OverriddenTails(wave: seq<real>)
    requires |wave| == Length
    ensures var x := Override(wave);
            && TailSup(x)[LowerIndex] == -1.0 && TailInf(x)[LowerIndex] == -1.0
            && TailSup(x)[UpperIndex] == 1.0 && TailInf(x)[UpperIndex] == -1.0
            && (forall i :: 0 <= i <= UpperIndex ==> 1.0 <= TailSup(x)[i] && TailInf(x)[i] <= -1.0)
  {
    var x := Override(wave);
    forall i | 0 <= i <= LowerIndex
      ensures AttainedFrom(x, i, TailSup(x)[i]) && AttainedFrom(x, i, TailInf(x)[i])
      ensures forall j :: i <= j < |x| ==> TailInf(x)[i] <= x[j] <= TailSup(x)[i]
    {
      SuffixAttains(x, i);
    }
  }

  /**
   The script's computation: override the last two values, then fill the
   partial supremum and partial infimum arrays.
   */
  method Run(wave: seq<real>) returns (x: seq<real>, partialSup: seq<real>, partialInf: seq<real>)
    requires |wave| == Length
    ensures x == Override(wave)
    ensures |x| == Length && |partialSup| == Length && |partialInf| == Length
    ensures partialSup == TailSup(x) && partialInf == TailInf(x)
    ensures forall i, j :: 0 <= i <= j < Length ==>
              partialSup[j] <= partialSup[i] && partialInf[i] <= partialInf[j]
    ensures forall i :: 0 <= i < Length ==> partialInf[i] <= x[i] <= partialSup[i]
    ensures partialSup[LowerIndex] == -1.0 && partialInf[LowerIndex] == -1.0
    ensures partialSup[UpperIndex] == 1.0 && partialInf[UpperIndex] == -1.0
    ensures forall i :: 0 <= i <= UpperIndex ==> 1.0 <= partialSup[i] && partialInf[i] <= -1.0
  {
    x := Override(wave);
    partialSup, partialInf := PartialExtrema(x);
    OverriddenTails(wave);
  }
}
