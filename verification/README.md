# liminf-limsup: partial extrema of a damped oscillation

The script `pictures/light-mode/liminf-limsup/liminf-limsup.py` draws a figure
that illustrates the limit superior and limit inferior of a sequence. It builds
603 values `x[0..602]` from a damped sine wave. It forces `x[601] = 1` and
`x[602] = -1`. Then, for every index `i`, it stores the maximum of `x[i:]` in
`partial_sup[i]` and the minimum of `x[i:]` in `partial_inf[i]`. The rest of
the script is plotting.

This Dafny project models the numeric part:

- `extrema.dfy`, module `Extrema`: the maximum `SeqMax` and the minimum `SeqMin`
  of a non-empty sequence of reals. These are the values `np.max` and `np.min`
  return. The module also holds facts about suffixes: the one-step recurrence
  and monotonicity.
- `suffix_extrema.dfy`, module `SuffixExtrema`: the script's loop as the
  method `PartialExtrema`. It fills two arrays by rescanning every suffix with
  `ScanMax` and `ScanMin`. `TailSup` and `TailInf` are the reference
  definitions it is proved equal to. `RunningSup` and `RunningInf` are the
  linear right-to-left running maximum and minimum, proved to produce the same
  sequences.
- `lim_inf_lim_sup.dfy`, module `LimInfLimSup`: the length 603, the two-point
  override `Override`, and the whole computation `Run`. It also proves what the
  override does to the end of the partial extrema.

The values before the override are abstracted to an arbitrary sequence `wave`
of length 603. The partial extrema depend only on the order of the values, so
the floating-point values are modelled as reals.

## Model

| member | source | states |
|---|---|---|
| Extrema.SeqMax | pictures/light-mode/liminf-limsup/liminf-limsup.py:27 | the maximum of a non-empty slice is at least every element and equals one of them |
| Extrema.SeqMin | pictures/light-mode/liminf-limsup/liminf-limsup.py:28 | the minimum of a non-empty slice is at most every element and equals one of them |
| Extrema.MaxCharacterised | pictures/light-mode/liminf-limsup/liminf-limsup.py:27 | a value is an attained upper bound of the slice exactly when it is the maximum |
| Extrema.MinCharacterised | pictures/light-mode/liminf-limsup/liminf-limsup.py:28 | a value is an attained lower bound of the slice exactly when it is the minimum |
| Extrema.SuffixMaxStep | pictures/light-mode/liminf-limsup/liminf-limsup.py:26-27 | max of `x[i:]` is the larger of `x[i]` and max of `x[i+1:]` |
| Extrema.SuffixMinStep | pictures/light-mode/liminf-limsup/liminf-limsup.py:26-28 | min of `x[i:]` is the smaller of `x[i]` and min of `x[i+1:]` |
| Extrema.SuffixMaxAntitone | pictures/light-mode/liminf-limsup/liminf-limsup.py:26-27 | the suffix maximum does not increase as the start index grows |
| Extrema.SuffixMinMonotone | pictures/light-mode/liminf-limsup/liminf-limsup.py:26-28 | the suffix minimum does not decrease as the start index grows |
| SuffixExtrema.ScanMax | pictures/light-mode/liminf-limsup/liminf-limsup.py:27 | scanning `x[i:]` yields a value at least every `x[j]` with `j >= i` that some such `x[j]` equals, that is, the maximum of the suffix |
| SuffixExtrema.ScanMin | pictures/light-mode/liminf-limsup/liminf-limsup.py:28 | scanning `x[i:]` yields a value at most every `x[j]` with `j >= i` that some such `x[j]` equals, that is, the minimum of the suffix |
| SuffixExtrema.PartialExtrema | pictures/light-mode/liminf-limsup/liminf-limsup.py:24-28 | both outputs are as long as `x`; entry `i` bounds every `x[j]` with `j >= i` from above and below and is attained there; `partial_inf[i] <= x[i] <= partial_sup[i]`; `partial_sup` is non-increasing and `partial_inf` non-decreasing |
| SuffixExtrema.TailProperties | pictures/light-mode/liminf-limsup/liminf-limsup.py:24-28 | the same bound, attainment, sandwich and monotonicity facts for the reference suffix extrema |
| SuffixExtrema.SuffixAttains | pictures/light-mode/liminf-limsup/liminf-limsup.py:27-28 | in index form: every `x[j]` with `j >= i` lies between the suffix minimum and maximum, and both are attained at some `j >= i` |
| SuffixExtrema.TailSupCons | pictures/light-mode/liminf-limsup/liminf-limsup.py:26-27 | the suffix maxima of `x` are the maximum of all of `x` followed by the suffix maxima of `x[1:]` |
| SuffixExtrema.TailInfCons | pictures/light-mode/liminf-limsup/liminf-limsup.py:26-28 | the suffix minima of `x` are the minimum of all of `x` followed by the suffix minima of `x[1:]` |
| SuffixExtrema.RunningSupIsTailSup | pictures/light-mode/liminf-limsup/liminf-limsup.py:26-27 | a right-to-left running maximum gives exactly the rescanned suffix maxima |
| SuffixExtrema.RunningInfIsTailInf | pictures/light-mode/liminf-limsup/liminf-limsup.py:26-28 | a right-to-left running minimum gives exactly the rescanned suffix minima |
| SuffixExtrema.TailsWithinRange | pictures/light-mode/liminf-limsup/liminf-limsup.py:26-28 | if every value lies in `[lo, hi]`, so does every partial supremum and infimum |
| SuffixExtrema.SmallExample | pictures/light-mode/liminf-limsup/liminf-limsup.py:26-28 | on `[0.5, -0.3, 0.8, -0.8]` the partial suprema are `[0.8, 0.8, 0.8, -0.8]` and the partial infima all `-0.8` |
| LimInfLimSup.Override | pictures/light-mode/liminf-limsup/liminf-limsup.py:17-18 | `x[601]` becomes 1, `x[602]` becomes -1, length and every other entry unchanged |
| LimInfLimSup.OverriddenTails | pictures/light-mode/liminf-limsup/liminf-limsup.py:17-28 | after the override, both extrema at index 602 are -1; at 601 the supremum is 1 and the infimum -1; at every `i <= 601` the supremum is at least 1 and the infimum at most -1 |
| LimInfLimSup.Run | pictures/light-mode/liminf-limsup/liminf-limsup.py:7-28 | for 603 values: the overridden sequence, and two arrays of length 603 that are exactly its suffix maxima and minima; they are monotone and sandwich the sequence, with the end values and the `>= 1` / `<= -1` bounds above |

## Left out

- The generation of the values, `(1 + exp(-0.01 n)) * sin(2 pi n / 100)` at lines 11 and 16, is floating-point numerics. `Run` takes these values as an arbitrary sequence `wave` of length 603.
- `n = np.arange(603)` at line 7 is modelled only as its length, `LimInfLimSup.Length`. The loop at line 26 runs over `len(n)`, which is `len(x)` here, so `PartialExtrema` loops over the indices of `x`.
- NaN propagation by `np.max` and `np.min` is not modelled, because reals have no NaN.
- With an empty input, the loop at line 26 simply does not run, and `PartialExtrema` returns two empty sequences. No error is raised, because the code raises none.
- Only the bounds `partial_sup[i] >= 1` and `partial_inf[i] <= -1` are proved for `i <= 601`, not equality. The amplitude `1 + exp(-0.01 n)` is above 1, so a sine peak before index 601 can exceed 1.
- The comments at lines 7 and 10 ("0..600", "from 1.5") disagree with the code, which has indices 0..602 and amplitude 2 at `n = 0`. The model follows the code.
- All matplotlib work is left out, because it is rendering and file output through a foreign library. This covers lines 36-62 and 69-70.
- The legend-handle deduplication at lines 65-66 is left out. Its result is unused, because the legend call at line 67 is commented out.
