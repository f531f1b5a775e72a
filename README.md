# tsa: time-series analysis command, modelled in Dafny

The `tsa` command of tsa-cli does two things. First, it turns the `--since`, `--until` and
`--step` options and the current time into a window `{start, end, step}` in milliseconds.
Then it asks a data-source plugin for samples over that window and summarises them.

The plugin returns either a bare array of samples or an object of labelled series:
- A bare array is summarised as one min/max/mean triple.
- With `--aggregate`, all labelled series are merged in key order and summarised as one triple.
- Otherwise each label gets its own triple. The rows are sorted in place by the chosen
  statistic (`--sort-by`, default `mean`) in the chosen direction (`--sort-direction`,
  default `desc`). They are then folded into a label → rounded-stats object for the table.
  The keys of that object are created in the sorted order, but `console.table` lists them as
  every JavaScript object lists its keys. Labels that are array indices ("0", "1", "42", …) come
  first, in ascending numeric order; the other labels follow in creation order.

The model is split into modules that follow that flow:

- `Outcomes`: `Option` and `Result`.
- `Stats`: min, max, sum and mean of a non-empty series of reals. These stand in for the
  `timeseries-analysis` library.
- `JsParseInt`: `parseInt(text, 10)`. It skips ECMAScript white space, reads an optional sign and
  the longest run of digits, and gives NaN (`None`) when there is no digit.
- `WindowResolver`: the window computation of lines 105-111, as pure functions.
- `ObjectKeys`: the order in which a JavaScript object lists its keys (OrdinaryOwnPropertyKeys,
  section 10.1.11.1 of ECMA-262). It governs both `Object.keys(data)` and the table's rows.
- `StatSort`: the comparator of lines 144-148, and a stable insertion sort that specifies
  `Array.prototype.sort`. It also holds an in-place array method proved to produce exactly that
  sort. Two further proofs:
  - any stable, ordered rearrangement equals that sort, so the specification does not depend
    on the algorithm chosen;
  - when no two rows share the statistic, descending order is ascending order reversed.
- `Display`: `toDisplay` rounding, and the object the `reduce` fills. The object is modelled as
  its keys in creation order plus a map; the order it lists them in is derived from
  `ObjectKeys`. The fold is a method with a loop.
- `Tsa`: the merged series of the aggregate branch, the per-series rows, the three-way
  processing method, and the whole `execute`.

The current time, the duration parser (`timestring`) and the plugin are parameters:
- `now: int` stands for `Date.now()`.
- `duration: string -> Option<int>` stands for `timestring`. `None` stands for "throws".
- `provider: TimeWindow -> Fetch` stands for the awaited plugin call.

Two behaviours of the code differ from what its option descriptions say, and the model follows
the code in both:
- Any `until` other than absent or "now" is treated as a duration back from now, although the
  option text says it may be absolute (`src/commands/tsa.ts:27-28` against line 109).
- Any non-blank `since` is treated as a duration back from the end, although the option text
  says it may be absolute (`src/commands/tsa.ts:22` against line 110).

Separately, the code never checks that the window is non-empty: `start < end` holds only when
the `since` look-back is positive, and a duration of zero or a negative duration is passed on
as it is (`WindowResolver.StartBeforeEnd`).

## Model

| member | source | states |
|---|---|---|
| Stats.Min | src/commands/tsa.ts:129-130 | the minimum is one of the samples and no sample is below it |
| Stats.Max | src/commands/tsa.ts:129-131 | the maximum is one of the samples and no sample is above it |
| Stats.StatsOf | src/commands/tsa.ts:129-132 | the triple's min and max are samples that bound every sample, and min <= mean <= max |
| Stats.Mean | src/commands/tsa.ts:120 | the mean is the sum over the count; `MeanBetween` proves it lies between the min and the max |
| Stats.SumConcat | src/commands/tsa.ts:123-124 | the sum over merged series is the sum of the parts' sums |
| Stats.SumBounds | src/commands/tsa.ts:132 | a sum of n samples in [lo, hi] lies in [n*lo, n*hi] |
| Stats.MeanBetween | src/commands/tsa.ts:130-132 | the mean lies between the minimum and the maximum |
| Stats.ExtremesOfConcat | src/commands/tsa.ts:123-124 | the min of a concatenation is the smaller min of the parts, the max the larger max |
| Stats.ExtremesOfAscending | src/commands/tsa.ts:129-131 | on ascending samples the min is the first sample and the max the last |
| JsParseInt.TrimStart | src/commands/tsa.ts:111 | exactly the leading white space and line terminators are skipped: what is removed is all white space, and what remains does not start with any |
| JsParseInt.DigitPrefix | src/commands/tsa.ts:111 | the longest prefix made only of decimal digits |
| JsParseInt.ParseInt | src/commands/tsa.ts:111 | `parseInt(s, 10)`: skip leading white space, read an optional sign and the digit run, NaN (`None`) when there is no digit; properties in ParseIntOfDecimal, ParseIntSkipsWhiteSpace and ParseIntIsNaN |
| JsParseInt.ParseIntOfDecimal | src/commands/tsa.ts:111 | parseInt reads back any integer's decimal numeral, ignoring text after the digits ("45s" reads as 45) |
| JsParseInt.ParseIntSkipsWhiteSpace | src/commands/tsa.ts:111 | leading white space never changes what parseInt returns |
| JsParseInt.ParseIntIsNaN | src/commands/tsa.ts:111 | parseInt is NaN exactly when no digit follows the white space and optional sign |
| WindowResolver.ResolveUntil | src/commands/tsa.ts:106-109 | the end is now for an absent, empty or "now" `until`, else now minus its duration, or a parse error; properties in UntilResolution |
| WindowResolver.ResolveSince | src/commands/tsa.ts:110 | the start is the end minus an hour for a blank `since`, else the end minus its duration, or a parse error; properties in SinceResolution and StartBeforeEnd |
| WindowResolver.RequestedStep | src/commands/tsa.ts:111 | `step && parseInt(step, 10)`: the parsed step when it is a nonzero number, else no request; properties in StepOptionNumeral and StepResolution |
| WindowResolver.ResolveStep | src/commands/tsa.ts:111 | the step is at least 30 and at least the requested step, and when no step is requested it covers the range in at most 1000 points; it is either 30 or the candidate value |
| WindowResolver.ResolveWindow | src/commands/tsa.ts:105-111 | resolution fails exactly when a non-blank `until` other than "now" or a non-blank `since` is rejected by the duration parser, and a rejected `until` is the error reported; a resolved step is never below 30 |
| WindowResolver.DefaultWindow | src/commands/tsa.ts:106-111 | with no options the window is the last hour ending now, with step 3600 |
| WindowResolver.UntilResolution | src/commands/tsa.ts:106-109 | the end is now when `until` is absent, empty or "now" in any letter case, otherwise now minus the parsed duration |
| WindowResolver.SinceResolution | src/commands/tsa.ts:110 | the start is 3600000 ms before the end when `since` is absent or empty, otherwise the parsed duration before the end |
| WindowResolver.StartBeforeEnd | src/commands/tsa.ts:110 | start < end exactly when `since` is blank or its duration is positive |
| WindowResolver.StepResolution | src/commands/tsa.ts:111 | a nonzero parsed step k gives max(30, k); absent, NaN or 0 gives max(30, (end - start) / 1000) |
| WindowResolver.StepOptionNumeral | src/commands/tsa.ts:111 | a step option that is a numeral k, possibly followed by non-digits, requests k unless k is 0 |
| WindowResolver.ShortRangeStepFloor | src/commands/tsa.ts:110-111 | a 10 s look-back with no step gets the floor step 30, not 10 |
| ObjectKeys.Enumeration | src/commands/tsa.ts:123 | the order `Object.keys` and `console.table` list keys in: array indices ascending, then the rest in creation order; properties in EnumerationPermutes, EnumerationIndicesFirst, NamedKeysKeepOrder and EnumerationWithoutIndices |
| ObjectKeys.SortIndicesAscending | src/commands/tsa.ts:155 | the array-index keys are put in ascending numeric order |
| ObjectKeys.KeysWhereSplit | src/commands/tsa.ts:155 | splitting keys into array indices and other keys loses and adds nothing |
| ObjectKeys.KeysWhereKeepsOrder | src/commands/tsa.ts:155 | picking out some keys keeps every relation between earlier and later keys |
| ObjectKeys.EnumerationPermutes | src/commands/tsa.ts:123 | an object lists each of its keys exactly once: the listing is a permutation of the keys created |
| ObjectKeys.EnumerationIndicesFirst | src/commands/tsa.ts:123 | every array-index key is listed before every other key, and array indices in ascending numeric order |
| ObjectKeys.NamedKeysKeepOrder | src/commands/tsa.ts:155 | keys that are not array indices are listed in creation order: any relation creation order has between them, the listing keeps |
| ObjectKeys.EnumerationWithoutIndices | src/commands/tsa.ts:128 | an object without array-index keys lists them in creation order |
| ObjectKeys.NumeralValueIsDigitsValue | src/commands/tsa.ts:155 | the numeral value used to recognise array-index keys is defined exactly on digit strings, and there equals the value `parseInt` reads |
| ObjectKeys.DigitIsIndex | src/commands/tsa.ts:155 | "1" to "9" are array indices standing for their digit |
| ObjectKeys.SmallerIndexListedFirst | src/commands/tsa.ts:155 | keys of two array indices created larger first are listed smaller first |
| StatSort.GetSortableStat | src/commands/tsa.ts:75-77 | the triple's field named by the sort key; properties in RoundedStat and SortGuarantees |
| StatSort.Compare | src/commands/tsa.ts:144-148 | the comparator: stat of `a` minus stat of `b` for asc, the reverse for desc; properties in CompareIsRankDifference |
| StatSort.CompareIsRankDifference | src/commands/tsa.ts:144-148 | the comparator is the difference of the two rows' ranks (the stat, negated for desc), so it is antisymmetric and orders rows consistently |
| StatSort.Insert | src/commands/tsa.ts:144-148 | inserting a row yields the rows plus that row, as a multiset |
| StatSort.StableSort | src/commands/tsa.ts:144-148 | the sorted rows are a permutation of the input rows |
| StatSort.StableSortSorted | src/commands/tsa.ts:144-148 | the sorted rows are in non-decreasing rank order |
| StatSort.StableSortKeepsTies | src/commands/tsa.ts:144-148 | rows of equal rank keep their input order (stability) |
| StatSort.StableSortIsStableSort | src/commands/tsa.ts:144-148 | the sort's result has the input's length, is ordered, and keeps every group of ties in input order |
| StatSort.SortRows | src/commands/tsa.ts:142-148 | `processed.sort(...)` with the chosen stat and direction, as the stable sort by rank; properties in SortGuarantees, DescReversesAsc and StableSortCharacterized |
| StatSort.StableSortCharacterized | src/commands/tsa.ts:144-148 | a sequence is an ordered, tie-preserving rearrangement of the input if and only if it is the sort's result |
| StatSort.SortGuarantees | src/commands/tsa.ts:142-148 | sorting by a stat and direction permutes the rows, leaves the stat non-decreasing for asc and non-increasing for desc, and keeps rows with equal stat in key order |
| StatSort.DescReversesAsc | src/commands/tsa.ts:143-148 | when no two rows share the stat, the desc order is the asc order reversed |
| StatSort.StableSortDistinct | src/commands/tsa.ts:128-148 | sorting keeps labels distinct |
| StatSort.SortInPlace | src/commands/tsa.ts:144-148 | sorting the array in place leaves exactly the stable sort of its old contents |
| StatSort.InsertAt | src/commands/tsa.ts:144-148 | one pass inserts row i into the sorted prefix before it and leaves the rest of the array unchanged |
| StatSort.PlaceRow | src/commands/tsa.ts:144-148 | rows that compare above the inserted row move up one place, the others stay, and the row lands in the gap between them |
| Display.ToDisplay | src/commands/tsa.ts:82-84 | the nearest hundredth, halves away from zero; properties in ToDisplayClose, ToDisplayMonotone, ToDisplayIdempotent and ToDisplayHalfway |
| Display.ToDisplayClose | src/commands/tsa.ts:82-84 | a displayed value is within 0.005 of the value |
| Display.ToDisplayMonotone | src/commands/tsa.ts:82-84 | rounding never reverses the order of two values |
| Display.ToDisplayIdempotent | src/commands/tsa.ts:82-84 | rounding a rounded value changes nothing |
| Display.ToDisplayHalfway | src/commands/tsa.ts:82-84 | with exact reals, halves round away from zero: 2.005 shows as 2.01 and -2.005 as -2.01 |
| Display.Rounded | src/commands/tsa.ts:152 | the row `{min, max, mean}` with each statistic rounded for display; properties in RoundedStat and TableRowsMatchSeries |
| Display.RoundedStat | src/commands/tsa.ts:150-153 | the rounded row's chosen stat is the rounded chosen stat |
| Display.Table.Set | src/commands/tsa.ts:152 | assigning a key keeps the object well formed, sets that key and no other, keeps an existing key's place in the creation order and creates a new key after all others |
| Display.BuildDisplay | src/commands/tsa.ts:150-154 | the fold creates one key per row in row order, each holding that row's rounded stats |
| Display.CreationOrderFollowsSort | src/commands/tsa.ts:142-154 | in the order the keys were created, the table's rounded stat is non-decreasing for asc and non-increasing for desc |
| Display.DisplayFollowsSort | src/commands/tsa.ts:142-155 | in the order the object lists its keys, any two labels that are not array indices have the rounded stat non-decreasing for asc and non-increasing for desc |
| Display.DisplayOrderWithoutIndices | src/commands/tsa.ts:150-155 | when no label is an array index, the object lists its keys in exactly the sorted row order |
| Display.DescendingTwoRows | src/commands/tsa.ts:142-148 | sorting two rows by mean, descending, puts the larger mean first |
| Display.SmallerIndexRowFirst | src/commands/tsa.ts:150-155 | a table built from a row then a row with a smaller array-index label lists the second row first; with the smaller mean there, the listed means rise |
| Display.IndexLabelsIgnoreSort | src/commands/tsa.ts:142-155 | two series with array-index labels, sorted by mean desc, whose smaller index has the clearly smaller mean, are created larger mean first but listed smaller mean first |
| Display.IndexLabelsExample | src/commands/tsa.ts:142-155 | `{"1": [3], "2": [5]}` sorted by mean desc is listed "1" (mean 3) then "2" (mean 5) |
| Display.DisplayOneRowPerLabel | src/commands/tsa.ts:128-154 | the table has exactly as many keys as there are series, and its keys are exactly the series labels |
| Tsa.Flatten | src/commands/tsa.ts:123 | `flatMap` over the keys: the series' samples concatenated in key order; properties in FlattenConcat, FlattenLength, FlattenContains and AggregateExtremes |
| Tsa.FlattenConcat | src/commands/tsa.ts:123 | merging two lists of series is merging each and concatenating |
| Tsa.FlattenLength | src/commands/tsa.ts:123 | the merged series is as long as all series together |
| Tsa.FlattenContains | src/commands/tsa.ts:123 | a sample is in the merged series if and only if it is in one of the series |
| Tsa.PerSeries | src/commands/tsa.ts:128-140 | one row per key in the order `Object.keys` lists them, with that key's label and the min/max/mean triple of its own series, whose min and max are samples with min <= mean <= max |
| Tsa.PerSeriesDistinct | src/commands/tsa.ts:128-140 | the rows have distinct labels |
| Tsa.AggregateExtremes | src/commands/tsa.ts:121-125 | the aggregate min is the smallest per-series min and the aggregate max the largest per-series max |
| Tsa.AggregateExample | src/commands/tsa.ts:121-125 | series [1, 2, 3] and [4, 5, 6] aggregate to min 1, max 6, mean 3.5 |
| Tsa.AnonymousIgnoresOptions | src/commands/tsa.ts:118-120 | a bare array is summarised the same way whatever `aggregate`, `sort-by` and `sort-direction` say |
| Tsa.TableRowsMatchSeries | src/commands/tsa.ts:128-154 | every label's table entry is the rounded stats of that label's own series |
| Tsa.ProcessResult | src/commands/tsa.ts:118-154 | a bare array gives its own triple; aggregate mode gives the triple of the merged series; otherwise the table whose keys are created in the order of the rows sorted by the given stat and direction, defaulting to mean and desc (the order it lists them in is that of `Display.Table.Keys`) |
| Tsa.Execute | src/commands/tsa.ts:104-158 | a range option the parser rejects fails the run before the provider is called; otherwise the provider is asked for exactly the resolved window, a provider failure is passed on unchanged, and delivered data is processed as above |

## Findings

| source | as written | input that shows it | evidently intended | confidence | as-written member | corrected member |
|---|---|---|---|---|---|---|
| src/commands/tsa.ts:150-155 | the sorted rows are folded into a plain object, and `console.table` lists its keys with array-index labels first in ascending numeric order, whatever the sort | `{"1": [3], "2": [5]}` with the default mean/desc: rows sorted "2" (5) then "1" (3), but shown "1" (3) then "2" (5) | the table shows the rows in the sorted order (as a `Map`, or an array of rows, would) | not executed; follows from section 10.1.11.1 of ECMA-262 | Display.IndexLabelsIgnoreSort | Display.CreationOrderFollowsSort |

## Left out

- `timestring` is a parameter (`duration`), and only whole milliseconds are modelled. Its grammar and any fractional results are not part of this model.
- `Date.now()` is the parameter `now`. The plugin's `execute` is the parameter `provider`, a pure function of the window. The options object the plugin also receives is not modelled.
- Console output (`console.log`, `console.table`) is I/O. The model returns the triple or the table instead, and `Ok` stands for the `{ code: 0 }` result.
- Display.ToDisplayHalfway: holds for exact reals only. The double nearest 2.005 lies just below the half, so the program shows 2.00 where the lemma states 2.01.
- Display.ToDisplay: rounds exact reals, not IEEE doubles. `toFixed(2)` on a double such as 1.005, whose binary value lies just below the half, shows 1.00, while the model shows 1.01.
- Stats.StatsOf: samples are exact reals. NaN, infinities and floating-point rounding of the sum are not modelled.
- Tsa.ProcessResult: requires every series it summarises to be non-empty. The source leaves the library's behaviour on an empty series undefined.
- Tsa.Execute: requires the result delivered for the resolved window to be summarisable, for the same reason.
- Special keys such as `__proto__`, whose assignment changes the prototype instead of creating a key, are not modelled in the display object.
- `sort-by` and `sort-direction` values outside `min|max|mean` and `asc|desc` are not modelled. The model's option types admit only those values, absent meaning the default. In the source the two differ:
  - a `sort-by` naming no field of the row reads `undefined` at line 76, so every comparison gives NaN, which the sort treats as equal, and the rows stay in key order;
  - any `sort-direction` other than "asc" takes the descending branch at lines 145-146, so it sorts as `desc` does.
- WindowResolver.ResolveStep: the default step is the exact quotient `(end - start) / 1000`. The source computes its nearest IEEE double, and that double is what the provider receives (a range of 86400001 ms gives the double nearest 86400.001).
- `parseInt` of numerals too long for a double loses precision or becomes `Infinity`. The model reads them exactly.
- Each processed row in the source also keeps its `timeseries` object. The model keeps only the label and the three statistics, which are all the sort and the table use.
- The option definitions, usage text, `validate` and `populateOptions` (lines 17-54 and 86-103) are CLI metadata with no logic.
