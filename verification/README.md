# Choropleth colouring of constituency results

A Dafny model of the logic in `js/constituencies/choropleths.js`, which colours
a map of constituencies by one party's vote share. When a party is selected,
the page does the following:

1. It finds the largest `votes_percentage` among the party's records, starting from 0.
2. It picks the party's six-stop colour scale from a static table of seven parties.
3. It builds a d3 quantize scale over the domain `[0, max]`.
4. It builds a legend, one row per stop from the highest bucket down, plus a grey "No data" row.
5. It paints each constituency. The constituency is found by `slugify(constituency_name)`. The fill is grey `#c0c0c0` when the percentage is exactly 0 and the scale's colour otherwise.

The model treats the two asynchronous fetches of the original as one sequential
computation: scale first, then binding.

Modules:

- `Slug` (slug.dfy): `slugify` written as `toLowerCase` followed by its five
  regular-expression passes (`Lower`, `SpacesToHyphens`, `StripNonWord`, `CollapseHyphens`, `DropHyphens`,
  `TrimEnd`). It also has an independent one-pass reference, `Key`, and the
  proof that the two agree.
- `Parties` (parties.dfy): the party table `Catalogue` and the search for a
  party's colour scale.
- `Quantize` (quantize.dfy): the quantize scale with exact `real` arithmetic.
  It covers the bucket of a value, the scale applied to a value, and
  `invertExtent`.
- `Legend` (legend.dfy): legend rows, with the labels kept as numbers.
- `Choropleth` (choropleth.dfy): the maximum fold, the paint binding and the
  whole pipeline `PartyResults`.
- `Colours` and `Options` (colours.dfy, options.dfy): the colour type, the
  no-data colour, and an `Option` type for the absent results.

d3's quantize scale is not part of the modelled sources. `Quantize` defines it
explicitly, following d3's formula `range[max(0, min(n - 1, floor(n / max * x)))]`:

- Bucket `i` covers `[i*max/n, (i+1)*max/n]`.
- `invertExtent(c)` returns the bounds of the bucket at the first position of `c` in the range (`indexOf`).
- When the domain is empty (`max == 0`), the factor `n / max` is +Infinity in the original's arithmetic. A positive value then lands in the last bucket and a negative one in the first. The value 0 has no bucket, so `Bucket` excludes it by its precondition. The pipeline never asks for it, because 0 is painted grey.
- `invertExtent` needs no division by `max`, so with `max == 0` every extent is `[0, 0]` and every stop row of the legend reads `<0%`.

Modelling choices, following `choropleths.js`:

- Lookup yields the party's colour scale, not the party record.
- The last party with a matching slug wins.
- Legend labels come from `toFixed(0)` and have no separate rounding rule.
- A record is not skipped for a malformed percentage. Records here always carry a number.

## Model

| member | source | states |
|---|---|---|
| Slug.SlugifyIsSlug | js/constituencies/choropleths.js:10-17 | every key holds only `a-z`, `0-9`, `_` and `-` (so no whitespace), never starts or ends with `-`, and never contains `--` |
| Slug.SlugifyIsKey | js/constituencies/choropleths.js:10-17 | the chain of rewrites computes the one-pass reference key: the lower-cased word characters, one hyphen between words separated by any run of whitespace or hyphens, all other characters dropped |
| Slug.KeyOfSlug | js/constituencies/choropleths.js:10-17 | a string already in slug shape is its own key |
| Slug.SlugifyIdempotent | js/constituencies/choropleths.js:10-17 | slugifying a key gives the key back |
| Slug.SlugifyIgnoresCase | js/constituencies/choropleths.js:11 | lower-casing the name first does not change the key |
| Slug.SlugifySeparatorRuns | js/constituencies/choropleths.js:12-14 | any non-empty run of whitespace and hyphens between two parts of a name can be replaced by any other such run without changing the key |
| Slug.SlugifyEmptyIff | js/constituencies/choropleths.js:10-17 | the key is empty exactly when the name has no letter, digit or underscore, so an empty or all-whitespace name gives `""` |
| Slug.SlugifyExample | js/constituencies/choropleths.js:10-17 | `"CARDIFF   CENTRAL"` and `"Cardiff Central"` both give `"cardiff-central"` |
| Slug.DropSpaces | js/constituencies/choropleths.js:12 | removes exactly the leading whitespace run: the result is a suffix of the input that does not start with whitespace, and every removed character is whitespace |
| Slug.DropHyphens | js/constituencies/choropleths.js:15 | removes exactly the leading hyphen run: the result is a suffix of the input that does not start with `-`, and every removed character is `-` |
| Slug.TrimEnd | js/constituencies/choropleths.js:16 | removes exactly the trailing hyphen run: the result is a prefix of the input that does not end with `-`, and every removed character is `-` |
| Slug.Slugify | js/constituencies/choropleths.js:10-17 | the definition, the rewrite chain in the code's order; its result is characterised by `Slug.SlugifyIsKey` and `Slug.SlugifyIsSlug` |
| Slug.Lower | js/constituencies/choropleths.js:11 | the definition of lower-casing (ASCII letters only); `Slug.KeyOfLower` shows it keeps the key |
| Slug.SpacesToHyphens | js/constituencies/choropleths.js:12 | the definition, each maximal whitespace run replaced by one `-`; `Slug.KeyOfSpacesToHyphens` shows it keeps the key |
| Slug.StripNonWord | js/constituencies/choropleths.js:13 | the definition, keeping only word characters and `-`; `Slug.KeyOfStripNonWord` shows it keeps the key of a whitespace-free string |
| Slug.CollapseHyphens | js/constituencies/choropleths.js:14 | the definition, each run of two or more `-` replaced by one; `Slug.KeyOfCollapseHyphens` shows it keeps the key |
| Slug.CollapseHyphensNoDouble | js/constituencies/choropleths.js:14 | after collapsing hyphen runs no `--` remains |
| Parties.FindScale | js/constituencies/choropleths.js:135-139 | the result is absent exactly when no party has the slug; otherwise it is the colour scale of the last party with that slug |
| Parties.LastMatchIsOnlyMatch | js/constituencies/choropleths.js:135-139 | with unique slugs the last matching party is the only matching party |
| Parties.CatalogueFacts | js/constituencies/choropleths.js:68-89 | seven parties with unique slugs; each scale has six distinct stops, starts with `#FFFFFF`, ends with the party's colour and never uses the no-data grey |
| Quantize.Bucket | js/constituencies/choropleths.js:142 | every value that has a bucket gets a valid stop index |
| Quantize.BucketIff | js/constituencies/choropleths.js:142 | on a non-empty domain, `x` is in bucket `i` exactly when it is at least the bucket's lower bound (or `i` is first) and below its upper bound (or `i` is last), so out-of-domain values are clamped into the end buckets |
| Quantize.BucketInsideDomain | js/constituencies/choropleths.js:142 | a value in `[0, max)` is in bucket `i` exactly when it lies in `[i*max/n, (i+1)*max/n)` |
| Quantize.BucketsTileDomain | js/constituencies/choropleths.js:142 | the buckets start at 0, meet end to end and end at `max`; a bucket starts at 0 only if it is the first or the domain is empty |
| Quantize.BucketEnds | js/constituencies/choropleths.js:142 | 0 maps to the first stop; `max` and above map to the last; negatives map to the first |
| Quantize.BucketMonotonic | js/constituencies/choropleths.js:142 | a larger value never lands in a lower bucket |
| Quantize.Apply | js/constituencies/choropleths.js:142 | the scale applied to a value is one of the stops; which one is characterised by `Quantize.BucketIff` |
| Quantize.IndexOf | js/constituencies/choropleths.js:146 | the first position of a colour in the range, absent exactly when the colour is not a stop |
| Quantize.InvertExtent | js/constituencies/choropleths.js:146 | an extent exists exactly for the colours of the range |
| Quantize.ExtentOfStop | js/constituencies/choropleths.js:146 | with distinct stops, the extent of stop `i` is `[i*max/n, (i+1)*max/n]` |
| Quantize.ApplyInvertsExtent | js/constituencies/choropleths.js:142-146 | every value from the lower end of a stop's extent up to (not including) the upper end maps back to that stop |
| Quantize.ApplyAtMidpoint | js/constituencies/choropleths.js:142-146 | the midpoint of a stop's extent maps back to the stop |
| Quantize.ApplyIffInExtent | js/constituencies/choropleths.js:142-146 | with distinct stops, a value in `[0, max)` maps to a stop exactly when it lies in that stop's extent |
| Quantize.ThreeStopExample | js/constituencies/choropleths.js:142 | three stops over `[0, 60]`: 45 falls in the third bucket `[40, 60]` |
| Legend.BuildLegend | js/constituencies/choropleths.js:144-153 | `n + 1` rows; row `k < n` carries stop `n-1-k` with the label from its extent; the last row is (`#c0c0c0`, No data) |
| Legend.StopLabel | js/constituencies/choropleths.js:146-151 | a stop's label is never the no-data label; its form is characterised by `Legend.StopLabelBelowIff` and `Legend.StopLabelOfStop` |
| Legend.StopLabelBelowIff | js/constituencies/choropleths.js:146-151 | a stop gets the `<hi%` form exactly when the domain is empty or the stop equals the first stop |
| Legend.StopLabelOfStop | js/constituencies/choropleths.js:146-151 | with distinct stops, stop `i`'s label gives the bounds of bucket `i` |
| Legend.LegendBelowOnlyForFirstStop | js/constituencies/choropleths.js:145-151 | with distinct stops and `max > 0`, only the row of the first stop (the one before "No data") has the `<hi%` form |
| Legend.LegendRangesTileDomain | js/constituencies/choropleths.js:145-151 | with distinct stops, the rows run from `max` down to 0 without gaps: the top row ends at `max`, each row starts where the row below ends, and the lowest stop reads `<max/n%` |
| Legend.EmptyDomainLegend | js/constituencies/choropleths.js:146-148 | with `max == 0` (no records, say) every stop row reads `<0%` |
| Choropleth.MaxPercentage | js/constituencies/choropleths.js:127-132 | the result is at least 0 and at least every percentage; it is 0 or one of the percentages, so it is 0 for no records |
| Choropleth.Bind | js/constituencies/choropleths.js:165-176 | one instruction per record, in record order, keyed by the slug of the record's name; the colour is grey for a percentage of exactly 0 and the scale's colour otherwise |
| Choropleth.FillColour | js/constituencies/choropleths.js:170-175 | the fill is the no-data grey or one of the stops; `Choropleth.NoDataIffZero` and `Choropleth.PaintColourIsStop` say which |
| Choropleth.NoDataIffZero | js/constituencies/choropleths.js:170-175 | when no stop is the grey, a record is painted grey exactly when its percentage is 0 |
| Choropleth.PaintColourIsStop | js/constituencies/choropleths.js:170-175 | a non-zero percentage is painted with a stop; the maximum gets the last stop; with distinct stops, a value inside the domain gets the stop whose extent contains it |
| Choropleth.PaintKeysAreSlugs | js/constituencies/choropleths.js:167 | every paint key has the slug shape |
| Choropleth.PartyResults | js/constituencies/choropleths.js:115-176 | unknown slug gives no rendering; otherwise the scale uses the last matching party's stops and the records' maximum, the legend is that scale's legend, and the paints are the binding of the records |

## Left out

- DOM and SVG set-up (`Map`, lines 28-49) and the unused d3 geo projection (lines 45-46): UI plumbing.
- Handlebars rendering of the party and legend tables and the helper registration (lines 92-95, 155-158, 196), and the click wiring (lines 99-103): template and UI concerns.
- `d3.json` fetching, its ignored `error` argument, and the race between the two fetch callbacks (lines 124, 165): the paint callback reads `colours`, which the other callback assigns. This is I/O and concurrency, so the model computes the scale before binding.
- Resolving keys to SVG nodes with `querySelector` (line 167): a foreign DOM call. The model ends at `(key, colour)` pairs. A key with no matching region paints nothing.
- Choropleth.Bind: yields one instruction per record. In the original, a key that is empty (a name with no letter, digit or underscore, see `Slug.SlugifyEmptyIff`) or starts with a digit makes `'.' + key` an invalid CSS selector. `querySelector` then throws, the `_.forEach` stops, and no later record is painted. The model does not carry that exception.
- `toFixed(0)` formatting of legend numbers: labels are kept as numbers (`Below`, `Between`, `NoData`).
- IEEE floating point: arithmetic is exact `real`. In floats a value at a bucket boundary can land in the neighbouring bucket.
- Slug.Lower: `toLowerCase` is modelled for ASCII `A`-`Z` only. Non-ASCII letters are kept and then stripped as non-word characters. The few whose lower case is ASCII (U+0130, U+212A) would keep a letter in the original.
- `text.toString()` on non-string names: names are strings here.
- Records with a missing or non-numeric percentage: every record carries a number.
- Choropleth.PartyResults: requires every party's colour scale to be non-empty, as in the table. d3 with an empty range yields undefined colours, and that case is not modelled.
- Choropleth.PartyResults: an unknown slug gives no rendering at all. In the original, `range` stays undefined and d3 fails while the scale is being built. The paint callback would still paint grey the zero-percentage records that come before the first non-zero record whose region exists. d3 runs the `style` callback only for a matched node, so a non-zero record with no region does not reach `colours`.
- Quantize.Bucket: with an empty domain the value 0 has no bucket (d3 indexes the range with NaN). The precondition excludes that input, and the binding never asks for it.
