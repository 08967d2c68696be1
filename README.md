# Mean coastline: a verified model of the shoreline-detection decision logic

`meancoastline.js` is an Earth Engine script. It merges Landsat 4, 5, 7 and 8 scenes of an area into one mean composite and computes a normalized-difference index of two of its bands. It then picks a threshold with Otsu's method and keeps the pixels above it (class A).

Nearly every step is a call into the engine. This project models the decision logic that the script defines itself:

- **Bands** (`bands.dfy`): the sensor band table (`sensor_band_dict`). Each scene's native bands are selected and renamed to the canonical `blue, green, red, nir, swir1, temp, swir2`.
- **Quality** (`quality.dfy`): the `cfmask` predicate of `applyMask`. It keeps clear and water pixels and removes shadow, snow and cloud.
- **Otsu** (`otsu.dfy`): the threshold selection `otsu(histogram)`, over bucket counts and bucket means. For every split it computes the class counts, class means and the between-class sum of squares, and it returns the bucket mean of a best split.
- **Classify** (`classify.dfy`):
  - the choice of the band pair for the normalized difference, as intended and as written;
  - the index of each composite pixel, masked where a band is masked or negative;
  - the strict `ratio.gt(threshold)`;
  - the self-mask `classA.mask(classA)`.
- **Wrappers** (`wrappers.dfy`): `Option` and `Result`.

Arithmetic is exact (`real`). The script never guards a division; the engine decides what a division by zero yields. That result is a parameter `z` of every function that divides. The Otsu theorems state what holds whatever `z` is.

An all-zero histogram is not an error: `otsu` never tests `total`, so every split scores zero and a bucket mean is returned. `Otsu.Otsu` fails only when there are no buckets, because there is then no split at all and `get([-1])` has nothing to return. When all the mass sits in one bucket of several, every split scores zero and every bucket mean is an Otsu threshold (`Otsu.OneOccupiedBucket`); which one is returned depends on the engine's sort, and it may be the mean of an empty bucket above every pixel, leaving class A empty.

## Model

| member | source | states |
|---|---|---|
| Bands.KnownKeys | meancoastline.js:21-25 | a key is in the band table exactly when it names one of the four sensors |
| Bands.IndicesDistinct | meancoastline.js:21-25 | every sensor has seven native indices, one per canonical name, pairwise distinct and each below the number of native bands the entry needs, which is one more than its largest index |
| Bands.OlderSensorsIdentity | meancoastline.js:23-24 | for Landsat 4 and 5 the table is the identity on bands 0..6 |
| Bands.SelectableIff | meancoastline.js:47 | every index of a sensor's table entry exists in a scene exactly when the scene has at least the number of native bands the entry needs (one more than its largest index) |
| Bands.Select | meancoastline.js:47 | `select(indices, names)`: mismatched lists and missing bands are errors; on success band j carries name j and the pixels of native band indices[j] |
| Bands.Harmonise | meancoastline.js:46-47 | an unknown sensor key is an error; for a known sensor the scene is harmonised exactly when it has enough native bands, and then it has the seven canonical names in order, band j holding native band NativeIndices(s)[j] |
| Bands.HarmoniseTotal | meancoastline.js:47 | a scene with enough native bands always harmonises to seven bands |
| Bands.HarmoniseReadsOnlySelected | meancoastline.js:47 | two scenes that agree on the selected native bands harmonise to the same result |
| Quality.ApplyMask | meancoastline.js:82-86 | a pixel stays unmasked exactly when it was unmasked and its cfmask class is clear or water; band values are untouched |
| Quality.MaskScene | meancoastline.js:82-86 | the mask applies pixel by pixel and keeps the scene's size |
| Quality.ObscuredRemoved | meancoastline.js:84-85 | shadow, snow, cloud and fill pixels never survive the mask |
| Quality.MaskIdempotent | meancoastline.js:82-87 | masking a masked scene again changes nothing |
| Otsu.Scores | meancoastline.js:148-162 | the `bss` list has one entry per bucket, entry j being the score of split j + 1 |
| Otsu.ArgMax | meancoastline.js:167 | the position picked is in range and its score is at least every score of the list |
| Otsu.Otsu | meancoastline.js:140-168 | fails exactly on an empty histogram; otherwise returns the mean of a bucket k whose split (A = buckets 0..k) scores at least as well as every split 1..size |
| Otsu.OneBucket | meancoastline.js:143-167 | a one-bucket histogram yields that bucket's mean |
| Otsu.SplitPartition | meancoastline.js:152-158 | split i puts buckets [0, i) in A and [i, size) in B, and aCount + bCount = total |
| Otsu.ClassMeans | meancoastline.js:153-159 | what the script leaves for B, sum - aCount * aMean, is the weighted sum of buckets [i, size); with pixels on both sides aCount * aMean + bCount * bMean = sum |
| Otsu.Recombine | meancoastline.js:144-159 | with pixels on both sides, total * mean = aCount * aMean + bCount * bMean |
| Otsu.ScoreNonNegative | meancoastline.js:160-161 | no split scores below zero |
| Otsu.BetweenClassForm | meancoastline.js:160-161 | with pixels on both sides, score * total = aCount * bCount * (aMean - bMean)^2 |
| Otsu.EmptyClassScoresZero | meancoastline.js:152-161 | a split with an empty class scores zero, whatever a division by zero yields |
| Otsu.LastSplitScoresZero | meancoastline.js:148-161 | the last split leaves B empty and scores zero |
| Otsu.SeparatingSplitScores | meancoastline.js:152-161 | with all mass in two distinct-mean buckets p < q, split p + 1 scores above zero |
| Otsu.OneSidedSplitsScoreZero | meancoastline.js:152-161 | with all mass in buckets p < q, every split that keeps both on one side scores zero |
| Otsu.OneOccupiedBucket | meancoastline.js:148-167 | with all mass in one bucket, every split scores zero and the mean of every bucket is an Otsu threshold |
| Otsu.TwoClusters | meancoastline.js:140-168 | with all mass in buckets p < q of an ascending histogram, the threshold lies in [means[p], means[q]) |
| Otsu.ScoreBetweenClasses | meancoastline.js:160-161 | for any two non-empty classes whose weighted means recombine to the global mean, score * n = a * b * (ma - mb)^2 |
| Classify.DivBands | meancoastline.js:105-109 | the intended rule: (swir2, green) exactly when the composite has a `blue` band, (B7, B3) exactly when it has not |
| Classify.ContainsOnClient | meancoastline.js:105 | `na.contains('blue')` is a proxy object on the client, which an `if` always takes as true |
| Classify.DivBandsAsWritten | meancoastline.js:105-109 | as written the script always chooses (swir2, green), whatever the band names |
| Classify.NativePairMatchesHarmonised | meancoastline.js:21-109 | B7 and B3 are the native Landsat 8 bands that harmonisation renames swir2 and green |
| Classify.DivBandsPresent | meancoastline.js:105-111 | on a harmonised composite or native Landsat 8 names, both bands of the intended pair exist |
| Classify.HarmonisedCompositeAgrees | meancoastline.js:47-109 | a harmonised scene has `blue`, and both rules choose (swir2, green) for it |
| Classify.AsWrittenMissesNativeBands | meancoastline.js:105-111 | on native Landsat 8 names the as-written pair asks for a band that does not exist and the index fails; the intended pair exists |
| Classify.NormalizedDifferenceBounds | meancoastline.js:111 | non-negative reflectances with a positive sum give an index in [-1, 1], positive exactly when the first band is brighter |
| Classify.NormalizedDifferenceAntisymmetric | meancoastline.js:111 | swapping the band pair negates the index |
| Classify.Ratio | meancoastline.js:111 | a missing band is an error naming it; otherwise the index pixel is unmasked exactly when both bands are unmasked and non-negative, and then it is their normalized difference |
| Classify.RatioBounds | meancoastline.js:111 | an unmasked index pixel whose bands do not both read zero lies in [-1, 1] |
| Classify.IndexImage | meancoastline.js:111 | the index image succeeds exactly when every pixel has both bands, and then holds each pixel's index; otherwise it fails naming one of the two bands |
| Classify.ClassA | meancoastline.js:174 | a masked pixel stays masked; otherwise the class is true exactly when the index is strictly above the threshold |
| Classify.AreaMask | meancoastline.js:177 | only class-A pixels stay unmasked, and those are true |
| Classify.ClassAArea | meancoastline.js:174-177 | classification then self-masking, pixel by pixel, keeping the image's size |
| Classify.InAreaIff | meancoastline.js:174-177 | a pixel is in the area exactly when it is unmasked and its index is above the threshold |
| Classify.ThresholdIsStrict | meancoastline.js:174 | a pixel whose index equals the threshold is not in class A |
| Classify.AreaMonotone | meancoastline.js:174-177 | lowering the threshold keeps every pixel already in the area |
| Classify.SelfMaskIdempotent | meancoastline.js:177 | self-masking the area again changes nothing |
| Classify.ClassifyByOtsu | meancoastline.js:172-177 | fails exactly on an empty histogram; otherwise it is the area above some Otsu threshold of the histogram |
| Classify.TwoClustersSeparated | meancoastline.js:140-177 | with all mass in buckets p < q, pixels at or above the upper cluster's mean are in the area and pixels at or below the lower cluster's mean are not |

## Left out

- Engine plumbing is left out, because it is foreign calls whose semantics are not in the script:
  - collection loading, the top-of-atmosphere conversion, and the bounds and date filters (meancoastline.js:38-57);
  - the merges (65-69) and the projection capture (61-62);
  - the timestamp inner join of scenes and masks (73-79) and the clipping (90-93);
  - the `mean()` composite and `reproject` (97-99);
  - the sampled histogram reducer (125-132);
  - the `buffer(-100)` clip (179-180) and `reduceToVectors` (184-189).
- The map layers, `centerObject` and the commented-out export are left out: they are display and I/O.
- The unused `dummy` image, the year-1000 fallback branches and the unused boxcar kernel are left out. The fallback branches are never taken, because `possibleSensors` holds all four sensors.
- `collection_dict` and `spacecraft_dict` are left out: they only name engine collections.
- Floating point is not modelled; all arithmetic is exact. The value of a division by zero is the parameter `z`, because the engine's convention is not visible in the script.
- Classify.Ratio: where both bands read zero the index is the parameter `z`. The engine's value for 0/0 is not visible in the script.
- Otsu.Otsu: promises some maximising split, not which one. `means.sort(bss).get([-1])` depends on how the engine's sort orders equal scores, which the script does not show. The model's ArgMax takes the last maximum.
- Otsu.Otsu: an all-zero histogram is not an error; the script never tests the total.
- Quality.ApplyMask models one pixel's mask flag. Masks in the engine are fractional; the script only uses the binary `lt(2)`.
- The comment at meancoastline.js:174 says the classification selects the pixels *less* than the threshold, while the code uses `gt`. The model follows the code. It is not recorded as a finding, because the script does not show which side was meant. With (swir2 - green) as the index, open water is the low side, so `gt` keeps land. Either way the boundary of the kept area is the same except at the threshold itself, and that boundary is what the vectorisation extracts.
- The `sort('CLOUD_COVER')` of the masked collection (meancoastline.js:87) is left out: it only orders the scenes, and the `mean()` composite does not depend on their order.
- Otsu.Histogram takes whole-number bucket counts. The engine's region reducer may weight pixels and produce fractional counts; no Otsu lemma depends on the counts being integers.
- Bands.Harmonise models one scene. Mapping it over a collection is the engine's `select` on every image.

## Findings

| source | as written | input that shows it | evidently intended | confidence | as-written member | corrected member |
|---|---|---|---|---|---|---|
| meancoastline.js:105-109 | `if(mixed_LS)` tests a client-side proxy for the server-side result of `contains('blue')`. Any object is truthy, so the (swir2, green) branch is always taken. | a composite whose band names are the native Landsat 8 names B1..B11, BQA: the script asks for `swir2`, which does not exist | (B7, B3) when the composite has no `blue` band, (swir2, green) otherwise | not executed; harmless in this script, whose composite is always harmonised and so has `blue` | Classify.AsWrittenMissesNativeBands | Classify.DivBandsPresent |
