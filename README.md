# Bubbles: circle placement, modelled in Dafny

Bubbles approximates a grey-scale image by circles. The parts modelled here:

- **Coverage fingerprints.** Every pixel gets a bit set of the circles that cover it (`FastBitArray`). Pixels with equal bit sets form a segment. Every segment is painted with its mean grey, rounded to one of five grey levels, and the result is compared with the source image (`CircleEvaluator`).
- **Candidate circles.** Candidates come from three places:
  - a gradient field whose circles are rated by the image change across their border and improved by a hill-climb (`GradientEval`);
  - a distance field to the image's edges on which circles are "dropped" and walk uphill (`CircleSDFFinder`);
  - random circles (`Circle`).
- **Selection.** A greedy pruning keeps a mutually compatible subset (`CirclePruning`). A genetic algorithm breeds circle sets by roulette-wheel parent choice and Voronoi ownership of random anchors (`GeneticAlgorithm`).

The project has one module per source file: `Geometry` (Circle.cs), `BitArrays` (FastBitArray.cs), `CircleEvaluator` with its scan geometry in `PixelScan`, `CirclePruning`, `GeneticAlgorithm`, `GradientEval` and `CircleSDFFinder`. `Common` holds the byte type, the grey quantisation and the stable descending sort behind LINQ's `OrderByDescending`.

- **Mutable state.**
  - The objects the source mutates are classes: the fingerprint pool and its instances, the `Generation` and the driver `GeneticAlgorithm`, and the `GradientEval` field.
  - Buffers the source updates in place are arrays: pixel buffers, `float[,]` distance fields and the circle list of `OptimizeCircles`.
  - Every method is proved against a specification function, and the properties the source promises are lemmas about those functions.
- **Numbers.**
  - Floats are reals.
  - `sqrt`, `Vector2.Normalize`, the sine and cosine of the 200 rating samples, every random draw, the evaluator `CircleEvaluator.EvaluateCircles` and the intersection routine `Circle.AddIntersections` are parameters.
  - The C# `int` hash keeps its 32-bit wrap-around.

## Model

| member | source | states |
|---|---|---|
| Common.Quantise | Bubbles/CircleEvaluator.cs:188-190 | The segment colour formula `((v + step/2) / step) * step` gives a non-negative multiple of the step, and `v + step/2` lies in `[q, q + step)`: rounding to the nearest multiple, ties upwards |
| Common.QuantiseGreyIsByte | Bubbles/CircleSDFFinder.cs:13-28 | With the step `255 / 5 = 51`, every grey in 0..255 quantises to a multiple of 51 in 0..255 within 25 of the grey, so the `(byte)` cast never wraps |
| Common.Truncate | Bubbles/CircleSDFFinder.cs:97-98 | The `(int)` cast of a float truncates toward zero: `t <= v < t + 1` for non-negative `v`, `t - 1 < v <= t` for negative `v` |
| Common.SortDescPermutes | Bubbles/GeneticAlgorithm.cs:82 | `OrderByDescending` returns a permutation of its input (same multiset) |
| Common.SortDescSorted | Bubbles/GeneticAlgorithm.cs:114 | `OrderByDescending` orders by non-increasing key |
| Common.SortDescHeadIsMax | Bubbles/GeneticAlgorithm.cs:31-34 | After the sort, slot 0 has a key at least that of every input element |
| Common.SortDescMembers | Bubbles/GeneticAlgorithm.cs:82 | The sort keeps exactly the elements of its input |
| Geometry.MinDistToOtherCircles | Bubbles/Circle.cs:7-20 | The loop's result is the square root of the running minimum of the squared 3-D distances; for an empty list it is `sqrt(float.MaxValue)` |
| Geometry.MinSqDistIsLowerBound | Bubbles/Circle.cs:9-15 | The running minimum is at most `float.MaxValue` and at most the squared 3-D distance to every listed circle |
| Geometry.MinSqDistIsAttained | Bubbles/Circle.cs:9-15 | The running minimum is `float.MaxValue` or the distance to some listed circle, and is below `float.MaxValue` whenever some distance is |
| Geometry.RandomCircle | Bubbles/Circle.cs:22-31 | For draws in [0, 1) the radius is in [0, 0.15) and x, y are in [r, 1 - r), so the whole circle lies inside the unit square |
| Geometry.RandomCoordInRange | Bubbles/Circle.cs:28-29 | `r + u * (1 - 2r)` lies in [r, 1 - r) for a radius below one half and a draw in [0, 1) |
| BitArrays.OneShlValue | Bubbles/FastBitArray.cs:55 | `(ulong)1 << k` is the number 2^k: the word with bit k alone set |
| BitArrays.OrPlusAnd | Bubbles/FastBitArray.cs:55-57 | On the numbers the words stand for, the OR of two words plus their AND is the sum of the two words: OR never yields less than an operand and AND never more |
| BitArrays.NotValue | Bubbles/FastBitArray.cs:57 | `~a` on a `ulong` is `ulong.MaxValue - a` |
| BitArrays.SetWord | Bubbles/FastBitArray.cs:54-57 | The setter's word update gives bit `k` the new value and leaves every other bit of the word unchanged, for true (OR) and for false (AND NOT) |
| BitArrays.SetWordIdempotent | Bubbles/FastBitArray.cs:54-57 | Setting a bit twice to the same value equals setting it once |
| BitArrays.SetWordKeepsLowByte | Bubbles/FastBitArray.cs:51-57 | Since the bit position is `i % 8`, writes never touch bits above the low byte of a word |
| BitArrays.SlicesEqualIffBitsEqual | Bubbles/FastBitArray.cs:22-36 | Two low-byte-only slices are equal word for word exactly when they agree on every bit `i < 8 * perInstanceSize` |
| BitArrays.Low32IsValueMod | Bubbles/FastBitArray.cs:43 | The unchecked `(int)word` keeps the word's value modulo 2^32 as the bit pattern of the `int` |
| BitArrays.HashStepIsIntStep | Bubbles/FastBitArray.cs:43 | Read as a C# `int`, the result is the unchecked `int` value of `hash * 31 + (int)word` on the signed operands: the one value in `[int.MinValue, int.MaxValue]` congruent to the exact result modulo 2^32 |
| BitArrays.HashOfIsIntHash | Bubbles/FastBitArray.cs:38-47 | The model's hash of a slice, read as a signed `int`, is what the C# loop computes on `int`s: 17, then `hash * 31 + (int)word` with wrap-around for each word |
| BitArrays.BitPool.constructor | Bubbles/FastBitArray.cs:3-6 | The static state starts with slice size 0, an empty backing array and the cursor at 0 |
| BitArrays.BitPool.Init | Bubbles/CircleEvaluator.cs:134 | `FastBitArray.Init` gives a zeroed backing array of `perInstanceSize * numInstances` words and sets the cursor back to 0 |
| BitArrays.FastBitArray.constructor | Bubbles/FastBitArray.cs:9-13 | A new instance takes its slice at the current cursor, with no cached hash, and the cursor advances by one slice |
| BitArrays.FastBitArray.Set | Bubbles/FastBitArray.cs:49-60 | The indexer setter changes only word `index + i / 8`, giving bit `i % 8` the value, and resets the cached hash |
| BitArrays.FastBitArray.RecalculateHashCode | Bubbles/FastBitArray.cs:38-47 | The loop returns the hash of the current slice: 17, then `*31 + (int)word` per word with wrap-around |
| BitArrays.FastBitArray.GetHashCode | Bubbles/FastBitArray.cs:15-20 | With a coherent cache the result is the hash of the current slice, so instances with equal slices report equal hash codes, and the cache stays coherent |
| BitArrays.FastBitArray.Equals | Bubbles/FastBitArray.cs:22-36 | True exactly when the other object is a `FastBitArray` whose slice matches this one word for word; false for any other object |
| BitArrays.WriteStaysInOwnSlice | Bubbles/FastBitArray.cs:9-13 | A write with a bit index below `8 * perInstanceSize` leaves the slice of every non-overlapping instance unchanged |
| PixelScan.Floor | Bubbles/CircleEvaluator.cs:142 | `(int)Math.Floor(v)` is the largest integer not above `v` |
| PixelScan.Ceiling | Bubbles/CircleEvaluator.cs:144 | `(int)Math.Ceiling(v)` is the smallest integer not below `v` |
| PixelScan.LowerClamp | Bubbles/CircleEvaluator.cs:142-143 | The lower end of a scan range is `Math.Floor(v)` raised to 0 |
| PixelScan.UpperClamp | Bubbles/CircleEvaluator.cs:144-145 | The exclusive upper end of a scan range is `Math.Ceiling(v)` lowered to the image size |
| PixelScan.DiskPixelIsCovered | Bubbles/CircleEvaluator.cs:142-160 | A pixel whose corner lies in the disk is marked, unless the corner lies exactly on the disk's right-most column or bottom-most row, where the half-open box stops |
| PixelScan.InScanRange | Bubbles/CircleEvaluator.cs:142-153 | A coordinate whose fraction lies in `[lo, hi)` lies inside the clamped scan range |
| CircleEvaluator.WordsPerFingerprint | Bubbles/CircleEvaluator.cs:134 | `n / 8 + 1` words hold bit `i` of every circle index `i < n` |
| CircleEvaluator.PixelIndex | Bubbles/CircleEvaluator.cs:160 | Pixel index `x + width * y` of an in-range pixel lies inside the buffer |
| CircleEvaluator.RowMajorInjective | Bubbles/CircleEvaluator.cs:182 | Distinct pixel positions have distinct indices `x + width * y` |
| CircleEvaluator.SetBitEffect | Bubbles/CircleEvaluator.cs:160 | Setting bit k of pixel p's fingerprint changes exactly that bit among all pixels' bits |
| CircleEvaluator.MarkPixel | Bubbles/CircleEvaluator.cs:155-160 | One step of the column loop extends the marked part of the row by that pixel, setting bit k when the circle covers it |
| CircleEvaluator.CircleStep | Bubbles/CircleEvaluator.cs:139-163 | A fully marked box adds circle k to fingerprints that hold the coverage of the first k circles |
| CircleEvaluator.AllocateFingerprints | Bubbles/CircleEvaluator.cs:135-137 | The constructor loop creates fresh fingerprints in pixel order, so fingerprint p owns slice p, with no cached hash |
| CircleEvaluator.MarkRow | Bubbles/CircleEvaluator.cs:146-161 | One row of the scan box: bit k is set on exactly the covered pixels of the row, no bit is cleared, only low bytes change |
| CircleEvaluator.MarkCircle | Bubbles/CircleEvaluator.cs:139-163 | The whole box of circle k: bit k is set on exactly the covered pixels, in addition to the bits set before |
| CircleEvaluator.GetCirclesForEachPixel | Bubbles/CircleEvaluator.cs:131-172 | The result is the coverage map: one fingerprint per pixel in pixel order, and bit i of pixel (x, y) is set exactly when circle i covers it |
| CircleEvaluator.NothingMarkedYet | Bubbles/CircleEvaluator.cs:134 | A freshly zeroed backing array holds the coverage of no circle |
| CircleEvaluator.FingerprintOfPixel | Bubbles/CircleEvaluator.cs:131-172 | A pixel's fingerprint uses only low bytes, and its bit i is set exactly when i is a circle index and that circle covers the pixel |
| CircleEvaluator.SameFingerprintIffSameCircles | Bubbles/CircleEvaluator.cs:177-186 | Two pixels share a fingerprint (dictionary key) exactly when the same circles cover them |
| CircleEvaluator.Accumulate | Bubbles/CircleEvaluator.cs:177-186 | The dictionary has an entry for exactly the fingerprints that occur. Each entry holds (number of pixels carrying the fingerprint, sum of their greys), so every count is at least one |
| CircleEvaluator.TallyIsCountAndSum | Bubbles/CircleEvaluator.cs:177-186 | The `AddOrUpdate` pass in pixel order yields those same counts and sums, whatever the order of updates |
| CircleEvaluator.TallyEntry | Bubbles/CircleEvaluator.cs:182-184 | After the first n pixels, a fingerprint has an entry exactly when it occurs among them, holding their count and colour sum |
| CircleEvaluator.CountPositiveIffOccurs | Bubbles/CircleEvaluator.cs:183-184 | A fingerprint counts a pixel exactly when it occurs |
| CircleEvaluator.SumOfBound | Bubbles/CircleEvaluator.cs:183-184 | A segment's colour sum is at most 255 per pixel |
| CircleEvaluator.SegmentColor | Bubbles/CircleEvaluator.cs:188-190 | With step 51 and a mean of at most 255, the `(byte)` colour is the quantised mean: a multiple of 51 within 25 of the mean, no wrap |
| CircleEvaluator.MeanIsGrey | Bubbles/CircleEvaluator.cs:189 | The integer mean of a segment is a grey value in 0..255 |
| CircleEvaluator.SegmentColors | Bubbles/CircleEvaluator.cs:188-190 | `ToDictionary` keeps exactly the keys of the totals |
| CircleEvaluator.GetCircleIntersectionColors | Bubbles/CircleEvaluator.cs:174-192 | The colour dictionary is the segment colours of the accumulated totals: an entry for exactly the fingerprints that occur, each the quantised mean grey of its pixels |
| CircleEvaluator.AccumulateRows | Bubbles/CircleEvaluator.cs:177-186 | The row loop leaves the totals of the `AddOrUpdate` pass over all pixels in pixel order |
| CircleEvaluator.AccumulateRow | Bubbles/CircleEvaluator.cs:179-185 | One row extends the totals of the rows above by that row's pixels |
| CircleEvaluator.CreatePixelsFromCircleIntersectionColors | Bubbles/CircleEvaluator.cs:194-204 | A fresh buffer of `W * H` pixels in which pixel p has the colour of its fingerprint |
| CircleEvaluator.ReconstructionIsUniformOnSegments | Bubbles/CircleEvaluator.cs:194-204 | Two pixels covered by the same circles get the same output grey |
| CircleEvaluator.Abs | Bubbles/CircleEvaluator.cs:213 | `Math.Abs` is the value or its negation, and non-negative |
| CircleEvaluator.AbsDiffSumZeroIff | Bubbles/CircleEvaluator.cs:210-215 | The sum of absolute differences is 0 exactly when the buffers agree |
| CircleEvaluator.AbsDiffSumBound | Bubbles/CircleEvaluator.cs:210-215 | The error sum of n pixels is at most 255 n |
| CircleEvaluator.SourceOffsetIsZero | Bubbles/CircleEvaluator.cs:212 | By left-to-right evaluation, `(step/2)/step*step` is 0 for every step of at least 1 |
| CircleEvaluator.CalculateError | Bubbles/CircleEvaluator.cs:206-220 | The loop's result is the mean absolute difference; an empty buffer divides 0 by 0 (NaN, `None`) |
| CircleEvaluator.ErrorIsAbsDiff | Bubbles/CircleEvaluator.cs:208-215 | The accumulated error equals the plain sum of absolute differences to the raw source pixels |
| CircleEvaluator.QuantisedError | Bubbles/CircleEvaluator.cs:206-220 | The corrected error against the quantised source; `None` exactly for an empty buffer |
| CircleEvaluator.QuantisedErrorZeroIff | Bubbles/CircleEvaluator.cs:206-220 | The corrected error is 0 exactly when every output pixel equals the quantised source pixel |
| CircleEvaluator.ErrorMissesQuantisedSource | Bubbles/CircleEvaluator.cs:212 | Source grey 30 with output 51: the corrected error is 0, the error as written is 21 |
| CirclePruning.MinReal | Bubbles/CirclePruning.cs:66 | `Math.Min` is the smaller operand |
| CirclePruning.NoneInterferingIff | Bubbles/CirclePruning.cs:82-89 | The early-returning endpoint scan is true exactly when no distance lies strictly between the equality and the segment thresholds |
| CirclePruning.AcceptablePairIff | Bubbles/CirclePruning.cs:63-90 | `AcceptablePair` is false when the 3-D distance is below `MinDistance3d²` or below the smaller radius squared, false when an endpoint pair interferes, and true otherwise |
| CirclePruning.AcceptablePairIgnoresColor | Bubbles/CirclePruning.cs:63-90 | The pair test depends only on centres and radii, not on the colour tag |
| CirclePruning.RadiusRatio | Bubbles/CirclePruning.cs:102-103 | `radiusdist` is the larger radius over the smaller, at least 1 |
| CirclePruning.CheckAndUpdateIntersections | Bubbles/CirclePruning.cs:92-124 | True exactly when no accepted circle rejects the candidate (radius ratio below 1.05 or a crowding intersection). On true the new points are appended after the old ones; on false the list is unchanged |
| CirclePruning.SurvivorsAreAcceptable | Bubbles/CirclePruning.cs:56-57 | The filter keeps, in order, exactly the candidates that form an acceptable pair with the accepted circle |
| CirclePruning.PruneCircles | Bubbles/CirclePruning.cs:39-61 | The greedy loop terminates and returns the accepted circles and intersection points of the pruning function |
| CirclePruning.PruneKeepsOrder | Bubbles/CirclePruning.cs:45-58 | Accepted circles only grow at the end, and what is appended is an order-preserving subsequence of the candidates recoloured `color = 1` |
| CirclePruning.PruneAcceptsFirst | Bubbles/CirclePruning.cs:45-54 | The first candidate is always accepted |
| CirclePruning.PrunePointsGrow | Bubbles/CirclePruning.cs:51 | Intersection points are only ever appended |
| CirclePruning.PruneIsPairwise | Bubbles/CirclePruning.cs:54-57 | Every later accepted circle is an acceptable pair with every earlier one |
| CirclePruning.PruneCirclesResult | Bubbles/CirclePruning.cs:39-61 | The result is a pairwise acceptable, order-preserving subsequence of the recoloured input |
| CirclePruning.RankedCandidates | Bubbles/CirclePruning.cs:28-35 | The candidates are sorted by descending rating, a permutation of the (wriggled) input |
| CirclePruning.PruneRatedCircles | Bubbles/CirclePruning.cs:25-36 | The result is the pruning of the ranked candidates' circles |
| CirclePruning.PruneRatedKeepsBest | Bubbles/CirclePruning.cs:25-36 | Without wriggle, the first circle kept is the best-rated candidate, recoloured |
| CirclePruning.SizeBucketRange | Bubbles/CirclePruning.cs:145-146 | A radius in `[MinCircleRadius, MaxCircleRadius)` falls into one of the ten buckets, a bonus between 0 and 45 |
| CirclePruning.GoodRatedPrefix | Bubbles/CirclePruning.cs:140-150 | Drawing more circles never changes the circles already kept |
| CirclePruning.GoodRatedAboveMinimum | Bubbles/CirclePruning.cs:143-149 | Every kept circle has a sized rating above `MinRating` and a radius in the drawing range |
| CirclePruning.SelectGoodRatedCircles | Bubbles/CirclePruning.cs:140-150 | The loop keeps the first `numCircles` good circles, or all of them when the draws run out |
| GeneticAlgorithm.Evaluated | Bubbles/GeneticAlgorithm.cs:216-225 | A candidate built with `Fitness = 1 / error` has positive fitness and the given circles, ID and parent count |
| GeneticAlgorithm.WeightSumIsQuotient | Bubbles/GeneticAlgorithm.cs:263-265 | The sum of the quotients `fitness / total` is the total fitness over the divisor |
| GeneticAlgorithm.FitnessSumPositive | Bubbles/GeneticAlgorithm.cs:261 | The total fitness of positively rated candidates is positive |
| GeneticAlgorithm.SamplingTableRises | Bubbles/GeneticAlgorithm.cs:263-265 | With positive fitness the roulette table rises strictly (so it is sorted for the binary search) and starts above 0 |
| GeneticAlgorithm.SamplingTableEndsAtOne | Bubbles/GeneticAlgorithm.cs:259-268 | Over reals the last entry of the table is exactly 1 |
| GeneticAlgorithm.WeightSumGrows | Bubbles/GeneticAlgorithm.cs:263-265 | Longer prefixes have larger weight, strictly for strictly longer prefixes |
| GeneticAlgorithm.SearchIsCorrect | Bubbles/GeneticAlgorithm.cs:282 | On an ascending table the search returns a matching index, or the complement of the first index whose entry is above the key |
| GeneticAlgorithm.BinarySearch | Bubbles/GeneticAlgorithm.cs:282 | The loop computes the search result |
| GeneticAlgorithm.ParentIndexSelects | Bubbles/GeneticAlgorithm.cs:281-283 | The parent index is a matching index, or the first index above the draw (`|t|` when none) |
| GeneticAlgorithm.Generation.constructor | Bubbles/GeneticAlgorithm.cs:245-249 | Fifty unfilled slots, not normalised |
| GeneticAlgorithm.Generation.NormalizeFitness | Bubbles/GeneticAlgorithm.cs:259-268 | A fresh table whose entry c is the weight of candidates 0..c, and the generation is normalised |
| GeneticAlgorithm.Generation.SelectParent | Bubbles/GeneticAlgorithm.cs:271-284 | Throws (`None`) unless normalised; otherwise the search match or its insertion point |
| GeneticAlgorithm.SumFitness | Bubbles/GeneticAlgorithm.cs:261 | `Candidates.Sum(c => c.Fitness)` is the total fitness |
| GeneticAlgorithm.SelectedIndexInRange | Bubbles/GeneticAlgorithm.cs:281-283 | With a draw below the last table entry the selected index is a valid candidate index |
| GeneticAlgorithm.NumParentsInRange | Bubbles/GeneticAlgorithm.cs:106-110 | Every bred child has between 2 and 4 parents |
| GeneticAlgorithm.NumParentsAtEnds | Bubbles/GeneticAlgorithm.cs:106-110 | Child 3 has 2 parents and child 49 has 4 |
| GeneticAlgorithm.ChosenParents | Bubbles/GeneticAlgorithm.cs:173-177 | The chosen parents are distinct, at most `numParents`, each selected by some draw, and valid indices for draws below the last entry |
| GeneticAlgorithm.ChosenStaysFull | Bubbles/GeneticAlgorithm.cs:173-177 | Once `numParents` are chosen, later draws change nothing |
| GeneticAlgorithm.NoNearerAnchorIff | Bubbles/GeneticAlgorithm.cs:184-191 | The early-returning anchor scan is true exactly when no other anchor is strictly nearer to the circle's centre |
| GeneticAlgorithm.OwnedFromIff | Bubbles/GeneticAlgorithm.cs:182-192 | A circle is inherited from parent p exactly when it is one of p's circles, tagged p + 1, in the Voronoi cell of anchor p |
| GeneticAlgorithm.AllOwnedIff | Bubbles/GeneticAlgorithm.cs:182-192 | `SelectMany` gathers exactly the circles owned by some parent |
| GeneticAlgorithm.ShuffleMembers | Bubbles/GeneticAlgorithm.cs:199-200 | Shuffling by random keys only reorders |
| GeneticAlgorithm.NumToRandomize | Bubbles/GeneticAlgorithm.cs:194-195 | At least ten random circles, and enough to reach 600 with the inherited ones |
| GeneticAlgorithm.JitteredEntry | Bubbles/GeneticAlgorithm.cs:203-208 | Each mutated circle is the kept circle moved by its own jitter draw |
| GeneticAlgorithm.SpawnedEntry | Bubbles/GeneticAlgorithm.cs:210-211 | Random circle i is draw i |
| GeneticAlgorithm.VoronoiChildCircles | Bubbles/GeneticAlgorithm.cs:194-214 | A Voronoi child has exactly 600 circles |
| GeneticAlgorithm.VoronoiChildSpawned | Bubbles/GeneticAlgorithm.cs:210-214 | The last `numCirclesToRandomize` circles are the fresh draws, in order |
| GeneticAlgorithm.VoronoiChildUntouched | Bubbles/GeneticAlgorithm.cs:199-214 | The first circles are inherited circles, unchanged |
| GeneticAlgorithm.VoronoiChildMoved | Bubbles/GeneticAlgorithm.cs:203-214 | The `min(100, kept)` circles before the fresh ones are inherited circles moved by their jitter |
| GeneticAlgorithm.RandomSelectionChildSize | Bubbles/GeneticAlgorithm.cs:120-163 | A random-selection child also has exactly 600 circles |
| GeneticAlgorithm.ChosenInRange | Bubbles/GeneticAlgorithm.cs:173-177 | With draws in [0, 1) every chosen parent is a valid candidate index |
| GeneticAlgorithm.InheritedFromParent | Bubbles/GeneticAlgorithm.cs:182-192 | Every inherited circle is a circle of a chosen parent p, retagged p + 1, in anchor p's cell |
| GeneticAlgorithm.ChildInherits | Bubbles/GeneticAlgorithm.cs:165-214 | Each unchanged inherited circle of a child comes from a chosen parent p, retagged p + 1, in anchor p's cell |
| GeneticAlgorithm.EnoughDrawsGiveAllParents | Bubbles/GeneticAlgorithm.cs:173-177 | When the loop finishes, the child has exactly `numParents` distinct parents |
| GeneticAlgorithm.FirstGenerationSeeds | Bubbles/GeneticAlgorithm.cs:67-80 | Seed c is list c with ID c, 600 circles, no parents and positive fitness |
| GeneticAlgorithm.FirstGenerationLoaded | Bubbles/GeneticAlgorithm.cs:51-83 | The loaded generation has fifty positively rated seeds sorted by descending fitness, each list present once |
| GeneticAlgorithm.Children | Bubbles/GeneticAlgorithm.cs:106-111 | Forty-seven children, all positively rated |
| GeneticAlgorithm.ElitismKeepsBest | Bubbles/GeneticAlgorithm.cs:88-114 | The sorted next generation starts with a candidate at least as fit as the previous best, and all its candidates are positively rated |
| GeneticAlgorithm.SortKeepsPositive | Bubbles/GeneticAlgorithm.cs:114 | Sorting keeps every fitness positive |
| GeneticAlgorithm.GeneticAlgorithm.constructor | Bubbles/GeneticAlgorithm.cs:23-29 | No generation yet, grey step and ID counter 0 |
| GeneticAlgorithm.GeneticAlgorithm.BestCandidate | Bubbles/GeneticAlgorithm.cs:31-34 | On a sorted generation slot 0 is a candidate at least as fit as every other |
| GeneticAlgorithm.GeneticAlgorithm.LoadFirstGeneration | Bubbles/GeneticAlgorithm.cs:51-83 | Succeeds exactly with at least 50 lists whose first 50 have 600 circles. With fewer lists nothing but the step changes. Otherwise it fails at the first bad list. On success: IDs 0..49 and the seeds sorted by descending fitness |
| GeneticAlgorithm.GeneticAlgorithm.GenerateChildVoronoi | Bubbles/GeneticAlgorithm.cs:165-226 | The child is the Voronoi child of the normalised generation for the draws, and the ID counter advances by one |
| GeneticAlgorithm.GeneticAlgorithm.BreedChildren | Bubbles/GeneticAlgorithm.cs:106-111 | The 47 bred children, with the ID counter advanced by 47 |
| GeneticAlgorithm.GeneticAlgorithm.GenerateNextGeneration | Bubbles/GeneticAlgorithm.cs:85-118 | Returns the previous best fitness. The new generation is the top three plus the children, sorted by descending fitness, all positively rated, and its best is at least the previous best |
| GradientEval.GradientAtBounded | Bubbles/GradientEval.cs:24-28 | Every gradient component lies in [-127.5, 127.5] |
| GradientEval.LerpBounded | Bubbles/GradientEval.cs:78-81 | A blend with a weight in [0, 1] stays within a bound of both ends |
| GradientEval.LerpPointBounded | Bubbles/GradientEval.cs:72-75 | `Vector2.Lerp` of in-range gradients stays in range |
| GradientEval.SampleAtPixel | Bubbles/GradientEval.cs:68-76 | At a whole-pixel position the sample is that pixel's gradient |
| GradientEval.SampleAtBounded | Bubbles/GradientEval.cs:68-76 | A sample never leaves the range of the stored gradients |
| GradientEval.StrengthSumNonNegative | Bubbles/GradientEval.cs:38-48 | The sum of absolute strengths is non-negative |
| GradientEval.RatingNonNegative | Bubbles/GradientEval.cs:36-51 | A rating, a mean of absolute values, is non-negative |
| GradientEval.FlatImageRatesZero | Bubbles/GradientEval.cs:36-51 | On a uniform image every circle rates 0 |
| GradientEval.FlatGradientIsZero | Bubbles/GradientEval.cs:23-28 | A uniform image has the zero gradient everywhere |
| GradientEval.BestIsFirstMaximum | Bubbles/GradientEval.cs:105-121 | The best so far is the first iterate reaching the highest rating of the iterates, with its own rating |
| GradientEval.FlatParamGradient | Bubbles/GradientEval.cs:93-103 | On a uniform image the estimated gradient is zero |
| GradientEval.FlatImageClimbStays | Bubbles/GradientEval.cs:109-112 | On a uniform image the climb never moves |
| GradientEval.FlatImageBestIsStart | Bubbles/GradientEval.cs:105-121 | On a uniform image the optimiser returns the starting circle, rated 0 |
| GradientEval.GradientEval.constructor | Bubbles/GradientEval.cs:16-29 | The stored field is the central-difference field of the pixels: half the neighbour differences inside, zero on the border rows and columns |
| GradientEval.GradientEval.LookupGradient | Bubbles/GradientEval.cs:53-58 | The zero vector outside the image, the stored gradient inside |
| GradientEval.GradientEval.SampleGradient | Bubbles/GradientEval.cs:68-76 | The bilinear blend of the four stored gradients around the position |
| GradientEval.GradientEval.RateCircle | Bubbles/GradientEval.cs:36-51 | The loop's mean of the 200 absolute border strengths is the circle's rating, and non-negative |
| GradientEval.GradientEval.EstimateCircleParamGradient | Bubbles/GradientEval.cs:93-103 | The central differences of the rating one pixel either way in x, y and radius |
| GradientEval.GradientEval.OptimizeCircle | Bubbles/GradientEval.cs:105-121 | Returns the first circle met with the highest rating, and that rating. It is at least the initial rating and at least every iterate's rating |
| GradientEval.GradientEval.OptimizeCircles | Bubbles/GradientEval.cs:123-127 | Every element is replaced in place by its optimised circle |
| CircleSDFFinder.BucketPixels | Bubbles/CircleSDFFinder.cs:27-28 | Every pixel becomes its quantised value: a multiple of 51 within 25 of the pixel, with no byte wrap |
| CircleSDFFinder.MinEdgeDistanceIsLowerBound | Bubbles/CircleSDFFinder.cs:173-182 | The running minimum is at most `float.MaxValue` and the distance to every edge pixel scanned so far |
| CircleSDFFinder.MinEdgeDistanceIsAttained | Bubbles/CircleSDFFinder.cs:173-182 | The running minimum is still `float.MaxValue` or the distance to a scanned edge pixel |
| CircleSDFFinder.EdgeDistanceIsMinimum | Bubbles/CircleSDFFinder.cs:164-185 | After the scan: at most every edge distance; attained or `float.MaxValue`; `float.MaxValue` when there is no edge pixel |
| CircleSDFFinder.ComputeDistance | Bubbles/CircleSDFFinder.cs:164-185 | 0 on an edge pixel, otherwise the row-major minimum of the edge distances |
| CircleSDFFinder.MaxAbsBounds | Bubbles/CircleSDFFinder.cs:152 | `Prepend(0).Max()` of the magnitudes is non-negative and bounds every entry's magnitude |
| CircleSDFFinder.MaxAbsAttained | Bubbles/CircleSDFFinder.cs:152 | The maximum is 0 or the magnitude of some entry |
| CircleSDFFinder.QuotientInUnitRange | Bubbles/CircleSDFFinder.cs:158 | Dividing by a bound of the magnitude lands in [-1, 1] |
| CircleSDFFinder.NormalizeDistanceMap | Bubbles/CircleSDFFinder.cs:149-162 | Same dimensions, every entry divided by the maximum magnitude. Entries are in [-1, 1] when the maximum is positive and NaN when it is 0 |
| CircleSDFFinder.Uphill | Bubbles/CircleSDFFinder.cs:103-112 | A step goes to an in-range 4-neighbour with a strictly larger value; there is no step exactly when no 4-neighbour is larger |
| CircleSDFFinder.WalkEnd | Bubbles/CircleSDFFinder.cs:99-111 | The walk terminates, because each step strictly shrinks the set of higher cells, and it ends inside the grid |
| CircleSDFFinder.WalkEndStops | Bubbles/CircleSDFFinder.cs:99-112 | The walk stops on the border or at an inner cell with no strictly larger 4-neighbour |
| CircleSDFFinder.WalkEndClimbs | Bubbles/CircleSDFFinder.cs:99-111 | The walk never ends lower than it started |
| CircleSDFFinder.StartCell | Bubbles/CircleSDFFinder.cs:97-98 | `(int)(x * width)` for x in [0, 1) is a cell of the grid |
| CircleSDFFinder.StampDeltaLowers | Bubbles/CircleSDFFinder.cs:130-141 | The stamp never raises a cell, and it strictly lowers exactly the cells of its square that lie strictly inside the disk |
| CircleSDFFinder.DropCircleOntoSDF | Bubbles/CircleSDFFinder.cs:92-147 | Fails with the field unchanged when the walk ends on the border, when the radius `(value + 2) / width` is below `minRadius`, or when the cell was already carved. Otherwise it returns the circle at the walk's end and lowers the field by the stamp |
| CircleSDFFinder.Stamp | Bubbles/CircleSDFFinder.cs:128-141 | The stamping loops lower every in-bounds cell by exactly its stamp amount and touch nothing else. The loops run over the stamp range clamped to the field, so they end for every value (the corrected half of the finding below) |
| CircleSDFFinder.StampColumn | Bubbles/CircleSDFFinder.cs:132-140 | One pass of the outer loop lowers column `cx` by its stamp amounts and leaves every other column alone |
| CircleSDFFinder.FlatFieldWalkStays | Bubbles/CircleSDFFinder.cs:99-113 | On a field whose cells all hold one value, such as the all-`float.MaxValue` field of an image without edge pixels, the walk ends at the start cell |
| CircleSDFFinder.NoEdgeStampNeverEnds | Bubbles/CircleSDFFinder.cs:132 | With a stamp value of at least `float.MaxValue`, the inner loop as written, on an `int` counter that wraps, passes its guard after every number of increments, so it never ends |

## Left out

- **Not modelled (I/O and drivers).**
  - Image I/O and library image operations: loading, saving, `CopyPixelDataTo`, the Gaussian blur and the edge detector in `FindCirclesForImage`.
  - SVG output (`WriteSvg`), CSV loading (`LoadCirclesCSV`, `LoadAllCirclesFromFolder`), `OutputBestCandidate`, console output and Program.cs.
  - `EvaluateCirclesForImage` (Bubbles/CircleEvaluator.cs:10-90), a search bounded by a stopwatch.
  - The driver loops of `FindCirclesForImage` (Bubbles/CircleSDFFinder.cs:37-77), which call the modelled operations.
- **`Parallel.For` passes** are sequential loops. The concurrent `|=` on a shared word (Bubbles/FastBitArray.cs:55) from two circles can lose an update; a sequential model cannot show that race. The `ConcurrentDictionary` is a map.
- **IEEE floats** are reals: no rounding, overflow or infinity. NaN appears only as the 0/0 of `NormalizeDistanceMap` and `CalculateError`.
  - `sqrt`, `Vector2.Normalize`, and the sine and cosine of the rating samples are parameters with no properties assumed.
  - `float.MaxValue` is its exact value.
- **Random draws are parameters.** This covers `Circle.Random`, parent draws, anchors, shuffle keys, jitter, wriggle noise, and the test-set generators `GenerateTestSet` and `GenerateRandom`, which are left out as pure random-draw loops.
- **Members called but not shown are parameters or definitions.**
  - `Circle.Dist` and `Circle.Add` are the functions `Geometry.Dist` and `Geometry.Add`.
  - `Circle.AddIntersections` is the parameter `intersect`.
  - `Circle.Random(min, max)` is the parameter `spawn`.
  - `CircleEvaluator.EvaluateCircles` is the parameter `evaluate`, whose errors are assumed positive so that `1 / error` is defined.
  - `FastBitArray.Init` is `BitArrays.BitPool.Init`.
  - `Circle.MaxOverlapWithOtherCircles` appears only in the stopwatch search and is not part of this model.
- **C# `int` overflow** is not modelled outside the hash and the stamp counter of the second finding: buffer sizes `width * height`, the pixel and colour counts, and `MaxID` are unbounded.
- **Flat buffers.** The flat `Vector2[]` of `GradientEval` is an `array2` indexed `[x, y]`, and `OptimizeCircles`' `List<Circle>` is an array. A circle list and a candidate array are sequences where the source only reads them.
- GradientEval.GradientEval.EstimateCircleParamGradient: requires a positive width and height. The source divides by them, so an empty image would give infinities.
- GradientEval.GradientEval.OptimizeCircle: requires a positive width and height for the same reason. It takes the rating and the step function as ghost names (`rate`, `step`), pinned to the field by `IsRating` and `IsClimbStep`.
- GeneticAlgorithm.GeneticAlgorithm.GenerateChildVoronoi: the parent loop runs over a finite sequence of draws. If the draws run out before `numParents` distinct parents are chosen, the child is built from fewer parents, where the source would keep drawing. `EnoughDrawsGiveAllParents` states the complete case.
- GeneticAlgorithm.RandomSelectionChildCircles: the unused `GenerateChildRandomSelection` is modelled as its circle assembly and size only. Its candidate record (ID, evaluation) is the same as the Voronoi child's.
- GeneticAlgorithm.Generation.SelectParent: over reals the table ends at exactly 1, so a draw in [0, 1) always selects a valid index. With float rounding the last entry can fall below a draw and the source returns 50, one past the end; this model cannot exhibit that.
- CircleSDFFinder.DropCircleOntoSDF: on a distance field without edge pixels the model stamps and returns the circle, where the source hangs in the stamping loop (see "## Findings"). Float rounding of `sdfValue + 2` to `float.MaxValue` is not modelled.
- BitArrays.FastBitArray.Set: the setter's bound is only the backing array's, as in the source. Bit indices at or past `8 * perInstanceSize` write into the next instance's slice.

## Findings

| source | as written | input that shows it | evidently intended | confidence | as-written member | corrected member |
|---|---|---|---|---|---|---|
| Bubbles/CircleEvaluator.cs:212 | `pixels[i] + (greyScaleStep / 2) / greyScaleStep * greyScaleStep` evaluates `(step/2)/step` first, which is 0, so the source pixel is compared raw | source pixel 30 and output 51 with step 51: the output is the quantised source, yet the error is 21 | compare with the quantised source `(pixels[i] + step/2) / step * step`, so that a perfect posterisation has error 0 | not executed | CircleEvaluator.ErrorMissesQuantisedSource | CircleEvaluator.QuantisedErrorZeroIff |
| Bubbles/CircleSDFFinder.cs:130-132 | the stamping loops run from `(int)(sdfX - sdfValue)` while `cx < sdfX + sdfValue`, on `int` counters, over the whole unclamped range | an edge image without any 255 pixel (a flat image) gives `float.MaxValue` in every cell (Bubbles/CircleSDFFinder.cs:173); a drop at (1/6, 1/6) on a field at least 12 cells wide and high stops at once and passes both checks; then `(int)(sdfY - sdfValue)` is `int.MinValue`, the guard holds for every `int`, and `cy++` wraps, so the program hangs | loop only over the part of the stamp range inside the field, so the stamp ends | not executed | CircleSDFFinder.NoEdgeStampNeverEnds | CircleSDFFinder.Stamp |
