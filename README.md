# Mutect2 filter base: depth-weighted median and learning hooks

This project models the concrete logic of `Mutect2Filter`, the abstract base class of
the Mutect2 variant filters in GATK. The class has two parts:

- **The depth-weighted median reducer** `weightedMedianPosteriorProbability`. It takes a
  list of (alt depth, posterior probability of artifact) pairs, one per sample. It adds up
  the depths. Then it sorts the caller's list in place, ascending by probability, with a
  stable sort. Then it walks the sorted list with a running depth and returns the
  probability at the first position where twice the running depth is at least the total.
  If no position qualifies, it returns 0.
- **The learning hooks** `accumulateDataForLearning`, `clearAccumulatedData` and
  `learnParameters`. All three do nothing by default. `learnParametersAndClearAccumulatedData`
  calls the learning hook and then the clearing hook.

How the model is laid out:

- `depths.dfy` (module `Depths`): the pair datatype, with a 32-bit depth and a `real`
  probability, plus the depth sums and the facts about them.
- `stable_sort.dfy` (module `StableSort`): the stable sort. It is an in-place insertion
  sort on an `array`. It is specified by a functional stable insertion sort,
  `SortByPosterior`. The lemma `StableSortUnique` says that being sorted and keeping the
  order of equal probabilities determines the output. So every stable sort, Java's
  TimSort included, produces exactly `SortByPosterior`.
- `weighted_median.dfy` (module `WeightedMedianReducer`): the reducer as an imperative method.
  `WeightedMedian` is the function that specifies it. `IsLowerWeightedMedian` is an
  order-free statement of the order statistic that the source comment on line 40 names.
- `filter_hooks.dfy` (module `FilterHooks`): the hooks as a class. The class records the
  hooks that were run in a ghost call log.

Edge cases of the code:

- `[(1, 0.1), (1, 0.9)]` gives 0.1, because `1 * 2 >= 2` already holds at the first pair.
  See `WeightedMedianTwoPairExamples`.
- A non-empty list whose depths are all 0 gives its smallest probability, not 0, because
  `0 * 2 >= 0` holds at the first sorted position. See `WeightedMedianZeroTotal`. Only the
  empty list gives 0 (`WeightedMedianEmpty`).

## Model

| member | source | states |
|---|---|---|
| `WeightedMedianReducer.WeightedMedianPosteriorProbability` | src/main/java/org/broadinstitute/hellbender/tools/walkers/mutect/filtering/Mutect2Filter.java:41-56 | The array ends up as the stable sort by probability of its old contents. The result is the probability at the first sorted position where twice the running depth reaches the total, or 0 when no position does. The result equals `WeightedMedian` of the input. |
| `Depths.TotalDepth` | src/main/java/org/broadinstitute/hellbender/tools/walkers/mutect/filtering/Mutect2Filter.java:42 | The sum of the depths. It is non-negative when every depth is. |
| `Depths.Magnitude` | src/main/java/org/broadinstitute/hellbender/tools/walkers/mutect/filtering/Mutect2Filter.java:42 | The sum of the absolute depths bounds the absolute value of the depth sum. |
| `Depths.SumsPermutation` | src/main/java/org/broadinstitute/hellbender/tools/walkers/mutect/filtering/Mutect2Filter.java:42-45 | Any two orderings of the same pairs have the same depth sum. So the total taken before the sort is also the total of the sorted list. |
| `Depths.DepthAtMostPermutation` | src/main/java/org/broadinstitute/hellbender/tools/walkers/mutect/filtering/Mutect2Filter.java:40 | The depth of the pairs at or below a probability does not depend on the order of the pairs. |
| `StableSort.SortByPosteriorInPlace` | src/main/java/org/broadinstitute/hellbender/tools/walkers/mutect/filtering/Mutect2Filter.java:45 | The in-place sort leaves the array equal to `SortByPosterior` of its old contents, and a permutation of them. |
| `StableSort.SortByPosterior` | src/main/java/org/broadinstitute/hellbender/tools/walkers/mutect/filtering/Mutect2Filter.java:45 | The sorted list holds the same pairs as the input, each unchanged. |
| `StableSort.SortByPosteriorSorted` | src/main/java/org/broadinstitute/hellbender/tools/walkers/mutect/filtering/Mutect2Filter.java:45 | The sorted list is ascending by probability. |
| `StableSort.SortByPosteriorKeepsTies` | src/main/java/org/broadinstitute/hellbender/tools/walkers/mutect/filtering/Mutect2Filter.java:45 | The sort is stable. For every probability, the pairs with that probability appear in the same order as in the input. |
| `StableSort.SameTiesPermutation` | src/main/java/org/broadinstitute/hellbender/tools/walkers/mutect/filtering/Mutect2Filter.java:45 | Keeping the order of every group of equal probabilities implies being a permutation. |
| `StableSort.StableSortUnique` | src/main/java/org/broadinstitute/hellbender/tools/walkers/mutect/filtering/Mutect2Filter.java:45 | Two sequences that are both sorted by probability and agree on the order within every group of equal probabilities are equal. So the stable sort is unique. |
| `WeightedMedianReducer.ScanFrom` | src/main/java/org/broadinstitute/hellbender/tools/walkers/mutect/filtering/Mutect2Filter.java:47-55 | The scan from a position returns either the fallback 0 or the probability at that position or a later one where twice the running depth reaches the total. |
| `WeightedMedianReducer.WeightedMedian` | src/main/java/org/broadinstitute/hellbender/tools/walkers/mutect/filtering/Mutect2Filter.java:41-55 | The reducer's value is either the fallback 0 or the probability of one of the input pairs. |
| `WeightedMedianReducer.ScanFromFirstReach` | src/main/java/org/broadinstitute/hellbender/tools/walkers/mutect/filtering/Mutect2Filter.java:47-53 | The scan returns the probability at the first position where twice the running depth reaches the total. Before that position twice the running depth is below the total. |
| `WeightedMedianReducer.ScanFromNoReach` | src/main/java/org/broadinstitute/hellbender/tools/walkers/mutect/filtering/Mutect2Filter.java:47-55 | When no position reaches half the total, the scan falls through and returns 0. |
| `WeightedMedianReducer.FirstReachExists` | src/main/java/org/broadinstitute/hellbender/tools/walkers/mutect/filtering/Mutect2Filter.java:49-53 | If any position reaches half the total, a first such position exists at or before it. |
| `WeightedMedianReducer.LastPositionReachesHalf` | src/main/java/org/broadinstitute/hellbender/tools/walkers/mutect/filtering/Mutect2Filter.java:42-52 | With non-negative depths, the last position of a non-empty list always reaches half the total, because `total * 2 >= total`. |
| `WeightedMedianReducer.SortedFirstReachIsLowerWeightedMedian` | src/main/java/org/broadinstitute/hellbender/tools/walkers/mutect/filtering/Mutect2Filter.java:40-53 | On a sorted list with non-negative depths, the probability at the first reaching position is the lowest probability whose pairs at or below it hold at least half the total depth. |
| `WeightedMedianReducer.LowerWeightedMedianPermutation` | src/main/java/org/broadinstitute/hellbender/tools/walkers/mutect/filtering/Mutect2Filter.java:40 | The order-statistic property holds for a list exactly when it holds for any reordering of the list. |
| `WeightedMedianReducer.LowerWeightedMedianUnique` | src/main/java/org/broadinstitute/hellbender/tools/walkers/mutect/filtering/Mutect2Filter.java:40 | At most one probability satisfies the order-statistic property. |
| `WeightedMedianReducer.WeightedMedianIsLowerWeightedMedian` | src/main/java/org/broadinstitute/hellbender/tools/walkers/mutect/filtering/Mutect2Filter.java:40-55 | Take a non-empty input with non-negative depths. The result is the lowest probability that accounts for half of the total alt depth. It is the probability of one of the input pairs, so it lies between the smallest and the largest input probability, and the fallback 0 is never taken. |
| `WeightedMedianReducer.WeightedMedianPermutation` | src/main/java/org/broadinstitute/hellbender/tools/walkers/mutect/filtering/Mutect2Filter.java:40-53 | With non-negative depths, the result does not depend on the order in which the pairs are given. |
| `WeightedMedianReducer.WeightedMedianZeroTotal` | src/main/java/org/broadinstitute/hellbender/tools/walkers/mutect/filtering/Mutect2Filter.java:42-51 | A non-empty input whose depths sum to 0 returns its smallest probability, not 0. |
| `WeightedMedianReducer.WeightedMedianEmpty` | src/main/java/org/broadinstitute/hellbender/tools/walkers/mutect/filtering/Mutect2Filter.java:41-55 | An empty list returns 0. |
| `WeightedMedianReducer.WeightedMedianSingle` | src/main/java/org/broadinstitute/hellbender/tools/walkers/mutect/filtering/Mutect2Filter.java:45-53 | A single pair with non-negative depth returns its own probability. |
| `WeightedMedianReducer.WeightedMedianTwoPairs` | src/main/java/org/broadinstitute/hellbender/tools/walkers/mutect/filtering/Mutect2Filter.java:45-53 | Take two pairs with different probabilities and non-negative depths, in either order. The lower probability is returned exactly when its pair holds at least half of the total depth. Otherwise the higher one is returned. |
| `WeightedMedianReducer.WeightedMedianTwoPairExamples` | src/main/java/org/broadinstitute/hellbender/tools/walkers/mutect/filtering/Mutect2Filter.java:45-53 | `[(1,0.1),(1,0.9)]` gives 0.1 (a tie goes to the lower value). `[(3,0.2),(1,0.8)]` gives 0.2. `[(0,0.6),(0,0.3)]` gives 0.3. Each holds in both input orders. |
| `WeightedMedianReducer.NegativeDepthMakesOrderMatter` | src/main/java/org/broadinstitute/hellbender/tools/walkers/mutect/filtering/Mutect2Filter.java:42-53 | With a negative depth, which a Java `Integer` allows, reordering two pairs of equal probability changes the result from 0.7 to 0.5. So order independence needs non-negative depths. |
| `FilterHooks.Mutect2Filter.AccumulateDataForLearning` | src/main/java/org/broadinstitute/hellbender/tools/walkers/mutect/filtering/Mutect2Filter.java:16 | The default hook ignores its arguments. It changes no state beyond recording that it ran. |
| `FilterHooks.Mutect2Filter.ClearAccumulatedData` | src/main/java/org/broadinstitute/hellbender/tools/walkers/mutect/filtering/Mutect2Filter.java:17 | The default hook changes no state beyond recording that it ran. |
| `FilterHooks.Mutect2Filter.LearnParameters` | src/main/java/org/broadinstitute/hellbender/tools/walkers/mutect/filtering/Mutect2Filter.java:18 | The default hook changes no state beyond recording that it ran. |
| `FilterHooks.Mutect2Filter.LearnParametersAndClearAccumulatedData` | src/main/java/org/broadinstitute/hellbender/tools/walkers/mutect/filtering/Mutect2Filter.java:19-22 | Runs the learning hook exactly once and then the clearing hook exactly once, in that order, and nothing else. |

## Left out

- WeightedMedianReducer.WeightedMedianPosteriorProbability: requires twice the sum of the absolute depths to fit in a Java `int`. This rules out wrap-around in the total (line 42), in the running sum (line 50) and in `cumulativeAltCount * 2` (line 51). The bound is sufficient but not necessary. The loop can return before the running sum grows, so some inputs beyond the bound do not wrap in Java. This holds for non-negative depths (`[(2^30-1, 0.1), (2, 0.2)]`) as well as for negative ones (`[-2^30, 1]`). The model does not cover these inputs. Beyond the bound Java may wrap, and the model does not follow that.
- WeightedMedianReducer.WeightedMedianIsLowerWeightedMedian: requires non-negative depths, as do `WeightedMedianPermutation`, `WeightedMedianZeroTotal`, `WeightedMedianSingle` and `WeightedMedianTwoPairs`. For negative depths the method still describes the code exactly, but these properties fail (`NegativeDepthMakesOrderMatter`).
- Probabilities are `real`s. The Java `double` corner cases in `Comparator.comparingDouble` (NaN, -0.0 against 0.0) are not modelled.
- The Java `List` becomes an `array`. A list that refuses `sort` (an unmodifiable list), a `null` list and `null` elements all raise exceptions that are not modelled.
- The sort is an insertion sort, not TimSort. Both are stable, and `StableSortUnique` shows that their outputs coincide. Running time is not modelled.
- The abstract members `errorType`, `filterName`, `phredScaledPosteriorAnnotationName`, `requiredInfoAnnotations` and `errorProbabilities` (lines 24-38) are not modelled. They have no body in this class, and the types they use (`VariantContext`, `Mutect2FilteringEngine`, `ReferenceContext`) are not part of this model.
- The hooks' arguments (`VariantContext`, `ErrorProbabilities`, `Mutect2FilteringEngine`) are type parameters, because the default hook never looks at them. The subclasses that override the hooks are not part of this model.
- `CalculateGenotypePosteriors.java` is not part of this model. It consists of command-line arguments, VCF and pedigree I/O, and calls into `FamilyLikelihoods` and `PosteriorProbabilitiesUtils`, which are not visible. The genotype-posterior mathematics is floating-point numerics that lives in those unseen classes.
- The two-pass filtering engine that calls the hooks is not part of this model.
