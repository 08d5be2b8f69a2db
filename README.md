# Covering designs: validator, greedy solver and legacy helpers

This project models the covering-design logic of the `algsample` sample selector in Dafny. The
central relation is *coverage*: a j-subset `J` of the samples is covered by a group `K` of `k`
samples when the two share at least `s` values, `|J ∩ K| >= s`.

- **Validator** (`validator.py`). `validate(params, samples, groups)` first checks its inputs:
  - `s <= j <= k` must hold;
  - the samples must be duplicate-free and exactly `n` of them;
  - every group must have `k` distinct values, all among the samples;
  - at least one group must remain after duplicates are dropped.

  It then enumerates every j-subset of the sorted samples and scans the groups, stopping a scan
  early once `s` shared values are reached. It reports `pass`, `failed_J_count`, `min_coverage`
  and, on failure, the first uncovered j-subset.
- **Greedy solver** (`solver.py`). `solve(params, samples)` enumerates the j-subsets and k-subsets
  of the sample values. It tabulates, for each k-subset, the ascending list of j-subset indices it
  covers, and drops k-subsets that cover nothing. It then repeats one round: pick the k-subset
  that covers the most still-uncovered j-subsets, with ties going to the lowest index. It stops
  when nothing is left uncovered or nothing more can be covered.
- **Legacy helpers** (`algsample_core.py`):
  - the business-range check `validate_params`;
  - the custom-sample check of `generate_initial_n_samples`;
  - `validate_k_subset`, the same coverage list the solver builds;
  - the outcomes `find_min_valid_k_subsets` can actually reach.

Modules:
- `Common`: `Option`, `Outcome` (a value returned, or a Python exception raised) and `Params`.
- `Seqs`: `set()`, `sorted()`, first-occurrence de-duplication and lexicographic order.
- `Combos`: `itertools.combinations` as lexicographic subsequences, binomial coefficients and the
  overlap `|set(a) & set(b)|`.
- `Validator` and `ValidatorProps`: the validator and what is proved about it.
- `SolverFacts` and `Solver`: the solver and what is proved about it.
- `AlgSample`: the legacy helpers.
- `Scenarios`: the two unit tests of `test_validator.py`, and a concrete case (a lemma) of the
  legacy entry point.

How source constructs appear in the model:
- `validate` is the method `Validator.Validate`. It is proved equal to the function
  `Validator.ValidateSpec`, and all report properties are lemmas about that function.
- The `_norm_groups` loop is the method `Validator.NormGroups`, specified group by group by
  `NormGroupsSpec`.
- The inner and outer loops of `validate` are the methods `BestCoverage` and `CoverageReport`,
  specified by `ScanBest` and `Tally`.
- The solver's loops are methods:
  - `CoveredIndices`, `BuildCoverage`, `PickBest` and `Greedy`, composed by `SelectGroups` and
    `Solve`;
  - each states the property the source promises.
- `Greedy` also returns a ghost trace: the uncovered set before each round. With it, `SelectGroups`
  and `Solve` state that every round picks by the greedy rule (`SolverFacts.GreedyGroups`).
  `SolverFacts.GreedyGroupsUnique` proves that this rule determines the groups.

The `details` strings are modelled as the `Details` datatype, with one constructor per message.
Exceptions that escape to the caller are modelled as `Outcome.Raised`:
- `itertools.combinations` with a negative size raises `ValueError`;
- the missing `itertools.sample` raises `AttributeError`;
- hashing a tuple of sets raises `TypeError`.

`solve` enumerates combinations of a Python `set`, whose iteration order the language does not fix.
The model fixes it to ascending order (`SolverFacts.Universe`). Any order gives the same
coverage properties; only which groups are picked on ties can differ.

Two points about what the code computes:
- **`min_coverage` on a pass.** The early `break` stops each j-subset's scan at the first group
  that brings it to `s`. So on a pass, a j-subset's value is not its best overlap. The reported
  minimum is still fixed:
  - it is `max(s, j + k - n)` when `s >= 1` or `j + k > n`;
  - otherwise it is 1 when every j-subset meets some group, and 0 when one meets none;
  - see `ValidatorProps.ValidatePassMinCoverage`.

  On a failure it is the least best overlap. Either way it does not depend on the order of the
  groups (`ValidatorProps.ValidateGroupOrderMinCoverage`).
- **Duplicate samples in `solve`.** `solve` only checks `len(samples) == n` and then works on
  `set(samples)`, so a list with repeats is accepted. `Solver.Solve` models that. Its "validate
  passes" guarantee assumes duplicate-free samples, because `validate` rejects repeats.

## Model

| member | source | states |
|---|---|---|
| Seqs.DistinctCard | validator.py:10 | `len(set(s)) <= len(s)`, with equality exactly when `s` has no repeated value |
| Seqs.Sort | validator.py:12 | `sorted` returns an ascending permutation of its input |
| Seqs.SortFacts | validator.py:12 | `sorted` keeps length and elements, and makes a duplicate-free list strictly increasing |
| Seqs.SortOfSorted | solver.py:34 | sorting an ascending list changes nothing |
| Seqs.StrictlyIncreasingUnique | validator.py:27 | two strictly increasing lists with the same elements are equal |
| Seqs.Dedup | validator.py:32-34 | first-occurrence de-duplication leaves no repeats and keeps every element |
| Seqs.DedupOfDistinct | validator.py:32-34 | de-duplicating a repeat-free list changes nothing |
| Seqs.DedupSkipsRepeat | validator.py:32-34 | a repeat of an earlier element, inserted anywhere, is dropped |
| Seqs.LexAsymmetric | validator.py:74 | lexicographic order is asymmetric |
| Combos.CombinationsShape | validator.py:74 | every combination has `r` values, all from the input |
| Combos.CombinationsCount | solver.py:33 | `itertools.combinations` yields exactly C(len, r) tuples |
| Combos.CombinationsEmpty | solver.py:36 | there are no `r`-combinations exactly when `r` exceeds the input length |
| Combos.CombinationsIncreasing | solver.py:34 | combinations of an ascending input are ascending |
| Combos.CombinationsDistinct | solver.py:33 | no combination is produced twice |
| Combos.CombinationsComplete | validator.py:74 | every `r`-subset of a repeat-free input is produced |
| Combos.CombinationsLexOrdered | validator.py:74 | combinations of an ascending input come in strictly increasing lexicographic order |
| Combos.Enlarge | solver.py:47-61 | a j-subset inside a larger set extends to a k-subset of it |
| Combos.OverlapBound | validator.py:78 | two groups share at most as many values as the first has |
| Validator.NormSamples | validator.py:10-12 | accepted exactly when there are no repeats, and then the result is the sorted list with the same length and values |
| Validator.GroupChecks | validator.py:23-31 | the checks on the sorted tuple (length k, k distinct values, all among the samples) agree with the checks on the group |
| Validator.NormGroupsRejects | validator.py:20-31 | one malformed group anywhere makes `_norm_groups` fail |
| Validator.NormGroupsKeeps | validator.py:27-35 | with all groups well formed, the result is the sorted groups, each kept once, in first-occurrence order |
| Validator.NormStep | validator.py:32-34 | a well-formed group's sorted form is appended exactly when it is not already in the output |
| Validator.NormGroups | validator.py:15-35 | the loop with its `seen` set computes `NormGroupsSpec` |
| Validator.MaxOverlap | validator.py:77-80 | the largest overlap of `J` with a group: an upper bound that is attained |
| Validator.MinBest | validator.py:71-88 | `min_cov` is at most the sentinel, a lower bound of every best value, and attained unless the sentinel stays |
| Validator.CountMatchesFirst | validator.py:83-86 | a first uncovered j-subset is recorded exactly when the failure count is positive |
| Validator.BestCoverage | validator.py:76-82 | the inner scan with its early `break` computes `ScanBest` |
| Validator.CoverageReport | validator.py:70-100 | the outer loop and the report it builds compute `Tally` |
| Validator.Validate | validator.py:38-100 | `validate` returns or raises what `ValidateSpec` says |
| ValidatorProps.ScanBestMeaning | validator.py:76-82 | the early-exit scan reaches `s` exactly when some group shares `s` values; below `s` it is the maximum overlap |
| ValidatorProps.UncoveredMeaning | validator.py:83 | `best < s` exactly when every group shares fewer than `s` values |
| ValidatorProps.NormKeepsSets | validator.py:27-34 | normalisation keeps exactly the same sets of group values |
| ValidatorProps.CoverageTransfers | validator.py:68 | coverage carries over to any group list holding at least the same sets |
| ValidatorProps.NormKeepsCoverage | validator.py:61-68 | coverage by the normalised groups is coverage by the groups as given |
| ValidatorProps.CountZeroIff | validator.py:83-84 | the failure count is zero exactly when no enumerated j-subset is uncovered |
| ValidatorProps.EnumeratedSubsets | validator.py:74 | the enumerated tuples are exactly the j-subsets of the samples, ascending |
| ValidatorProps.UncoveredIffNotCovered | validator.py:75-84 | a j-subset is counted as failed exactly when no given group covers it |
| ValidatorProps.ValidateAccepted | validator.py:47-68 | accepted inputs pass every check and reach the scan over the sorted samples and normalised groups |
| ValidatorProps.ValidatePassIff | validator.py:74-94 | `pass` holds exactly when every j-subset of the samples is covered by some group |
| ValidatorProps.UncoveredSets | validator.py:83-84 | the uncovered entries, as sets of values |
| ValidatorProps.CountIsCardinality | validator.py:83-84 | with no two entries equal as sets, the failure count is the number of uncovered sets |
| ValidatorProps.LastIsNew | validator.py:83-84 | with pairwise different sets, the last entry's set is not among the earlier uncovered sets |
| ValidatorProps.EnumerationInjective | validator.py:74 | no two enumerated j-subsets hold the same values |
| ValidatorProps.SameUncoveredSets | validator.py:74-84 | the uncovered enumerated j-subsets are the uncovered j-subsets of the samples |
| ValidatorProps.ValidateFailedCount | validator.py:84-99 | `failed_J_count` is the number of j-subsets of the samples that no group covers |
| ValidatorProps.ValidateRejects | validator.py:47-66 | each input check, in source order, gives its `details` with `pass=false` and `failed_J_count=-1`; a negative `j` raises `ValueError` |
| ValidatorProps.CoveredMonotone | validator.py:81 | coverage at a threshold implies coverage at every lower one |
| ValidatorProps.ScanBestAttained | validator.py:76-82 | some group shares with `J` at least the value the scan reports |
| ValidatorProps.ScanBestBounds | validator.py:76-83 | the reported value is shared with some group, and for an uncovered `J` no group shares more |
| ValidatorProps.MinBestBound | validator.py:87-91 | over a non-empty enumeration `min_cov` is at most `j`, so the sentinel is replaced |
| ValidatorProps.AllSharedAtMin | validator.py:87-88 | every j-subset shares at least `min_cov` values with some group |
| ValidatorProps.MinBestOnFailure | validator.py:83-88 | on a failure `min_cov < s`, and it is the minimum coverage: every j-subset reaches it and some j-subset shares no more with any group |
| ValidatorProps.MinCoverageAt | validator.py:87-88 | a value every j-subset reaches, and one j-subset exceeds with no group, is the minimum coverage |
| ValidatorProps.MinBestOnPass | validator.py:87-94 | on a pass `min_cov >= s` |
| ValidatorProps.TallyMinCoverage | validator.py:70-100 | the report's `min_coverage` over the enumerated j-subsets, on pass and on failure |
| ValidatorProps.ValidateMinCoverage | validator.py:87-99 | on a pass `min_coverage >= s`; on a failure `min_coverage < s` and it is the least value every j-subset reaches |
| ValidatorProps.AcceptedBounds | validator.py:47-66 | inputs that pass every check have `0 <= j <= k <= n` |
| ValidatorProps.ScanFirstGroup | validator.py:76-82 | the scan is never below the first group's overlap, and stops there when that overlap is positive and reaches `s` |
| ValidatorProps.ScanLowThreshold | validator.py:76-82 | with `s <= 1` the scan stops at the first group sharing any value, as with `s == 1` |
| ValidatorProps.OverlapAtLeast | validator.py:78 | a j-subset and a k-subset of `n` values share at least `j + k - n` of them |
| ValidatorProps.SubsetWithOverlap | validator.py:74 | for each `t` the sizes allow, some j-subset shares exactly `t` values with a given group |
| ValidatorProps.FirstGroup | validator.py:32-34 | the first normalised group holds `k` sample values |
| ValidatorProps.MinBestOnPassHigh | validator.py:74-88 | on a pass with `s >= 1` or `j + k > n`, `min_cov == max(s, j + k - n)` |
| ValidatorProps.LowScans | validator.py:76-82 | with `s <= 1` every scan value equals the one for `s == 1` and is not negative |
| ValidatorProps.MinBestAllMeet | validator.py:74-88 | with `s <= 0` and `j + k <= n`, when every j-subset meets some group `min_cov == 1` |
| ValidatorProps.MinBestSomeMisses | validator.py:74-88 | with `s <= 1`, when some j-subset meets no group `min_cov == 0` |
| ValidatorProps.MinBestOnPassLow | validator.py:74-88 | on a pass with `s <= 0` and `j + k <= n`, `min_cov` is 1 when every j-subset meets some group, else 0 |
| ValidatorProps.TallyPassMinCoverage | validator.py:70-94 | the `min_coverage` of a passing tally, by those two cases |
| ValidatorProps.ValidatePassMinCoverage | validator.py:87-94 | on a pass `min_coverage` is `max(s, j + k - n)` when `s >= 1` or `j + k > n`, and otherwise 1 or 0 according to whether every j-subset meets some group |
| ValidatorProps.FirstUncoveredMeaning | validator.py:85-86 | the recorded j-subset is uncovered and every earlier one is covered |
| ValidatorProps.EnumeratedExactly | validator.py:74 | every ascending j-subset of the samples is one of the enumerated tuples |
| ValidatorProps.EarlierCovered | validator.py:74-86 | every ascending j-subset lexicographically before the first failure is covered |
| ValidatorProps.EarlierOneCovered | validator.py:74-86 | one ascending j-subset lexicographically before the first failure is covered |
| ValidatorProps.LexBefore | validator.py:74 | in the lexicographically ordered enumeration, an entry that is lexicographically smaller sits at a smaller position |
| ValidatorProps.TallyFirstCounterexample | validator.py:85-100 | the counterexample of a failing tally |
| ValidatorProps.ValidateFirstCounterexample | validator.py:96-100 | on a failure `details` names an uncovered ascending j-subset, and every lexicographically smaller one is covered |
| ValidatorProps.SameCoverage | validator.py:68-82 | group lists with the same sets of values cover the same sets at every threshold |
| ValidatorProps.MinCoverageUnique | validator.py:87-88 | at most one value satisfies the failure characterisation of `min_coverage` |
| ValidatorProps.MinCoverageTransfers | validator.py:87-88 | that characterisation carries over between group lists with the same sets |
| ValidatorProps.ValidateGroupOrder | validator.py:74-94 | `pass` and `failed_J_count` do not depend on the order or repetition of the groups |
| ValidatorProps.ValidateGroupOrderMinCoverage | validator.py:87-99 | `min_coverage` does not depend on the order or repetition of the groups either, on a pass or on a failure |
| ValidatorProps.CanonAppend | validator.py:27 | sorting each group commutes with concatenation |
| ValidatorProps.CanonInsert | validator.py:27 | sorting each group of an inserted list |
| ValidatorProps.SameSortSameOk | validator.py:23-31 | a group with the same sorted form as another is well formed exactly when that one is |
| ValidatorProps.KeepsIgnoreDuplicate | validator.py:32-34 | a later repeat of an earlier sorted form is dropped |
| ValidatorProps.InsertKeepsOk | validator.py:20-31 | inserting a well-formed group keeps every group well formed |
| ValidatorProps.NormIgnoresDuplicate | validator.py:27-34 | a group equal as a set to an earlier one changes nothing in `_norm_groups` |
| ValidatorProps.ValidateIgnoresDuplicate | validator.py:60-66 | adding such a group never changes the report |
| ValidatorProps.NormSamplesPermutation | validator.py:10-12 | reordering the samples changes neither their check nor their sorted form |
| ValidatorProps.ValidateSamplesOrder | validator.py:50-58 | the report does not depend on the order of the samples |
| SolverFacts.Range | solver.py:47 | `set(range(n))` holds exactly `0..n-1` and has `n` elements |
| SolverFacts.Universe | solver.py:31 | the sample values, once each and ascending, as many as `set(samples)` |
| SolverFacts.EverySubsetCoverable | solver.py:47-61 | with `s <= j <= k <=` the number of sample values, every j-subset is covered by some k-subset |
| SolverFacts.ListedAt | solver.py:33-34 | where the enumeration lists a given subset |
| SolverFacts.StaysCovered | solver.py:58-59 | when the loop stops, nothing a table entry covers is still uncovered |
| SolverFacts.GreedyStart | solver.py:47-48 | the loop invariant holds with every j-subset uncovered and nothing selected |
| SolverFacts.GreedyStep | solver.py:60-61 | one round keeps the loop invariant and strictly shrinks the uncovered set |
| SolverFacts.StepFresh | solver.py:53-60 | the picked k-subset was not picked before |
| SolverFacts.StepDisjoint | solver.py:61 | no selected k-subset covers anything still uncovered |
| SolverFacts.StepCovers | solver.py:60-61 | every j-subset no longer uncovered is covered by a selected k-subset |
| SolverFacts.GreedyEnd | solver.py:50-59 | the state the loop stops in |
| SolverFacts.SelectedCovers | solver.py:47-61 | a j-subset that some k-subset covers is covered by a selected one |
| SolverFacts.SelectionCovers | solver.py:47-63 | the returned groups cover every j-subset that any k-subset covers |
| SolverFacts.SelectionShape | solver.py:34-63 | the returned groups are distinct ascending k-subsets of the sample values |
| SolverFacts.CoveringGroupsPass | validator.py:74-94 | ascending k-subsets of duplicate-free samples covering every j-subset make `validate` pass |
| SolverFacts.SolutionFacts | solver.py:41-63 | everything the returned groups satisfy |
| SolverFacts.SomeGroup | solver.py:47-50 | covering every j-subset needs at least one group |
| SolverFacts.NoSubsets | solver.py:36 | with fewer than `j` sample values there is no j-subset |
| Solver.CoveredIndices | solver.py:10-16 | the ascending list of exactly the indices of the j-subsets sharing at least `s` values with `K` |
| SolverFacts.PickStep | solver.py:53-57 | scanning one more entry keeps the scan state: a later entry replaces the best only with a strictly larger new cover |
| Solver.BuildCoverage | solver.py:41-45 | an entry for exactly the k-subsets covering some j-subset, each with its coverage list |
| Solver.PickBest | solver.py:51-57 | the pick follows the greedy rule: the entry covering the most uncovered j-subsets, ties to the lowest index; none when no entry covers any |
| Solver.Greedy | solver.py:47-61 | the ghost trace holds each round's uncovered set, and each round picks by the greedy rule and removes exactly its new cover; no k-subset is picked twice, rounds plus remaining uncovered are at most the number of j-subsets, and at exit nothing left is coverable |
| SolverFacts.LoopStart | solver.py:47-48 | the loop's invariant and trace hold before the first round |
| SolverFacts.RoundsStep | solver.py:53-61 | a round by the greedy rule extends the trace by the uncovered set it leaves |
| SolverFacts.LoopStep | solver.py:50-61 | one round keeps the loop's invariant and trace and strictly shrinks the uncovered set |
| SolverFacts.GainMatches | solver.py:41-54 | a table entry's new cover is what its k-subset covers among the uncovered j-subsets; a k-subset without an entry covers none |
| SolverFacts.PickIsChoice | solver.py:51-57 | a pick by the table's rule is a pick by the rule over all k-subsets |
| SolverFacts.RoundIsChoice | solver.py:51-61 | one round, read over the k-subsets |
| SolverFacts.StopIsFinal | solver.py:50-59 | where the loop stops, no k-subset covers anything still uncovered |
| SolverFacts.RoundsAreChoices | solver.py:50-61 | every round of the loop picks by the rule over the k-subsets |
| SolverFacts.RoundsAreSelection | solver.py:41-61 | the loop's rounds form a complete greedy run over the k-subsets |
| SolverFacts.SelectionIsGreedy | solver.py:41-63 | the returned groups are what a greedy run picks |
| SolverFacts.ChoiceUnique | solver.py:53-57 | at most one k-subset satisfies a round's rule |
| SolverFacts.RunsAgree | solver.py:50-61 | two greedy runs agree round by round |
| SolverFacts.RoundLeft | solver.py:50-59 | before a round the run still makes, some k-subset covers something new |
| SolverFacts.SelectionUnique | solver.py:50-61 | the greedy rule determines the run |
| SolverFacts.GreedyGroupsUnique | solver.py:47-63 | only one list of groups is what a greedy run picks |
| SolverFacts.KSubsetsSorted | solver.py:34 | `tuple(sorted(subset))` changes nothing on the k-combinations of the ascending sample values |
| SolverFacts.NormalisedUnchanged | validator.py:15-35 | `_norm_groups` returns distinct ascending groups of `k` sample values unchanged |
| Solver.SelectGroups | solver.py:41-63 | the returned groups are distinct ascending k-subsets, at most C(n, j) of them, covering every coverable j-subset, and they are what the greedy rule picks |
| Solver.Solve | solver.py:19-70 | the two reported errors, the `ValueError` of a negative size, `y == len(groups)`, the guarantees of `SelectGroups` (the greedy rule included), full coverage when `s <= j <= k <=` the number of values, `_norm_groups` returning the groups unchanged, and `validate` passing on its output for duplicate-free samples with `s <= j <= k <= n` |
| AlgSample.ValidateParams | algsample_core.py:61-80 | true exactly when `45<=m<=54`, `7<=n<=25`, `4<=k<=7`, `s<=j<=k`, `3<=s<=7` and `n<=m` |
| AlgSample.ParamsOrdered | algsample_core.py:65-79 | accepted parameters satisfy `3 <= s <= j <= k <= 7 <= n <= 25` and `n <= m` |
| AlgSample.Max | algsample_core.py:84 | `max` is an element and bounds every element |
| AlgSample.Min | algsample_core.py:84 | `min` is an element and is bounded by every element |
| AlgSample.GenerateInitialNSamples | algsample_core.py:82-87 | a non-empty custom list raises `ValueError` exactly when its length is not `n` or a value lies outside `1..m`; otherwise its set of values, at most `n` of them, is returned; an empty list raises `AttributeError` |
| AlgSample.RepeatsShrinkSamples | algsample_core.py:86 | the returned set has `n` values exactly when the custom list has no repeats |
| AlgSample.ValidateKSubset | algsample_core.py:48-54 | the ascending list of exactly the indices of the j-subsets sharing at least `s` values with `K` |
| AlgSample.FindMinValidKSubsets | algsample_core.py:92-100 | `[]` for rejected parameters or no j-subsets; otherwise it raises the sample-check exception or `TypeError`, and never returns groups |
| AlgSample.FindMinValidKSubsetsIntended | algsample_core.py:92-125 | with the `TypeError` removed: distinct ascending k-subsets covering every coverable j-subset, passing `validate` for duplicate-free custom samples |
| Scenarios.PassCase | test_validator.py:6-21 | the seven 6-subsets of 1..7 pass with `failed_J_count == 0` and `min_coverage >= 5` |
| Scenarios.FailCase | test_validator.py:23-30 | the single group 1..6 fails with `failed_J_count > 0`, `min_coverage < 5`, and a counterexample holding 7 |
| Scenarios.LegacyEntryRaises | algsample_core.py:100 | with accepted parameters and samples 1..7 the legacy entry point raises `TypeError` |

## Left out

- Wall-clock timing: `time.perf_counter` and `runtime_ms` in `solve` are non-deterministic, so `Solver.Stats` has no `runtime_ms` field.
- Python runtime type checks (`isinstance`, `int(params[...])`): Dafny's types make them vacuous; only the value-level checks are modelled.
- `print` side effects and the message texts are not modelled; `details` and `error` strings become datatype constructors.
- The random branch of `generate_initial_n_samples` is modelled only as the `AttributeError` that the call to the non-existent `itertools.sample` raises; no randomness is modelled.
- The `multiprocessing.Pool` map in `find_min_valid_k_subsets` is concurrency. The corrected member computes the same lists sequentially.
- The save, load and delete methods, `cli.py`, `gui.py` and `dbio.py` are file-system, argument-parsing and widget code. They are not part of this model.
- The first, shadowed `AlgSampleSelector` class (`algsample_core.py:8-42`) is redefined at line 56 and is never used.
- Set iteration order: the combinations `solve` draws from `set(samples)` are enumerated in ascending order.
- ValidatorProps.ValidateMinCoverage: requires `n < 10**9`. Otherwise the sentinel `10**9` could equal a genuine best value and be reported as 0.
- ValidatorProps.ValidatePassMinCoverage: requires `n < 10**9`, for the same reason.
- ValidatorProps.ValidateGroupOrderMinCoverage: requires `n < 10**9`, for the same reason.
- Solver.Solve: the "validate passes" guarantee assumes duplicate-free samples, because `validate` rejects repeats and `solve` does not.

## Findings

| source | as written | input that shows it | evidently intended | confidence | as-written member | corrected member |
|---|---|---|---|---|---|---|
| algsample_core.py:100 | `get_frozen_j_subsets` is `lru_cache`d and is called with a tuple of sets. Hashing that tuple for the cache raises `TypeError`, so `find_min_valid_k_subsets` never returns groups once it has j-subsets | `m=45, n=7, k=6, j=5, s=5`, custom samples 1..7: raises `TypeError` (`Scenarios.LegacyEntryRaises`) | build the coverage table from the j-subsets and run the greedy loop of lines 105-125, returning groups that cover every j-subset | high (not executed) | AlgSample.FindMinValidKSubsets | AlgSample.FindMinValidKSubsetsIntended |
