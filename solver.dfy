/** The greedy set-cover solver: enumerate the j-subsets and k-subsets of the sample values, tabulate
    which k-subset covers which j-subset, then repeatedly pick the k-subset that covers the most
    still uncovered j-subsets. */
module Solver {
  import opened Common
  import opened Seqs
  import opened Combos
  import opened Validator
  import opened ValidatorProps
  import opened SolverFacts

  /** The two failures `solve` reports in its `error` entry instead of raising. */
  datatype SolveError = CountMismatch | NoJSubsets

  /** The `stats` dictionary without its wall-clock `runtime_ms` entry. */
  datatype Stats = Stats(y: nat, methodName: string, error: Option<SolveError>)

  datatype Solution = Solution(groups: seq<seq<int>>, stats: Stats)

  const MethodName: string := "greedy_enum"

  /** The answer `solve` gives when it reports an error: no groups. */
  function Failure(e: SolveError): Solution
  {
    Solution([], Stats(0, MethodName, Some(e)))
  }

  /** `_covered_j_indices_by_k`: the indices of the j-subsets that share at least `s` values with `K`. */
  method CoveredIndices(K: seq<int>, js: seq<seq<int>>, s: int) returns (out: seq<nat>)
    ensures IsCoverList(out, K, js, s)
  {
    out := [];
    for y := 0 to |js|
      invariant StrictlyIncreasing(out)
      invariant forall t :: 0 <= t < |out| ==> out[t] < y
      invariant forall x :: 0 <= x < y ==> (x in out <==> Overlap(K, js[x]) >= s)
    {
      if Overlap(K, js[y]) >= s {
        out := out + [y];
      }
    }
  }

  /** The table `k_subset_to_covered_js`: one entry per k-subset that covers some j-subset. */
  method BuildCoverage(ks: seq<seq<int>>, js: seq<seq<int>>, s: int) returns (cov: map<nat, seq<nat>>)
    ensures CoverageTable(cov, ks, js, s)
  {
    cov := map[];
    for x := 0 to |ks|
      invariant forall x' :: x' in cov ==> x' < x && cov[x'] != [] && IsCoverList(cov[x'], ks[x'], js, s)
      invariant forall x' :: 0 <= x' < x && x' !in cov ==>
                  forall y :: 0 <= y < |js| ==> Overlap(ks[x'], js[y]) < s
    {
      var covered := CoveredIndices(ks[x], js, s);
      if covered != [] {
        cov := cov[x := covered];
      } else {
        assert forall y :: 0 <= y < |js| ==> y !in covered;
      }
    }
  }

  /** One round of the greedy loop: the table entry, scanned in ascending index order, that covers
      the most still uncovered j-subsets; a later entry replaces the best so far only when it covers
      strictly more, so ties go to the smallest index. `None` when no entry covers anything. */
  method PickBest(cov: map<nat, seq<nat>>, nk: nat, uncovered: set<nat>) returns (best: Option<nat>, bestCov: set<nat>)
    requires forall x :: x in cov ==> x < nk
    ensures best.None? ==> bestCov == {} && forall x :: x in cov ==> NewCover(cov, x, uncovered) == {}
    ensures best.Some? ==> IsGreedyPick(cov, uncovered, best.value) && bestCov == NewCover(cov, best.value, uncovered)
  {
    best, bestCov := None, {};
    for x := 0 to nk
      invariant PickState(cov, uncovered, x, best, bestCov)
    {
      ghost var best0, bestCov0 := best, bestCov;
      if x in cov {
        var c := uncovered * Elems(cov[x]);
        if |c| > |bestCov| {
          best, bestCov := Some(x), c;
        }
      }
      PickStep(cov, uncovered, x, best0, bestCov0, best, bestCov);
    }
  }

  /** The greedy loop: starts with every j-subset index uncovered and stops when none is left or no
      k-subset covers any of those left. Each round selects the entry `PickBest` chooses, which covers
      at least one more j-subset, so there are at most `nj` rounds. The ghost `trace` records the
      uncovered set before each round. */
  method Greedy(cov: map<nat, seq<nat>>, nk: nat, nj: nat) returns (selected: seq<nat>, uncovered: set<nat>, ghost trace: seq<set<nat>>)
    requires forall x :: x in cov ==> x < nk
    ensures GreedyRounds(cov, nj, selected, trace) && trace[|selected|] == uncovered
    ensures GreedyStopped(cov, nj, selected, uncovered)
    ensures Distinct(selected)
    ensures uncovered <= Range(nj) && |selected| + |uncovered| <= nj
  {
    uncovered := Range(nj);
    selected := [];
    trace := [uncovered];
    LoopStart(cov, nj);
    while uncovered != {}
      invariant GreedyLoop(cov, nj, selected, uncovered, trace)
      decreases |uncovered|
    {
      var best, bestCov := PickBest(cov, nk, uncovered);
      if best.None? {
        GreedyEnd(cov, nj, selected, uncovered);
        return;
      }
      LoopStep(cov, nj, selected, uncovered, trace, best.value, bestCov);
      selected := selected + [best.value];
      uncovered := uncovered - bestCov;
      trace := trace + [uncovered];
    }
    GreedyEnd(cov, nj, selected, uncovered);
  }

  /** The rest of `solve` once the j-subsets and k-subsets of the sample values are enumerated: the
      coverage table, the greedy loop, and the selected k-subsets read back as groups, which are
      what the greedy rule picks. */
  method SelectGroups(samples: seq<int>, j: nat, k: nat, s: int, js: seq<seq<int>>, ks: seq<seq<int>>)
    returns (groups: seq<seq<int>>)
    requires js == Combinations(Universe(samples), j) && ks == Combinations(Universe(samples), k)
    ensures Distinct(groups)
    ensures |groups| <= Binomial(|Elems(samples)|, j)
    ensures forall t :: 0 <= t < |groups| ==>
              StrictlyIncreasing(groups[t]) && |groups[t]| == k && Elems(groups[t]) <= Elems(samples)
    ensures forall S :: IsJSubset(S, samples, j) && Coverable(S, samples, k, s) ==> CoveredSet(S, groups, s)
    ensures s <= j <= k <= |Elems(samples)| ==>
              groups != [] && forall S :: IsJSubset(S, samples, j) ==> CoveredSet(S, groups, s)
    ensures GreedyGroups(ks, js, s, groups)
  {
    var cov := BuildCoverage(ks, js, s);
    var selected, uncovered;
    ghost var trace;
    selected, uncovered, trace := Greedy(cov, |ks|, |js|);
    groups := seq(|selected|, t requires 0 <= t < |selected| => ks[selected[t]]);
    SolutionFacts(samples, Universe(samples), j, k, s, js, ks, cov, selected, uncovered, groups);
    SelectionIsGreedy(cov, ks, js, s, selected, trace, groups);
  }

  /** `solve`: the count check, the enumerations (which raise for a negative size), the check for
      j-subsets, then the greedy cover. */
  method Solve(p: Params, samples: seq<int>) returns (r: Outcome<Solution>)
    ensures |samples| != p.n ==> r == Returned(Failure(CountMismatch))
    ensures |samples| == p.n && (p.j < 0 || p.k < 0) ==> r == Raised(ValueError)
    ensures |samples| == p.n && 0 <= p.j && 0 <= p.k && p.j > |Elems(samples)| ==> r == Returned(Failure(NoJSubsets))
    ensures |samples| == p.n && 0 <= p.j <= |Elems(samples)| && 0 <= p.k ==>
              && r.Returned?
              && r.value.stats == Stats(|r.value.groups|, MethodName, None)
              && Distinct(r.value.groups)
              && |r.value.groups| <= Binomial(|Elems(samples)|, p.j)
              && (forall t :: 0 <= t < |r.value.groups| ==>
                    && StrictlyIncreasing(r.value.groups[t])
                    && |r.value.groups[t]| == p.k
                    && Elems(r.value.groups[t]) <= Elems(samples))
              && (forall S :: IsJSubset(S, samples, p.j) && Coverable(S, samples, p.k, p.s) ==>
                    CoveredSet(S, r.value.groups, p.s))
              && GreedyGroups(Combinations(Universe(samples), p.k), Combinations(Universe(samples), p.j), p.s, r.value.groups)
              && NormGroupsSpec(r.value.groups, p.k, Elems(samples)) == Some(r.value.groups)
    ensures |samples| == p.n && 0 <= p.j && p.s <= p.j <= p.k <= |Elems(samples)| ==>
              r.Returned? && forall S :: IsJSubset(S, samples, p.j) ==> CoveredSet(S, r.value.groups, p.s)
    ensures Distinct(samples) && |samples| == p.n && 0 <= p.j && p.s <= p.j <= p.k <= p.n ==>
              && r.Returned? && r.value.groups != []
              && ValidateSpec(p, samples, r.value.groups).Returned?
              && ValidateSpec(p, samples, r.value.groups).value.pass
  {
    if |samples| != p.n {
      return Returned(Failure(CountMismatch));
    }
    var u := Universe(samples);
    if p.j < 0 || p.k < 0 {
      return Raised(ValueError);
    }
    var js := Combinations(u, p.j);
    var ks := Combinations(u, p.k);
    // the source sorts each k-combination; they are ascending already
    KSubsetsSorted(u, p.k);
    CombinationsEmpty(u, p.j);
    DistinctCard(samples);
    if js == [] {
      return Returned(Failure(NoJSubsets));
    }
    var groups := SelectGroups(samples, p.j, p.k, p.s, js, ks);
    NormalisedUnchanged(groups, p.k, Elems(samples));
    if Distinct(samples) && p.s <= p.j <= p.k <= p.n {
      CoveringGroupsPass(p, samples, groups);
    }
    return Returned(Solution(groups, Stats(|groups|, MethodName, None)));
  }
}
