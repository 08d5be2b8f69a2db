/** The legacy sample selector's parameter check, its custom-sample check, its per-k-subset coverage
    helper and the outcomes its `find_min_valid_k_subsets` entry point can reach. */
module AlgSample {
  import opened Common
  import opened Seqs
  import opened Combos
  import opened ValidatorProps
  import opened SolverFacts
  import Validator
  import Solver

  /** The business ranges of `validate_params`, checked one after the other: `m` in 45..54, `n` in
      7..25, `k` in 4..7, `s <= j <= k`, `s` in 3..7, and no more samples than the pool holds. */
  function ValidateParams(m: int, n: int, k: int, j: int, s: int): (ok: bool)
    ensures ok <==> 45 <= m <= 54 && 7 <= n <= 25 && 4 <= k <= 7 && s <= j <= k && 3 <= s <= 7 && n <= m
  {
    if !(45 <= m <= 54) then false
    else if !(7 <= n <= 25) then false
    else if !(4 <= k <= 7) then false
    else if !(s <= j <= k) then false
    else if !(3 <= s <= 7) then false
    else if n > m then false
    else true
  }

  /** Accepted parameters are ordered `3 <= s <= j <= k <= 7 <= n <= 25` with `n <= m <= 54`: in
      particular they satisfy what the greedy solver needs to cover every j-subset. */
  lemma ParamsOrdered(m: int, n: int, k: int, j: int, s: int)
    requires ValidateParams(m, n, k, j, s)
    ensures 3 <= s <= j <= k <= 7 <= n <= 25 && n <= m <= 54
    ensures 0 <= j && s <= j <= k <= n
  {
  }

  /** The largest value of a non-empty list, `max(xs)`. */
  function Max(xs: seq<int>): (r: int)
    requires xs != []
    ensures r in xs && forall i :: 0 <= i < |xs| ==> xs[i] <= r
  {
    if |xs| == 1 then xs[0]
    else
      var rest := Max(xs[1..]);
      assert forall i :: 1 <= i < |xs| ==> xs[i] == xs[1..][i - 1];
      if xs[0] >= rest then xs[0] else rest
  }

  /** The smallest value of a non-empty list, `min(xs)`. */
  function Min(xs: seq<int>): (r: int)
    requires xs != []
    ensures r in xs && forall i :: 0 <= i < |xs| ==> r <= xs[i]
  {
    if |xs| == 1 then xs[0]
    else
      var rest := Min(xs[1..]);
      assert forall i :: 1 <= i < |xs| ==> xs[i] == xs[1..][i - 1];
      if xs[0] <= rest then xs[0] else rest
  }

  /** Every value lies in the pool `1..m`. */
  predicate InPool(xs: seq<int>, m: int)
  {
    forall i :: 0 <= i < |xs| ==> 1 <= xs[i] <= m
  }

  /** `generate_initial_n_samples`. A non-empty custom list must have `n` entries, all in `1..m`, and
      its set of values is returned; an empty (or absent) list falls through to a call of
      `itertools.sample`, which the `itertools` module does not have. */
  function GenerateInitialNSamples(m: int, n: int, custom: seq<int>): (r: Outcome<set<int>>)
    ensures custom == [] ==> r == Raised(AttributeError)
    ensures custom != [] ==> (r == Raised(ValueError) <==> |custom| != n || !InPool(custom, m))
    ensures r.Returned? ==> r.value == Elems(custom) && |r.value| <= n
    ensures r.Returned? ==> forall x :: x in r.value ==> 1 <= x <= m
  {
    if custom != [] then
      if |custom| != n || Max(custom) > m || Min(custom) < 1 then Raised(ValueError)
      else
        DistinctCard(custom);
        Returned(Elems(custom))
    else Raised(AttributeError)
  }

  /** Repeated custom values are not rejected: they only leave fewer than `n` samples. */
  lemma RepeatsShrinkSamples(m: int, n: int, custom: seq<int>)
    requires GenerateInitialNSamples(m, n, custom).Returned?
    ensures |GenerateInitialNSamples(m, n, custom).value| == n <==> Distinct(custom)
  {
    DistinctCard(custom);
  }

  /** `validate_k_subset`: the same loop as the solver's `_covered_j_indices_by_k`, so the same
      ascending list of exactly the j-subset indices that `K` covers. */
  method ValidateKSubset(K: seq<int>, js: seq<seq<int>>, s: int) returns (covered: seq<nat>)
    ensures IsCoverList(covered, K, js, s)
  {
    covered := Solver.CoveredIndices(K, js, s);
  }

  /** `find_min_valid_k_subsets` up to the point it can reach: rejected parameters give `[]`, a bad or
      missing custom list raises, no j-subset gives `[]`, and otherwise the `lru_cache` call on a
      tuple of sets raises `TypeError` because sets are unhashable. */
  function FindMinValidKSubsets(m: int, n: int, k: int, j: int, s: int, custom: seq<int>): (r: Outcome<seq<seq<int>>>)
    ensures !ValidateParams(m, n, k, j, s) ==> r == Returned([])
    ensures r.Returned? ==> r.value == []
    ensures ValidateParams(m, n, k, j, s) && GenerateInitialNSamples(m, n, custom).Raised? ==>
              r == Raised(GenerateInitialNSamples(m, n, custom).exc)
    ensures ValidateParams(m, n, k, j, s) && GenerateInitialNSamples(m, n, custom).Returned? ==>
              (r == Returned([]) <==> j > |Elems(custom)|) && (r.Raised? ==> r.exc == TypeError)
  {
    if !ValidateParams(m, n, k, j, s) then Returned([])
    else
      match GenerateInitialNSamples(m, n, custom)
        case Raised(e) => Raised(e)
        case Returned(samples) =>
          var u := Universe(custom);
          CombinationsEmpty(u, j);
          if Combinations(u, j) == [] then Returned([])
          else Raised(TypeError)
  }

  /** `find_min_valid_k_subsets` as evidently intended, with the j-subsets passed on unchanged instead
      of through the `lru_cache` call that raises: the parallel map of `validate_k_subset` over the
      k-subsets and the loop after it build the solver's coverage table, the greedy loop is the
      solver's, and the selected k-subsets are returned ascending. */
  method FindMinValidKSubsetsIntended(m: int, n: int, k: int, j: int, s: int, custom: seq<int>)
    returns (r: Outcome<seq<seq<int>>>)
    ensures !ValidateParams(m, n, k, j, s) ==> r == Returned([])
    ensures ValidateParams(m, n, k, j, s) && GenerateInitialNSamples(m, n, custom).Raised? ==>
              r == Raised(GenerateInitialNSamples(m, n, custom).exc)
    ensures ValidateParams(m, n, k, j, s) && GenerateInitialNSamples(m, n, custom).Returned? ==>
              && r.Returned?
              && (j > |Elems(custom)| ==> r.value == [])
              && (k <= |Elems(custom)| ==> r.value != [])
              && Distinct(r.value)
              && (forall t :: 0 <= t < |r.value| ==>
                    StrictlyIncreasing(r.value[t]) && |r.value[t]| == k && Elems(r.value[t]) <= Elems(custom))
              && (forall S :: IsJSubset(S, custom, j) && Coverable(S, custom, k, s) ==> CoveredSet(S, r.value, s))
    ensures ValidateParams(m, n, k, j, s) && GenerateInitialNSamples(m, n, custom).Returned? && Distinct(custom) ==>
              && r.Returned?
              && Validator.ValidateSpec(Params(n, k, j, s), custom, r.value).Returned?
              && Validator.ValidateSpec(Params(n, k, j, s), custom, r.value).value.pass
  {
    if !ValidateParams(m, n, k, j, s) {
      return Returned([]);
    }
    var generated := GenerateInitialNSamples(m, n, custom);
    if generated.Raised? {
      return Raised(generated.exc);
    }
    var u := Universe(custom);
    var js := Combinations(u, j);
    CombinationsEmpty(u, j);
    DistinctCard(custom);
    if js == [] {
      NoSubsets(custom, j);
      return Returned([]);
    }
    var ks := Combinations(u, k);
    var groups := Solver.SelectGroups(custom, j, k, s, js, ks);
    if Distinct(custom) {
      CoveringGroupsPass(Params(n, k, j, s), custom, groups);
    }
    return Returned(groups);
  }
}
