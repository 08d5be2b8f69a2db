/** What `validate` means: its reports stated over the j-subsets and groups as sets, independent of
    the order and repetition of the groups. */
module ValidatorProps {
  import opened Common
  import opened Seqs
  import opened Combos
  import opened Validator

  // ---------------------------------------------------------------------------------------------
  // The early-exit scan against the plain maximum

  /** The scan with its early `break` decides coverage exactly as the maximum overlap does, and when it
      reports "not covered" it has seen every group, so its value is that maximum. */
  lemma {:induction false} ScanBestMeaning(J: seq<int>, gs: seq<seq<int>>, s: int, best: nat)
    ensures ScanBest(J, gs, s, best) >= best
    ensures ScanBest(J, gs, s, best) <= (if MaxOverlap(J, gs) > best then MaxOverlap(J, gs) else best)
    ensures ScanBest(J, gs, s, best) >= s <==> best >= s || MaxOverlap(J, gs) >= s
    ensures ScanBest(J, gs, s, best) < s ==>
              ScanBest(J, gs, s, best) == (if MaxOverlap(J, gs) > best then MaxOverlap(J, gs) else best)
    decreases |gs|
  {
    if gs != [] {
      var inter := Overlap(J, gs[0]);
      var rest := MaxOverlap(J, gs[1..]);
      assert MaxOverlap(J, gs) == if inter >= rest then inter else rest;
      if !(inter > best && inter >= s) {
        ScanBestMeaning(J, gs[1..], s, if inter > best then inter else best);
      }
    }
  }

  /** A j-subset is uncovered exactly when every group shares fewer than `s` values with it. */
  lemma UncoveredMeaning(J: seq<int>, gs: seq<seq<int>>, s: int)
    requires gs != []
    ensures Uncovered(J, gs, s) <==> forall i :: 0 <= i < |gs| ==> Overlap(J, gs[i]) < s
    ensures Uncovered(J, gs, s) ==> ScanBest(J, gs, s, 0) == MaxOverlap(J, gs)
    ensures !Uncovered(J, gs, s) ==> ScanBest(J, gs, s, 0) >= s
  {
    ScanBestMeaning(J, gs, s, 0);
    if MaxOverlap(J, gs) == 0 {
      assert Overlap(J, gs[0]) == 0;
    }
  }

  // ---------------------------------------------------------------------------------------------
  // Coverage stated over sets

  /** `S` is one of the j-subsets of the samples. */
  predicate IsJSubset(S: set<int>, samples: seq<int>, j: int)
  {
    S <= Elems(samples) && |S| == j
  }

  /** Some group shares at least `s` values with `S`. */
  predicate CoveredSet(S: set<int>, groups: seq<seq<int>>, s: int)
  {
    exists i :: 0 <= i < |groups| && |S * Elems(groups[i])| >= s
  }

  /** Every check `validate` makes on its inputs succeeds, so it reaches the coverage scan. */
  predicate Accepted(p: Params, samples: seq<int>, groups: seq<seq<int>>)
  {
    && p.s <= p.j <= p.k
    && 0 <= p.j
    && Distinct(samples)
    && |samples| == p.n
    && groups != []
    && forall i :: 0 <= i < |groups| ==> GroupOk(groups[i], p.k, Elems(samples))
  }

  /** The sets of values of the groups. */
  function GroupSets(groups: seq<seq<int>>): set<set<int>>
  {
    set i | 0 <= i < |groups| :: Elems(groups[i])
  }

  /** Normalising the groups keeps exactly the same sets of values. */
  lemma NormKeepsSets(groups: seq<seq<int>>, gs: seq<seq<int>>)
    requires gs == Dedup(Canon(groups))
    ensures GroupSets(gs) == GroupSets(groups)
  {
    var C := Canon(groups);
    forall X | X in GroupSets(gs)
      ensures X in GroupSets(groups)
    {
      var i :| 0 <= i < |gs| && Elems(gs[i]) == X;
      assert gs[i] in Elems(gs);
      var t :| 0 <= t < |C| && C[t] == gs[i];
      SortFacts(groups[t]);
    }
    forall X | X in GroupSets(groups)
      ensures X in GroupSets(gs)
    {
      var t :| 0 <= t < |groups| && Elems(groups[t]) == X;
      assert C[t] in Elems(C);
      var i :| 0 <= i < |gs| && gs[i] == C[t];
      SortFacts(groups[t]);
      assert Elems(gs[i]) == X;
    }
  }

  /** Every set of values in `a` is also in `b`, so whatever `a` covers `b` covers. */
  lemma CoverageTransfers(S: set<int>, a: seq<seq<int>>, b: seq<seq<int>>, s: int)
    requires GroupSets(a) <= GroupSets(b)
    ensures CoveredSet(S, a, s) ==> CoveredSet(S, b, s)
  {
    if CoveredSet(S, a, s) {
      var i :| 0 <= i < |a| && |S * Elems(a[i])| >= s;
      assert Elems(a[i]) in GroupSets(a);
      var t :| 0 <= t < |b| && Elems(b[t]) == Elems(a[i]);
    }
  }

  /** Coverage by the normalised groups is coverage by the groups as given. */
  lemma NormKeepsCoverage(S: set<int>, groups: seq<seq<int>>, gs: seq<seq<int>>, s: int)
    requires gs == Dedup(Canon(groups))
    ensures CoveredSet(S, gs, s) <==> CoveredSet(S, groups, s)
  {
    NormKeepsSets(groups, gs);
    CoverageTransfers(S, gs, groups, s);
    CoverageTransfers(S, groups, gs, s);
  }

  /** No uncovered entry among `js` exactly when the count of uncovered entries is zero. */
  lemma {:induction false} CountZeroIff(js: seq<seq<int>>, gs: seq<seq<int>>, s: int)
    ensures CountUncovered(js, gs, s) == 0 <==> forall t :: 0 <= t < |js| ==> !Uncovered(js[t], gs, s)
  {
    if js != [] {
      var init := js[..|js| - 1];
      CountZeroIff(init, gs, s);
      assert forall t :: 0 <= t < |init| ==> init[t] == js[t];
    }
  }

  /** The j-subsets `validate` enumerates are the j-subsets of the samples, each once, in ascending
      order within. */
  lemma EnumeratedSubsets(samples: seq<int>, j: nat)
    requires Distinct(samples)
    ensures var js := Combinations(Sort(samples), j);
      && (forall t :: 0 <= t < |js| ==> StrictlyIncreasing(js[t]) && |js[t]| == j && IsJSubset(Elems(js[t]), samples, j))
      && (forall S :: IsJSubset(S, samples, j) ==> exists t :: 0 <= t < |js| && Elems(js[t]) == S)
  {
    var sorted := Sort(samples);
    var js := Combinations(sorted, j);
    SortFacts(samples);
    CombinationsShape(sorted, j);
    CombinationsIncreasing(sorted, j);
    forall t | 0 <= t < |js|
      ensures IsJSubset(Elems(js[t]), samples, j)
    {
      DistinctCard(js[t]);
    }
    forall S | IsJSubset(S, samples, j)
      ensures exists t :: 0 <= t < |js| && Elems(js[t]) == S
    {
      CombinationsComplete(sorted, j, S);
    }
  }

  /** With the inputs accepted, one group of j-subsets decides coverage exactly as the groups do. */
  lemma UncoveredIffNotCovered(J: seq<int>, groups: seq<seq<int>>, s: int)
    requires groups != []
    ensures Uncovered(J, Dedup(Canon(groups)), s) <==> !CoveredSet(Elems(J), groups, s)
  {
    var gs := Dedup(Canon(groups));
    assert Canon(groups)[0] in Elems(gs);
    UncoveredMeaning(J, gs, s);
    NormKeepsCoverage(Elems(J), groups, gs, s);
  }

  /** `validate` reaches the scan exactly for accepted inputs with a non-negative j, and reports what
      the scan tallies over the normalised groups. */
  lemma ValidateAccepted(p: Params, samples: seq<int>, groups: seq<seq<int>>)
    requires Accepted(p, samples, groups)
    ensures NormSamples(samples) == Some(Sort(samples))
    ensures NormGroupsSpec(groups, p.k, Elems(samples)) == Some(Dedup(Canon(groups)))
    ensures Dedup(Canon(groups)) != []
    ensures ValidateSpec(p, samples, groups) ==
              Returned(Tally(Combinations(Sort(samples), p.j), Dedup(Canon(groups)), p.s))
  {
    NormGroupsKeeps(groups, p.k, Elems(samples));
    assert Canon(groups)[0] in Elems(Dedup(Canon(groups)));
  }

  /** `pass` holds exactly when every j-subset of the samples shares at least `s` values with some
      group. */
  lemma {:induction false} ValidatePassIff(p: Params, samples: seq<int>, groups: seq<seq<int>>)
    requires Accepted(p, samples, groups)
    ensures ValidateSpec(p, samples, groups).Returned?
    ensures ValidateSpec(p, samples, groups).value.pass <==>
              forall S :: IsJSubset(S, samples, p.j) ==> CoveredSet(S, groups, p.s)
  {
    ValidateAccepted(p, samples, groups);
    var js := Combinations(Sort(samples), p.j);
    var gs := Dedup(Canon(groups));
    EnumeratedSubsets(samples, p.j);
    CountZeroIff(js, gs, p.s);
    if CountUncovered(js, gs, p.s) == 0 {
      forall S | IsJSubset(S, samples, p.j)
        ensures CoveredSet(S, groups, p.s)
      {
        var t :| 0 <= t < |js| && Elems(js[t]) == S;
        UncoveredIffNotCovered(js[t], groups, p.s);
      }
    } else {
      var t :| 0 <= t < |js| && Uncovered(js[t], gs, p.s);
      UncoveredIffNotCovered(js[t], groups, p.s);
      assert IsJSubset(Elems(js[t]), samples, p.j);
    }
  }

  // ---------------------------------------------------------------------------------------------
  // The failure count

  /** The j-subsets of the samples that no group covers. */
  function UncoveredSubsets(samples: seq<int>, groups: seq<seq<int>>, j: int, s: int): set<set<int>>
  {
    set S | S <= Elems(samples) && |S| == j && !CoveredSet(S, groups, s)
  }

  /** The sets of values of the uncovered entries of `js`. */
  function UncoveredSets(js: seq<seq<int>>, gs: seq<seq<int>>, s: int): (r: set<set<int>>)
    ensures forall S :: S in r <==> exists t :: 0 <= t < |js| && Uncovered(js[t], gs, s) && Elems(js[t]) == S
  {
    if js == [] then {}
    else
      var init := js[..|js| - 1];
      assert forall t :: 0 <= t < |init| ==> init[t] == js[t];
      UncoveredSets(init, gs, s) + (if Uncovered(js[|js| - 1], gs, s) then {Elems(js[|js| - 1])} else {})
  }

  /** No two entries of `js` hold the same values. */
  predicate ElemsInjective(js: seq<seq<int>>)
  {
    forall a, b :: 0 <= a < b < |js| ==> Elems(js[a]) != Elems(js[b])
  }

  /** When no two entries hold the same values, counting uncovered entries counts uncovered sets. */
  lemma {:induction false} CountIsCardinality(js: seq<seq<int>>, gs: seq<seq<int>>, s: int)
    requires ElemsInjective(js)
    ensures CountUncovered(js, gs, s) == |UncoveredSets(js, gs, s)|
  {
    if js != [] {
      var init, last := js[..|js| - 1], js[|js| - 1];
      InjectivePrefix(js);
      CountIsCardinality(init, gs, s);
      if Uncovered(last, gs, s) {
        LastIsNew(js, gs, s);
      }
    }
  }

  /** Dropping the last entry keeps the entries pairwise different as sets. */
  lemma InjectivePrefix(js: seq<seq<int>>)
    requires js != [] && ElemsInjective(js)
    ensures ElemsInjective(js[..|js| - 1])
  {
    var init := js[..|js| - 1];
    assert forall t :: 0 <= t < |init| ==> init[t] == js[t];
  }

  /** The last entry's set is not among the uncovered sets of the earlier entries. */
  lemma LastIsNew(js: seq<seq<int>>, gs: seq<seq<int>>, s: int)
    requires js != [] && ElemsInjective(js)
    ensures Elems(js[|js| - 1]) !in UncoveredSets(js[..|js| - 1], gs, s)
  {
    var init := js[..|js| - 1];
    forall t | 0 <= t < |init| ensures Elems(init[t]) != Elems(js[|js| - 1]) {
      assert init[t] == js[t];
    }
  }

  /** The enumerated j-subsets hold pairwise different sets of values. */
  lemma EnumerationInjective(samples: seq<int>, j: nat)
    requires Distinct(samples)
    ensures ElemsInjective(Combinations(Sort(samples), j))
  {
    var js := Combinations(Sort(samples), j);
    SortFacts(samples);
    CombinationsDistinct(Sort(samples), j);
    CombinationsIncreasing(Sort(samples), j);
    forall a, b | 0 <= a < b < |js|
      ensures Elems(js[a]) != Elems(js[b])
    {
      if Elems(js[a]) == Elems(js[b]) {
        StrictlyIncreasingUnique(js[a], js[b]);
      }
    }
  }

  /** The uncovered enumerated j-subsets, as sets, are the uncovered j-subsets of the samples. */
  lemma SameUncoveredSets(samples: seq<int>, groups: seq<seq<int>>, j: nat, s: int,
                          js: seq<seq<int>>, gs: seq<seq<int>>)
    requires Distinct(samples) && groups != []
    requires js == Combinations(Sort(samples), j) && gs == Dedup(Canon(groups))
    ensures UncoveredSets(js, gs, s) == UncoveredSubsets(samples, groups, j, s)
  {
    EnumeratedSubsets(samples, j);
    forall S
      ensures S in UncoveredSets(js, gs, s) <==> S in UncoveredSubsets(samples, groups, j, s)
    {
      if S in UncoveredSets(js, gs, s) {
        var t :| 0 <= t < |js| && Uncovered(js[t], gs, s) && Elems(js[t]) == S;
        UncoveredIffNotCovered(js[t], groups, s);
      }
      if S in UncoveredSubsets(samples, groups, j, s) {
        assert IsJSubset(S, samples, j);
        var t :| 0 <= t < |js| && Elems(js[t]) == S;
        UncoveredIffNotCovered(js[t], groups, s);
      }
    }
  }

  /** `failed_J_count` is the number of j-subsets of the samples that no group covers. */
  lemma ValidateFailedCount(p: Params, samples: seq<int>, groups: seq<seq<int>>)
    requires Accepted(p, samples, groups)
    ensures ValidateSpec(p, samples, groups).Returned?
    ensures ValidateSpec(p, samples, groups).value.failedJCount == |UncoveredSubsets(samples, groups, p.j, p.s)|
  {
    ValidateAccepted(p, samples, groups);
    var js := Combinations(Sort(samples), p.j);
    var gs := Dedup(Canon(groups));
    EnumerationInjective(samples, p.j);
    CountIsCardinality(js, gs, p.s);
    SameUncoveredSets(samples, groups, p.j, p.s, js, gs);
    CountMatchesFirst(js, gs, p.s);
  }

  // ---------------------------------------------------------------------------------------------
  // Rejected inputs

  /** Each input check of `validate`, in the source's order, and the report it produces. */
  lemma ValidateRejects(p: Params, samples: seq<int>, groups: seq<seq<int>>)
    ensures !(p.s <= p.j <= p.k) ==> ValidateSpec(p, samples, groups) == Returned(Rejected(OrderViolated))
    ensures p.s <= p.j <= p.k && !Distinct(samples) ==>
              ValidateSpec(p, samples, groups) == Returned(Rejected(BadSamples))
    ensures p.s <= p.j <= p.k && Distinct(samples) && |samples| != p.n ==>
              ValidateSpec(p, samples, groups) == Returned(Rejected(SampleCountMismatch))
    ensures p.s <= p.j <= p.k && Distinct(samples) && |samples| == p.n &&
            (exists i :: 0 <= i < |groups| && !GroupOk(groups[i], p.k, Elems(samples))) ==>
              ValidateSpec(p, samples, groups) == Returned(Rejected(BadGroups))
    ensures p.s <= p.j <= p.k && Distinct(samples) && |samples| == p.n && groups == [] ==>
              ValidateSpec(p, samples, groups) == Returned(Rejected(EmptyGroups))
    ensures p.s <= p.j <= p.k && p.j < 0 && Distinct(samples) && |samples| == p.n && groups != [] &&
            (forall i :: 0 <= i < |groups| ==> GroupOk(groups[i], p.k, Elems(samples))) ==>
              ValidateSpec(p, samples, groups) == Raised(ValueError)
  {
    if exists i :: 0 <= i < |groups| && !GroupOk(groups[i], p.k, Elems(samples)) {
      var i :| 0 <= i < |groups| && !GroupOk(groups[i], p.k, Elems(samples));
      NormGroupsRejects(groups, p.k, Elems(samples), i);
    } else {
      NormGroupsKeeps(groups, p.k, Elems(samples));
      if groups != [] {
        assert Canon(groups)[0] in Elems(Dedup(Canon(groups)));
      }
    }
  }

  // ---------------------------------------------------------------------------------------------
  // The minimum coverage

  /** `m` is the least, over the j-subsets of the samples, of the most values one group shares with
      the j-subset: every j-subset shares `m` values with some group, and one shares no more. */
  ghost predicate IsMinCoverage(m: int, samples: seq<int>, groups: seq<seq<int>>, j: int)
  {
    && (forall S :: IsJSubset(S, samples, j) ==> CoveredSet(S, groups, m))
    && (exists S :: IsJSubset(S, samples, j) && !CoveredSet(S, groups, m + 1))
  }

  /** Coverage at a threshold implies coverage at every lower threshold. */
  lemma CoveredMonotone(S: set<int>, groups: seq<seq<int>>, c: int, d: int)
    requires d <= c && CoveredSet(S, groups, c)
    ensures CoveredSet(S, groups, d)
  {
  }

  /** Some group shares with `J` at least the value the scan reports. */
  lemma {:induction false} ScanBestAttained(J: seq<int>, gs: seq<seq<int>>, s: int, best: nat)
    requires gs != []
    ensures CoveredSet(Elems(J), gs, ScanBest(J, gs, s, best)) || ScanBest(J, gs, s, best) == best
    decreases |gs|
  {
    var inter := Overlap(J, gs[0]);
    if !(inter > best && inter >= s) && |gs| > 1 {
      var next := if inter > best then inter else best;
      ScanBestAttained(J, gs[1..], s, next);
      if CoveredSet(Elems(J), gs[1..], ScanBest(J, gs[1..], s, next)) {
        var i :| 0 <= i < |gs[1..]| && |Elems(J) * Elems(gs[1..][i])| >= ScanBest(J, gs[1..], s, next);
        assert gs[1..][i] == gs[i + 1];
      }
    }
  }

  /** The value the scan reports for `J` is shared with some group, and for an uncovered `J` no group
      shares more. */
  lemma ScanBestBounds(J: seq<int>, groups: seq<seq<int>>, gs: seq<seq<int>>, s: int, b: int)
    requires groups != [] && gs == Dedup(Canon(groups)) && b == ScanBest(J, gs, s, 0)
    ensures CoveredSet(Elems(J), groups, b)
    ensures b < s ==> !CoveredSet(Elems(J), groups, b + 1)
  {
    assert Canon(groups)[0] in Elems(gs);
    assert |Elems(J) * Elems(gs[0])| >= 0;
    ScanBestAttained(J, gs, s, 0);
    NormKeepsCoverage(Elems(J), groups, gs, b);
    if b < s {
      UncoveredMeaning(J, gs, s);
      NormKeepsCoverage(Elems(J), groups, gs, b + 1);
    }
  }

  /** Over a non-empty list of j-subsets the least scan value is at most `j`, so it is never the
      sentinel when `j` is below it. */
  lemma MinBestBound(js: seq<seq<int>>, gs: seq<seq<int>>, s: int, j: nat)
    requires js != [] && gs != []
    requires forall t :: 0 <= t < |js| ==> |js[t]| == j
    ensures MinBest(js, gs, s) <= j
  {
    ScanBestMeaning(js[0], gs, s, 0);
    OverlapBound(js[0], gs[0]);
    if MaxOverlap(js[0], gs) != 0 {
      var i :| 0 <= i < |gs| && Overlap(js[0], gs[i]) == MaxOverlap(js[0], gs);
      OverlapBound(js[0], gs[i]);
    }
  }

  /** Every j-subset shares with some group at least the least scan value over the enumeration. */
  lemma AllSharedAtMin(samples: seq<int>, groups: seq<seq<int>>, j: nat, s: int,
                       js: seq<seq<int>>, gs: seq<seq<int>>)
    requires Distinct(samples) && groups != []
    requires js == Combinations(Sort(samples), j) && gs == Dedup(Canon(groups))
    ensures forall S :: IsJSubset(S, samples, j) ==> CoveredSet(S, groups, MinBest(js, gs, s))
  {
    var m := MinBest(js, gs, s);
    EnumeratedSubsets(samples, j);
    forall S | IsJSubset(S, samples, j)
      ensures CoveredSet(S, groups, m)
    {
      var u :| 0 <= u < |js| && Elems(js[u]) == S;
      ScanBestBounds(js[u], groups, gs, s, ScanBest(js[u], gs, s, 0));
      CoveredMonotone(S, groups, ScanBest(js[u], gs, s, 0), m);
    }
  }

  /** On a failure the least scan value is below `s`, and it is the minimum coverage: every j-subset
      reaches it, and the j-subset attaining it shares no more than that with any group. */
  lemma MinBestOnFailure(samples: seq<int>, groups: seq<seq<int>>, j: nat, s: int,
                         js: seq<seq<int>>, gs: seq<seq<int>>)
    requires Distinct(samples) && groups != [] && s <= j < Sentinel
    requires js == Combinations(Sort(samples), j) && gs == Dedup(Canon(groups))
    requires CountUncovered(js, gs, s) != 0
    ensures MinBest(js, gs, s) < s
    ensures IsMinCoverage(MinBest(js, gs, s), samples, groups, j)
  {
    var m := MinBest(js, gs, s);
    CountZeroIff(js, gs, s);
    var t0 :| 0 <= t0 < |js| && Uncovered(js[t0], gs, s);
    var t :| 0 <= t < |js| && m == ScanBest(js[t], gs, s, 0);
    ScanBestBounds(js[t], groups, gs, s, m);
    var S := Elems(js[t]);
    EnumeratedSubsets(samples, j);
    AllSharedAtMin(samples, groups, j, s, js, gs);
    MinCoverageAt(m, S, samples, groups, j);
  }

  /** On a pass every scan value, and so the least one, is at least `s`. */
  lemma MinBestOnPass(js: seq<seq<int>>, gs: seq<seq<int>>, s: int)
    requires gs != [] && CountUncovered(js, gs, s) == 0 && s <= Sentinel
    ensures MinBest(js, gs, s) >= s
  {
    CountZeroIff(js, gs, s);
    if MinBest(js, gs, s) != Sentinel {
      var t :| 0 <= t < |js| && MinBest(js, gs, s) == ScanBest(js[t], gs, s, 0);
      UncoveredMeaning(js[t], gs, s);
    }
  }

  /** `min_coverage` of the tally over the enumerated j-subsets. */
  lemma TallyMinCoverage(samples: seq<int>, groups: seq<seq<int>>, j: nat, s: int,
                         js: seq<seq<int>>, gs: seq<seq<int>>)
    requires Distinct(samples) && groups != [] && s <= j <= |samples| < Sentinel
    requires js == Combinations(Sort(samples), j) && gs == Dedup(Canon(groups))
    ensures var r := Tally(js, gs, s);
      && (r.pass ==> r.minCoverage >= s)
      && (!r.pass ==> r.minCoverage < s)
      && (!r.pass ==> IsMinCoverage(r.minCoverage, samples, groups, j))
  {
    var m := MinBest(js, gs, s);
    assert Tally(js, gs, s).minCoverage == if m == Sentinel then 0 else m;
    assert Tally(js, gs, s).pass <==> CountUncovered(js, gs, s) == 0;
    SortFacts(samples);
    CombinationsEmpty(Sort(samples), j);
    if js != [] {
      assert Canon(groups)[0] in Elems(gs);
      CombinationsShape(Sort(samples), j);
      MinBestBound(js, gs, s, j);
      if CountUncovered(js, gs, s) == 0 {
        MinBestOnPass(js, gs, s);
      } else {
        MinBestOnFailure(samples, groups, j, s, js, gs);
      }
    }
  }

  /** A value every j-subset reaches, and one j-subset exceeds for no group, is the minimum coverage. */
  lemma MinCoverageAt(m: int, S: set<int>, samples: seq<int>, groups: seq<seq<int>>, j: int)
    requires forall S' :: IsJSubset(S', samples, j) ==> CoveredSet(S', groups, m)
    requires IsJSubset(S, samples, j) && !CoveredSet(S, groups, m + 1)
    ensures IsMinCoverage(m, samples, groups, j)
  {
  }

  /** The report's `min_coverage`: at least `s` on a pass, and on a failure the least over the
      j-subsets of the most values some group shares with it, which is below `s`. */
  lemma ValidateMinCoverage(p: Params, samples: seq<int>, groups: seq<seq<int>>)
    requires Accepted(p, samples, groups) && p.n < Sentinel
    ensures ValidateSpec(p, samples, groups).Returned?
    ensures var r := ValidateSpec(p, samples, groups).value;
      && (r.pass ==> r.minCoverage >= p.s)
      && (!r.pass ==> r.minCoverage < p.s)
      && (!r.pass ==> IsMinCoverage(r.minCoverage, samples, groups, p.j))
  {
    ValidateAccepted(p, samples, groups);
    AcceptedBounds(p, samples, groups);
    TallyMinCoverage(samples, groups, p.j, p.s, Combinations(Sort(samples), p.j), Dedup(Canon(groups)));
  }

  // ---------------------------------------------------------------------------------------------
  // `min_coverage` on a pass

  /** Accepted inputs have `j <= k <= n`: a group holds `k` distinct sample values. */
  lemma AcceptedBounds(p: Params, samples: seq<int>, groups: seq<seq<int>>)
    requires Accepted(p, samples, groups)
    ensures 0 <= p.j <= p.k <= p.n
  {
    assert GroupOk(groups[0], p.k, Elems(samples));
    SubsetCard(Elems(groups[0]), Elems(samples));
    DistinctCard(samples);
  }

  function Larger(a: int, b: int): int
  {
    if a >= b then a else b
  }

  /** Every j-subset of the samples shares at least one value with some group. */
  ghost predicate AllMeet(samples: seq<int>, groups: seq<seq<int>>, j: int)
  {
    forall S :: IsJSubset(S, samples, j) ==> CoveredSet(S, groups, 1)
  }

  /** `min_coverage` on a pass: `max(s, j + k - n)` when `1 <= s` or `n < j + k`; otherwise 1 when
      every j-subset meets some group and 0 when one meets none. It depends on the groups only
      through their sets of values. */
  ghost function PassMinCoverage(p: Params, samples: seq<int>, groups: seq<seq<int>>): int
  {
    if 1 <= p.s || p.n < p.j + p.k then Larger(p.s, p.j + p.k - p.n)
    else if AllMeet(samples, groups, p.j) then 1
    else 0
  }

  /** The scan of `J` is never below its overlap with the first group, and stops at the first group
      when that overlap is positive and reaches `s`. */
  lemma ScanFirstGroup(J: seq<int>, gs: seq<seq<int>>, s: int)
    requires gs != []
    ensures ScanBest(J, gs, s, 0) >= Overlap(J, gs[0])
    ensures 0 < Overlap(J, gs[0]) && s <= Overlap(J, gs[0]) ==> ScanBest(J, gs, s, 0) == Overlap(J, gs[0])
  {
    var inter := Overlap(J, gs[0]);
    if !(inter > 0 && inter >= s) {
      ScanBestMeaning(J, gs[1..], s, inter);
    }
  }

  /** With `s <= 1` the scan stops at the first group sharing any value, exactly as with `s == 1`. */
  lemma {:induction false} ScanLowThreshold(J: seq<int>, gs: seq<seq<int>>, s: int)
    requires s <= 1
    ensures ScanBest(J, gs, s, 0) == ScanBest(J, gs, 1, 0)
    decreases |gs|
  {
    if gs != [] && Overlap(J, gs[0]) == 0 {
      ScanLowThreshold(J, gs[1..], s);
    }
  }

  /** A j-subset and a k-subset of `n` values share at least `j + k - n` of them. */
  lemma OverlapAtLeast(A: set<int>, B: set<int>, U: set<int>)
    requires A <= U && B <= U
    ensures |A * B| >= |A| + |B| - |U|
  {
    SubsetCard(A + B, U);
  }

  /** For every `t` the sizes allow, some j-subset of `U` shares exactly `t` values with `G`. */
  lemma SubsetWithOverlap(U: set<int>, G: set<int>, j: int, t: int) returns (S: set<int>)
    requires G <= U && 0 <= t <= j && t <= |G| && j - t <= |U| - |G|
    ensures S <= U && |S| == j && |S * G| == t
  {
    Enlarge({}, G, t);
    var A :| {} <= A <= G && |A| == t;
    assert U == G + (U - G);
    Enlarge({}, U - G, j - t);
    var B :| {} <= B <= U - G && |B| == j - t;
    S := A + B;
    assert A * B == {};
    assert S * G == A;
  }

  /** The first normalised group holds `k` sample values. */
  lemma FirstGroup(samples: seq<int>, groups: seq<seq<int>>, k: int, gs: seq<seq<int>>)
    requires groups != [] && gs == Dedup(Canon(groups))
    requires forall i :: 0 <= i < |groups| ==> GroupOk(groups[i], k, Elems(samples))
    ensures gs != [] && Elems(gs[0]) <= Elems(samples) && |Elems(gs[0])| == k
  {
    assert Canon(groups)[0] in Elems(gs);
    assert gs[0] in Elems(Canon(groups));
    var i :| 0 <= i < |groups| && Canon(groups)[i] == gs[0];
    SortFacts(groups[i]);
  }

  /** When every scan value is at least `m` and one equals it, the least scan value is `m`. */
  lemma MinBestIs(js: seq<seq<int>>, gs: seq<seq<int>>, s: int, m: int, u: nat)
    requires u < |js| && ScanBest(js[u], gs, s, 0) == m && m < Sentinel
    requires forall t :: 0 <= t < |js| ==> ScanBest(js[t], gs, s, 0) >= m
    ensures MinBest(js, gs, s) == m
  {
  }

  /** The empty set meets no group, so not every 0-subset does. */
  lemma MeetNeedsValues(samples: seq<int>, groups: seq<seq<int>>, j: nat)
    ensures AllMeet(samples, groups, j) ==> 1 <= j
  {
    if j == 0 {
      assert IsJSubset({}, samples, j);
      assert !CoveredSet({}, groups, 1);
    }
  }

  /** On a pass with `1 <= s` or `n < j + k`, the least scan value is `max(s, j + k - n)`. Every
      j-subset is covered and shares at least `j + k - n` values with the first group, which the
      scan sees first; a j-subset sharing exactly `max(s, j + k - n)` values with the first group
      stops the scan there. */
  lemma MinBestOnPassHigh(samples: seq<int>, groups: seq<seq<int>>, j: nat, k: int, s: int,
                          js: seq<seq<int>>, gs: seq<seq<int>>)
    requires Distinct(samples) && groups != [] && s <= j <= k && |samples| < Sentinel
    requires forall i :: 0 <= i < |groups| ==> GroupOk(groups[i], k, Elems(samples))
    requires js == Combinations(Sort(samples), j) && gs == Dedup(Canon(groups))
    requires CountUncovered(js, gs, s) == 0
    requires 1 <= s || |samples| < j + k
    ensures MinBest(js, gs, s) == Larger(s, j + k - |samples|)
  {
    FirstGroup(samples, groups, k, gs);
    var U, G := Elems(samples), Elems(gs[0]);
    DistinctCard(samples);
    SubsetCard(G, U);
    var m := Larger(s, j + k - |samples|);
    EnumeratedSubsets(samples, j);
    CountZeroIff(js, gs, s);
    forall t | 0 <= t < |js| ensures ScanBest(js[t], gs, s, 0) >= m {
      ScanFirstGroup(js[t], gs, s);
      OverlapAtLeast(Elems(js[t]), G, U);
    }
    var S := SubsetWithOverlap(U, G, j, m);
    assert IsJSubset(S, samples, j);
    var u :| 0 <= u < |js| && Elems(js[u]) == S;
    ScanFirstGroup(js[u], gs, s);
    MinBestIs(js, gs, s, m, u);
  }

  /** With `s <= 1` every scan value is the one for `s == 1`, and it is not negative. */
  lemma LowScans(js: seq<seq<int>>, gs: seq<seq<int>>, s: int)
    requires s <= 1
    ensures forall t :: 0 <= t < |js| ==> ScanBest(js[t], gs, s, 0) == ScanBest(js[t], gs, 1, 0) >= 0
  {
    forall t | 0 <= t < |js| ensures ScanBest(js[t], gs, s, 0) == ScanBest(js[t], gs, 1, 0) >= 0 {
      ScanLowThreshold(js[t], gs, s);
      ScanBestMeaning(js[t], gs, 1, 0);
    }
  }

  /** With `s <= 0` and `j + k <= n`, when every j-subset meets some group the least scan value is 1:
      every scan reaches 1, and a j-subset sharing a single value with the first group stops there. */
  lemma MinBestAllMeet(samples: seq<int>, groups: seq<seq<int>>, j: nat, k: int, s: int,
                       js: seq<seq<int>>, gs: seq<seq<int>>)
    requires Distinct(samples) && groups != [] && s <= j <= k
    requires forall i :: 0 <= i < |groups| ==> GroupOk(groups[i], k, Elems(samples))
    requires js == Combinations(Sort(samples), j) && gs == Dedup(Canon(groups))
    requires s <= 0 && j + k <= |samples| && AllMeet(samples, groups, j)
    ensures MinBest(js, gs, s) == 1
  {
    FirstGroup(samples, groups, k, gs);
    var U, G := Elems(samples), Elems(gs[0]);
    DistinctCard(samples);
    EnumeratedSubsets(samples, j);
    MeetNeedsValues(samples, groups, j);
    LowScans(js, gs, s);
    forall t | 0 <= t < |js| ensures ScanBest(js[t], gs, s, 0) >= 1 {
      assert IsJSubset(Elems(js[t]), samples, j);
      UncoveredIffNotCovered(js[t], groups, 1);
    }
    var S := SubsetWithOverlap(U, G, j, 1);
    assert IsJSubset(S, samples, j);
    var u :| 0 <= u < |js| && Elems(js[u]) == S;
    ScanFirstGroup(js[u], gs, s);
    MinBestIs(js, gs, s, 1, u);
  }

  /** With `s <= 1`, when some j-subset meets no group its scan value is 0, and so is the least. */
  lemma MinBestSomeMisses(samples: seq<int>, groups: seq<seq<int>>, j: nat, s: int,
                          js: seq<seq<int>>, gs: seq<seq<int>>)
    requires Distinct(samples) && groups != []
    requires js == Combinations(Sort(samples), j) && gs == Dedup(Canon(groups))
    requires s <= 1 && !AllMeet(samples, groups, j)
    ensures MinBest(js, gs, s) == 0
  {
    EnumeratedSubsets(samples, j);
    LowScans(js, gs, s);
    var S :| IsJSubset(S, samples, j) && !CoveredSet(S, groups, 1);
    var u :| 0 <= u < |js| && Elems(js[u]) == S;
    UncoveredIffNotCovered(js[u], groups, 1);
    MinBestIs(js, gs, s, 0, u);
  }

  /** On a pass with `s <= 0` and `j + k <= n`, every scan stops at the first group sharing any
      value: the least scan value is 1 when every j-subset meets some group, and 0 when one meets
      none. */
  lemma MinBestOnPassLow(samples: seq<int>, groups: seq<seq<int>>, j: nat, k: int, s: int,
                         js: seq<seq<int>>, gs: seq<seq<int>>)
    requires Distinct(samples) && groups != [] && s <= j <= k
    requires forall i :: 0 <= i < |groups| ==> GroupOk(groups[i], k, Elems(samples))
    requires js == Combinations(Sort(samples), j) && gs == Dedup(Canon(groups))
    requires s <= 0 && j + k <= |samples|
    ensures MinBest(js, gs, s) == if AllMeet(samples, groups, j) then 1 else 0
  {
    if AllMeet(samples, groups, j) {
      MinBestAllMeet(samples, groups, j, k, s, js, gs);
    } else {
      MinBestSomeMisses(samples, groups, j, s, js, gs);
    }
  }

  /** `min_coverage` of a passing tally over the enumerated j-subsets. */
  lemma TallyPassMinCoverage(samples: seq<int>, groups: seq<seq<int>>, j: nat, k: int, s: int,
                             js: seq<seq<int>>, gs: seq<seq<int>>)
    requires Distinct(samples) && groups != [] && s <= j <= k <= |samples| < Sentinel
    requires forall i :: 0 <= i < |groups| ==> GroupOk(groups[i], k, Elems(samples))
    requires js == Combinations(Sort(samples), j) && gs == Dedup(Canon(groups))
    ensures Tally(js, gs, s).pass ==>
              Tally(js, gs, s).minCoverage ==
                if 1 <= s || |samples| < j + k then Larger(s, j + k - |samples|)
                else if AllMeet(samples, groups, j) then 1
                else 0
  {
    if CountUncovered(js, gs, s) == 0 {
      if 1 <= s || |samples| < j + k {
        MinBestOnPassHigh(samples, groups, j, k, s, js, gs);
      } else {
        MinBestOnPassLow(samples, groups, j, k, s, js, gs);
      }
    }
  }

  /** On a pass `min_coverage` is `PassMinCoverage`: fixed by the parameters, and, when `s <= 0` and
      `j + k <= n`, by whether every j-subset meets some group. */
  lemma ValidatePassMinCoverage(p: Params, samples: seq<int>, groups: seq<seq<int>>)
    requires Accepted(p, samples, groups) && p.n < Sentinel
    ensures ValidateSpec(p, samples, groups).Returned?
    ensures ValidateSpec(p, samples, groups).value.pass ==>
              ValidateSpec(p, samples, groups).value.minCoverage == PassMinCoverage(p, samples, groups)
  {
    ValidateAccepted(p, samples, groups);
    AcceptedBounds(p, samples, groups);
    TallyPassMinCoverage(samples, groups, p.j, p.k, p.s, Combinations(Sort(samples), p.j), Dedup(Canon(groups)));
  }

  // ---------------------------------------------------------------------------------------------
  // The reported counterexample

  /** The first uncovered entry of `js` is an uncovered entry with every earlier entry covered. */
  lemma {:induction false} FirstUncoveredMeaning(js: seq<seq<int>>, gs: seq<seq<int>>, s: int)
    requires FirstUncovered(js, gs, s).Some?
    ensures exists t :: 0 <= t < |js| && js[t] == FirstUncovered(js, gs, s).value && Uncovered(js[t], gs, s) &&
              forall u :: 0 <= u < t ==> !Uncovered(js[u], gs, s)
  {
    var init := js[..|js| - 1];
    assert forall u :: 0 <= u < |init| ==> init[u] == js[u];
    if FirstUncovered(init, gs, s).Some? {
      FirstUncoveredMeaning(init, gs, s);
    } else {
      CountMatchesFirst(init, gs, s);
      CountZeroIff(init, gs, s);
    }
  }

  /** An ascending j-subset of the samples is one of the enumerated ones. */
  lemma EnumeratedExactly(samples: seq<int>, j: nat, J: seq<int>)
    requires Distinct(samples) && StrictlyIncreasing(J) && IsJSubset(Elems(J), samples, j)
    ensures exists u :: 0 <= u < |Combinations(Sort(samples), j)| && Combinations(Sort(samples), j)[u] == J
  {
    var js := Combinations(Sort(samples), j);
    EnumeratedSubsets(samples, j);
    var u :| 0 <= u < |js| && Elems(js[u]) == Elems(J);
    StrictlyIncreasingUnique(js[u], J);
  }

  /** Every ascending j-subset before the `t`-th enumerated one in list order is enumerated earlier,
      so it is covered when those are. */
  lemma EarlierCovered(samples: seq<int>, groups: seq<seq<int>>, j: nat, s: int,
                       js: seq<seq<int>>, gs: seq<seq<int>>, t: nat)
    requires Distinct(samples) && groups != []
    requires js == Combinations(Sort(samples), j) && gs == Dedup(Canon(groups))
    requires t < |js| && forall u :: 0 <= u < t ==> !Uncovered(js[u], gs, s)
    ensures forall J :: StrictlyIncreasing(J) && IsJSubset(Elems(J), samples, j) && LexLess(J, js[t]) ==>
              CoveredSet(Elems(J), groups, s)
  {
    forall J | StrictlyIncreasing(J) && IsJSubset(Elems(J), samples, j) && LexLess(J, js[t])
      ensures CoveredSet(Elems(J), groups, s)
    {
      EarlierOneCovered(samples, groups, j, s, js, gs, t, J);
    }
  }

  /** One ascending j-subset before the `t`-th enumerated one is covered. */
  lemma EarlierOneCovered(samples: seq<int>, groups: seq<seq<int>>, j: nat, s: int,
                          js: seq<seq<int>>, gs: seq<seq<int>>, t: nat, J: seq<int>)
    requires Distinct(samples) && groups != []
    requires js == Combinations(Sort(samples), j) && gs == Dedup(Canon(groups))
    requires t < |js| && forall u :: 0 <= u < t ==> !Uncovered(js[u], gs, s)
    requires StrictlyIncreasing(J) && IsJSubset(Elems(J), samples, j) && LexLess(J, js[t])
    ensures CoveredSet(Elems(J), groups, s)
  {
    EnumeratedExactly(samples, j, J);
    var u :| 0 <= u < |js| && js[u] == J;
    SortFacts(samples);
    CombinationsLexOrdered(Sort(samples), j);
    LexBefore(js, u, t);
    UncoveredIffNotCovered(J, groups, s);
  }

  /** In a list ordered lexicographically, an entry before another sits at a smaller position. */
  lemma LexBefore(js: seq<seq<int>>, u: nat, t: nat)
    requires u < |js| && t < |js|
    requires forall a, b :: 0 <= a < b < |js| ==> LexLess(js[a], js[b])
    requires LexLess(js[u], js[t])
    ensures u < t
  {
    LexAsymmetric(js[u], js[t]);
  }

  /** The counterexample of a failing tally over the enumerated j-subsets. */
  lemma TallyFirstCounterexample(samples: seq<int>, groups: seq<seq<int>>, j: nat, s: int,
                                 js: seq<seq<int>>, gs: seq<seq<int>>)
    requires Distinct(samples) && groups != []
    requires js == Combinations(Sort(samples), j) && gs == Dedup(Canon(groups))
    ensures var r := Tally(js, gs, s);
      !r.pass ==>
        && r.details.UncoveredExample?
        && StrictlyIncreasing(r.details.j)
        && IsJSubset(Elems(r.details.j), samples, j)
        && !CoveredSet(Elems(r.details.j), groups, s)
        && forall J :: StrictlyIncreasing(J) && IsJSubset(Elems(J), samples, j) && LexLess(J, r.details.j) ==>
             CoveredSet(Elems(J), groups, s)
  {
    if CountUncovered(js, gs, s) != 0 {
      CountMatchesFirst(js, gs, s);
      var first := FirstUncovered(js, gs, s).value;
      assert Tally(js, gs, s).details == UncoveredExample(first);
      FirstUncoveredMeaning(js, gs, s);
      var t :| 0 <= t < |js| && js[t] == first && Uncovered(js[t], gs, s) &&
               forall u :: 0 <= u < t ==> !Uncovered(js[u], gs, s);
      EnumeratedSubsets(samples, j);
      UncoveredIffNotCovered(first, groups, s);
      EarlierCovered(samples, groups, j, s, js, gs, t);
    }
  }

  /** On a failure, `details` names an uncovered j-subset, listed ascending, and every ascending
      j-subset of the samples that comes before it in Python's list order is covered. */
  lemma ValidateFirstCounterexample(p: Params, samples: seq<int>, groups: seq<seq<int>>)
    requires Accepted(p, samples, groups)
    ensures ValidateSpec(p, samples, groups).Returned?
    ensures var r := ValidateSpec(p, samples, groups).value;
      !r.pass ==>
        && r.details.UncoveredExample?
        && StrictlyIncreasing(r.details.j)
        && IsJSubset(Elems(r.details.j), samples, p.j)
        && !CoveredSet(Elems(r.details.j), groups, p.s)
        && forall J :: StrictlyIncreasing(J) && IsJSubset(Elems(J), samples, p.j) && LexLess(J, r.details.j) ==>
             CoveredSet(Elems(J), groups, p.s)
  {
    ValidateAccepted(p, samples, groups);
    TallyFirstCounterexample(samples, groups, p.j, p.s, Combinations(Sort(samples), p.j), Dedup(Canon(groups)));
  }

  // ---------------------------------------------------------------------------------------------
  // What the report does not depend on

  /** Group lists with the same sets of values cover the same sets at every threshold. */
  lemma SameCoverage(a: seq<seq<int>>, b: seq<seq<int>>)
    requires GroupSets(a) == GroupSets(b)
    ensures forall S, c :: CoveredSet(S, a, c) <==> CoveredSet(S, b, c)
  {
    forall S, c
      ensures CoveredSet(S, a, c) <==> CoveredSet(S, b, c)
    {
      CoverageTransfers(S, a, b, c);
      CoverageTransfers(S, b, a, c);
    }
  }

  /** At most one value satisfies the failure characterisation of `min_coverage`. */
  lemma MinCoverageUnique(samples: seq<int>, groups: seq<seq<int>>, j: int, m1: int, m2: int)
    requires IsMinCoverage(m1, samples, groups, j) && IsMinCoverage(m2, samples, groups, j)
    ensures m1 == m2
  {
  }


  /** The characterisation of `min_coverage` carries over between group lists with the same sets of
      values. */
  lemma MinCoverageTransfers(m: int, samples: seq<int>, g1: seq<seq<int>>, g2: seq<seq<int>>, j: int)
    requires GroupSets(g1) == GroupSets(g2)
    requires IsMinCoverage(m, samples, g1, j)
    ensures IsMinCoverage(m, samples, g2, j)
  {
    forall S | IsJSubset(S, samples, j)
      ensures CoveredSet(S, g2, m)
    {
      CoverageTransfers(S, g1, g2, m);
    }
    var S :| IsJSubset(S, samples, j) && !CoveredSet(S, g1, m + 1);
    CoverageTransfers(S, g2, g1, m + 1);
  }

  /** `pass` and `failed_J_count` depend only on the sets of values of the groups: not on their
      order, on the order within a group, or on repeated groups. */
  lemma ValidateGroupOrder(p: Params, samples: seq<int>, g1: seq<seq<int>>, g2: seq<seq<int>>)
    requires Accepted(p, samples, g1) && Accepted(p, samples, g2) && GroupSets(g1) == GroupSets(g2)
    ensures ValidateSpec(p, samples, g1).Returned? && ValidateSpec(p, samples, g2).Returned?
    ensures ValidateSpec(p, samples, g1).value.pass == ValidateSpec(p, samples, g2).value.pass
    ensures ValidateSpec(p, samples, g1).value.failedJCount == ValidateSpec(p, samples, g2).value.failedJCount
  {
    SameCoverage(g1, g2);
    ValidatePassIff(p, samples, g1);
    ValidatePassIff(p, samples, g2);
    ValidateFailedCount(p, samples, g1);
    ValidateFailedCount(p, samples, g2);
    assert UncoveredSubsets(samples, g1, p.j, p.s) == UncoveredSubsets(samples, g2, p.j, p.s);
  }

  /** `min_coverage`, too, depends only on the sets of values of the groups: on a failure it is the
      minimum coverage, and on a pass it is `PassMinCoverage`. */
  lemma ValidateGroupOrderMinCoverage(p: Params, samples: seq<int>, g1: seq<seq<int>>, g2: seq<seq<int>>,
                                      r1: Report, r2: Report)
    requires Accepted(p, samples, g1) && Accepted(p, samples, g2) && GroupSets(g1) == GroupSets(g2)
    requires p.n < Sentinel
    requires ValidateSpec(p, samples, g1) == Returned(r1) && ValidateSpec(p, samples, g2) == Returned(r2)
    ensures r1.pass == r2.pass && r1.minCoverage == r2.minCoverage
  {
    ValidateGroupOrder(p, samples, g1, g2);
    if !r1.pass {
      ValidateMinCoverage(p, samples, g1);
      ValidateMinCoverage(p, samples, g2);
      MinCoverageTransfers(r2.minCoverage, samples, g2, g1, p.j);
      MinCoverageUnique(samples, g1, p.j, r1.minCoverage, r2.minCoverage);
    } else {
      ValidatePassMinCoverage(p, samples, g1);
      ValidatePassMinCoverage(p, samples, g2);
      SameCoverage(g1, g2);
      assert AllMeet(samples, g1, p.j) == AllMeet(samples, g2, p.j);
    }
  }

  lemma CanonAppend(a: seq<seq<int>>, b: seq<seq<int>>)
    ensures Canon(a + b) == Canon(a) + Canon(b)
  {
  }

  lemma CanonInsert(a: seq<seq<int>>, x: seq<int>, b: seq<seq<int>>)
    ensures Canon(a + [x] + b) == Canon(a) + [Sort(x)] + Canon(b)
  {
    CanonAppend(a + [x], b);
    CanonAppend(a, [x]);
    assert Canon([x]) == [Sort(x)];
  }

  /** A group with the same sorted form as another is well formed exactly when that one is. */
  lemma SameSortSameOk(x: seq<int>, y: seq<int>, k: int, sampleSet: set<int>)
    requires Sort(x) == Sort(y)
    ensures GroupOk(x, k, sampleSet) <==> GroupOk(y, k, sampleSet)
  {
    SortFacts(x);
    SortFacts(y);
  }

  /** With every group well formed, a repeat of an earlier sorted form is dropped. */
  lemma KeepsIgnoreDuplicate(a: seq<seq<int>>, x: seq<int>, b: seq<seq<int>>, i: nat)
    requires i < |a| && Sort(a[i]) == Sort(x)
    ensures Dedup(Canon(a + [x] + b)) == Dedup(Canon(a + b))
  {
    CanonInsert(a, x, b);
    CanonAppend(a, b);
    assert Canon(a)[i] == Sort(x);
    DedupSkipsRepeat(Canon(a), Sort(x), Canon(b));
  }

  /** Inserting `x` keeps every group well formed when `x` is. */
  lemma InsertKeepsOk(a: seq<seq<int>>, x: seq<int>, b: seq<seq<int>>, k: int, sampleSet: set<int>)
    requires GroupOk(x, k, sampleSet)
    requires forall t :: 0 <= t < |a + b| ==> GroupOk((a + b)[t], k, sampleSet)
    ensures forall t :: 0 <= t < |a + [x] + b| ==> GroupOk((a + [x] + b)[t], k, sampleSet)
  {
    forall t | 0 <= t < |a + [x] + b|
      ensures GroupOk((a + [x] + b)[t], k, sampleSet)
    {
      if t < |a| {
        assert (a + [x] + b)[t] == (a + b)[t];
      } else if t > |a| {
        assert (a + [x] + b)[t] == (a + b)[t - 1];
      }
    }
  }

  /** A group whose sorted form is already listed changes nothing in the normalisation. */
  lemma NormIgnoresDuplicate(a: seq<seq<int>>, x: seq<int>, b: seq<seq<int>>, k: int, sampleSet: set<int>, i: nat)
    requires i < |a| && Sort(a[i]) == Sort(x)
    ensures NormGroupsSpec(a + [x] + b, k, sampleSet) == NormGroupsSpec(a + b, k, sampleSet)
  {
    var withX, without := a + [x] + b, a + b;
    SameSortSameOk(x, a[i], k, sampleSet);
    if t :| 0 <= t < |without| && !GroupOk(without[t], k, sampleSet) {
      NormGroupsRejects(without, k, sampleSet, t);
      if t < |a| {
        assert withX[t] == without[t];
        NormGroupsRejects(withX, k, sampleSet, t);
      } else {
        assert withX[t + 1] == without[t];
        NormGroupsRejects(withX, k, sampleSet, t + 1);
      }
    } else {
      assert without[i] == a[i];
      InsertKeepsOk(a, x, b, k, sampleSet);
      NormGroupsKeeps(without, k, sampleSet);
      NormGroupsKeeps(withX, k, sampleSet);
      KeepsIgnoreDuplicate(a, x, b, i);
    }
  }

  /** Adding a group equal as a set to one listed earlier never changes the report. */
  lemma ValidateIgnoresDuplicate(p: Params, samples: seq<int>, a: seq<seq<int>>, x: seq<int>, b: seq<seq<int>>, i: nat)
    requires i < |a| && Sort(a[i]) == Sort(x)
    ensures ValidateSpec(p, samples, a + [x] + b) == ValidateSpec(p, samples, a + b)
  {
    if NormSamples(samples).Some? {
      NormIgnoresDuplicate(a, x, b, p.k, Elems(NormSamples(samples).value), i);
    }
  }

  /** Reordering the samples changes neither their normalisation nor their set of values. */
  lemma NormSamplesPermutation(s1: seq<int>, s2: seq<int>)
    requires multiset(s1) == multiset(s2)
    ensures Elems(s1) == Elems(s2) && NormSamples(s1) == NormSamples(s2)
  {
    assert Elems(s1) == Elems(s2) by {
      forall x ensures x in s1 <==> x in s2 {
        assert x in s1 <==> x in multiset(s1);
        assert x in s2 <==> x in multiset(s2);
      }
    }
    assert |s1| == |multiset(s1)| == |multiset(s2)| == |s2|;
    DistinctCard(s1);
    DistinctCard(s2);
    if Distinct(s1) {
      SortFacts(s1);
      SortFacts(s2);
      StrictlyIncreasingUnique(Sort(s1), Sort(s2));
    }
  }

  /** The report does not depend on the order of the samples. */
  lemma ValidateSamplesOrder(p: Params, s1: seq<int>, s2: seq<int>, groups: seq<seq<int>>)
    requires multiset(s1) == multiset(s2)
    ensures ValidateSpec(p, s1, groups) == ValidateSpec(p, s2, groups)
  {
    NormSamplesPermutation(s1, s2);
  }
}
