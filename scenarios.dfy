/** The two cases of the validator's unit tests (test_validator.py), derived from the general
    properties of `validate`. */
module Scenarios {
  import opened Common
  import opened Seqs
  import opened Validator
  import opened ValidatorProps
  import AlgSample

  const TestParams := Params(7, 6, 5, 5)

  const Seven: seq<int> := [1, 2, 3, 4, 5, 6, 7]

  /** The seven 6-subsets of 1..7; the one at index `i` leaves out `i + 1`. */
  const AllSixes: seq<seq<int>> := [
    [2, 3, 4, 5, 6, 7],
    [1, 3, 4, 5, 6, 7],
    [1, 2, 4, 5, 6, 7],
    [1, 2, 3, 5, 6, 7],
    [1, 2, 3, 4, 6, 7],
    [1, 2, 3, 4, 5, 7],
    [1, 2, 3, 4, 5, 6]
  ]

  const OneSix: seq<seq<int>> := [[1, 2, 3, 4, 5, 6]]

  lemma SevenFacts()
    ensures Distinct(Seven) && Elems(Seven) == {1, 2, 3, 4, 5, 6, 7}
  {
    assert forall x :: x in Seven <==> 1 <= x <= 7;
  }

  /** The group at index `i` holds every value of 1..7 but `i + 1`, each once. */
  lemma AllSixesFacts(i: nat)
    requires i < 7
    ensures |AllSixes[i]| == 6 && Distinct(AllSixes[i])
    ensures Elems(AllSixes[i]) == {1, 2, 3, 4, 5, 6, 7} - {i + 1}
  {
    AllSixesDistinct(i);
    AllSixesElems(i);
  }

  lemma AllSixesDistinct(i: nat)
    requires i < 7
    ensures |AllSixes[i]| == 6 && Distinct(AllSixes[i])
  {
    assert StrictlyIncreasing(AllSixes[i]);
  }

  lemma AllSixesElems(i: nat)
    requires i < 7
    ensures Elems(AllSixes[i]) == {1, 2, 3, 4, 5, 6, 7} - {i + 1}
  {
    var g := AllSixes[i];
    assert forall x :: x in g <==> 1 <= x <= 7 && x != i + 1;
  }

  lemma AllSixesAccepted()
    ensures Accepted(TestParams, Seven, AllSixes)
  {
    SevenFacts();
    forall i | 0 <= i < |AllSixes| ensures GroupOk(AllSixes[i], 6, Elems(Seven)) {
      AllSixesFacts(i);
      DistinctCard(AllSixes[i]);
    }
  }

  /** A set of fewer than seven values of 1..7 misses one of them. */
  lemma MissingValue(S: set<int>) returns (a: int)
    requires S <= Elems(Seven) && |S| < 7
    ensures a in Elems(Seven) && a !in S
  {
    DistinctCard(Seven);
    if Elems(Seven) <= S {
      Combos.SubsetCard(Elems(Seven), S);
      assert false;
    }
    a :| a in Elems(Seven) && a !in S;
  }

  /** Every 5-subset of 1..7 misses some value `a`, and the group leaving out `a` holds all of it. */
  lemma AllSixesCover(S: set<int>)
    requires IsJSubset(S, Seven, 5)
    ensures CoveredSet(S, AllSixes, 5)
  {
    var a := MissingValue(S);
    SevenFacts();
    AllSixesElems(a - 1);
    var g := AllSixes[a - 1];
    assert S <= Elems(g);
    assert S * Elems(g) == S;
  }

  /** `test_pass_case`: the seven 6-subsets of 1..7 cover every 5-subset in at least 5 values. */
  lemma PassCase()
    ensures ValidateSpec(TestParams, Seven, AllSixes).Returned?
    ensures var r := ValidateSpec(TestParams, Seven, AllSixes).value;
      r.pass && r.failedJCount == 0 && r.minCoverage >= 5
  {
    AllSixesAccepted();
    ValidatePassIff(TestParams, Seven, AllSixes);
    forall S | IsJSubset(S, Seven, 5) ensures CoveredSet(S, AllSixes, 5) {
      AllSixesCover(S);
    }
    ValidateFailedCount(TestParams, Seven, AllSixes);
    assert UncoveredSubsets(Seven, AllSixes, 5, 5) == {};
    ValidateMinCoverage(TestParams, Seven, AllSixes);
  }

  lemma OneSixElems()
    ensures Distinct(OneSix[0]) && Elems(OneSix[0]) == {1, 2, 3, 4, 5, 6}
  {
    var g := OneSix[0];
    assert StrictlyIncreasing(g);
    assert forall x :: x in g <==> 1 <= x <= 6;
  }

  lemma OneSixAccepted()
    ensures Accepted(TestParams, Seven, OneSix)
  {
    SevenFacts();
    OneSixElems();
    DistinctCard(OneSix[0]);
  }

  /** {3, 4, 5, 6, 7} is a 5-subset of the samples. */
  lemma LastFive()
    ensures IsJSubset({3, 4, 5, 6, 7}, Seven, 5)
  {
    SevenFacts();
    var five := [3, 4, 5, 6, 7];
    assert Elems(five) == {3, 4, 5, 6, 7} by {
      assert forall x :: x in five <==> 3 <= x <= 7;
    }
    assert StrictlyIncreasing(five);
    DistinctCard(five);
  }

  /** The group 1..6 shares only 4 values with {3, 4, 5, 6, 7}. */
  lemma OneSixMisses()
    ensures !CoveredSet({3, 4, 5, 6, 7}, OneSix, 5)
  {
    OneSixElems();
    var shared := [3, 4, 5, 6];
    assert Elems(shared) == {3, 4, 5, 6} by {
      assert forall x :: x in shared <==> 3 <= x <= 6;
    }
    assert StrictlyIncreasing(shared);
    DistinctCard(shared);
    assert {3, 4, 5, 6, 7} * Elems(OneSix[0]) == Elems(shared);
  }

  /** A 5-subset of 1..7 without 7 lies inside the group 1..6. */
  lemma WithoutSevenCovered(S: set<int>)
    requires IsJSubset(S, Seven, 5) && 7 !in S
    ensures CoveredSet(S, OneSix, 5)
  {
    SevenFacts();
    OneSixElems();
    assert S * Elems(OneSix[0]) == S;
  }

  /** `test_fail_case`: the single group 1..6 leaves {3, 4, 5, 6, 7} covered in only 4 values, and
      the first uncovered 5-subset reported holds 7. */
  lemma FailCase()
    ensures ValidateSpec(TestParams, Seven, OneSix).Returned?
    ensures var r := ValidateSpec(TestParams, Seven, OneSix).value;
      && !r.pass && r.failedJCount > 0 && r.minCoverage < 5
      && r.details.UncoveredExample? && 7 in r.details.j
  {
    OneSixAccepted();
    LastFive();
    OneSixMisses();
    ValidatePassIff(TestParams, Seven, OneSix);
    ValidateFailedCount(TestParams, Seven, OneSix);
    assert {3, 4, 5, 6, 7} in UncoveredSubsets(Seven, OneSix, 5, 5);
    ValidateMinCoverage(TestParams, Seven, OneSix);
    ValidateFirstCounterexample(TestParams, Seven, OneSix);
    var J := ValidateSpec(TestParams, Seven, OneSix).value.details.j;
    if 7 !in Elems(J) {
      WithoutSevenCovered(Elems(J));
    }
  }

  /** The legacy entry point, with accepted parameters and the custom samples 1..7, never reaches its
      greedy loop: it raises `TypeError` where a cover of the 5-subsets was intended. */
  lemma LegacyEntryRaises()
    ensures AlgSample.ValidateParams(45, 7, 6, 5, 5)
    ensures AlgSample.GenerateInitialNSamples(45, 7, Seven) == Returned(Elems(Seven))
    ensures AlgSample.FindMinValidKSubsets(45, 7, 6, 5, 5, Seven) == Raised(TypeError)
  {
    SevenFacts();
    DistinctCard(Seven);
    assert AlgSample.InPool(Seven, 45);
  }
}
