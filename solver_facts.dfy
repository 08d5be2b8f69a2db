/** What the greedy solver's tables mean, and why what it returns covers what can be covered. */
module SolverFacts {
  import opened Common
  import opened Seqs
  import opened Combos
  import opened Validator
  import opened ValidatorProps

  /** The indices `0 .. n-1`: `set(range(n))`. */
  function Range(n: nat): (r: set<nat>)
    ensures forall x: int :: x in r <==> 0 <= x < n
    ensures |r| == n
  {
    if n == 0 then {} else Range(n - 1) + {n - 1}
  }

  /** The values the solver draws its subsets from: `set(samples)`, enumerated in ascending order. */
  function Universe(samples: seq<int>): (u: seq<int>)
    ensures StrictlyIncreasing(u) && Distinct(u)
    ensures Elems(u) == Elems(samples) && |u| == |Elems(samples)|
  {
    var d := Dedup(samples);
    SortFacts(d);
    DistinctCard(d);
    Sort(d)
  }

  /** `l` lists, in ascending order, exactly the indices of the j-subsets `js` that share at least
      `s` values with the k-subset `K`. */
  predicate IsCoverList(l: seq<nat>, K: seq<int>, js: seq<seq<int>>, s: int)
  {
    && StrictlyIncreasing(l)
    && (forall t :: 0 <= t < |l| ==> l[t] < |js|)
    && (forall x :: 0 <= x < |js| ==> (x in l <==> Overlap(K, js[x]) >= s))
  }

  /** The table from k-subset index to the j-subsets it covers: it has an entry for every k-subset
      that covers at least one j-subset and for no other. */
  predicate CoverageTable(cov: map<nat, seq<nat>>, ks: seq<seq<int>>, js: seq<seq<int>>, s: int)
  {
    && (forall x :: x in cov ==> x < |ks| && cov[x] != [] && IsCoverList(cov[x], ks[x], js, s))
    && (forall x :: 0 <= x < |ks| && x !in cov ==> forall y :: 0 <= y < |js| ==> Overlap(ks[x], js[y]) < s)
  }

  /** The still uncovered j-subsets that the k-subset with index `x` would cover. */
  function NewCover(cov: map<nat, seq<nat>>, x: nat, uncovered: set<nat>): set<nat>
    requires x in cov
  {
    uncovered * Elems(cov[x])
  }

  /** `S` is a `k`-element subset of the sample values. */
  predicate IsKSubset(K: set<int>, samples: seq<int>, k: int)
  {
    K <= Elems(samples) && |K| == k
  }

  /** Some `k`-element subset of the sample values shares at least `s` values with `S`. */
  ghost predicate Coverable(S: set<int>, samples: seq<int>, k: int, s: int)
  {
    exists K :: IsKSubset(K, samples, k) && |S * K| >= s
  }

  /** When `s <= j <= k` and there are at least `k` distinct sample values, every j-subset can be
      covered: enlarge it to a k-subset. */
  lemma EverySubsetCoverable(S: set<int>, samples: seq<int>, j: int, k: int, s: int)
    requires 0 <= j && s <= j <= k <= |Elems(samples)|
    requires IsJSubset(S, samples, j)
    ensures Coverable(S, samples, k, s)
  {
    Enlarge(S, Elems(samples), k);
    var K :| S <= K <= Elems(samples) && |K| == k;
    assert S * K == S;
    assert IsKSubset(K, samples, k);
  }

  /** Where the enumeration lists a given subset. */
  lemma ListedAt(xs: seq<int>, r: nat, S: set<int>) returns (i: nat)
    requires Distinct(xs) && S <= Elems(xs) && |S| == r
    ensures i < |Combinations(xs, r)| && Elems(Combinations(xs, r)[i]) == S
  {
    CombinationsComplete(xs, r, S);
    i :| 0 <= i < |Combinations(xs, r)| && Elems(Combinations(xs, r)[i]) == S;
  }

  /** When the loop stops, no j-subset that a listed k-subset covers is left uncovered. */
  lemma StaysCovered(cov: map<nat, seq<nat>>, uncovered: set<nat>, x: nat, y: nat)
    requires uncovered == {} || forall x' :: x' in cov ==> NewCover(cov, x', uncovered) == {}
    requires x in cov && y in cov[x]
    ensures y !in uncovered
  {
    if uncovered != {} {
      var c := NewCover(cov, x, uncovered);
      assert c == {};
      assert y in Elems(cov[x]);
      assert y in uncovered ==> y in c;
    }
  }

  /** The state in which the greedy loop leaves its selection: every selected index has an entry
      in the table, every j-subset no longer uncovered is covered by a selected k-subset, and
      either nothing is left uncovered or no k-subset covers anything still uncovered. */
  predicate GreedyStopped(cov: map<nat, seq<nat>>, nj: nat, selected: seq<nat>, uncovered: set<nat>)
  {
    && (forall t :: 0 <= t < |selected| ==> selected[t] in cov)
    && (forall y :: 0 <= y < nj && y !in uncovered ==>
          exists t :: 0 <= t < |selected| && y in cov[selected[t]])
    && (uncovered == {} || forall x :: x in cov ==> NewCover(cov, x, uncovered) == {})
  }

  /** What holds after scanning the table entries below `x` for the one covering the most uncovered
      j-subsets: `best` is the first entry attaining the largest new cover so far, or `None` when none
      of them covers anything new. */
  predicate PickState(cov: map<nat, seq<nat>>, uncovered: set<nat>, x: nat, best: Option<nat>, bestCov: set<nat>)
  {
    && (best.None? ==> bestCov == {} && forall x' :: x' in cov && x' < x ==> NewCover(cov, x', uncovered) == {})
    && (best.Some? ==> best.value in cov && best.value < x)
    && (best.Some? ==> bestCov == NewCover(cov, best.value, uncovered) && bestCov != {})
    && (best.Some? ==> forall x' :: x' in cov && x' < x ==> |NewCover(cov, x', uncovered)| <= |bestCov|)
    && (best.Some? ==> forall x' :: x' in cov && x' < best.value ==> |NewCover(cov, x', uncovered)| < |bestCov|)
  }

  /** One entry scanned: it replaces the best so far only when its new cover is strictly larger. */
  lemma PickStep(cov: map<nat, seq<nat>>, uncovered: set<nat>, x: nat, best: Option<nat>, bestCov: set<nat>,
                 best': Option<nat>, bestCov': set<nat>)
    requires PickState(cov, uncovered, x, best, bestCov)
    requires x !in cov ==> best' == best && bestCov' == bestCov
    requires x in cov && |NewCover(cov, x, uncovered)| > |bestCov| ==>
               best' == Some(x) && bestCov' == NewCover(cov, x, uncovered)
    requires x in cov && |NewCover(cov, x, uncovered)| <= |bestCov| ==> best' == best && bestCov' == bestCov
    ensures PickState(cov, uncovered, x + 1, best', bestCov')
  {
  }

  /** What holds before every round of the greedy loop: besides what `GreedyStopped` says of the
      covered j-subsets, a selected k-subset covers nothing still uncovered (so none is selected
      twice), and each round has covered at least one j-subset. */
  predicate GreedyInvariant(cov: map<nat, seq<nat>>, nj: nat, selected: seq<nat>, uncovered: set<nat>)
  {
    && (forall t :: 0 <= t < |selected| ==> selected[t] in cov)
    && (forall y :: 0 <= y < nj && y !in uncovered ==>
          exists t :: 0 <= t < |selected| && y in cov[selected[t]])
    && (forall t :: 0 <= t < |selected| ==> NewCover(cov, selected[t], uncovered) == {})
    && Distinct(selected)
    && uncovered <= Range(nj) && |selected| + |uncovered| <= nj
  }

  /** Before the first round nothing is selected and everything is uncovered. */
  lemma GreedyStart(cov: map<nat, seq<nat>>, nj: nat)
    ensures GreedyInvariant(cov, nj, [], Range(nj))
  {
  }

  /** One round keeps the invariant: the k-subset picked covers something still uncovered, so it was
      not picked before, and what it covers is no longer uncovered. */
  lemma GreedyStep(cov: map<nat, seq<nat>>, nj: nat, selected: seq<nat>, uncovered: set<nat>, x: nat, c: set<nat>)
    requires GreedyInvariant(cov, nj, selected, uncovered)
    requires x in cov && c == NewCover(cov, x, uncovered) && c != {}
    ensures GreedyInvariant(cov, nj, selected + [x], uncovered - c)
    ensures |uncovered - c| < |uncovered|
  {
    StepFresh(cov, selected, uncovered, x, c);
    StepDisjoint(cov, selected, uncovered, x, c);
    StepCovers(cov, nj, selected, uncovered, x, c);
    assert uncovered == (uncovered - c) + c;
  }

  lemma StepFresh(cov: map<nat, seq<nat>>, selected: seq<nat>, uncovered: set<nat>, x: nat, c: set<nat>)
    requires Distinct(selected) && forall t :: 0 <= t < |selected| ==> selected[t] in cov
    requires forall t :: 0 <= t < |selected| ==> NewCover(cov, selected[t], uncovered) == {}
    requires x in cov && c == NewCover(cov, x, uncovered) && c != {}
    ensures Distinct(selected + [x])
  {
    forall t | 0 <= t < |selected| ensures selected[t] != x {
      assert NewCover(cov, selected[t], uncovered) == {};
    }
  }

  lemma StepDisjoint(cov: map<nat, seq<nat>>, selected: seq<nat>, uncovered: set<nat>, x: nat, c: set<nat>)
    requires forall t :: 0 <= t < |selected| ==> selected[t] in cov
    requires forall t :: 0 <= t < |selected| ==> NewCover(cov, selected[t], uncovered) == {}
    requires x in cov && c == NewCover(cov, x, uncovered)
    ensures forall t :: 0 <= t < |selected + [x]| ==> NewCover(cov, (selected + [x])[t], uncovered - c) == {}
  {
    var sel' := selected + [x];
    forall t | 0 <= t < |sel'| ensures NewCover(cov, sel'[t], uncovered - c) == {} {
      if t < |selected| {
        assert sel'[t] == selected[t];
        assert NewCover(cov, selected[t], uncovered) == {};
      }
    }
  }

  lemma StepCovers(cov: map<nat, seq<nat>>, nj: nat, selected: seq<nat>, uncovered: set<nat>, x: nat, c: set<nat>)
    requires forall t :: 0 <= t < |selected| ==> selected[t] in cov
    requires forall y :: 0 <= y < nj && y !in uncovered ==>
               exists t :: 0 <= t < |selected| && y in cov[selected[t]]
    requires x in cov && c == NewCover(cov, x, uncovered)
    ensures forall y :: 0 <= y < nj && y !in uncovered - c ==>
              exists t :: 0 <= t < |selected + [x]| && y in cov[(selected + [x])[t]]
  {
    var sel' := selected + [x];
    forall y | 0 <= y < nj && y !in uncovered - c
      ensures exists t :: 0 <= t < |sel'| && y in cov[sel'[t]]
    {
      if y in uncovered {
        assert y in Elems(cov[x]);
        assert sel'[|selected|] == x;
      } else {
        var t :| 0 <= t < |selected| && y in cov[selected[t]];
        assert sel'[t] == selected[t];
      }
    }
  }

  /** When the loop stops the invariant gives its final state. */
  lemma GreedyEnd(cov: map<nat, seq<nat>>, nj: nat, selected: seq<nat>, uncovered: set<nat>)
    requires GreedyInvariant(cov, nj, selected, uncovered)
    requires uncovered == {} || forall x :: x in cov ==> NewCover(cov, x, uncovered) == {}
    ensures GreedyStopped(cov, nj, selected, uncovered)
  {
  }

  // ---------------------------------------------------------------------------------------------
  // The greedy rule, round by round

  /** The rule of one round: `x` is the table entry whose new cover is the largest, the smallest
      such index, and that cover is not empty. */
  predicate IsGreedyPick(cov: map<nat, seq<nat>>, uncovered: set<nat>, x: nat)
  {
    && x in cov && NewCover(cov, x, uncovered) != {}
    && (forall x' :: x' in cov ==> |NewCover(cov, x', uncovered)| <= |NewCover(cov, x, uncovered)|)
    && (forall x' :: x' in cov && x' < x ==> |NewCover(cov, x', uncovered)| < |NewCover(cov, x, uncovered)|)
  }

  /** `trace[t]` is the uncovered set before round `t`: every j-subset index at first, and each
      round removes what its greedy pick newly covers. */
  predicate GreedyRounds(cov: map<nat, seq<nat>>, nj: nat, selected: seq<nat>, trace: seq<set<nat>>)
  {
    && |trace| == |selected| + 1 && trace[0] == Range(nj)
    && forall t {:trigger selected[t]} :: 0 <= t < |selected| ==>
         && IsGreedyPick(cov, trace[t], selected[t])
         && trace[t + 1] == trace[t] - NewCover(cov, selected[t], trace[t])
  }

  /** One more round by the rule extends the trace. */
  lemma RoundsStep(cov: map<nat, seq<nat>>, nj: nat, selected: seq<nat>, trace: seq<set<nat>>, x: nat)
    requires GreedyRounds(cov, nj, selected, trace)
    requires IsGreedyPick(cov, trace[|selected|], x)
    ensures GreedyRounds(cov, nj, selected + [x],
                         trace + [trace[|selected|] - NewCover(cov, x, trace[|selected|])])
  {
    var sel', tr' := selected + [x], trace + [trace[|selected|] - NewCover(cov, x, trace[|selected|])];
    forall t | 0 <= t < |sel'|
      ensures IsGreedyPick(cov, tr'[t], sel'[t]) && tr'[t + 1] == tr'[t] - NewCover(cov, sel'[t], tr'[t])
    {
      assert tr'[t] == trace[t];
      if t < |selected| {
        assert sel'[t] == selected[t] && tr'[t + 1] == trace[t + 1];
      }
    }
  }

  /** The j-subsets among `uncovered` that the k-subset `K` covers, computed from the subsets
      themselves rather than from the table. */
  function Gain(K: seq<int>, js: seq<seq<int>>, s: int, uncovered: set<nat>): set<nat>
  {
    set y | y in uncovered && y < |js| && Overlap(K, js[y]) >= s
  }

  /** The rule of one round over the k-subsets: `ks[x]` newly covers the most j-subsets, and no
      k-subset before it covers as many. */
  predicate GreedyChoice(ks: seq<seq<int>>, js: seq<seq<int>>, s: int, uncovered: set<nat>, x: nat)
  {
    && x < |ks| && Gain(ks[x], js, s, uncovered) != {}
    && (forall x' :: 0 <= x' < |ks| ==> |Gain(ks[x'], js, s, uncovered)| <= |Gain(ks[x], js, s, uncovered)|)
    && (forall x' :: 0 <= x' < x ==> |Gain(ks[x'], js, s, uncovered)| < |Gain(ks[x], js, s, uncovered)|)
  }

  /** A complete greedy run over the k-subsets `ks` and j-subsets `js`: every round picks by the
      rule, and at the end no k-subset covers any j-subset still uncovered. */
  predicate GreedySelection(ks: seq<seq<int>>, js: seq<seq<int>>, s: int, selected: seq<nat>, trace: seq<set<nat>>)
  {
    && |trace| == |selected| + 1 && trace[0] == Range(|js|)
    && (forall t {:trigger selected[t]} :: 0 <= t < |selected| ==>
          && GreedyChoice(ks, js, s, trace[t], selected[t])
          && trace[t + 1] == trace[t] - Gain(ks[selected[t]], js, s, trace[t]))
    && (forall x :: 0 <= x < |ks| ==> Gain(ks[x], js, s, trace[|selected|]) == {})
  }

  /** `groups` are the k-subsets picked, in the order they were picked. */
  predicate ReadBack(ks: seq<seq<int>>, selected: seq<nat>, groups: seq<seq<int>>)
  {
    |groups| == |selected| && forall t :: 0 <= t < |selected| ==> selected[t] < |ks| && groups[t] == ks[selected[t]]
  }

  /** `groups` are what a greedy run over `ks` and `js` picks. */
  ghost predicate GreedyGroups(ks: seq<seq<int>>, js: seq<seq<int>>, s: int, groups: seq<seq<int>>)
  {
    exists selected, trace :: GreedySelection(ks, js, s, selected, trace) && ReadBack(ks, selected, groups)
  }

  /** A table entry's new cover is the k-subset's gain, and a k-subset without an entry gains nothing. */
  lemma GainMatches(cov: map<nat, seq<nat>>, ks: seq<seq<int>>, js: seq<seq<int>>, s: int, uncovered: set<nat>, x: nat)
    requires CoverageTable(cov, ks, js, s) && x < |ks|
    ensures x in cov ==> NewCover(cov, x, uncovered) == Gain(ks[x], js, s, uncovered)
    ensures x !in cov ==> Gain(ks[x], js, s, uncovered) == {}
  {
    if x in cov {
      assert IsCoverList(cov[x], ks[x], js, s);
      forall y | y in NewCover(cov, x, uncovered) ensures y in Gain(ks[x], js, s, uncovered) {
        var t :| 0 <= t < |cov[x]| && cov[x][t] == y;
      }
    }
  }

  /** A pick by the table's rule is a pick by the rule over the k-subsets. */
  lemma PickIsChoice(cov: map<nat, seq<nat>>, ks: seq<seq<int>>, js: seq<seq<int>>, s: int, uncovered: set<nat>, x: nat)
    requires CoverageTable(cov, ks, js, s) && IsGreedyPick(cov, uncovered, x)
    ensures GreedyChoice(ks, js, s, uncovered, x)
  {
    GainMatches(cov, ks, js, s, uncovered, x);
    forall x' | 0 <= x' < |ks|
      ensures |Gain(ks[x'], js, s, uncovered)| <= |Gain(ks[x], js, s, uncovered)|
      ensures x' < x ==> |Gain(ks[x'], js, s, uncovered)| < |Gain(ks[x], js, s, uncovered)|
    {
      GainMatches(cov, ks, js, s, uncovered, x');
    }
  }

  /** A round by the table's rule, read over the k-subsets. */
  lemma RoundIsChoice(cov: map<nat, seq<nat>>, ks: seq<seq<int>>, js: seq<seq<int>>, s: int, uncovered: set<nat>, x: nat)
    requires CoverageTable(cov, ks, js, s) && IsGreedyPick(cov, uncovered, x)
    ensures GreedyChoice(ks, js, s, uncovered, x)
    ensures uncovered - NewCover(cov, x, uncovered) == uncovered - Gain(ks[x], js, s, uncovered)
  {
    PickIsChoice(cov, ks, js, s, uncovered, x);
    GainMatches(cov, ks, js, s, uncovered, x);
  }

  /** Where the loop stops no k-subset gains anything. */
  lemma StopIsFinal(cov: map<nat, seq<nat>>, ks: seq<seq<int>>, js: seq<seq<int>>, s: int, uncovered: set<nat>)
    requires CoverageTable(cov, ks, js, s)
    requires uncovered == {} || forall x :: x in cov ==> NewCover(cov, x, uncovered) == {}
    ensures forall x :: 0 <= x < |ks| ==> Gain(ks[x], js, s, uncovered) == {}
  {
    forall x | 0 <= x < |ks| ensures Gain(ks[x], js, s, uncovered) == {} {
      GainMatches(cov, ks, js, s, uncovered, x);
    }
  }

  /** Every round the loop went through picks by the rule over the k-subsets. */
  lemma RoundsAreChoices(cov: map<nat, seq<nat>>, ks: seq<seq<int>>, js: seq<seq<int>>, s: int,
                         selected: seq<nat>, trace: seq<set<nat>>)
    requires CoverageTable(cov, ks, js, s) && GreedyRounds(cov, |js|, selected, trace)
    ensures forall t {:trigger selected[t]} :: 0 <= t < |selected| ==>
              && GreedyChoice(ks, js, s, trace[t], selected[t])
              && trace[t + 1] == trace[t] - Gain(ks[selected[t]], js, s, trace[t])
  {
    forall t | 0 <= t < |selected|
      ensures GreedyChoice(ks, js, s, trace[t], selected[t])
      ensures trace[t + 1] == trace[t] - Gain(ks[selected[t]], js, s, trace[t])
    {
      RoundIsChoice(cov, ks, js, s, trace[t], selected[t]);
    }
  }

  /** The rounds the loop went through, read over the k-subsets, are a complete greedy run. */
  lemma RoundsAreSelection(cov: map<nat, seq<nat>>, ks: seq<seq<int>>, js: seq<seq<int>>, s: int,
                           selected: seq<nat>, trace: seq<set<nat>>)
    requires CoverageTable(cov, ks, js, s) && GreedyRounds(cov, |js|, selected, trace)
    requires trace[|selected|] == {} || forall x :: x in cov ==> NewCover(cov, x, trace[|selected|]) == {}
    ensures GreedySelection(ks, js, s, selected, trace)
  {
    RoundsAreChoices(cov, ks, js, s, selected, trace);
    StopIsFinal(cov, ks, js, s, trace[|selected|]);
  }

  /** What the greedy loop keeps: the invariant on its selection, and the rounds so far with the
      current uncovered set last. */
  predicate GreedyLoop(cov: map<nat, seq<nat>>, nj: nat, selected: seq<nat>, uncovered: set<nat>, trace: seq<set<nat>>)
  {
    GreedyInvariant(cov, nj, selected, uncovered) && GreedyRounds(cov, nj, selected, trace) && trace[|selected|] == uncovered
  }

  /** Before the first round. */
  lemma LoopStart(cov: map<nat, seq<nat>>, nj: nat)
    ensures GreedyLoop(cov, nj, [], Range(nj), [Range(nj)])
  {
    GreedyStart(cov, nj);
  }

  /** One round by the rule keeps what the loop keeps, and strictly shrinks the uncovered set. */
  lemma LoopStep(cov: map<nat, seq<nat>>, nj: nat, selected: seq<nat>, uncovered: set<nat>, trace: seq<set<nat>>,
                 x: nat, c: set<nat>)
    requires GreedyLoop(cov, nj, selected, uncovered, trace)
    requires IsGreedyPick(cov, uncovered, x) && c == NewCover(cov, x, uncovered)
    ensures GreedyLoop(cov, nj, selected + [x], uncovered - c, trace + [uncovered - c])
    ensures |uncovered - c| < |uncovered|
  {
    GreedyStep(cov, nj, selected, uncovered, x, c);
    RoundsStep(cov, nj, selected, trace, x);
  }

  /** The loop's selection, read back as groups, is what a greedy run over the k-subsets picks. */
  lemma SelectionIsGreedy(cov: map<nat, seq<nat>>, ks: seq<seq<int>>, js: seq<seq<int>>, s: int,
                          selected: seq<nat>, trace: seq<set<nat>>, groups: seq<seq<int>>)
    requires CoverageTable(cov, ks, js, s) && GreedyRounds(cov, |js|, selected, trace)
    requires GreedyStopped(cov, |js|, selected, trace[|selected|])
    requires |groups| == |selected| && forall t :: 0 <= t < |selected| ==> groups[t] == ks[selected[t]]
    ensures GreedyGroups(ks, js, s, groups)
  {
    RoundsAreSelection(cov, ks, js, s, selected, trace);
    assert ReadBack(ks, selected, groups);
  }

  /** At most one k-subset satisfies the rule of a round. */
  lemma ChoiceUnique(ks: seq<seq<int>>, js: seq<seq<int>>, s: int, uncovered: set<nat>, x1: nat, x2: nat)
    requires GreedyChoice(ks, js, s, uncovered, x1) && GreedyChoice(ks, js, s, uncovered, x2)
    ensures x1 == x2
  {
  }

  /** Two greedy runs agree on their first `t` rounds. */
  lemma {:induction false} RunsAgree(ks: seq<seq<int>>, js: seq<seq<int>>, s: int, sel1: seq<nat>, tr1: seq<set<nat>>,
                                     sel2: seq<nat>, tr2: seq<set<nat>>, t: nat)
    requires GreedySelection(ks, js, s, sel1, tr1) && GreedySelection(ks, js, s, sel2, tr2)
    requires t <= |sel1| && t <= |sel2|
    ensures tr1[t] == tr2[t] && sel1[..t] == sel2[..t]
  {
    if t > 0 {
      RunsAgree(ks, js, s, sel1, tr1, sel2, tr2, t - 1);
      ChoiceUnique(ks, js, s, tr1[t - 1], sel1[t - 1], sel2[t - 1]);
      assert sel1[..t] == sel1[..t - 1] + [sel1[t - 1]];
      assert sel2[..t] == sel2[..t - 1] + [sel2[t - 1]];
    }
  }

  /** Before a round the run still makes, some k-subset covers something new. */
  lemma RoundLeft(ks: seq<seq<int>>, js: seq<seq<int>>, s: int, sel: seq<nat>, tr: seq<set<nat>>, t: nat)
    requires GreedySelection(ks, js, s, sel, tr) && t < |sel|
    ensures exists x :: 0 <= x < |ks| && Gain(ks[x], js, s, tr[t]) != {}
  {
    assert GreedyChoice(ks, js, s, tr[t], sel[t]);
  }

  /** The greedy rule determines its run: two complete runs pick the same k-subsets in the same order. */
  lemma SelectionUnique(ks: seq<seq<int>>, js: seq<seq<int>>, s: int, sel1: seq<nat>, tr1: seq<set<nat>>,
                        sel2: seq<nat>, tr2: seq<set<nat>>)
    requires GreedySelection(ks, js, s, sel1, tr1) && GreedySelection(ks, js, s, sel2, tr2)
    ensures sel1 == sel2
  {
    if |sel1| < |sel2| {
      RunsAgree(ks, js, s, sel1, tr1, sel2, tr2, |sel1|);
      RoundLeft(ks, js, s, sel2, tr2, |sel1|);
      assert false;
    } else if |sel2| < |sel1| {
      RunsAgree(ks, js, s, sel1, tr1, sel2, tr2, |sel2|);
      RoundLeft(ks, js, s, sel1, tr1, |sel2|);
      assert false;
    } else {
      RunsAgree(ks, js, s, sel1, tr1, sel2, tr2, |sel1|);
      assert sel1 == sel1[..|sel1|] && sel2 == sel2[..|sel2|];
    }
  }

  /** Only one list of groups is what a greedy run picks. */
  lemma GreedyGroupsUnique(ks: seq<seq<int>>, js: seq<seq<int>>, s: int, g1: seq<seq<int>>, g2: seq<seq<int>>)
    requires GreedyGroups(ks, js, s, g1) && GreedyGroups(ks, js, s, g2)
    ensures g1 == g2
  {
    var sel1, tr1 :| GreedySelection(ks, js, s, sel1, tr1) && ReadBack(ks, sel1, g1);
    var sel2, tr2 :| GreedySelection(ks, js, s, sel2, tr2) && ReadBack(ks, sel2, g2);
    SelectionUnique(ks, js, s, sel1, tr1, sel2, tr2);
  }

  /** A j-subset that some k-subset covers is covered by a selected k-subset once the loop stops. */
  lemma SelectedCovers(ks: seq<seq<int>>, js: seq<seq<int>>, s: int, cov: map<nat, seq<nat>>,
                       selected: seq<nat>, uncovered: set<nat>, x: nat, y: nat) returns (t: nat)
    requires CoverageTable(cov, ks, js, s) && GreedyStopped(cov, |js|, selected, uncovered)
    requires x < |ks| && y < |js| && Overlap(ks[x], js[y]) >= s
    ensures t < |selected| && Overlap(ks[selected[t]], js[y]) >= s
  {
    assert x in cov && y in cov[x];
    StaysCovered(cov, uncovered, x, y);
    t :| 0 <= t < |selected| && y in cov[selected[t]];
  }

  /** The intersection size of two groups depends only on their sets of values. */
  lemma OverlapOfSets(a: seq<int>, b: seq<int>, A: set<int>, B: set<int>)
    requires Elems(a) == A && Elems(b) == B
    ensures Overlap(a, b) == |B * A|
  {
    assert A * B == B * A;
  }

  /** The greedy selection, read back as groups, covers every j-subset that some k-subset covers:
      a j-subset still uncovered when the loop stops is covered by no k-subset at all. */
  lemma SelectionCovers(samples: seq<int>, u: seq<int>, j: nat, k: nat, s: int, js: seq<seq<int>>,
                        ks: seq<seq<int>>, cov: map<nat, seq<nat>>, selected: seq<nat>,
                        uncovered: set<nat>, groups: seq<seq<int>>, S: set<int>)
    requires u == Universe(samples) && js == Combinations(u, j) && ks == Combinations(u, k)
    requires CoverageTable(cov, ks, js, s) && GreedyStopped(cov, |js|, selected, uncovered)
    requires |groups| == |selected| && forall t :: 0 <= t < |selected| ==> groups[t] == ks[selected[t]]
    requires IsJSubset(S, samples, j) && Coverable(S, samples, k, s)
    ensures CoveredSet(S, groups, s)
  {
    var y := ListedAt(u, j, S);
    var K :| IsKSubset(K, samples, k) && |S * K| >= s;
    var x := ListedAt(u, k, K);
    OverlapOfSets(ks[x], js[y], K, S);
    var t := SelectedCovers(ks, js, s, cov, selected, uncovered, x, y);
    OverlapOfSets(js[y], ks[selected[t]], S, Elems(groups[t]));
  }

  /** The groups are distinct ascending k-subsets of the sample values. */
  lemma SelectionShape(samples: seq<int>, k: nat, ks: seq<seq<int>>, selected: seq<nat>, groups: seq<seq<int>>)
    requires ks == Combinations(Universe(samples), k)
    requires Distinct(selected) && forall t :: 0 <= t < |selected| ==> selected[t] < |ks|
    requires |groups| == |selected| && forall t :: 0 <= t < |selected| ==> groups[t] == ks[selected[t]]
    ensures Distinct(groups)
    ensures forall t :: 0 <= t < |groups| ==>
              StrictlyIncreasing(groups[t]) && |groups[t]| == k && Elems(groups[t]) <= Elems(samples)
  {
    var u := Universe(samples);
    CombinationsShape(u, k);
    CombinationsIncreasing(u, k);
    CombinationsDistinct(u, k);
  }

  /** `tuple(sorted(subset))` changes nothing on a k-combination of the ascending sample values, so
      the combinations are the k-subsets as the solver stores them. */
  lemma KSubsetsSorted(u: seq<int>, k: nat)
    requires StrictlyIncreasing(u)
    ensures forall t :: 0 <= t < |Combinations(u, k)| ==> Sort(Combinations(u, k)[t]) == Combinations(u, k)[t]
  {
    var ks := Combinations(u, k);
    CombinationsIncreasing(u, k);
    forall t | 0 <= t < |ks| ensures Sort(ks[t]) == ks[t] {
      SortOfSorted(ks[t]);
    }
  }

  /** `_norm_groups` hands back distinct ascending groups of `k` sample values unchanged: sorting
      each changes nothing and no repeat is dropped. */
  lemma NormalisedUnchanged(groups: seq<seq<int>>, k: int, sampleSet: set<int>)
    requires Distinct(groups)
    requires forall t :: 0 <= t < |groups| ==>
               StrictlyIncreasing(groups[t]) && |groups[t]| == k && Elems(groups[t]) <= sampleSet
    ensures NormGroupsSpec(groups, k, sampleSet) == Some(groups)
  {
    forall t | 0 <= t < |groups| ensures GroupOk(groups[t], k, sampleSet) && Sort(groups[t]) == groups[t] {
      assert Distinct(groups[t]);
      DistinctCard(groups[t]);
      SortOfSorted(groups[t]);
    }
    NormGroupsKeeps(groups, k, sampleSet);
    assert Canon(groups) == groups;
    DedupOfDistinct(groups);
  }

  /** Ascending groups of `k` sample values that cover every j-subset make `validate` pass. */
  lemma CoveringGroupsPass(p: Params, samples: seq<int>, groups: seq<seq<int>>)
    requires Distinct(samples) && |samples| == p.n
    requires 0 <= p.j && p.s <= p.j <= p.k
    requires groups != []
    requires forall t :: 0 <= t < |groups| ==>
               StrictlyIncreasing(groups[t]) && |groups[t]| == p.k && Elems(groups[t]) <= Elems(samples)
    requires forall S :: IsJSubset(S, samples, p.j) ==> CoveredSet(S, groups, p.s)
    ensures ValidateSpec(p, samples, groups).Returned? && ValidateSpec(p, samples, groups).value.pass
  {
    forall t | 0 <= t < |groups| ensures GroupOk(groups[t], p.k, Elems(samples)) {
      assert Distinct(groups[t]);
      DistinctCard(groups[t]);
    }
    assert Accepted(p, samples, groups);
    ValidatePassIff(p, samples, groups);
  }

  /** What the groups read back from the greedy selection satisfy: distinct ascending k-subsets of
      the sample values, no more of them than there are j-subsets, covering every j-subset that any
      k-subset covers, hence every j-subset when `s <= j <= k` and there are at least `k` distinct
      sample values. */
  lemma SolutionFacts(samples: seq<int>, u: seq<int>, j: nat, k: nat, s: int, js: seq<seq<int>>,
                      ks: seq<seq<int>>, cov: map<nat, seq<nat>>, selected: seq<nat>, uncovered: set<nat>,
                      groups: seq<seq<int>>)
    requires u == Universe(samples) && js == Combinations(u, j) && ks == Combinations(u, k)
    requires CoverageTable(cov, ks, js, s) && GreedyStopped(cov, |js|, selected, uncovered)
    requires Distinct(selected) && |selected| + |uncovered| <= |js|
    requires |groups| == |selected| && forall t :: 0 <= t < |selected| ==> groups[t] == ks[selected[t]]
    ensures Distinct(groups)
    ensures |groups| <= Binomial(|Elems(samples)|, j)
    ensures forall t :: 0 <= t < |groups| ==>
              StrictlyIncreasing(groups[t]) && |groups[t]| == k && Elems(groups[t]) <= Elems(samples)
    ensures forall S :: IsJSubset(S, samples, j) && Coverable(S, samples, k, s) ==> CoveredSet(S, groups, s)
    ensures s <= j <= k <= |Elems(samples)| ==>
              groups != [] && forall S :: IsJSubset(S, samples, j) ==> CoveredSet(S, groups, s)
  {
    SelectionShape(samples, k, ks, selected, groups);
    CombinationsCount(u, j);
    forall S | IsJSubset(S, samples, j) && Coverable(S, samples, k, s) ensures CoveredSet(S, groups, s) {
      SelectionCovers(samples, u, j, k, s, js, ks, cov, selected, uncovered, groups, S);
    }
    if s <= j <= k <= |Elems(samples)| {
      forall S | IsJSubset(S, samples, j) ensures CoveredSet(S, groups, s) {
        EverySubsetCoverable(S, samples, j, k, s);
      }
      SomeGroup(samples, groups, j, s);
    }
  }

  /** Groups covering every j-subset of at least `j` sample values are not an empty list. */
  lemma SomeGroup(samples: seq<int>, groups: seq<seq<int>>, j: int, s: int)
    requires 0 <= j <= |Elems(samples)|
    requires forall S :: IsJSubset(S, samples, j) ==> CoveredSet(S, groups, s)
    ensures groups != []
  {
    Enlarge({}, Elems(samples), j);
    var S :| {} <= S <= Elems(samples) && |S| == j;
    assert IsJSubset(S, samples, j);
  }

  /** There is no j-subset of fewer than `j` sample values. */
  lemma NoSubsets(samples: seq<int>, j: int)
    requires j > |Elems(samples)|
    ensures forall S :: !IsJSubset(S, samples, j)
  {
    forall S | S <= Elems(samples) ensures |S| != j {
      SubsetCard(S, Elems(samples));
    }
  }
}
