/** The independent coverage oracle of validator.py: input normalisation, then a count of the
    j-subsets of the samples that no group covers. A j-subset `J` is covered by a group `G` when
    `|J ∩ G| >= s`. */
module Validator {
  import opened Common
  import opened Seqs
  import opened Combos

  /** The `details` message of a report; each constructor stands for one message of the source. */
  datatype Details =
    | Ok                            // "OK"
    | OrderViolated                 // "s<=j<=k"
    | BadSamples                    // "samples"
    | SampleCountMismatch           // "len(samples)!=n"
    | BadGroups                     // "groups"
    | EmptyGroups                   // "empty groups"
    | UncoveredExample(j: seq<int>) // "uncovered example: [...]"

  /** The dictionary `validate` returns. */
  datatype Report = Report(pass: bool, failedJCount: int, minCoverage: int, details: Details)

  /** The report for inputs rejected before any coverage is computed. */
  function Rejected(d: Details): Report
  {
    Report(false, -1, 0, d)
  }

  /** The initial value of `min_cov` (10**9), reported as 0 when no j-subset lowered it. */
  const Sentinel: int := 1_000_000_000

  // ---------------------------------------------------------------------------------------------
  // Input normalisation

  /** `_norm_samples`: rejects repeated values, otherwise sorts. */
  function NormSamples(samples: seq<int>): (r: Option<seq<int>>)
    ensures r.Some? <==> Distinct(samples)
    ensures r.Some? ==> StrictlyIncreasing(r.value) && |r.value| == |samples| && Elems(r.value) == Elems(samples)
  {
    DistinctCard(samples);
    SortFacts(samples);
    if |Elems(samples)| != |samples| then None else Some(Sort(samples))
  }

  /** What `_norm_groups` demands of one group: `k` values, no value twice, all among the samples. */
  predicate GroupOk(g: seq<int>, k: int, sampleSet: set<int>)
  {
    |g| == k && |Elems(g)| == k && Elems(g) <= sampleSet
  }

  /** Every group sorted, `tuple(sorted(g))`. */
  function Canon(groups: seq<seq<int>>): seq<seq<int>>
  {
    seq(|groups|, i requires 0 <= i < |groups| => Sort(groups[i]))
  }

  /** The result of `_norm_groups`, group by group: `None` once a group is malformed (the source
      raises), otherwise the sorted groups in order of first occurrence. */
  function NormGroupsSpec(groups: seq<seq<int>>, k: int, sampleSet: set<int>): Option<seq<seq<int>>>
  {
    if groups == [] then Some([])
    else match NormGroupsSpec(groups[..|groups| - 1], k, sampleSet)
      case None => None
      case Some(out) =>
        var g := groups[|groups| - 1];
        if !GroupOk(g, k, sampleSet) then None
        else if Sort(g) in out then Some(out)
        else Some(out + [Sort(g)])
  }

  lemma CanonSnoc(groups: seq<seq<int>>)
    requires groups != []
    ensures Canon(groups) == Canon(groups[..|groups| - 1]) + [Sort(groups[|groups| - 1])]
  {
  }

  /** One malformed group anywhere makes the normalisation fail. */
  lemma {:induction false} NormGroupsRejects(groups: seq<seq<int>>, k: int, sampleSet: set<int>, bad: nat)
    requires bad < |groups| && !GroupOk(groups[bad], k, sampleSet)
    ensures NormGroupsSpec(groups, k, sampleSet).None?
  {
    var init := groups[..|groups| - 1];
    if bad < |init| {
      assert init[bad] == groups[bad];
      NormGroupsRejects(init, k, sampleSet, bad);
      assert NormGroupsSpec(init, k, sampleSet).None?;
    } else {
      assert !GroupOk(groups[|groups| - 1], k, sampleSet);
    }
  }

  /** When every group is well formed, the normalised list is the sorted groups without repeats,
      each at its first occurrence. */
  lemma {:induction false} NormGroupsKeeps(groups: seq<seq<int>>, k: int, sampleSet: set<int>)
    requires forall i :: 0 <= i < |groups| ==> GroupOk(groups[i], k, sampleSet)
    ensures NormGroupsSpec(groups, k, sampleSet) == Some(Dedup(Canon(groups)))
  {
    if groups != [] {
      var init, g := groups[..|groups| - 1], groups[|groups| - 1];
      assert forall i :: 0 <= i < |init| ==> init[i] == groups[i];
      NormGroupsKeeps(init, k, sampleSet);
      assert GroupOk(g, k, sampleSet);
      CanonSnoc(groups);
      DedupSnoc(Canon(init), Sort(g));
    }
  }

  /** One group's checks, as the source makes them on the sorted tuple, agree with `GroupOk`. */
  lemma GroupChecks(g: seq<int>, k: int, sampleSet: set<int>)
    ensures GroupOk(g, k, sampleSet) <==> |g| == k && |Elems(Sort(g))| == k && Elems(Sort(g)) <= sampleSet
  {
    SortFacts(g);
  }

  /** `_norm_groups`: one pass over the groups, rejecting a malformed one and appending each sorted
      group that was not seen before. */
  method NormGroups(groups: seq<seq<int>>, k: int, sampleSet: set<int>) returns (r: Option<seq<seq<int>>>)
    ensures r == NormGroupsSpec(groups, k, sampleSet)
  {
    var out: seq<seq<int>> := [];
    var seen: set<seq<int>> := {};
    for i := 0 to |groups|
      invariant NormGroupsSpec(groups[..i], k, sampleSet) == Some(out)
      invariant forall x :: x in seen <==> x in out
    {
      var g := groups[i];
      var tg := Sort(g);
      GroupChecks(g, k, sampleSet);
      // the length check, the repeated-value check and the membership check all raise ValueError
      if |g| != k || |Elems(tg)| != k || !(Elems(tg) <= sampleSet) {
        NormGroupsRejects(groups, k, sampleSet, i);
        return None;
      }
      NormStep(groups, k, sampleSet, i, out);
      if tg !in seen {
        seen := seen + {tg};
        out := out + [tg];
      }
    }
    assert groups[..|groups|] == groups;
    return Some(out);
  }

  /** One more well-formed group: its sorted form is appended unless already there. */
  lemma NormStep(groups: seq<seq<int>>, k: int, sampleSet: set<int>, i: nat, out: seq<seq<int>>)
    requires i < |groups| && GroupOk(groups[i], k, sampleSet)
    requires NormGroupsSpec(groups[..i], k, sampleSet) == Some(out)
    ensures NormGroupsSpec(groups[..i + 1], k, sampleSet) ==
              Some(if Sort(groups[i]) in out then out else out + [Sort(groups[i])])
  {
    assert groups[..i + 1][..i] == groups[..i];
  }

  // ---------------------------------------------------------------------------------------------
  // Coverage of one j-subset

  /** The inner loop of `validate` for one j-subset `J`, continuing from `best`: the running maximum of
      `|J ∩ G|`, cut short as soon as it reaches `s`. */
  function ScanBest(J: seq<int>, gs: seq<seq<int>>, s: int, best: int): int
    decreases |gs|
  {
    if gs == [] then best
    else
      var inter := Overlap(J, gs[0]);
      if inter > best && inter >= s then inter
      else ScanBest(J, gs[1..], s, if inter > best then inter else best)
  }

  /** The largest number of values `J` shares with one of the groups (0 for no groups). */
  function MaxOverlap(J: seq<int>, gs: seq<seq<int>>): (m: nat)
    ensures forall i :: 0 <= i < |gs| ==> Overlap(J, gs[i]) <= m
    ensures m == 0 || exists i :: 0 <= i < |gs| && Overlap(J, gs[i]) == m
  {
    if gs == [] then 0
    else
      var rest := MaxOverlap(J, gs[1..]);
      assert forall i :: 1 <= i < |gs| ==> gs[i] == gs[1..][i - 1];
      if Overlap(J, gs[0]) >= rest then Overlap(J, gs[0]) else rest
  }

  /** `best < s` after the inner loop: no group covers `J`. */
  predicate Uncovered(J: seq<int>, gs: seq<seq<int>>, s: int)
  {
    ScanBest(J, gs, s, 0) < s
  }

  // ---------------------------------------------------------------------------------------------
  // The counters of the outer loop, over a prefix of the j-subsets

  /** `failed`: how many of `js` are uncovered. */
  function CountUncovered(js: seq<seq<int>>, gs: seq<seq<int>>, s: int): nat
  {
    if js == [] then 0
    else CountUncovered(js[..|js| - 1], gs, s) + (if Uncovered(js[|js| - 1], gs, s) then 1 else 0)
  }

  /** `first_fail`: the first uncovered entry of `js`, if any. */
  function FirstUncovered(js: seq<seq<int>>, gs: seq<seq<int>>, s: int): Option<seq<int>>
  {
    if js == [] then None
    else
      var prior := FirstUncovered(js[..|js| - 1], gs, s);
      if prior.None? && Uncovered(js[|js| - 1], gs, s) then Some(js[|js| - 1]) else prior
  }

  /** `min_cov`: the least `best` over `js`, starting from the sentinel. */
  function MinBest(js: seq<seq<int>>, gs: seq<seq<int>>, s: int): (m: int)
    ensures m <= Sentinel
    ensures forall i :: 0 <= i < |js| ==> m <= ScanBest(js[i], gs, s, 0)
    ensures m == Sentinel || exists i :: 0 <= i < |js| && m == ScanBest(js[i], gs, s, 0)
  {
    if js == [] then Sentinel
    else
      var prior := MinBest(js[..|js| - 1], gs, s);
      var best := ScanBest(js[|js| - 1], gs, s, 0);
      assert forall i :: 0 <= i < |js| - 1 ==> js[i] == js[..|js| - 1][i];
      if best < prior then best else prior
  }

  /** The report built from the counters once every j-subset in `js` has been scanned. */
  function Tally(js: seq<seq<int>>, gs: seq<seq<int>>, s: int): Report
  {
    var failed := CountUncovered(js, gs, s);
    var m := MinBest(js, gs, s);
    var minCov := if m == Sentinel then 0 else m;
    if failed == 0 then Report(true, 0, minCov, Ok)
    else
      CountMatchesFirst(js, gs, s);
      Report(false, failed, minCov, UncoveredExample(FirstUncovered(js, gs, s).value))
  }

  /** A first uncovered entry exists exactly when the count of uncovered entries is positive. */
  lemma {:induction false} CountMatchesFirst(js: seq<seq<int>>, gs: seq<seq<int>>, s: int)
    ensures FirstUncovered(js, gs, s).None? <==> CountUncovered(js, gs, s) == 0
  {
    if js != [] {
      CountMatchesFirst(js[..|js| - 1], gs, s);
    }
  }

  /** What `validate` returns, or the exception it raises. */
  function ValidateSpec(p: Params, samples: seq<int>, groups: seq<seq<int>>): Outcome<Report>
  {
    if !(p.s <= p.j <= p.k) then Returned(Rejected(OrderViolated))
    else match NormSamples(samples)
      case None => Returned(Rejected(BadSamples))
      case Some(sorted) =>
        if |sorted| != p.n then Returned(Rejected(SampleCountMismatch))
        else AfterGroups(p, sorted, NormGroupsSpec(groups, p.k, Elems(sorted)))
  }

  /** The rest of `validate` once the groups are normalised (or rejected). */
  function AfterGroups(p: Params, sorted: seq<int>, normalised: Option<seq<seq<int>>>): Outcome<Report>
  {
    match normalised
      case None => Returned(Rejected(BadGroups))
      case Some(gs) =>
        if gs == [] then Returned(Rejected(EmptyGroups))
        // itertools.combinations raises ValueError for a negative size
        else if p.j < 0 then Raised(ValueError)
        else Returned(Tally(Combinations(sorted, p.j), gs, p.s))
  }

  /** The inner loop of `validate`: the best overlap of `J` with the groups, stopping at the first
      group that raises it to `s` or more. */
  method BestCoverage(J: seq<int>, gs: seq<seq<int>>, s: int) returns (best: int)
    ensures best == ScanBest(J, gs, s, 0)
  {
    best := 0;
    var i := 0;
    while i < |gs|
      invariant 0 <= i <= |gs|
      invariant ScanBest(J, gs[i..], s, best) == ScanBest(J, gs, s, 0)
    {
      var inter := Overlap(J, gs[i]);
      assert gs[i..][0] == gs[i] && gs[i..][1..] == gs[i + 1..];
      if inter > best {
        best := inter;
        if best >= s {
          return;
        }
      }
      i := i + 1;
    }
  }

  /** The outer loop of `validate` and the report it builds: the uncovered count, the least best
      overlap and the first uncovered j-subset. */
  method CoverageReport(js: seq<seq<int>>, gs: seq<seq<int>>, s: int) returns (r: Report)
    ensures r == Tally(js, gs, s)
  {
    var failed, minCov, firstFail := 0, Sentinel, None;
    for t := 0 to |js|
      invariant failed == CountUncovered(js[..t], gs, s)
      invariant minCov == MinBest(js[..t], gs, s)
      invariant firstFail == FirstUncovered(js[..t], gs, s)
    {
      var J := js[t];
      var best := BestCoverage(J, gs, s);
      assert js[..t + 1][..t] == js[..t] && js[..t + 1][t] == J;
      if best < s {
        failed := failed + 1;
        if firstFail.None? {
          firstFail := Some(J);
        }
      }
      if best < minCov {
        minCov := best;
      }
    }
    assert js[..|js|] == js;
    CountMatchesFirst(js, gs, s);
    if minCov == Sentinel {
      minCov := 0;
    }
    if failed == 0 {
      return Report(true, 0, minCov, Ok);
    }
    return Report(false, failed, minCov, UncoveredExample(firstFail.value));
  }

  /** `validate`: the checks in the source's order, then the scan of every j-subset of the sorted
      samples against every normalised group. */
  method Validate(p: Params, samples: seq<int>, groups: seq<seq<int>>) returns (r: Outcome<Report>)
    ensures r == ValidateSpec(p, samples, groups)
  {
    if !(p.s <= p.j <= p.k) {
      return Returned(Rejected(OrderViolated));
    }
    var normalised := NormSamples(samples);
    if normalised.None? {
      return Returned(Rejected(BadSamples));
    }
    var sorted := normalised.value;
    if |sorted| != p.n {
      return Returned(Rejected(SampleCountMismatch));
    }
    var norm := NormGroups(groups, p.k, Elems(sorted));
    if norm.None? {
      return Returned(Rejected(BadGroups));
    }
    var gs := norm.value;
    if gs == [] {
      return Returned(Rejected(EmptyGroups));
    }
    if p.j < 0 {
      return Raised(ValueError);
    }
    var report := CoverageReport(Combinations(sorted, p.j), gs, p.s);
    return Returned(report);
  }
}
