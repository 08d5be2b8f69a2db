/** `itertools.combinations` over a sequence, binomial coefficients and the intersection size that
    the coverage relation is built on. */
module Combos {
  import opened Seqs

  function Binomial(n: nat, r: nat): nat
  {
    if r == 0 then 1
    else if n == 0 then 0
    else Binomial(n - 1, r - 1) + Binomial(n - 1, r)
  }

  /** `len(set(a) & set(b))`: how many values two groups share. */
  function Overlap(a: seq<int>, b: seq<int>): nat
  {
    |Elems(a) * Elems(b)|
  }

  /** Puts `x` in front of every sequence of `cs`. */
  function PrependAll(x: int, cs: seq<seq<int>>): (r: seq<seq<int>>)
    ensures |r| == |cs|
    ensures forall i :: 0 <= i < |cs| ==> r[i] == [x] + cs[i]
  {
    if cs == [] then []
    else
      var rest := PrependAll(x, cs[1..]);
      assert forall i :: 1 <= i < |cs| ==> cs[i] == cs[1..][i - 1];
      [[x] + cs[0]] + rest
  }

  /** `itertools.combinations(xs, r)` for `r >= 0`: the `r`-element subsequences of `xs` in
      lexicographic order of positions (first those that keep `xs[0]`, then those that drop it). */
  function Combinations(xs: seq<int>, r: nat): (cs: seq<seq<int>>)
    decreases |xs|
  {
    if r == 0 then [[]]
    else if xs == [] then []
    else PrependAll(xs[0], Combinations(xs[1..], r - 1)) + Combinations(xs[1..], r)
  }

  /** Every combination has `r` values, all taken from `xs`. */
  lemma {:induction false} CombinationsShape(xs: seq<int>, r: nat)
    ensures forall i :: 0 <= i < |Combinations(xs, r)| ==>
      |Combinations(xs, r)[i]| == r && Elems(Combinations(xs, r)[i]) <= Elems(xs)
    decreases |xs|
  {
    if r != 0 && xs != [] {
      var rest := xs[1..];
      var keep, drop := Combinations(rest, r - 1), Combinations(rest, r);
      CombinationsShape(rest, r - 1);
      CombinationsShape(rest, r);
      assert xs == [xs[0]] + rest;
      var all := PrependAll(xs[0], keep) + drop;
      assert Combinations(xs, r) == all;
      forall i | 0 <= i < |all| ensures |all[i]| == r && Elems(all[i]) <= Elems(xs) {
        if i < |keep| {
          assert Elems(all[i]) == {xs[0]} + Elems(keep[i]);
        } else {
          assert all[i] == drop[i - |keep|];
        }
      }
    }
  }

  /** The enumeration has exactly C(|xs|, r) entries. */
  lemma {:induction false} CombinationsCount(xs: seq<int>, r: nat)
    ensures |Combinations(xs, r)| == Binomial(|xs|, r)
    decreases |xs|
  {
    if r != 0 && xs != [] {
      CombinationsCount(xs[1..], r - 1);
      CombinationsCount(xs[1..], r);
      SplitLength(xs, r);
    }
  }

  /** The two halves of the enumeration have the lengths the recursion gives them. */
  lemma SplitLength(xs: seq<int>, r: nat)
    requires r != 0 && xs != []
    ensures |Combinations(xs, r)| == |Combinations(xs[1..], r - 1)| + |Combinations(xs[1..], r)|
    ensures |xs[1..]| == |xs| - 1
  {
  }

  /** C(n, r) vanishes exactly when r exceeds n. */
  lemma {:induction false} BinomialZero(n: nat, r: nat)
    ensures Binomial(n, r) == 0 <==> r > n
  {
    if r != 0 && n != 0 {
      BinomialZero(n - 1, r - 1);
      BinomialZero(n - 1, r);
    }
  }

  /** There is no `r`-subset of `xs` exactly when `r > |xs|`. */
  lemma CombinationsEmpty(xs: seq<int>, r: nat)
    ensures Combinations(xs, r) == [] <==> r > |xs|
  {
    CombinationsCount(xs, r);
    BinomialZero(|xs|, r);
  }

  /** Every combination of an ascending sequence is ascending (Python's `tuple(sorted(subset))`
      changes nothing). */
  lemma {:induction false} CombinationsIncreasing(xs: seq<int>, r: nat)
    requires StrictlyIncreasing(xs)
    ensures forall i :: 0 <= i < |Combinations(xs, r)| ==> StrictlyIncreasing(Combinations(xs, r)[i])
    decreases |xs|
  {
    if r != 0 && xs != [] {
      var rest := xs[1..];
      var keep, drop := Combinations(rest, r - 1), Combinations(rest, r);
      CombinationsIncreasing(rest, r - 1);
      CombinationsIncreasing(rest, r);
      CombinationsShape(rest, r - 1);
      var all := PrependAll(xs[0], keep) + drop;
      assert Combinations(xs, r) == all;
      forall i | 0 <= i < |all| ensures StrictlyIncreasing(all[i]) {
        if i < |keep| {
          var c := keep[i];
          forall t | 0 <= t < |c| ensures xs[0] < c[t] {
            assert c[t] in Elems(rest);
          }
          assert all[i] == [xs[0]] + c;
        } else {
          assert all[i] == drop[i - |keep|];
        }
      }
    }
  }

  /** No combination is listed twice. */
  lemma {:induction false} CombinationsDistinct(xs: seq<int>, r: nat)
    requires Distinct(xs)
    ensures Distinct(Combinations(xs, r))
    decreases |xs|
  {
    if r != 0 && xs != [] {
      var rest := xs[1..];
      var keep, drop := Combinations(rest, r - 1), Combinations(rest, r);
      assert xs == [xs[0]] + rest;
      CombinationsDistinct(rest, r - 1);
      CombinationsDistinct(rest, r);
      CombinationsShape(rest, r);
      assert xs[0] !in Elems(rest);
      var all := PrependAll(xs[0], keep) + drop;
      assert Combinations(xs, r) == all;
      forall a, b | 0 <= a < b < |all| ensures all[a] != all[b] {
        if b < |keep| {
          assert all[a][1..] == keep[a] && all[b][1..] == keep[b];
        } else if a < |keep| {
          assert all[b] == drop[b - |keep|];
          assert all[a][0] == xs[0];
          assert xs[0] !in Elems(all[b]);
        } else {
          assert all[a] == drop[a - |keep|] && all[b] == drop[b - |keep|];
        }
      }
    }
  }

  /** Every `r`-element subset of the values of a duplicate-free `xs` is listed, as a combination
      holding exactly those values. */
  lemma {:induction false} CombinationsComplete(xs: seq<int>, r: nat, S: set<int>)
    requires Distinct(xs)
    requires S <= Elems(xs) && |S| == r
    ensures exists i :: 0 <= i < |Combinations(xs, r)| && Elems(Combinations(xs, r)[i]) == S
    decreases |xs|
  {
    if r == 0 {
      var empty: seq<int> := [];
      assert Combinations(xs, r)[0] == empty;
      assert Elems(empty) == {} == S;
    } else {
      SplitFirst(xs, S);
      var rest := xs[1..];
      if xs[0] in S {
        var S' := S - {xs[0]};
        CombinationsComplete(rest, r - 1, S');
        var i :| 0 <= i < |Combinations(rest, r - 1)| && Elems(Combinations(rest, r - 1)[i]) == S';
        KeepFirstListed(xs, r, i);
      } else {
        CombinationsComplete(rest, r, S);
        var i :| 0 <= i < |Combinations(rest, r)| && Elems(Combinations(rest, r)[i]) == S;
        DropFirstListed(xs, r, i);
      }
    }
  }

  /** How a non-empty subset `S` of the values of a duplicate-free `xs` splits at `xs[0]`. */
  lemma SplitFirst(xs: seq<int>, S: set<int>)
    requires Distinct(xs) && S <= Elems(xs) && S != {}
    ensures xs != [] && Distinct(xs[1..])
    ensures xs[0] in S ==> S - {xs[0]} <= Elems(xs[1..]) && |S - {xs[0]}| == |S| - 1
    ensures xs[0] !in S ==> S <= Elems(xs[1..])
  {
    var x :| x in S;
    assert x in Elems(xs);
    var rest := xs[1..];
    assert xs == [xs[0]] + rest;
    assert Elems(xs) == {xs[0]} + Elems(rest);
    assert xs[0] !in Elems(rest);
    if xs[0] in S {
      assert S == (S - {xs[0]}) + {xs[0]};
    }
  }

  /** The `i`-th combination of `xs[1..]` of size `r - 1`, with `xs[0]` put in front, is listed. */
  lemma KeepFirstListed(xs: seq<int>, r: nat, i: nat)
    requires xs != [] && r > 0 && i < |Combinations(xs[1..], r - 1)|
    ensures i < |Combinations(xs, r)|
    ensures Elems(Combinations(xs, r)[i]) == {xs[0]} + Elems(Combinations(xs[1..], r - 1)[i])
  {
    var keep := Combinations(xs[1..], r - 1);
    Unfold(xs, r);
    assert Combinations(xs, r)[i] == [xs[0]] + keep[i];
  }

  /** Every combination of `xs[1..]` of size `r` is listed too, after those that keep `xs[0]`. */
  lemma DropFirstListed(xs: seq<int>, r: nat, i: nat)
    requires xs != [] && r > 0 && i < |Combinations(xs[1..], r)|
    ensures |Combinations(xs[1..], r - 1)| + i < |Combinations(xs, r)|
    ensures Combinations(xs, r)[|Combinations(xs[1..], r - 1)| + i] == Combinations(xs[1..], r)[i]
  {
    Unfold(xs, r);
  }

  /** The recursion of `Combinations` written out. */
  lemma Unfold(xs: seq<int>, r: nat)
    requires xs != [] && r > 0
    ensures Combinations(xs, r) == PrependAll(xs[0], Combinations(xs[1..], r - 1)) + Combinations(xs[1..], r)
  {
  }

  /** A set included in a finite set `U` can be enlarged inside `U` to any size up to `|U|`. */
  lemma {:induction false} Enlarge(J: set<int>, U: set<int>, k: nat)
    requires J <= U && |J| <= k <= |U|
    ensures exists K :: J <= K <= U && |K| == k
    decreases k - |J|
  {
    if |J| < k {
      assert exists x :: x in U && x !in J by {
        if forall x :: x in U ==> x in J {
          SubsetCard(U, J);
        }
      }
      var x :| x in U && x !in J;
      Enlarge(J + {x}, U, k);
    }
  }

  /** A set that a smaller set includes is not smaller. */
  lemma SubsetCard(A: set<int>, B: set<int>)
    requires A <= B
    ensures |A| <= |B|
  {
    assert B == A + (B - A);
  }

  /** Two groups never share more values than the first holds. */
  lemma OverlapBound(a: seq<int>, b: seq<int>)
    ensures Overlap(a, b) <= |Elems(a)| <= |a|
  {
    SubsetCard(Elems(a) * Elems(b), Elems(a));
    DistinctCard(a);
  }

  /** A combination that keeps the first value comes before one that drops it. */
  lemma KeepBeforeDrop(xs: seq<int>, r: nat, c: seq<int>, d: seq<int>)
    requires StrictlyIncreasing(xs) && xs != [] && r > 0
    requires d in Combinations(xs[1..], r)
    ensures LexLess([xs[0]] + c, d)
  {
    CombinationsShape(xs[1..], r);
    var i :| 0 <= i < |Combinations(xs[1..], r)| && Combinations(xs[1..], r)[i] == d;
    assert d[0] in Elems(xs[1..]);
  }

  /** `itertools.combinations` of an ascending sequence lists its combinations in ascending
      lexicographic order. */
  lemma {:induction false} CombinationsLexOrdered(xs: seq<int>, r: nat)
    requires StrictlyIncreasing(xs)
    ensures forall u, t :: 0 <= u < t < |Combinations(xs, r)| ==>
              LexLess(Combinations(xs, r)[u], Combinations(xs, r)[t])
    decreases |xs|
  {
    if r != 0 && xs != [] {
      var rest := xs[1..];
      var keep, drop := Combinations(rest, r - 1), Combinations(rest, r);
      CombinationsLexOrdered(rest, r - 1);
      CombinationsLexOrdered(rest, r);
      var all := PrependAll(xs[0], keep) + drop;
      assert Combinations(xs, r) == all;
      forall u, t | 0 <= u < t < |all| ensures LexLess(all[u], all[t]) {
        if t < |keep| {
          assert all[u] == [xs[0]] + keep[u] && all[t] == [xs[0]] + keep[t];
          assert all[u][1..] == keep[u] && all[t][1..] == keep[t];
        } else if u < |keep| {
          assert all[t] == drop[t - |keep|];
          KeepBeforeDrop(xs, r, keep[u], all[t]);
        } else {
          assert all[u] == drop[u - |keep|] && all[t] == drop[t - |keep|];
        }
      }
    }
  }
}
