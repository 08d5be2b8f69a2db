/** Sequences as the Python code uses them: `set(xs)`, `sorted(xs)` and first-occurrence de-duplication. */
module Seqs {

  /** The elements of a sequence, `set(s)` in Python. */
  function Elems<T>(s: seq<T>): set<T>
  {
    set x | x in s
  }

  predicate Distinct<T(==)>(s: seq<T>)
  {
    forall i, j :: 0 <= i < j < |s| ==> s[i] != s[j]
  }

  predicate Sorted(s: seq<int>)
  {
    forall i, j :: 0 <= i < j < |s| ==> s[i] <= s[j]
  }

  predicate StrictlyIncreasing(s: seq<int>)
  {
    forall i, j :: 0 <= i < j < |s| ==> s[i] < s[j]
  }

  /** `len(set(s)) == len(s)` is exactly the absence of repeated values. */
  lemma {:induction false} DistinctCard<T>(s: seq<T>)
    ensures |Elems(s)| <= |s|
    ensures |Elems(s)| == |s| <==> Distinct(s)
  {
    if s != [] {
      var init, last := s[..|s| - 1], s[|s| - 1];
      assert s == init + [last];
      assert Elems(s) == Elems(init) + {last};
      DistinctCard(init);
      if last in Elems(init) {
        var i :| 0 <= i < |init| && init[i] == last;
        assert s[i] == s[|s| - 1];
      } else {
        assert |Elems(s)| == |Elems(init)| + 1;
        if Distinct(init) {
          forall a, b | 0 <= a < b < |s| ensures s[a] != s[b] {
            if b == |s| - 1 {
              assert s[a] in Elems(init);
            }
          }
        }
      }
    }
  }

  function Insert(x: int, s: seq<int>): (r: seq<int>)
    requires Sorted(s)
    ensures Sorted(r) && multiset(r) == multiset(s) + multiset{x}
  {
    if s == [] || x <= s[0] then [x] + s
    else
      var rest := Insert(x, s[1..]);
      assert s == [s[0]] + s[1..];
      HeadBelow(x, s, rest);
      [s[0]] + rest
  }

  /** The head of a sorted sequence bounds whatever the insertion into its tail produced. */
  lemma HeadBelow(x: int, s: seq<int>, rest: seq<int>)
    requires Sorted(s) && s != [] && s[0] < x
    requires multiset(rest) == multiset(s[1..]) + multiset{x}
    ensures forall i :: 0 <= i < |rest| ==> s[0] <= rest[i]
  {
    forall i | 0 <= i < |rest| ensures s[0] <= rest[i] {
      assert rest[i] in multiset(rest);
      if rest[i] != x {
        assert rest[i] in multiset(s[1..]);
        assert rest[i] in s[1..];
      }
    }
  }

  /** `sorted(s)`: an ascending permutation of `s`. */
  function Sort(s: seq<int>): (r: seq<int>)
    ensures Sorted(r) && multiset(r) == multiset(s)
  {
    if s == [] then []
    else
      assert s == [s[0]] + s[1..];
      Insert(s[0], Sort(s[1..]))
  }

  /** Sorting keeps the length and the elements, and turns a duplicate-free sequence into a strictly
      increasing one. */
  lemma SortFacts(s: seq<int>)
    ensures |Sort(s)| == |s| && Elems(Sort(s)) == Elems(s)
    ensures Distinct(s) <==> Distinct(Sort(s))
    ensures Distinct(s) ==> StrictlyIncreasing(Sort(s))
  {
    var r := Sort(s);
    assert |r| == |multiset(r)| == |multiset(s)| == |s|;
    forall x ensures x in Elems(r) <==> x in Elems(s) {
      assert x in r <==> x in multiset(r);
      assert x in s <==> x in multiset(s);
    }
    DistinctCard(s);
    DistinctCard(r);
  }

  /** A sequence that is already ascending is its own sort. */
  lemma {:induction false} SortOfSorted(s: seq<int>)
    requires Sorted(s)
    ensures Sort(s) == s
  {
    if s != [] {
      SortOfSorted(s[1..]);
      assert s == [s[0]] + s[1..];
    }
  }

  /** A strictly increasing sequence is determined by its set of elements. */
  lemma {:induction false} StrictlyIncreasingUnique(a: seq<int>, b: seq<int>)
    requires StrictlyIncreasing(a) && StrictlyIncreasing(b) && Elems(a) == Elems(b)
    ensures a == b
    decreases |a|
  {
    DistinctCard(a);
    DistinctCard(b);
    if a != [] {
      assert a[0] in Elems(b) && b[0] in Elems(a);
      assert a[0] == b[0];
      assert Elems(a[1..]) == Elems(a) - {a[0]} by {
        assert a == [a[0]] + a[1..];
      }
      assert Elems(b[1..]) == Elems(b) - {b[0]} by {
        assert b == [b[0]] + b[1..];
      }
      StrictlyIncreasingUnique(a[1..], b[1..]);
      assert a == [a[0]] + a[1..] && b == [b[0]] + b[1..];
    }
  }

  /** The distinct elements of `xs` in order of first occurrence, as a loop that appends an element
      to its output only when it is not yet in its `seen` set produces them. */
  function Dedup<T(==)>(xs: seq<T>): (r: seq<T>)
    ensures Distinct(r) && Elems(r) == Elems(xs)
  {
    if xs == [] then []
    else
      var init, last := xs[..|xs| - 1], xs[|xs| - 1];
      var d := Dedup(init);
      assert xs == init + [last];
      assert Elems(xs) == Elems(init) + {last};
      if last in d then d
      else
        assert forall i :: 0 <= i < |d| ==> d[i] in Elems(d);
        d + [last]
  }

  /** De-duplication changes nothing in a sequence without repetitions. */
  lemma {:induction false} DedupOfDistinct<T>(xs: seq<T>)
    requires Distinct(xs)
    ensures Dedup(xs) == xs
  {
    if xs != [] {
      var init := xs[..|xs| - 1];
      DedupOfDistinct(init);
      assert xs == init + [xs[|xs| - 1]];
    }
  }

  /** A value that already occurred is dropped wherever it occurs again: inserting it anywhere
      after its first occurrence does not change the de-duplicated sequence. */
  lemma {:induction false} DedupSkipsRepeat<T>(a: seq<T>, x: T, b: seq<T>)
    requires x in a
    ensures Dedup(a + [x] + b) == Dedup(a + b)
    decreases |b|
  {
    if b == [] {
      assert a + [x] + b == a + [x];
      assert (a + [x])[..|a|] == a;
      assert x in Elems(Dedup(a));
      assert a + b == a;
    } else {
      var b', y := b[..|b| - 1], b[|b| - 1];
      DedupSkipsRepeat(a, x, b');
      assert (a + [x] + b)[..|a + [x] + b| - 1] == a + [x] + b';
      assert (a + b)[..|a + b| - 1] == a + b';
    }
  }

  /** One more element at the end: kept exactly when it is new. */
  lemma DedupSnoc<T>(xs: seq<T>, x: T)
    ensures Dedup(xs + [x]) == if x in Elems(xs) then Dedup(xs) else Dedup(xs) + [x]
  {
    assert (xs + [x])[..|xs|] == xs;
  }

  /** Python's ordering of lists of integers: the first differing position decides, and a proper
      prefix comes first. */
  predicate LexLess(a: seq<int>, b: seq<int>)
  {
    b != [] && (a == [] || a[0] < b[0] || (a[0] == b[0] && LexLess(a[1..], b[1..])))
  }

  /** The ordering is strict: never both ways, so never a sequence before itself. */
  lemma {:induction false} LexAsymmetric(a: seq<int>, b: seq<int>)
    ensures !(LexLess(a, b) && LexLess(b, a))
    decreases |a|
  {
    if a != [] && b != [] && a[0] == b[0] {
      LexAsymmetric(a[1..], b[1..]);
    }
  }
}
