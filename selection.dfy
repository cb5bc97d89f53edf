/** The cache reaper's per-scope greedy selection: order the candidates by
    their metric, largest first, then take fetch-succeeding containers in that
    order until the running sum of their metrics strictly exceeds the target. */
module ReclaimSelection {
  import opened Types

  /** Point-in-time metric fetch keyed by (pod UID, container name, metric
      name, NUMA id); None stands for a fetch error. The value is the metric
      already truncated to an integer. */
  type MetricLookup = (string, string, string, int) -> Option<int>

  /** Which metric is read, and for which NUMA id (-1 for the whole node). */
  datatype Scope = Scope(metricName: string, numaID: int)

  function MetricOf(lookup: MetricLookup, scope: Scope, c: ContainerInfo): Option<int>
  {
    lookup(c.podUID, c.containerName, scope.metricName, scope.numaID)
  }

  predicate Fetched(lookup: MetricLookup, scope: Scope, c: ContainerInfo)
  {
    MetricOf(lookup, scope, c).Some?
  }

  /** The fetched value, or 0 for a fetch error (only used where Fetched holds). */
  function ValueOf(lookup: MetricLookup, scope: Scope, c: ContainerInfo): int
  {
    match MetricOf(lookup, scope, c)
    case Some(v) => v
    case None => 0
  }

  /** The fetch-succeeding containers of s, in order. */
  function Successes(lookup: MetricLookup, scope: Scope, s: seq<ContainerInfo>): seq<ContainerInfo>
  {
    if s == [] then []
    else if Fetched(lookup, scope, s[0]) then [s[0]] + Successes(lookup, scope, s[1..])
    else Successes(lookup, scope, s[1..])
  }

  /** Sum of the metric values of s. */
  function Sum(lookup: MetricLookup, scope: Scope, s: seq<ContainerInfo>): int
  {
    if s == [] then 0 else ValueOf(lookup, scope, s[0]) + Sum(lookup, scope, s[1..])
  }

  /** Among fetch-succeeding entries, a later one never has a larger metric. */
  ghost predicate Descending(lookup: MetricLookup, scope: Scope, s: seq<ContainerInfo>)
  {
    forall i, j :: 0 <= i < j < |s| && Fetched(lookup, scope, s[i]) && Fetched(lookup, scope, s[j]) ==>
      ValueOf(lookup, scope, s[j]) <= ValueOf(lookup, scope, s[i])
  }

  ghost predicate IsSubsequence<T>(a: seq<T>, b: seq<T>)
    decreases |b|
  {
    a == [] || (b != [] && ((a[0] == b[0] && IsSubsequence(a[1..], b[1..])) || IsSubsequence(a, b[1..])))
  }

  /** A descending list stays descending without its head. */
  lemma DescendingTail(lookup: MetricLookup, scope: Scope, s: seq<ContainerInfo>)
    requires s != [] && Descending(lookup, scope, s)
    ensures Descending(lookup, scope, s[1..])
  {
    forall i, j | 0 <= i < j < |s[1..]| && Fetched(lookup, scope, s[1..][i]) && Fetched(lookup, scope, s[1..][j])
      ensures ValueOf(lookup, scope, s[1..][j]) <= ValueOf(lookup, scope, s[1..][i])
    {
      assert s[1..][i] == s[i + 1] && s[1..][j] == s[j + 1];
    }
  }

  /** A head no smaller than every fetch-succeeding entry of a descending
      tail gives a descending list. */
  lemma DescendingCons(lookup: MetricLookup, scope: Scope, h: ContainerInfo, t: seq<ContainerInfo>)
    requires Descending(lookup, scope, t)
    requires forall y :: y in t && Fetched(lookup, scope, h) && Fetched(lookup, scope, y) ==>
      ValueOf(lookup, scope, y) <= ValueOf(lookup, scope, h)
    ensures Descending(lookup, scope, [h] + t)
  {
    var r := [h] + t;
    forall i, j | 0 <= i < j < |r| && Fetched(lookup, scope, r[i]) && Fetched(lookup, scope, r[j])
      ensures ValueOf(lookup, scope, r[j]) <= ValueOf(lookup, scope, r[i])
    {
      assert r[j] == t[j - 1];
      if i == 0 {
        assert t[j - 1] in t;
      } else {
        assert r[i] == t[i - 1];
      }
    }
  }

  /** The head of a descending list bounds every fetch-succeeding entry. */
  lemma HeadDominates(lookup: MetricLookup, scope: Scope, s: seq<ContainerInfo>)
    requires s != [] && Descending(lookup, scope, s) && Fetched(lookup, scope, s[0])
    ensures forall y :: y in s && Fetched(lookup, scope, y) ==> ValueOf(lookup, scope, y) <= ValueOf(lookup, scope, s[0])
  {
    forall y | y in s && Fetched(lookup, scope, y) ensures ValueOf(lookup, scope, y) <= ValueOf(lookup, scope, s[0]) {
      var j :| 0 <= j < |s| && s[j] == y;
    }
  }

  /** Inserting x, no larger than the head h, into the tail of a descending
      list keeps h a bound for every fetch-succeeding entry. */
  lemma InsertedTailBounded(lookup: MetricLookup, scope: Scope, h: ContainerInfo, x: ContainerInfo,
                            t: seq<ContainerInfo>, rest: seq<ContainerInfo>)
    requires Descending(lookup, scope, [h] + t)
    requires multiset(rest) == multiset(t) + multiset{x}
    requires Fetched(lookup, scope, h) && Fetched(lookup, scope, x) ==> ValueOf(lookup, scope, x) <= ValueOf(lookup, scope, h)
    ensures forall y :: y in rest && Fetched(lookup, scope, h) && Fetched(lookup, scope, y) ==>
      ValueOf(lookup, scope, y) <= ValueOf(lookup, scope, h)
  {
    forall y | y in rest && Fetched(lookup, scope, h) && Fetched(lookup, scope, y)
      ensures ValueOf(lookup, scope, y) <= ValueOf(lookup, scope, h)
    {
      assert y in multiset(rest);
      if y != x {
        HeadDominates(lookup, scope, [h] + t);
        assert y in [h] + t by {
          assert y in multiset(t);
        }
      }
    }
  }

  /** Inserts x into s, keeping fetch-succeeding entries in descending order.
      A fetch-failing x is put in front; where failing entries end up is not
      part of what the ordering promises. */
  function InsertByMetric(lookup: MetricLookup, scope: Scope, x: ContainerInfo, s: seq<ContainerInfo>): (r: seq<ContainerInfo>)
    requires Descending(lookup, scope, s)
    ensures multiset(r) == multiset(s) + multiset{x}
    ensures Descending(lookup, scope, r)
    decreases |s|
  {
    if s == [] || !Fetched(lookup, scope, x) then
      DescendingCons(lookup, scope, x, s);
      [x] + s
    else if Fetched(lookup, scope, s[0]) && ValueOf(lookup, scope, s[0]) < ValueOf(lookup, scope, x) then
      HeadDominates(lookup, scope, s);
      DescendingCons(lookup, scope, x, s);
      [x] + s
    else
      assert s == [s[0]] + s[1..];
      DescendingTail(lookup, scope, s);
      var rest := InsertByMetric(lookup, scope, x, s[1..]);
      InsertedTailBounded(lookup, scope, s[0], x, s[1..], rest);
      DescendingCons(lookup, scope, s[0], rest);
      [s[0]] + rest
  }

  /** The ordering step: a permutation of s that is descending by metric
      among the fetch-succeeding entries. */
  function SortByMetric(lookup: MetricLookup, scope: Scope, s: seq<ContainerInfo>): (r: seq<ContainerInfo>)
    ensures multiset(r) == multiset(s)
    ensures Descending(lookup, scope, r)
    decreases |s|
  {
    if s == [] then []
    else
      assert s == [s[0]] + s[1..];
      InsertByMetric(lookup, scope, s[0], SortByMetric(lookup, scope, s[1..]))
  }

  /** The traversal of an ordered list, as a reference definition: skip a
      fetch error, otherwise take the container and stop once the running sum
      (starting at base) strictly exceeds target. */
  function Greedy(lookup: MetricLookup, scope: Scope, s: seq<ContainerInfo>, target: int, base: int): seq<ContainerInfo>
    decreases |s|
  {
    if s == [] then []
    else if !Fetched(lookup, scope, s[0]) then Greedy(lookup, scope, s[1..], target, base)
    else if base + ValueOf(lookup, scope, s[0]) > target then [s[0]]
    else [s[0]] + Greedy(lookup, scope, s[1..], target, base + ValueOf(lookup, scope, s[0]))
  }

  /** What one scope selects from its candidates for a reclaim target. */
  function Selection(lookup: MetricLookup, scope: Scope, candidates: seq<ContainerInfo>, target: int): seq<ContainerInfo>
  {
    Greedy(lookup, scope, SortByMetric(lookup, scope, candidates), target, 0)
  }

  /** The cumulative-threshold rule, relative to the ordered list succ of
      fetch-succeeding candidates: sel is a prefix of succ; every shorter
      non-empty prefix of sel keeps the sum (from base) at most target; and
      if sel stopped before the end of succ, it is non-empty and its sum
      strictly exceeds target. */
  ghost predicate IsGreedySelection(lookup: MetricLookup, scope: Scope, sel: seq<ContainerInfo>,
                                    succ: seq<ContainerInfo>, target: int, base: int)
  {
    && |sel| <= |succ|
    && sel == succ[..|sel|]
    && (forall k :: 1 <= k < |sel| ==> base + Sum(lookup, scope, sel[..k]) <= target)
    && (|sel| < |succ| ==> |sel| >= 1 && base + Sum(lookup, scope, sel) > target)
  }

  /** Selecting from inputs with equal contents gives the same multiset of
      fetch-succeeding entries. */
  lemma {:induction false} SuccessesCount(lookup: MetricLookup, scope: Scope, s: seq<ContainerInfo>, y: ContainerInfo)
    ensures multiset(Successes(lookup, scope, s))[y] == if Fetched(lookup, scope, y) then multiset(s)[y] else 0
    decreases |s|
  {
    if s != [] {
      assert s == [s[0]] + s[1..];
      SuccessesCount(lookup, scope, s[1..], y);
    }
  }

  lemma SuccessesMembers(lookup: MetricLookup, scope: Scope, s: seq<ContainerInfo>)
    ensures forall y :: y in Successes(lookup, scope, s) <==> y in s && Fetched(lookup, scope, y)
  {
    forall y ensures y in Successes(lookup, scope, s) <==> y in s && Fetched(lookup, scope, y) {
      SuccessesCount(lookup, scope, s, y);
      assert y in Successes(lookup, scope, s) <==> y in multiset(Successes(lookup, scope, s));
      assert y in s <==> y in multiset(s);
    }
  }

  lemma SuccessesPermutation(lookup: MetricLookup, scope: Scope, a: seq<ContainerInfo>, b: seq<ContainerInfo>)
    requires multiset(a) == multiset(b)
    ensures multiset(Successes(lookup, scope, a)) == multiset(Successes(lookup, scope, b))
  {
    forall y ensures multiset(Successes(lookup, scope, a))[y] == multiset(Successes(lookup, scope, b))[y] {
      SuccessesCount(lookup, scope, a, y);
      SuccessesCount(lookup, scope, b, y);
    }
  }

  /** The fetch-succeeding entries of a descending list are in descending order. */
  lemma {:induction false} SuccessesDescending(lookup: MetricLookup, scope: Scope, s: seq<ContainerInfo>)
    requires Descending(lookup, scope, s)
    ensures forall i, j :: 0 <= i < j < |Successes(lookup, scope, s)| ==>
      ValueOf(lookup, scope, Successes(lookup, scope, s)[j]) <= ValueOf(lookup, scope, Successes(lookup, scope, s)[i])
    decreases |s|
  {
    if s != [] {
      var rest := Successes(lookup, scope, s[1..]);
      assert Descending(lookup, scope, s[1..]) by {
        forall i, j | 0 <= i < j < |s[1..]| && Fetched(lookup, scope, s[1..][i]) && Fetched(lookup, scope, s[1..][j])
          ensures ValueOf(lookup, scope, s[1..][j]) <= ValueOf(lookup, scope, s[1..][i])
        {
          assert s[1..][i] == s[i + 1] && s[1..][j] == s[j + 1];
        }
      }
      SuccessesDescending(lookup, scope, s[1..]);
      if Fetched(lookup, scope, s[0]) {
        SuccessesMembers(lookup, scope, s[1..]);
        forall y | y in rest ensures ValueOf(lookup, scope, y) <= ValueOf(lookup, scope, s[0]) {
          var j :| 0 <= j < |s[1..]| && s[1..][j] == y;
          assert s[j + 1] == y;
        }
        var r := Successes(lookup, scope, s);
        assert r == [s[0]] + rest;
        forall i, j | 0 <= i < j < |r| ensures ValueOf(lookup, scope, r[j]) <= ValueOf(lookup, scope, r[i]) {
          if i == 0 {
            assert r[j] == rest[j - 1] && rest[j - 1] in rest;
          } else {
            assert r[i] == rest[i - 1] && r[j] == rest[j - 1];
          }
        }
      }
    }
  }

  /** The fetch-succeeding entries of s keep their order in s. */
  lemma {:induction false} SuccessesSubsequence(lookup: MetricLookup, scope: Scope, s: seq<ContainerInfo>)
    ensures IsSubsequence(Successes(lookup, scope, s), s)
    decreases |s|
  {
    if s != [] {
      SuccessesSubsequence(lookup, scope, s[1..]);
      var r := Successes(lookup, scope, s);
      if Fetched(lookup, scope, s[0]) {
        assert r[0] == s[0] && r[1..] == Successes(lookup, scope, s[1..]);
      } else if r != [] {
        assert r == Successes(lookup, scope, s[1..]);
      }
    }
  }

  /** A prefix of a subsequence is a subsequence. */
  lemma {:induction false} PrefixOfSubsequence<T>(a: seq<T>, b: seq<T>, n: nat)
    requires IsSubsequence(a, b) && n <= |a|
    ensures IsSubsequence(a[..n], b)
    decreases |b|
  {
    if n > 0 {
      if a[0] == b[0] && IsSubsequence(a[1..], b[1..]) {
        PrefixOfSubsequence(a[1..], b[1..], n - 1);
        assert a[..n][0] == b[0] && a[..n][1..] == a[1..][..n - 1];
      } else {
        PrefixOfSubsequence(a, b[1..], n);
      }
    }
  }

  /** The reference traversal obeys the cumulative-threshold rule. */
  lemma {:induction false} GreedyIsGreedySelection(lookup: MetricLookup, scope: Scope, s: seq<ContainerInfo>, target: int, base: int)
    ensures IsGreedySelection(lookup, scope, Greedy(lookup, scope, s, target, base), Successes(lookup, scope, s), target, base)
    decreases |s|
  {
    if s != [] {
      var succ := Successes(lookup, scope, s);
      var sel := Greedy(lookup, scope, s, target, base);
      if !Fetched(lookup, scope, s[0]) {
        GreedyIsGreedySelection(lookup, scope, s[1..], target, base);
      } else {
        var v := ValueOf(lookup, scope, s[0]);
        assert succ == [s[0]] + Successes(lookup, scope, s[1..]);
        if base + v > target {
          assert Sum(lookup, scope, sel) == v + Sum(lookup, scope, []);
        } else {
          var rest := Greedy(lookup, scope, s[1..], target, base + v);
          GreedyIsGreedySelection(lookup, scope, s[1..], target, base + v);
          assert sel == [s[0]] + rest;
          forall k | 1 <= k < |sel| ensures base + Sum(lookup, scope, sel[..k]) <= target {
            assert sel[..k] == [s[0]] + rest[..k - 1];
            assert sel[..k][1..] == rest[..k - 1];
          }
          assert sel[1..] == rest;
        }
      }
    }
  }

  /** A shorter non-empty prefix of succ than a rule-obeying selection keeps
      the sum within the target. */
  lemma ShorterPrefixWithinTarget(lookup: MetricLookup, scope: Scope, sel: seq<ContainerInfo>, p: seq<ContainerInfo>,
                                  succ: seq<ContainerInfo>, target: int, base: int)
    requires IsGreedySelection(lookup, scope, sel, succ, target, base)
    requires 1 <= |p| < |sel| && p == succ[..|p|]
    ensures base + Sum(lookup, scope, p) <= target
  {
    assert sel[..|p|] == p;
  }

  /** The threshold rule determines the selection: two selections from the
      same ordered list that both obey it are equal. */
  lemma GreedySelectionUnique(lookup: MetricLookup, scope: Scope, a: seq<ContainerInfo>, b: seq<ContainerInfo>,
                              succ: seq<ContainerInfo>, target: int, base: int)
    requires IsGreedySelection(lookup, scope, a, succ, target, base)
    requires IsGreedySelection(lookup, scope, b, succ, target, base)
    ensures a == b
  {
    if |a| < |b| {
      ShorterPrefixWithinTarget(lookup, scope, b, a, succ, target, base);
      assert false;
    } else if |b| < |a| {
      ShorterPrefixWithinTarget(lookup, scope, a, b, succ, target, base);
      assert false;
    }
  }

  /** The selection of a scope is the greedy selection over its candidates'
      fetch-succeeding entries in descending metric order. */
  lemma SelectionIsGreedy(lookup: MetricLookup, scope: Scope, candidates: seq<ContainerInfo>, target: int)
    ensures var sorted := SortByMetric(lookup, scope, candidates);
      && multiset(sorted) == multiset(candidates)
      && Descending(lookup, scope, sorted)
      && IsGreedySelection(lookup, scope, Selection(lookup, scope, candidates, target), Successes(lookup, scope, sorted), target, 0)
  {
    GreedyIsGreedySelection(lookup, scope, SortByMetric(lookup, scope, candidates), target, 0);
  }

  /** The selection keeps the traversal order of the ordered list. */
  lemma SelectionInOrder(lookup: MetricLookup, scope: Scope, candidates: seq<ContainerInfo>, target: int)
    ensures IsSubsequence(Selection(lookup, scope, candidates, target), SortByMetric(lookup, scope, candidates))
  {
    var sorted := SortByMetric(lookup, scope, candidates);
    var succ := Successes(lookup, scope, sorted);
    SelectionIsGreedy(lookup, scope, candidates, target);
    SuccessesSubsequence(lookup, scope, sorted);
    PrefixOfSubsequence(succ, sorted, |Selection(lookup, scope, candidates, target)|);
  }

  /** The selection is taken from the candidates, with multiplicity, and holds
      only containers whose metric fetch succeeded. */
  lemma SelectionFromCandidates(lookup: MetricLookup, scope: Scope, candidates: seq<ContainerInfo>, target: int)
    ensures var sel := Selection(lookup, scope, candidates, target);
      && multiset(sel) <= multiset(candidates)
      && forall c :: c in sel ==> Fetched(lookup, scope, c)
  {
    var sorted := SortByMetric(lookup, scope, candidates);
    var succ := Successes(lookup, scope, sorted);
    var sel := Selection(lookup, scope, candidates, target);
    SelectionIsGreedy(lookup, scope, candidates, target);
    SuccessesMembers(lookup, scope, sorted);
    assert succ == sel + succ[|sel|..];
    forall y ensures multiset(sel)[y] <= multiset(candidates)[y] {
      SuccessesCount(lookup, scope, sorted, y);
      assert multiset(succ) == multiset(sel) + multiset(succ[|sel|..]);
    }
  }

  /** In a descending list, every entry of a prefix has a metric no smaller
      than any entry outside the prefix. */
  lemma PrefixDominates(lookup: MetricLookup, scope: Scope, sel: seq<ContainerInfo>, succ: seq<ContainerInfo>)
    requires |sel| <= |succ| && sel == succ[..|sel|]
    requires forall i, j :: 0 <= i < j < |succ| ==> ValueOf(lookup, scope, succ[j]) <= ValueOf(lookup, scope, succ[i])
    ensures forall c, d :: c in sel && d in succ && d !in sel ==> ValueOf(lookup, scope, d) <= ValueOf(lookup, scope, c)
  {
    forall c, d | c in sel && d in succ && d !in sel
      ensures ValueOf(lookup, scope, d) <= ValueOf(lookup, scope, c)
    {
      var i :| 0 <= i < |sel| && sel[i] == c;
      var j :| 0 <= j < |succ| && succ[j] == d;
      assert succ[i] == c;
    }
  }

  /** Every selected container has a metric no smaller than any
      fetch-succeeding candidate that was left out. */
  lemma SelectionDominates(lookup: MetricLookup, scope: Scope, candidates: seq<ContainerInfo>, target: int)
    ensures var sel := Selection(lookup, scope, candidates, target);
      forall c, d :: c in sel && d in candidates && Fetched(lookup, scope, d) && d !in sel ==>
        ValueOf(lookup, scope, d) <= ValueOf(lookup, scope, c)
  {
    var sorted := SortByMetric(lookup, scope, candidates);
    var succ := Successes(lookup, scope, sorted);
    var sel := Selection(lookup, scope, candidates, target);
    SelectionIsGreedy(lookup, scope, candidates, target);
    SuccessesDescending(lookup, scope, sorted);
    SuccessesMembers(lookup, scope, sorted);
    PrefixDominates(lookup, scope, sel, succ);
    forall d | d in candidates && Fetched(lookup, scope, d)
      ensures d in succ
    {
      assert d in multiset(candidates);
    }
  }

  /** A fetch-succeeding candidate is left out only once the target has been
      strictly exceeded; so when the selected sum stays within the target,
      every fetch-succeeding candidate is selected. */
  lemma SelectionCompleteBelowTarget(lookup: MetricLookup, scope: Scope, candidates: seq<ContainerInfo>, target: int)
    ensures var sel := Selection(lookup, scope, candidates, target);
      && (forall d :: d in candidates && Fetched(lookup, scope, d) && d !in sel ==> Sum(lookup, scope, sel) > target)
      && (Sum(lookup, scope, sel) <= target ==> multiset(sel) == multiset(Successes(lookup, scope, candidates)))
  {
    var sorted := SortByMetric(lookup, scope, candidates);
    var succ := Successes(lookup, scope, sorted);
    var sel := Selection(lookup, scope, candidates, target);
    SelectionIsGreedy(lookup, scope, candidates, target);
    SuccessesMembers(lookup, scope, sorted);
    SuccessesPermutation(lookup, scope, sorted, candidates);
    forall d | d in candidates && Fetched(lookup, scope, d) && d !in sel
      ensures Sum(lookup, scope, sel) > target
    {
      assert d in multiset(candidates);
      assert d in succ;
    }
    if Sum(lookup, scope, sel) <= target {
      assert sel == succ;
    }
  }

  /** The metric values of s, in order. */
  function Values(lookup: MetricLookup, scope: Scope, s: seq<ContainerInfo>): (r: seq<int>)
    ensures |r| == |s|
  {
    if s == [] then [] else [ValueOf(lookup, scope, s[0])] + Values(lookup, scope, s[1..])
  }

  /** Values holds one metric value per entry, at the entry's position. */
  lemma {:induction false} ValuesIndex(lookup: MetricLookup, scope: Scope, s: seq<ContainerInfo>)
    ensures |Values(lookup, scope, s)| == |s|
    ensures forall i :: 0 <= i < |s| ==> Values(lookup, scope, s)[i] == ValueOf(lookup, scope, s[i])
    decreases |s|
  {
    if s != [] {
      ValuesIndex(lookup, scope, s[1..]);
      forall i | 1 <= i < |s| ensures Values(lookup, scope, s)[i] == ValueOf(lookup, scope, s[i]) {
        assert s[1..][i - 1] == s[i];
      }
    }
  }

  lemma ValuesCons(lookup: MetricLookup, scope: Scope, s: seq<ContainerInfo>)
    requires s != []
    ensures Values(lookup, scope, s) == [ValueOf(lookup, scope, s[0])] + Values(lookup, scope, s[1..])
  {
  }

  lemma {:induction false} ValuesConcat(lookup: MetricLookup, scope: Scope, p: seq<ContainerInfo>, q: seq<ContainerInfo>)
    ensures Values(lookup, scope, p + q) == Values(lookup, scope, p) + Values(lookup, scope, q)
    decreases |p|
  {
    if p == [] {
      assert p + q == q;
    } else {
      assert (p + q)[0] == p[0] && (p + q)[1..] == p[1..] + q;
      ValuesConcat(lookup, scope, p[1..], q);
      ValuesCons(lookup, scope, p + q);
      ValuesCons(lookup, scope, p);
    }
  }

  /** Taking out the entry at j takes out its value from the bag of values. */
  lemma ValuesRemove(lookup: MetricLookup, scope: Scope, b: seq<ContainerInfo>, j: int)
    requires 0 <= j < |b|
    ensures multiset(Values(lookup, scope, b))
      == multiset(Values(lookup, scope, b[..j] + b[j + 1..])) + multiset{ValueOf(lookup, scope, b[j])}
  {
    assert b == b[..j] + ([b[j]] + b[j + 1..]);
    ValuesConcat(lookup, scope, b[..j], [b[j]] + b[j + 1..]);
    ValuesConcat(lookup, scope, b[..j], b[j + 1..]);
    ValuesCons(lookup, scope, [b[j]] + b[j + 1..]);
    assert ([b[j]] + b[j + 1..])[1..] == b[j + 1..];
  }

  /** Containers with equal contents have equal bags of metric values. */
  lemma {:induction false} ValuesPermutation(lookup: MetricLookup, scope: Scope, a: seq<ContainerInfo>, b: seq<ContainerInfo>)
    requires multiset(a) == multiset(b)
    ensures multiset(Values(lookup, scope, a)) == multiset(Values(lookup, scope, b))
    decreases |a|
  {
    if a != [] {
      var x := a[0];
      assert x in multiset(b);
      var j :| 0 <= j < |b| && b[j] == x;
      var b' := b[..j] + b[j + 1..];
      assert multiset(a[1..]) == multiset(b') by {
        assert b == b[..j] + [x] + b[j + 1..];
        assert a == [x] + a[1..];
        assert multiset(a[1..]) == multiset(a) - multiset{x};
        assert multiset(b') == multiset(b) - multiset{x};
      }
      ValuesPermutation(lookup, scope, a[1..], b');
      ValuesRemove(lookup, scope, b, j);
      ValuesCons(lookup, scope, a);
    }
  }

  ghost predicate DescendingInts(p: seq<int>)
  {
    forall i, j :: 0 <= i < j < |p| ==> p[j] <= p[i]
  }

  /** The head of a descending integer sequence is its largest element. */
  lemma DescendingIntsHead(p: seq<int>, v: int)
    requires p != [] && DescendingInts(p) && v in multiset(p)
    ensures v <= p[0]
  {
    var i :| 0 <= i < |p| && p[i] == v;
  }

  lemma DescendingIntsTail(p: seq<int>)
    requires p != [] && DescendingInts(p)
    ensures DescendingInts(p[1..])
  {
    forall i, j | 0 <= i < j < |p[1..]| ensures p[1..][j] <= p[1..][i] {
      assert p[1..][i] == p[i + 1] && p[1..][j] == p[j + 1];
    }
  }

  lemma MultisetTail(p: seq<int>)
    requires p != []
    ensures multiset(p[1..]) == multiset(p) - multiset{p[0]}
  {
    assert p == [p[0]] + p[1..];
  }

  /** Two descending arrangements of one bag start with the same element. */
  lemma DescendingIntsSameHead(p: seq<int>, q: seq<int>)
    requires p != [] && q != [] && DescendingInts(p) && DescendingInts(q) && multiset(p) == multiset(q)
    ensures p[0] == q[0]
  {
    assert q[0] in multiset(q) && p[0] in multiset(p);
    DescendingIntsHead(p, q[0]);
    DescendingIntsHead(q, p[0]);
  }

  /** A bag of integers has exactly one descending arrangement. */
  lemma {:induction false} DescendingIntsUnique(p: seq<int>, q: seq<int>)
    requires DescendingInts(p) && DescendingInts(q) && multiset(p) == multiset(q)
    ensures p == q
    decreases |p|
  {
    assert |multiset(q)| == |multiset(p)|;
    if p != [] && q != [] {
      DescendingIntsSameHead(p, q);
      MultisetTail(p);
      MultisetTail(q);
      DescendingIntsTail(p);
      DescendingIntsTail(q);
      DescendingIntsUnique(p[1..], q[1..]);
      assert p == [p[0]] + p[1..] && q == [q[0]] + q[1..];
    }
  }

  /** Walking a list visits its fetch-succeeding entries only. */
  lemma {:induction false} GreedyOnSuccesses(lookup: MetricLookup, scope: Scope, s: seq<ContainerInfo>, target: int, base: int)
    ensures Greedy(lookup, scope, s, target, base) == Greedy(lookup, scope, Successes(lookup, scope, s), target, base)
    decreases |s|
  {
    if s != [] {
      GreedyOnSuccesses(lookup, scope, s[1..], target, base);
      GreedyOnSuccesses(lookup, scope, s[1..], target, base + ValueOf(lookup, scope, s[0]));
      if Fetched(lookup, scope, s[0]) {
        var t := Successes(lookup, scope, s[1..]);
        assert ([s[0]] + t)[0] == s[0] && ([s[0]] + t)[1..] == t;
      }
    }
  }


  /** How many entries the walk takes from a list with these metric values. */
  function TakeCount(vals: seq<int>, target: int, base: int): nat
  {
    if vals == [] then 0
    else if base + vals[0] > target then 1
    else 1 + TakeCount(vals[1..], target, base + vals[0])
  }

  /** On a list of fetch-succeeding entries the walk takes a prefix, whose
      length depends only on the metric values. */
  lemma {:induction false} GreedyIsPrefix(lookup: MetricLookup, scope: Scope, u: seq<ContainerInfo>, target: int, base: int)
    requires forall c :: c in u ==> Fetched(lookup, scope, c)
    ensures TakeCount(Values(lookup, scope, u), target, base) <= |u|
    ensures Greedy(lookup, scope, u, target, base) == u[..TakeCount(Values(lookup, scope, u), target, base)]
    decreases |u|
  {
    if u != [] {
      assert u[0] in u;
      ValuesCons(lookup, scope, u);
      GreedyHead(lookup, scope, u, target, base);
      var w := base + ValueOf(lookup, scope, u[0]);
      var vu := Values(lookup, scope, u);
      assert vu[0] == ValueOf(lookup, scope, u[0]) && vu[1..] == Values(lookup, scope, u[1..]);
      if w <= target {
        FetchedTail(lookup, scope, u);
        GreedyIsPrefix(lookup, scope, u[1..], target, w);
        var n := TakeCount(Values(lookup, scope, u[1..]), target, w);
        assert u[..n + 1] == [u[0]] + u[1..][..n];
      } else {
        assert u[..1] == [u[0]];
      }
    }
  }

  lemma ValuesPrefix(lookup: MetricLookup, scope: Scope, s: seq<ContainerInfo>, n: int)
    requires 0 <= n <= |s|
    ensures Values(lookup, scope, s[..n]) == Values(lookup, scope, s)[..n]
  {
    assert s == s[..n] + s[n..];
    ValuesConcat(lookup, scope, s[..n], s[n..]);
    ValuesIndex(lookup, scope, s[..n]);
  }

  /** On lists of fetch-succeeding entries, the walk depends only on the
      sequence of metric values: it stops at the same place and takes the
      same values. */
  lemma GreedyByValues(lookup: MetricLookup, scope: Scope, u: seq<ContainerInfo>, v: seq<ContainerInfo>,
                       target: int, base: int)
    requires forall c :: c in u ==> Fetched(lookup, scope, c)
    requires forall c :: c in v ==> Fetched(lookup, scope, c)
    requires Values(lookup, scope, u) == Values(lookup, scope, v)
    ensures |Greedy(lookup, scope, u, target, base)| == |Greedy(lookup, scope, v, target, base)|
    ensures Values(lookup, scope, Greedy(lookup, scope, u, target, base)) == Values(lookup, scope, Greedy(lookup, scope, v, target, base))
  {
    GreedyIsPrefix(lookup, scope, u, target, base);
    GreedyIsPrefix(lookup, scope, v, target, base);
    var n := TakeCount(Values(lookup, scope, u), target, base);
    ValuesPrefix(lookup, scope, u, n);
    ValuesPrefix(lookup, scope, v, n);
  }

  /** The walk at a fetch-succeeding head. */
  lemma GreedyHead(lookup: MetricLookup, scope: Scope, s: seq<ContainerInfo>, target: int, base: int)
    requires s != [] && Fetched(lookup, scope, s[0])
    ensures var w := base + ValueOf(lookup, scope, s[0]);
      Greedy(lookup, scope, s, target, base) ==
        if w > target then [s[0]] else [s[0]] + Greedy(lookup, scope, s[1..], target, w)
  {
  }


  lemma FetchedTail(lookup: MetricLookup, scope: Scope, s: seq<ContainerInfo>)
    requires s != [] && forall c :: c in s ==> Fetched(lookup, scope, c)
    ensures forall c :: c in s[1..] ==> Fetched(lookup, scope, c)
  {
    forall c | c in s[1..] ensures Fetched(lookup, scope, c) {
      assert c in s;
    }
  }

  /** The walk over any descending order of the same candidates selects the
      same number of containers with the same metric values: the order of
      equal metrics, and where fetch errors are placed, change only which of
      several equal-metric containers are picked. */
  lemma SelectionValuesOrderIndependent(lookup: MetricLookup, scope: Scope, candidates: seq<ContainerInfo>,
                                        q: seq<ContainerInfo>, target: int)
    requires Descending(lookup, scope, q)
    requires multiset(Successes(lookup, scope, q)) == multiset(Successes(lookup, scope, candidates))
    ensures |Greedy(lookup, scope, q, target, 0)| == |Selection(lookup, scope, candidates, target)|
    ensures Values(lookup, scope, Greedy(lookup, scope, q, target, 0)) == Values(lookup, scope, Selection(lookup, scope, candidates, target))
  {
    var sorted := SortByMetric(lookup, scope, candidates);
    var u := Successes(lookup, scope, q);
    var v := Successes(lookup, scope, sorted);
    SuccessesPermutation(lookup, scope, sorted, candidates);
    SuccessesDescending(lookup, scope, q);
    SuccessesDescending(lookup, scope, sorted);
    SuccessesMembers(lookup, scope, q);
    SuccessesMembers(lookup, scope, sorted);
    ValuesPermutation(lookup, scope, u, v);
    ValuesIndex(lookup, scope, u);
    ValuesIndex(lookup, scope, v);
    DescendingIntsUnique(Values(lookup, scope, u), Values(lookup, scope, v));
    GreedyOnSuccesses(lookup, scope, q, target, 0);
    GreedyOnSuccesses(lookup, scope, sorted, target, 0);
    GreedyByValues(lookup, scope, u, v, target, 0);
  }

  /** In particular, a stable order of the candidates, or dropping fetch
      errors before ordering, selects the same metric values. */
  lemma SelectionValuesAnyDescendingPermutation(lookup: MetricLookup, scope: Scope, candidates: seq<ContainerInfo>,
                                                q: seq<ContainerInfo>, target: int)
    requires Descending(lookup, scope, q)
    requires multiset(q) == multiset(candidates) || multiset(q) == multiset(Successes(lookup, scope, candidates))
    ensures |Greedy(lookup, scope, q, target, 0)| == |Selection(lookup, scope, candidates, target)|
    ensures Values(lookup, scope, Greedy(lookup, scope, q, target, 0)) == Values(lookup, scope, Selection(lookup, scope, candidates, target))
  {
    if multiset(q) == multiset(candidates) {
      SuccessesPermutation(lookup, scope, q, candidates);
    } else {
      SuccessesMembers(lookup, scope, candidates);
      forall c | c in q ensures Fetched(lookup, scope, c) {
        assert c in multiset(Successes(lookup, scope, candidates));
      }
      SuccessesOfFetched(lookup, scope, q);
    }
    SelectionValuesOrderIndependent(lookup, scope, candidates, q, target);
  }

  /** A list of fetch-succeeding entries is its own list of successes. */
  lemma {:induction false} SuccessesOfFetched(lookup: MetricLookup, scope: Scope, s: seq<ContainerInfo>)
    requires forall c :: c in s ==> Fetched(lookup, scope, c)
    ensures Successes(lookup, scope, s) == s
    decreases |s|
  {
    if s != [] {
      assert s[0] in s;
      assert forall c :: c in s[1..] ==> c in s;
      SuccessesOfFetched(lookup, scope, s[1..]);
      assert s == [s[0]] + s[1..];
    }
  }

  /** Two fetched candidates, the later one not smaller: the sort puts the
      later one first. */
  lemma SortPair(lookup: MetricLookup, scope: Scope, a: ContainerInfo, b: ContainerInfo)
    requires Fetched(lookup, scope, a) && Fetched(lookup, scope, b)
    requires ValueOf(lookup, scope, a) <= ValueOf(lookup, scope, b)
    ensures SortByMetric(lookup, scope, [a, b]) == [b, a]
  {
    assert [a, b][1..] == [b];
    assert [b][1..] == [];
    assert SortByMetric(lookup, scope, [b]) == [b];
    assert InsertByMetric(lookup, scope, a, []) == [a];
    assert InsertByMetric(lookup, scope, a, [b]) == [b] + InsertByMetric(lookup, scope, a, []);
  }

  /** Equal metrics are not ordered by the model's sort: with two containers
      of metric 50 and a target of 40, the later candidate is picked. */
  lemma TiedMetricsPickOne(lookup: MetricLookup, scope: Scope, a: ContainerInfo, b: ContainerInfo)
    requires MetricOf(lookup, scope, a) == Some(50) && MetricOf(lookup, scope, b) == Some(50)
    ensures Selection(lookup, scope, [a, b], 40) == [b]
  {
    SortPair(lookup, scope, a, b);
    assert [b, a][1..] == [a];
    assert Greedy(lookup, scope, [b, a], 40, 0) == [b];
  }

  /** Two candidates with metrics 30 and 80 and a target of 50: the larger
      one alone exceeds the target and is the only one selected. */
  lemma LargerMetricAloneSuffices(lookup: MetricLookup, scope: Scope, a: ContainerInfo, b: ContainerInfo)
    requires MetricOf(lookup, scope, a) == Some(30) && MetricOf(lookup, scope, b) == Some(80)
    ensures Selection(lookup, scope, [a, b], 50) == [b]
  {
    SortPair(lookup, scope, a, b);
    assert [b, a][1..] == [a];
    assert Greedy(lookup, scope, [b, a], 50, 0) == [b];
  }

  /** What the traversal promises about a scope's Selection, in one place. */
  lemma SelectionFacts(lookup: MetricLookup, scope: Scope, containers: seq<ContainerInfo>, target: int)
    ensures var sel := Selection(lookup, scope, containers, target);
      && IsGreedySelection(lookup, scope, sel, Successes(lookup, scope, SortByMetric(lookup, scope, containers)), target, 0)
      && (forall c :: c in sel ==> Fetched(lookup, scope, c))
  {
    SelectionIsGreedy(lookup, scope, containers, target);
    SelectionFromCandidates(lookup, scope, containers, target);
  }

  /** The traversal of an ordered list with its running sum (lines 72-87 of
      the selection): skip a fetch error, take the container, stop once the
      sum strictly exceeds the target. */
  method Walk(lookup: MetricLookup, scope: Scope, sorted: seq<ContainerInfo>, target: int)
    returns (selected: seq<ContainerInfo>)
    ensures selected == Greedy(lookup, scope, sorted, target, 0)
  {
    ghost var spec := Greedy(lookup, scope, sorted, target, 0);
    selected := [];
    var sum := 0;
    var i := 0;
    while i < |sorted|
      invariant 0 <= i <= |sorted|
      invariant selected + Greedy(lookup, scope, sorted[i..], target, sum) == spec
    {
      var ci := sorted[i];
      var metric := MetricOf(lookup, scope, ci);
      ghost var here := Greedy(lookup, scope, sorted[i..], target, sum);
      if metric.Some? {
        GreedyStepFetched(lookup, scope, sorted, i, target, sum, metric.value);
        ghost var before := selected;
        selected := selected + [ci];
        sum := sum + metric.value;
        if sum > target {
          assert here == [ci];
          break;
        }
        ghost var after := Greedy(lookup, scope, sorted[i + 1..], target, sum);
        assert here == [ci] + after;
        assert before + ([ci] + after) == selected + after;
      } else {
        GreedyStepFailed(lookup, scope, sorted, i, target, sum);
      }
      i := i + 1;
    }
    if i == |sorted| {
      assert sorted[i..] == [];
    }
  }

  /** One step of the walk at a fetch-succeeding entry. */
  lemma GreedyStepFetched(lookup: MetricLookup, scope: Scope, s: seq<ContainerInfo>, i: int, target: int, base: int, v: int)
    requires 0 <= i < |s| && MetricOf(lookup, scope, s[i]) == Some(v)
    ensures base + v > target ==> Greedy(lookup, scope, s[i..], target, base) == [s[i]]
    ensures base + v <= target ==> Greedy(lookup, scope, s[i..], target, base) == [s[i]] + Greedy(lookup, scope, s[i + 1..], target, base + v)
  {
    assert s[i..][0] == s[i] && s[i..][1..] == s[i + 1..];
  }

  /** One step of the walk at a fetch error. */
  lemma GreedyStepFailed(lookup: MetricLookup, scope: Scope, s: seq<ContainerInfo>, i: int, target: int, base: int)
    requires 0 <= i < |s| && MetricOf(lookup, scope, s[i]) == None
    ensures Greedy(lookup, scope, s[i..], target, base) == Greedy(lookup, scope, s[i + 1..], target, base)
  {
    assert s[i..][0] == s[i] && s[i..][1..] == s[i + 1..];
  }

  /** A scope's selection: order the candidates, then walk them. The result
      is exactly the scope's Selection, obeys the threshold rule over the
      ordered fetch-succeeding candidates and holds only fetched containers. */
  method SelectContainers(lookup: MetricLookup, scope: Scope, containers: seq<ContainerInfo>, target: int)
    returns (selected: seq<ContainerInfo>)
    ensures selected == Selection(lookup, scope, containers, target)
    ensures IsGreedySelection(lookup, scope, selected, Successes(lookup, scope, SortByMetric(lookup, scope, containers)), target, 0)
    ensures forall c :: c in selected ==> Fetched(lookup, scope, c)
  {
    var sorted := SortByMetric(lookup, scope, containers);
    selected := Walk(lookup, scope, sorted, target);
    SelectionFacts(lookup, scope, containers, target);
  }
}
