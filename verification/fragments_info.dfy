/** The corpus length statistics of `printFragmentsInfo`: number of fragments,
    mean length, N50, minimum and maximum. */
module FragmentsInfo {
  import opened Corpus
  import opened Averages

  function Sum(s: seq<nat>): nat
  {
    if |s| == 0 then 0 else Sum(s[..|s| - 1]) + s[|s| - 1]
  }

  /** The length of every fragment's base string, in corpus order. */
  function Lengths(fragments: seq<Read>): seq<nat>
  {
    seq(|fragments|, i requires 0 <= i < |fragments| => |fragments[i].data|)
  }

  ghost predicate NonIncreasing(s: seq<nat>)
  {
    forall i, j :: 0 <= i < j < |s| ==> s[i] >= s[j]
  }

  /** Puts `x` into a non-increasing sequence at its place. */
  function Insert(x: nat, s: seq<nat>): (r: seq<nat>)
    requires NonIncreasing(s)
    ensures NonIncreasing(r)
    ensures multiset(r) == multiset(s) + multiset{x}
    ensures |r| == |s| + 1 && r[0] == if |s| == 0 || x >= s[0] then x else s[0]
  {
    if |s| == 0 then [x]
    else if x >= s[0] then ConsNonIncreasing(x, s); [x] + s
    else
      assert s == [s[0]] + s[1..];
      TailNonIncreasing(s);
      var t := Insert(x, s[1..]);
      ConsNonIncreasing(s[0], t);
      [s[0]] + t
  }

  lemma ConsNonIncreasing(h: nat, t: seq<nat>)
    requires NonIncreasing(t) && (|t| == 0 || h >= t[0])
    ensures NonIncreasing([h] + t)
  {
    forall i, j | 0 <= i < j < |t| + 1
      ensures ([h] + t)[i] >= ([h] + t)[j]
    {
      if i == 0 && j > 1 {
        assert t[0] >= t[j - 1];
      }
    }
  }

  /** The lengths in non-increasing order: what `sort` with `std::greater` produces. */
  function SortDesc(s: seq<nat>): (r: seq<nat>)
    ensures |r| == |s|
    ensures NonIncreasing(r)
    ensures multiset(r) == multiset(s)
  {
    if |s| == 0 then []
    else
      assert s == [s[0]] + s[1..];
      Insert(s[0], SortDesc(s[1..]))
  }

  /** There is only one non-increasing arrangement of a multiset of lengths. */
  lemma {:induction false} SortedUnique(a: seq<nat>, b: seq<nat>)
    requires NonIncreasing(a) && NonIncreasing(b)
    requires multiset(a) == multiset(b)
    ensures a == b
    decreases |a|
  {
    assert |a| == |multiset(a)| == |multiset(b)| == |b|;
    if |a| > 0 {
      HeadIsLargest(a, b[0]);
      HeadIsLargest(b, a[0]);
      var x := a[0];
      assert b[0] == x;
      assert a == [x] + a[1..];
      assert b == [x] + b[1..];
      assert multiset(a[1..]) == multiset(a) - multiset{x} == multiset(b) - multiset{x} == multiset(b[1..]);
      TailNonIncreasing(a);
      TailNonIncreasing(b);
      SortedUnique(a[1..], b[1..]);
    }
  }

  lemma TailNonIncreasing(s: seq<nat>)
    requires |s| > 0 && NonIncreasing(s)
    ensures NonIncreasing(s[1..])
  {
    forall i, j | 0 <= i < j < |s| - 1
      ensures s[1..][i] >= s[1..][j]
    {
      assert s[1..][i] == s[i + 1] && s[1..][j] == s[j + 1];
    }
  }

  lemma HeadIsLargest(s: seq<nat>, x: nat)
    requires NonIncreasing(s) && x in multiset(s)
    ensures |s| > 0 && x <= s[0]
  {
    assert x in s;
    var i :| 0 <= i < |s| && s[i] == x;
    assert i == 0 || s[0] >= s[i];
  }

  /** The sorted lengths, and so N50, do not depend on the order of the fragments. */
  lemma SortDescOrderIndependent(a: seq<nat>, b: seq<nat>)
    requires multiset(a) == multiset(b)
    ensures SortDesc(a) == SortDesc(b)
  {
    SortedUnique(SortDesc(a), SortDesc(b));
  }

  /** Reordering the reads reorders their lengths. */
  lemma {:induction false} LengthsPermutation(a: seq<Read>, b: seq<Read>)
    requires multiset(a) == multiset(b)
    ensures multiset(Lengths(a)) == multiset(Lengths(b))
    decreases |a|
  {
    assert |a| == |multiset(a)| == |multiset(b)| == |b|;
    if |a| > 0 {
      var n := |a| - 1;
      var x := a[n];
      assert x in multiset(b);
      var j :| 0 <= j < |b| && b[j] == x;
      ReadWithout(a, n);
      ReadWithout(b, j);
      assert a[..n] + a[n + 1..] == a[..n];
      LengthsPermutation(a[..n], b[..j] + b[j + 1..]);
      LengthsWithout(a, n);
      LengthsWithout(b, j);
    }
  }

  lemma ReadWithout(s: seq<Read>, j: nat)
    requires j < |s|
    ensures multiset(s[..j] + s[j + 1..]) == multiset(s) - multiset{s[j]}
  {
    assert s == s[..j] + [s[j]] + s[j + 1..];
  }

  lemma LengthsWithout(s: seq<Read>, j: nat)
    requires j < |s|
    ensures multiset(Lengths(s)) == multiset(Lengths(s[..j] + s[j + 1..])) + multiset{|s[j].data|}
  {
    var ls := Lengths(s);
    assert Lengths(s[..j] + s[j + 1..]) == ls[..j] + ls[j + 1..];
    assert ls == ls[..j] + [ls[j]] + ls[j + 1..];
  }

  /** The sum of `s[0..j]`, both ends included: `tmp_sum` after index `j`. */
  function PrefixSum(s: seq<nat>, j: nat): nat
    requires j < |s|
  {
    Sum(s[..j + 1])
  }

  /** The first index from `k` on at which twice the prefix sum of `s` reaches `total`. */
  function ReachIndex(s: seq<nat>, total: nat, k: nat): (r: nat)
    requires k < |s| && total <= 2 * Sum(s)
    ensures k <= r < |s|
    ensures 2 * PrefixSum(s, r) >= total
    ensures forall j :: k <= j < r ==> 2 * PrefixSum(s, j) < total
    decreases |s| - k
  {
    if 2 * PrefixSum(s, k) >= total then k
    else
      assert s[..|s|] == s;
      ReachIndex(s, total, k + 1)
  }

  /** The index of N50 in a sorted length list: the least index whose prefix
      holds at least half of the total length. */
  function N50Index(s: seq<nat>): (k: nat)
    requires |s| > 0
    ensures k < |s|
    ensures 2 * PrefixSum(s, k) >= Sum(s)
    ensures forall j :: 0 <= j < k ==> 2 * PrefixSum(s, j) < Sum(s)
  {
    ReachIndex(s, Sum(s), 0)
  }

  function N50(s: seq<nat>): (r: nat)
    requires |s| > 0
    ensures r in s
  {
    s[N50Index(s)]
  }

  /** `uint64_t N50 = -1`: the sentinel the scan starts from. */
  const Unset: nat := 0xFFFF_FFFF_FFFF_FFFF

  /** What `printFragmentsInfo` reports. */
  datatype Stats = Stats(count: nat, meanLength: real, n50: nat, minLength: nat, maxLength: nat)

  /** Exchanges two elements of the array. */
  method Swap(a: array<nat>, i: nat, j: nat)
    requires i < a.Length && j < a.Length
    modifies a
    ensures a[..] == old(a[..])[i := old(a[j])][j := old(a[i])]
    ensures multiset(a[..]) == multiset(old(a[..]))
  {
    a[i], a[j] := a[j], a[i];
  }

  /** One pass of the sort: moves `a[i]` left past every smaller element, so
      that `a[..i + 1]` is sorted when `a[..i]` was. */
  method SiftLeft(a: array<nat>, i: nat)
    requires i < a.Length && NonIncreasing(a[..i])
    modifies a
    ensures NonIncreasing(a[..i + 1])
    ensures multiset(a[..]) == multiset(old(a[..]))
    ensures a[i + 1..] == old(a[i + 1..])
  {
    var j := i;
    while j > 0 && a[j - 1] < a[j]
      invariant 0 <= j <= i
      invariant multiset(a[..]) == multiset(old(a[..]))
      invariant forall p, q :: 0 <= p < q <= i && p != j && q != j ==> a[p] >= a[q]
      invariant forall q :: j < q <= i ==> a[j] > a[q]
      invariant a[i + 1..] == old(a[i + 1..])
    {
      Swap(a, j - 1, j);
      j := j - 1;
    }
  }

  /** `sort(lengths.begin(), lengths.end(), std::greater<size_t>())`. */
  method SortNonIncreasing(a: array<nat>)
    modifies a
    ensures NonIncreasing(a[..])
    ensures multiset(a[..]) == multiset(old(a[..]))
  {
    var i := 0;
    while i < a.Length
      invariant 0 <= i <= a.Length
      invariant NonIncreasing(a[..i])
      invariant multiset(a[..]) == multiset(old(a[..]))
    {
      SiftLeft(a, i);
      i := i + 1;
    }
    assert a[..] == a[..a.Length];
  }

  /** Fills `lengths` with the fragments' lengths and adds them up into `length_sum`. */
  method FillLengths(fragments: seq<Read>) returns (lengths: array<nat>, lengthSum: nat)
    ensures fresh(lengths)
    ensures lengths[..] == Lengths(fragments)
    ensures lengthSum == Sum(Lengths(fragments))
  {
    var n := |fragments|;
    lengths := new nat[n];
    lengthSum := 0;
    for i := 0 to n
      invariant lengths[..i] == Lengths(fragments)[..i]
      invariant lengthSum == Sum(lengths[..i])
    {
      lengths[i] := |fragments[i].data|;
      assert lengths[..i + 1][..i] == lengths[..i];
      lengthSum := lengthSum + lengths[i];
    }
    assert lengths[..] == lengths[..n];
  }

  /** The N50 scan: adds the sorted lengths into `tmp_sum` and stops at the
      first index where twice the running sum reaches `length_sum`. The
      sentinel is always overwritten. */
  method ScanN50(lengths: array<nat>, lengthSum: nat) returns (n50: nat)
    requires lengths.Length > 0 && lengthSum == Sum(lengths[..])
    ensures n50 == N50(lengths[..])
    ensures n50 in lengths[..]
  {
    ghost var s := lengths[..];
    n50 := Unset;
    var tmpSum := 0;
    var i := 0;
    while i < lengths.Length
      invariant 0 <= i <= lengths.Length
      invariant tmpSum == Sum(s[..i])
      invariant forall j :: 0 <= j < i ==> 2 * PrefixSum(s, j) < lengthSum
    {
      assert s[..i + 1][..i] == s[..i];
      tmpSum := tmpSum + lengths[i];
      if tmpSum * 2 >= lengthSum {
        assert tmpSum == PrefixSum(s, i);
        n50 := lengths[i];
        break;
      }
      i := i + 1;
    }
    assert s[..lengths.Length] == s;
  }

  /** What `printFragmentsInfo` reports for a non-empty corpus, read off the
      lengths sorted in non-increasing order: the count, the mean length, N50,
      the last (shortest) and the first (longest) sorted length. */
  function FragmentStats(fragments: seq<Read>): (r: Stats)
    requires |fragments| > 0
    ensures r.count == |fragments|
    ensures r.n50 in Lengths(fragments)
    ensures r.minLength <= r.n50 <= r.maxLength
  {
    var sorted := SortDesc(Lengths(fragments));
    N50Between(sorted);
    assert N50(sorted) in multiset(Lengths(fragments));
    Stats(|fragments|, Sum(Lengths(fragments)) as real / |fragments| as real,
          N50(sorted), sorted[|sorted| - 1], sorted[0])
  }

  /** `printFragmentsInfo` without the printing. It fills the length array
      and its sum, sorts the array in non-increasing order, scans the prefix
      sums for the first one that reaches half of the total, and reads the
      extrema from the ends of the array. An empty corpus is undefined
      behaviour in the source (`back()` on an empty vector), so it is excluded. */
  method PrintFragmentsInfo(fragments: seq<Read>) returns (stats: Stats)
    requires |fragments| > 0
    ensures stats == FragmentStats(fragments)
  {
    var n := |fragments|;
    var lengths, lengthSum := FillLengths(fragments);
    SortNonIncreasing(lengths);
    SortedLengths(lengths[..], Lengths(fragments));
    ghost var sorted := lengths[..];
    assert |sorted| == n && sorted[n - 1] == lengths[n - 1] && sorted[0] == lengths[0];
    var n50 := ScanN50(lengths, lengthSum);
    stats := Stats(n, lengthSum as real / n as real, n50, lengths[n - 1], lengths[0]);
  }

  /** The sorted length array is the sorted sample, with the same total. */
  lemma SortedLengths(sorted: seq<nat>, ls: seq<nat>)
    requires NonIncreasing(sorted) && multiset(sorted) == multiset(ls)
    ensures sorted == SortDesc(ls)
    ensures Sum(sorted) == Sum(ls)
  {
    SortedUnique(sorted, SortDesc(ls));
    SumPermutation(sorted, ls);
  }

  /** What the report promises: the minimum and maximum are lengths of the
      corpus and bound every length, and N50 and the mean lie between them. */
  lemma FragmentStatsBounds(fragments: seq<Read>)
    requires |fragments| > 0
    ensures FragmentStats(fragments).count == |fragments|
    ensures FragmentStats(fragments).minLength in Lengths(fragments)
    ensures FragmentStats(fragments).maxLength in Lengths(fragments)
    ensures FragmentStats(fragments).n50 in Lengths(fragments)
    ensures forall l :: l in Lengths(fragments) ==>
      FragmentStats(fragments).minLength <= l <= FragmentStats(fragments).maxLength
    ensures FragmentStats(fragments).minLength <= FragmentStats(fragments).n50 <= FragmentStats(fragments).maxLength
    ensures FragmentStats(fragments).minLength as real <= FragmentStats(fragments).meanLength
    ensures FragmentStats(fragments).meanLength <= FragmentStats(fragments).maxLength as real
  {
    var ls := Lengths(fragments);
    var sorted := SortDesc(ls);
    SortedExtremes(sorted, ls);
    N50Between(sorted);
    MeanBetweenExtremes(ls, sorted[|sorted| - 1], sorted[0]);
  }

  /** The reported statistics do not depend on the order of the reads. */
  lemma FragmentStatsOrderIndependent(a: seq<Read>, b: seq<Read>)
    requires |a| > 0 && multiset(a) == multiset(b)
    ensures FragmentStats(a) == FragmentStats(b)
  {
    assert |a| == |multiset(a)| == |multiset(b)| == |b|;
    LengthsPermutation(a, b);
    SortDescOrderIndependent(Lengths(a), Lengths(b));
    SumPermutation(Lengths(a), Lengths(b));
  }

  /** N50 is one of the sorted lengths, so it lies between the last and the first. */
  lemma N50Between(sorted: seq<nat>)
    requires |sorted| > 0 && NonIncreasing(sorted)
    ensures sorted[|sorted| - 1] <= N50(sorted) <= sorted[0]
  {
    var k := N50Index(sorted);
    assert k == 0 || sorted[0] >= sorted[k];
    assert k == |sorted| - 1 || sorted[k] >= sorted[|sorted| - 1];
  }

  lemma SortedExtremes(sorted: seq<nat>, ls: seq<nat>)
    requires |sorted| > 0 && NonIncreasing(sorted) && multiset(sorted) == multiset(ls)
    ensures |ls| > 0
    ensures sorted[|sorted| - 1] in ls && sorted[0] in ls
    ensures forall l :: l in ls ==> sorted[|sorted| - 1] <= l <= sorted[0]
  {
    assert |ls| == |multiset(ls)| == |sorted|;
    assert sorted[|sorted| - 1] in multiset(sorted) && sorted[0] in multiset(sorted);
    forall l | l in ls
      ensures sorted[|sorted| - 1] <= l <= sorted[0]
    {
      assert l in multiset(sorted);
      var i :| 0 <= i < |sorted| && sorted[i] == l;
    }
  }

  /** The total length does not depend on the order of the lengths. */
  lemma {:induction false} SumPermutation(a: seq<nat>, b: seq<nat>)
    requires multiset(a) == multiset(b)
    ensures Sum(a) == Sum(b)
    decreases |a|
  {
    assert |a| == |multiset(a)| == |multiset(b)| == |b|;
    if |a| > 0 {
      var n := |a| - 1;
      var x := a[n];
      assert a == a[..n] + [x];
      assert x in multiset(b);
      var j :| 0 <= j < |b| && b[j] == x;
      var rest := b[..j] + b[j + 1..];
      assert b == b[..j] + [x] + b[j + 1..];
      assert multiset(rest) == multiset(b) - multiset{x};
      assert multiset(a[..n]) == multiset(a) - multiset{x};
      SumPermutation(a[..n], rest);
      SumRemove(b, j);
    }
  }

  lemma {:induction false} SumRemove(s: seq<nat>, j: nat)
    requires j < |s|
    ensures Sum(s) == Sum(s[..j] + s[j + 1..]) + s[j]
  {
    var n := |s| - 1;
    if j == n {
      assert s[..j] + s[j + 1..] == s[..n];
    } else {
      var rest := s[..j] + s[j + 1..];
      SumRemove(s[..n], j);
      assert rest[..|rest| - 1] == s[..n][..j] + s[..n][j + 1..];
    }
  }

  lemma {:induction false} SumBounds(s: seq<nat>, lo: nat, hi: nat)
    requires forall i :: 0 <= i < |s| ==> lo <= s[i] <= hi
    ensures |s| * lo <= Sum(s) <= |s| * hi
  {
    if |s| > 0 {
      var n := |s| - 1;
      SumBounds(s[..n], lo, hi);
      assert |s| * lo == n * lo + lo;
      assert |s| * hi == n * hi + hi;
    }
  }

  /** The mean length lies between the shortest and the longest length. */
  lemma MeanBetweenExtremes(s: seq<nat>, lo: nat, hi: nat)
    requires |s| > 0
    requires forall l :: l in s ==> lo <= l <= hi
    ensures lo as real <= Sum(s) as real / |s| as real <= hi as real
  {
    forall i | 0 <= i < |s|
      ensures lo <= s[i] <= hi
    {
      assert s[i] in s;
    }
    SumBounds(s, lo, hi);
    AverageBetween(Sum(s), |s|, lo, hi);
  }

  /** The total of the lengths that are at least `t`. */
  function SumAtLeast(s: seq<nat>, t: nat): nat
  {
    if |s| == 0 then 0
    else SumAtLeast(s[..|s| - 1], t) + (if s[|s| - 1] >= t then s[|s| - 1] else 0)
  }

  /** The total of the lengths that are greater than `t`. */
  function SumAbove(s: seq<nat>, t: nat): nat
  {
    if |s| == 0 then 0
    else SumAbove(s[..|s| - 1], t) + (if s[|s| - 1] > t then s[|s| - 1] else 0)
  }

  lemma {:induction false} SumAtLeastOfPrefix(s: seq<nat>, m: nat, t: nat)
    requires m <= |s|
    requires forall i :: 0 <= i < m ==> s[i] >= t
    ensures Sum(s[..m]) <= SumAtLeast(s, t)
  {
    if m < |s| {
      var n := |s| - 1;
      assert s[..n][..m] == s[..m];
      SumAtLeastOfPrefix(s[..n], m, t);
    } else if m > 0 {
      assert s[..m] == s;
      assert s[..m - 1] == s[..|s| - 1];
      SumAtLeastOfPrefix(s[..m - 1], m - 1, t);
      assert s[..m - 1][..m - 1] == s[..m - 1];
    }
  }

  lemma {:induction false} SumAboveWithinPrefix(s: seq<nat>, m: nat, t: nat)
    requires m <= |s|
    requires forall i :: m <= i < |s| ==> s[i] <= t
    ensures SumAbove(s, t) <= Sum(s[..m])
  {
    if m < |s| {
      var n := |s| - 1;
      assert s[..n][..m] == s[..m];
      SumAboveWithinPrefix(s[..n], m, t);
    } else {
      assert s[..m] == s;
      SumAboveAtMostSum(s, t);
    }
  }

  lemma {:induction false} SumAboveAtMostSum(s: seq<nat>, t: nat)
    ensures SumAbove(s, t) <= Sum(s)
  {
    if |s| > 0 {
      SumAboveAtMostSum(s[..|s| - 1], t);
    }
  }

  /** In a non-increasing list, the lengths of at least `s[k]` hold the prefix up to `k`. */
  lemma PrefixCoversHalf(s: seq<nat>, k: nat)
    requires NonIncreasing(s) && k < |s|
    requires 2 * PrefixSum(s, k) >= Sum(s)
    ensures 2 * SumAtLeast(s, s[k]) >= Sum(s)
  {
    SumAtLeastOfPrefix(s, k + 1, s[k]);
  }

  /** In a non-increasing list, the lengths greater than `s[k]` all lie before `k`. */
  lemma LongerHoldLess(s: seq<nat>, k: nat)
    requires NonIncreasing(s) && k < |s| && Sum(s) > 0
    requires forall j :: 0 <= j < k ==> 2 * PrefixSum(s, j) < Sum(s)
    ensures 2 * SumAbove(s, s[k]) < Sum(s)
  {
    SumAboveWithinPrefix(s, k, s[k]);
    if k > 0 {
      assert PrefixSum(s, k - 1) == Sum(s[..k]);
    }
  }

  /** N50 as the glossary defines it: the fragments of length at least N50 hold
      at least half of the total length, and (unless every length is 0) those
      strictly longer hold less than half. */
  lemma N50HalfCoverage(s: seq<nat>)
    requires |s| > 0 && NonIncreasing(s)
    ensures 2 * SumAtLeast(s, N50(s)) >= Sum(s)
    ensures Sum(s) > 0 ==> 2 * SumAbove(s, N50(s)) < Sum(s)
  {
    var k := N50Index(s);
    PrefixCoversHalf(s, k);
    if Sum(s) > 0 {
      LongerHoldLess(s, k);
    }
  }

  /** Two fragments of lengths 10 and 20: the longer alone holds half of 30,
      so N50 is 20. */
  lemma N50OfTwoFragments()
    ensures N50(SortDesc([10, 20])) == 20
  {
    SortTwo();
    N50OfSortedTwo();
  }

  lemma SortTwo()
    ensures SortDesc([10, 20]) == [20, 10]
  {
    assert [10, 20][1..] == [20] && [20][1..] == [];
    assert SortDesc([20]) == [20];
    assert Insert(10, [20]) == [20] + Insert(10, []);
  }

  lemma N50OfSortedTwo()
    ensures N50([20, 10]) == 20
  {
    assert [20, 10][..1] == [20] && [20][..0] == [];
    assert [20, 10][..2][..1] == [20];
    assert Sum([20, 10]) == 30;
    assert PrefixSum([20, 10], 0) == 20;
  }
}
