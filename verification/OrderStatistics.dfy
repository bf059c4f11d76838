/** Percentiles by in-place selection, and the order statistics they return. */
module OrderStatistics {
  import Words

  // ---- Sorted order

  predicate Sorted(s: seq<nat>) {
    forall i, j :: 0 <= i < j < |s| ==> s[i] <= s[j]
  }

  predicate AllAtMost(s: seq<nat>, x: nat) {
    forall y :: y in s ==> y <= x
  }

  predicate AllAtLeast(s: seq<nat>, x: nat) {
    forall y :: y in s ==> x <= y
  }

  lemma PermutationKeepsBounds(s: seq<nat>, t: seq<nat>, x: nat)
    requires multiset(s) == multiset(t)
    ensures AllAtMost(s, x) ==> AllAtMost(t, x)
    ensures AllAtLeast(s, x) ==> AllAtLeast(t, x)
  {
    forall y | y in t ensures y in s {
      assert y in multiset(t);
    }
  }

  lemma SortedPieces(a: seq<nat>, x: nat, b: seq<nat>)
    requires Sorted(a) && Sorted(b) && AllAtMost(a, x) && AllAtLeast(b, x)
    ensures Sorted(a + [x] + b)
  {
    var t := a + [x] + b;
    forall i, j | 0 <= i < j < |t| ensures t[i] <= t[j] {
      assert i < |a| ==> t[i] == a[i] && t[i] in a;
      assert j > |a| ==> t[j] == b[j - |a| - 1] && t[j] in b;
      assert i > |a| ==> t[i] == b[i - |a| - 1];
      assert j < |a| ==> t[j] == a[j];
    }
  }

  lemma SortedTail(s: seq<nat>)
    requires s != [] && Sorted(s)
    ensures s == [s[0]] + s[1..] && Sorted(s[1..]) && AllAtLeast(s[1..], s[0])
  {
  }

  function Insert(x: nat, s: seq<nat>): seq<nat> {
    if s == [] || x <= s[0] then [x] + s else [s[0]] + Insert(x, s[1..])
  }

  /** The values in ascending order. */
  function Sort(s: seq<nat>): seq<nat> {
    if s == [] then [] else Insert(s[0], Sort(s[1..]))
  }

  lemma {:induction false} InsertKeeps(x: nat, s: seq<nat>)
    ensures multiset(Insert(x, s)) == multiset{x} + multiset(s)
  {
    if s != [] && x > s[0] {
      InsertKeeps(x, s[1..]);
      assert s == [s[0]] + s[1..];
    }
  }

  lemma {:induction false} InsertSorts(x: nat, s: seq<nat>)
    requires Sorted(s)
    ensures Sorted(Insert(x, s))
  {
    InsertKeeps(x, s);
    if s == [] || x <= s[0] {
      assert AllAtLeast(s, x);
      SortedPieces([], x, s);
      assert [] + [x] + s == [x] + s;
    } else {
      var rest := Insert(x, s[1..]);
      SortedTail(s);
      InsertSorts(x, s[1..]);
      InsertKeeps(x, s[1..]);
      InsertKeepsBound(x, s[1..], rest, s[0]);
      SortedPieces([], s[0], rest);
      assert [] + [s[0]] + rest == [s[0]] + rest;
    }
  }

  lemma InsertKeepsBound(x: nat, s: seq<nat>, rest: seq<nat>, low: nat)
    requires AllAtLeast(s, low) && low <= x && multiset(rest) == multiset{x} + multiset(s)
    ensures AllAtLeast(rest, low)
  {
    forall y | y in rest ensures low <= y {
      assert y in multiset(rest);
      if y != x {
        assert y in multiset(s);
        assert y in s;
      }
    }
  }

  lemma {:induction false} SortSorts(s: seq<nat>)
    ensures Sorted(Sort(s)) && multiset(Sort(s)) == multiset(s) && |Sort(s)| == |s|
  {
    if s != [] {
      SortSorts(s[1..]);
      InsertSorts(s[0], Sort(s[1..]));
      InsertKeeps(s[0], Sort(s[1..]));
      assert s == [s[0]] + s[1..];
    }
    assert |multiset(Sort(s))| == |multiset(s)|;
  }

  lemma {:induction false} SortedIsUnique(a: seq<nat>, b: seq<nat>)
    requires Sorted(a) && Sorted(b) && multiset(a) == multiset(b)
    ensures a == b
    decreases |a|
  {
    assert |a| == |multiset(a)| == |multiset(b)| == |b|;
    if a != [] {
      SortedTail(a);
      SortedTail(b);
      assert a[0] in multiset(b) && b[0] in multiset(a);
      assert a[0] == b[0];
      assert multiset(a[1..]) == multiset(a) - multiset{a[0]};
      assert multiset(b[1..]) == multiset(b) - multiset{b[0]};
      SortedIsUnique(a[1..], b[1..]);
    }
  }

  lemma PermutationSorts(a: seq<nat>, b: seq<nat>)
    requires multiset(a) == multiset(b)
    ensures Sort(a) == Sort(b)
  {
    SortSorts(a);
    SortSorts(b);
    SortedIsUnique(Sort(a), Sort(b));
  }

  /** Nothing before position k is greater and nothing after it smaller. */
  predicate Selected(s: seq<nat>, k: nat)
    requires k < |s|
  {
    AllAtMost(s[..k], s[k]) && AllAtLeast(s[k + 1..], s[k])
  }

  lemma SelectedIsSorted(s: seq<nat>, k: nat)
    requires k < |s| && Selected(s, k)
    ensures k < |Sort(s)| && s[k] == Sort(s)[k]
  {
    var before, after := Sort(s[..k]), Sort(s[k + 1..]);
    SortSorts(s[..k]);
    SortSorts(s[k + 1..]);
    PermutationKeepsBounds(s[..k], before, s[k]);
    PermutationKeepsBounds(s[k + 1..], after, s[k]);
    SortedPieces(before, s[k], after);
    PiecesPermute(s, k, before, after);
    SortedIsSort(before + [s[k]] + after, s);
    assert (before + [s[k]] + after)[k] == s[k];
  }

  lemma PiecesPermute(s: seq<nat>, k: nat, before: seq<nat>, after: seq<nat>)
    requires k < |s| && multiset(before) == multiset(s[..k]) && multiset(after) == multiset(s[k + 1..])
    ensures multiset(before + [s[k]] + after) == multiset(s)
  {
    assert s == s[..k] + [s[k]] + s[k + 1..];
  }

  lemma SortedIsSort(t: seq<nat>, s: seq<nat>)
    requires Sorted(t) && multiset(t) == multiset(s)
    ensures t == Sort(s)
  {
    SortSorts(s);
    SortedIsUnique(t, Sort(s));
  }

  // ---- Selection in place: a quickselect standing for std::nth_element

  method Swap(a: array<nat>, i: nat, j: nat)
    requires i < a.Length && j < a.Length
    modifies a
    ensures a[..] == old(a[..])[i := old(a[j])][j := old(a[i])]
  {
    a[i], a[j] := a[j], a[i];
  }

  /** Everything below lo is at most, and everything from hi on at least, what lies in between. */
  ghost predicate Bracketed(s: seq<nat>, lo: nat, hi: nat)
    requires lo <= hi <= |s|
  {
    && (forall i, j :: 0 <= i < lo <= j < |s| ==> s[i] <= s[j])
    && (forall i, j :: 0 <= i < hi <= j < |s| ==> s[i] <= s[j])
  }

  /** The values of the segment [lo, hi) have only been rearranged among themselves. */
  ghost predicate SegmentPermuted(s: seq<nat>, t: seq<nat>, lo: nat, hi: nat)
    requires lo <= hi <= |s|
  {
    && |t| == |s| && t[..lo] == s[..lo] && t[hi..] == s[hi..]
    && multiset(t[lo..hi]) == multiset(s[lo..hi])
  }

  lemma SwapPermutesSegment(s: seq<nat>, t: seq<nat>, lo: nat, hi: nat, i: nat, j: nat)
    requires lo <= i < hi <= |s| && lo <= j < hi && SegmentPermuted(s, t, lo, hi)
    ensures SegmentPermuted(s, t[i := t[j]][j := t[i]], lo, hi)
  {
    var u := t[i := t[j]][j := t[i]];
    assert u[lo..hi] == t[lo..hi][i - lo := t[j]][j - lo := t[i]];
  }

  /** What lies in the segment was in the segment before, and what lies outside has not moved. */
  lemma SegmentOrigin(s: seq<nat>, t: seq<nat>, lo: nat, hi: nat, j: nat) returns (m: nat)
    requires lo <= hi <= |s| && j < |s| && SegmentPermuted(s, t, lo, hi)
    ensures m < |s| && t[j] == s[m]
    ensures if lo <= j < hi then lo <= m < hi else m == j
  {
    if lo <= j < hi {
      assert t[lo..hi][j - lo] in multiset(s[lo..hi]);
      assert t[j] in s[lo..hi];
      m :| lo <= m < hi && s[m] == t[j];
    } else {
      m := j;
      assert j < lo ==> t[..lo][j] == s[..lo][j];
      assert j >= hi ==> t[hi..][j - hi] == s[hi..][j - hi];
    }
  }

  lemma SegmentPermutationKeepsBrackets(s: seq<nat>, t: seq<nat>, lo: nat, hi: nat)
    requires lo <= hi <= |s| && SegmentPermuted(s, t, lo, hi) && Bracketed(s, lo, hi)
    ensures Bracketed(t, lo, hi)
  {
    forall i, j | 0 <= i < lo <= j < |t| || 0 <= i < hi <= j < |t|
      ensures t[i] <= t[j]
    {
      var m := SegmentOrigin(s, t, lo, hi, i);
      var n := SegmentOrigin(s, t, lo, hi, j);
      assert s[m] <= s[n];
    }
  }

  lemma SegmentPermutationKeepsValues(s: seq<nat>, t: seq<nat>, lo: nat, hi: nat)
    requires lo <= hi <= |s| && SegmentPermuted(s, t, lo, hi)
    ensures multiset(t) == multiset(s)
  {
    assert s == s[..lo] + s[lo..hi] + s[hi..];
    assert t == t[..lo] + t[lo..hi] + t[hi..];
  }

  /** Within [lo, hi), position p separates the smaller values from the greater ones. */
  ghost predicate SplitAt(s: seq<nat>, lo: nat, p: nat, hi: nat)
    requires lo <= p < hi <= |s|
  {
    && (forall i :: lo <= i < p ==> s[i] <= s[p])
    && (forall i :: p < i < hi ==> s[p] <= s[i])
  }

  /** The scan of Partition has reached position i. */
  ghost predicate Scanned(s: seq<nat>, lo: nat, p: nat, i: nat, hi: nat)
    requires lo <= p <= i < hi <= |s|
  {
    && (forall m :: lo <= m < p ==> s[m] <= s[hi - 1])
    && (forall m :: p <= m < i ==> s[hi - 1] <= s[m])
  }

  lemma ScanStep(t: seq<nat>, lo: nat, p: nat, i: nat, hi: nat)
    requires lo <= p <= i < hi - 1 < |t| && Scanned(t, lo, p, i, hi)
    ensures t[i] >= t[hi - 1] ==> Scanned(t, lo, p, i + 1, hi)
    ensures t[i] < t[hi - 1] ==> Scanned(t[i := t[p]][p := t[i]], lo, p + 1, i + 1, hi)
  {
  }

  lemma ScanEnd(t: seq<nat>, lo: nat, p: nat, hi: nat)
    requires lo <= p <= hi - 1 < |t| && Scanned(t, lo, p, hi - 1, hi)
    ensures SplitAt(t[p := t[hi - 1]][hi - 1 := t[p]], lo, p, hi)
  {
  }

  /** The scan of Partition: the values below the last one of the segment come first. */
  method Scan(a: array<nat>, lo: nat, hi: nat) returns (p: nat)
    requires lo < hi <= a.Length
    modifies a
    ensures lo <= p < hi && SegmentPermuted(old(a[..]), a[..], lo, hi) && Scanned(a[..], lo, p, hi - 1, hi)
  {
    ghost var s, t := a[..], a[..];
    p := lo;
    for i := lo to hi - 1
      invariant lo <= p <= i && a[..] == t && |t| == |s|
      invariant SegmentPermuted(s, t, lo, hi)
      invariant Scanned(t, lo, p, i, hi)
    {
      ScanStep(t, lo, p, i, hi);
      if a[i] < a[hi - 1] {
        SwapPermutesSegment(s, t, lo, hi, i, p);
        t := t[i := t[p]][p := t[i]];
        Swap(a, i, p);
        p := p + 1;
      }
    }
  }

  /** Moves the last value of the segment to its sorted place. */
  method Partition(a: array<nat>, lo: nat, hi: nat) returns (p: nat)
    requires lo < hi <= a.Length
    modifies a
    ensures lo <= p < hi && SegmentPermuted(old(a[..]), a[..], lo, hi) && SplitAt(a[..], lo, p, hi)
  {
    ghost var s := a[..];
    p := Scan(a, lo, hi);
    ghost var t := a[..];
    ghost var u := PartitionEnd(s, t, lo, p, hi);
    Swap(a, p, hi - 1);
    assert a[..] == u;
  }

  lemma PartitionEnd(s: seq<nat>, t: seq<nat>, lo: nat, p: nat, hi: nat) returns (u: seq<nat>)
    requires lo <= p <= hi - 1 < |s| && SegmentPermuted(s, t, lo, hi) && Scanned(t, lo, p, hi - 1, hi)
    ensures u == t[p := t[hi - 1]][hi - 1 := t[p]]
    ensures SegmentPermuted(s, u, lo, hi) && SplitAt(u, lo, p, hi)
  {
    u := t[p := t[hi - 1]][hi - 1 := t[p]];
    assert SegmentPermuted(s, u, lo, hi) by {
      SwapPermutesSegment(s, t, lo, hi, p, hi - 1);
    }
    assert SplitAt(u, lo, p, hi) by {
      ScanEnd(t, lo, p, hi);
    }
  }

  /** A split narrows the brackets from either side, and settles the position it falls on. */
  lemma SplitNarrows(s: seq<nat>, lo: nat, p: nat, hi: nat)
    requires lo <= p < hi <= |s| && Bracketed(s, lo, hi) && SplitAt(s, lo, p, hi)
    ensures Bracketed(s, lo, p) && Bracketed(s, p + 1, hi) && Selected(s, p)
  {
    forall i | 0 <= i < p ensures s[i] <= s[p] {
    }
    forall j | p < j < |s| ensures s[p] <= s[j] {
    }
    forall i, j | 0 <= i < p <= j < |s| ensures s[i] <= s[j] {
      assert s[i] <= s[p] && s[p] <= s[j];
    }
    forall i, j | 0 <= i < p + 1 <= j < |s| ensures s[i] <= s[j] {
      assert s[i] <= s[p] && s[p] <= s[j];
    }
  }

  method NthElement(a: array<nat>, k: nat)
    requires k < a.Length
    modifies a
    ensures multiset(a[..]) == old(multiset(a[..])) && Selected(a[..], k)
  {
    var lo, hi := 0, a.Length;
    while lo < hi
      invariant lo <= k < hi <= a.Length
      invariant multiset(a[..]) == old(multiset(a[..])) && Bracketed(a[..], lo, hi)
      decreases hi - lo
    {
      ghost var s := a[..];
      var p := Partition(a, lo, hi);
      SegmentPermutationKeepsBrackets(s, a[..], lo, hi);
      SegmentPermutationKeepsValues(s, a[..], lo, hi);
      SplitNarrows(a[..], lo, p, hi);
      if p == k {
        return;
      } else if k < p {
        hi := p;
      } else {
        lo := p + 1;
      }
    }
  }

  // ---- Percentiles

  /** Position of the fraction num/den among n values, as the C++ sources compute it. */
  function Index(n: nat, num: nat, den: nat): (i: nat)
    requires n > 0 && den > 0
    ensures i < n
  {
    if n * num / den < n - 1 then n * num / den else n - 1
  }

  // ---- Ranks by counting

  function Below(s: seq<nat>, v: nat): nat {
    if s == [] then 0 else Below(s[1..], v) + if s[0] < v then 1 else 0
  }

  function AtOrBelow(s: seq<nat>, v: nat): nat {
    if s == [] then 0 else AtOrBelow(s[1..], v) + if s[0] <= v then 1 else 0
  }

  /** v is one of the values, at most k of them lie below it, and more than k at or below it. */
  predicate HasRank(s: seq<nat>, v: nat, k: nat) {
    v in s && Below(s, v) <= k < AtOrBelow(s, v)
  }

  lemma {:induction false} CountsOfInsert(x: nat, s: seq<nat>, v: nat)
    ensures Below(Insert(x, s), v) == Below([x] + s, v) && AtOrBelow(Insert(x, s), v) == AtOrBelow([x] + s, v)
  {
    assert ([x] + s)[1..] == s;
    if s != [] && x > s[0] {
      CountsOfInsert(x, s[1..], v);
      assert ([x] + s[1..])[1..] == s[1..];
      assert ([s[0]] + Insert(x, s[1..]))[1..] == Insert(x, s[1..]);
    }
  }

  lemma {:induction false} CountsOfSort(s: seq<nat>, v: nat)
    ensures Below(Sort(s), v) == Below(s, v) && AtOrBelow(Sort(s), v) == AtOrBelow(s, v)
  {
    if s != [] {
      CountsOfSort(s[1..], v);
      CountsOfInsert(s[0], Sort(s[1..]), v);
      assert ([s[0]] + Sort(s[1..]))[1..] == Sort(s[1..]);
    }
  }

  lemma {:induction false} NoneBelow(t: seq<nat>, v: nat)
    requires forall i :: 0 <= i < |t| ==> v <= t[i]
    ensures Below(t, v) == 0
  {
    if t != [] {
      NoneBelow(t[1..], v);
    }
  }

  lemma {:induction false} CountsOfSorted(t: seq<nat>, k: nat)
    requires Sorted(t) && k < |t|
    ensures Below(t, t[k]) <= k < AtOrBelow(t, t[k])
  {
    if k == 0 {
      NoneBelow(t, t[0]);
    } else {
      CountsOfSorted(t[1..], k - 1);
    }
  }

  /** The value at position k of the sorted values has rank k among the values as they came. */
  lemma RankOfSorted(s: seq<nat>, k: nat)
    requires k < |s|
    ensures |Sort(s)| == |s| && HasRank(s, Sort(s)[k], k)
  {
    SortSorts(s);
    CountsOfSorted(Sort(s), k);
    CountsOfSort(s, Sort(s)[k]);
    assert Sort(s)[k] in multiset(s);
  }

  lemma {:induction false} CountsGrow(s: seq<nat>, v: nat, w: nat)
    requires v < w
    ensures AtOrBelow(s, v) <= Below(s, w)
  {
    if s != [] {
      CountsGrow(s[1..], v, w);
    }
  }

  /** Only one value has a given rank. */
  lemma RankIsUnique(s: seq<nat>, v: nat, w: nat, k: nat)
    requires HasRank(s, v, k) && HasRank(s, w, k)
    ensures v == w
  {
    if v < w {
      CountsGrow(s, v, w);
    } else if w < v {
      CountsGrow(s, w, v);
    }
  }

  lemma FloorBelow(x: nat, n: nat, num: nat, den: nat)
    requires n > 0 && num < den && x == n * num
    ensures x / den < n
  {
    var m, r := x / den, x % den;
    assert x == m * den + r;
    if num > 0 {
      Multiply(n, num, den);
    } else {
      assert n * den > 0;
    }
    QuotientBelow(m, r, n, den);
  }

  /** For a fraction below 1 the index is the whole part of n times the fraction, and it is the rank of the
    percentile. */
  lemma PercentileRank(s: seq<nat>, num: nat, den: nat)
    requires s != [] && num < den
    ensures |Sort(s)| == |s| && HasRank(s, Sort(s)[Index(|s|, num, den)], num * |s| / den)
  {
    var x := num * |s|;
    assert x == |s| * num;
    FloorBelow(x, |s|, num, den);
    RankOfSorted(s, x / den);
  }

  /** Selection on the caller's own samples, which it reorders. */
  method Percentile(values: array<nat>, num: nat, den: nat) returns (r: nat)
    requires values.Length > 0 && den > 0
    modifies values
    ensures multiset(values[..]) == old(multiset(values[..]))
    ensures |Sort(old(values[..]))| == values.Length && r == Sort(old(values[..]))[Index(values.Length, num, den)]
    ensures num < den ==> HasRank(old(values[..]), r, num * values.Length / den)
  {
    if num < den {
      PercentileRank(values[..], num, den);
    }
    SortSorts(values[..]);
    var index := Index(values.Length, num, den);
    NthElement(values, index);
    SelectedIsSorted(values[..], index);
    PermutationSorts(values[..], old(values[..]));
    r := values[index];
  }

  /** Selection on a copy; an empty list has percentile 0. */
  method PercentileOfCopy(values: seq<nat>, num: nat, den: nat) returns (r: nat)
    requires den > 0
    ensures |Sort(values)| == |values| && r == if values == [] then 0 else Sort(values)[Index(|values|, num, den)]
    ensures values != [] && num < den ==> HasRank(values, r, num * |values| / den)
  {
    SortSorts(values);
    if values == [] {
      return 0;
    }
    var copy := new nat[|values|](i requires 0 <= i < |values| => values[i]);
    assert copy[..] == values;
    r := Percentile(copy, num, den);
  }

  method MaxElement(values: array<nat>) returns (m: nat)
    requires values.Length > 0
    ensures m in values[..] && forall v :: v in values[..] ==> v <= m
  {
    m := values[0];
    for i := 1 to values.Length
      invariant m in values[..i]
      invariant forall j :: 0 <= j < i ==> values[j] <= m
    {
      if m < values[i] {
        m := values[i];
      }
      assert values[..i + 1] == values[..i] + [values[i]];
    }
    assert values[..values.Length] == values[..];
  }

  datatype Statistics = Statistics(p50: nat, p90: nat, p99: nat, p999: nat, p9999: nat, maximum: nat)

  lemma {:induction false} CountsOfPermutation(s: seq<nat>, t: seq<nat>, v: nat)
    requires multiset(s) == multiset(t)
    ensures Below(s, v) == Below(t, v) && AtOrBelow(s, v) == AtOrBelow(t, v)
  {
    CountsOfSort(s, v);
    CountsOfSort(t, v);
    PermutationSorts(s, t);
  }

  lemma RankOfPermutation(s: seq<nat>, t: seq<nat>, v: nat, k: nat)
    requires multiset(s) == multiset(t) && HasRank(s, v, k)
    ensures |s| == |t| && HasRank(t, v, k)
  {
    assert |s| == |multiset(s)| == |t|;
    CountsOfPermutation(s, t, v);
    assert v in multiset(t);
  }

  /** A value of lower rank is not greater. */
  lemma RanksAscend(s: seq<nat>, v: nat, j: nat, w: nat, k: nat)
    requires HasRank(s, v, j) && HasRank(s, w, k) && j <= k
    ensures v <= w
  {
    if w < v {
      CountsGrow(s, w, v);
    }
  }

  /** The statistics of one repetition: five selections, each reordering what the one before left.  By
    counting in the samples as they were recorded, each is the value of its rank, and the maximum is a
    sample with none above it. */
  method RunStatistics(samples: array<nat>) returns (r: Statistics)
    requires samples.Length > 0
    modifies samples
    ensures multiset(samples[..]) == old(multiset(samples[..]))
    ensures HasRank(old(samples[..]), r.p50, 50 * samples.Length / 100)
    ensures HasRank(old(samples[..]), r.p90, 90 * samples.Length / 100)
    ensures HasRank(old(samples[..]), r.p99, 99 * samples.Length / 100)
    ensures HasRank(old(samples[..]), r.p999, 999 * samples.Length / 1000)
    ensures HasRank(old(samples[..]), r.p9999, 9999 * samples.Length / 10000)
    ensures r.maximum in old(samples[..]) && forall v :: v in old(samples[..]) ==> v <= r.maximum
    ensures r.p50 <= r.p90 <= r.p99 <= r.p999 <= r.p9999 <= r.maximum
  {
    ghost var s, n := samples[..], samples.Length;
    var p50 := Percentile(samples, 50, 100);
    ghost var t := samples[..];
    var p90 := Percentile(samples, 90, 100);
    RankOfPermutation(t, s, p90, 90 * n / 100);
    t := samples[..];
    var p99 := Percentile(samples, 99, 100);
    RankOfPermutation(t, s, p99, 99 * n / 100);
    t := samples[..];
    var p999 := Percentile(samples, 999, 1000);
    RankOfPermutation(t, s, p999, 999 * n / 1000);
    t := samples[..];
    var p9999 := Percentile(samples, 9999, 10000);
    RankOfPermutation(t, s, p9999, 9999 * n / 10000);
    var maximum := MaxElement(samples);
    r := Statistics(p50, p90, p99, p999, p9999, maximum);
    SameValues(samples[..], s);
    RanksAscend(s, p50, 50 * n / 100, p90, 90 * n / 100);
    RanksAscend(s, p90, 90 * n / 100, p99, 99 * n / 100);
    RanksAscend(s, p99, 99 * n / 100, p999, 999 * n / 1000);
    RanksAscend(s, p999, 999 * n / 1000, p9999, 9999 * n / 10000);
  }

  lemma SameValues(s: seq<nat>, t: seq<nat>)
    requires multiset(s) == multiset(t)
    ensures forall v :: v in s <==> v in t
  {
    forall v ensures v in s <==> v in t {
      assert v in s <==> v in multiset(s);
      assert v in t <==> v in multiset(t);
    }
  }

  // ---- The nearest-rank index of the Python report

  /** int() truncates toward zero. */
  function Truncate(num: int, den: nat): int
    requires den > 0
  {
    if num >= 0 then num / den else -((-num) / den)
  }

  function RawRank(x: nat, den: nat): int
    requires den > 0
  {
    Truncate(x * 1_000_000 + 999_999 * den - 1_000_000 * den, den * 1_000_000)
  }

  /** The report's index for the fraction num/den, in exact arithmetic: it adds 0.999999 and takes off 1
    before truncating. */
  function ReportIndex(n: nat, num: nat, den: nat): int
    requires n > 0 && den > 0
  {
    var raw := RawRank(n * num, den);
    var atLeast0 := if raw > 0 then raw else 0;
    if atLeast0 < n - 1 then atLeast0 else n - 1
  }

  function Ceiling(num: nat, den: nat): nat
    requires den > 0
  {
    (num + den - 1) / den
  }

  /** For every fraction in (0, 1) with a denominator up to a million, the report takes the nearest rank;
    the C++ sources take the next sample up exactly when n * fraction is an integer. */
  lemma NearestRank(n: nat, num: nat, den: nat)
    requires n > 0 && 0 < num < den <= 1_000_000
    ensures ReportIndex(n, num, den) == Ceiling(n * num, den) - 1
    ensures Index(n, num, den) == if n * num % den == 0 then ReportIndex(n, num, den) + 1 else ReportIndex(n, num, den)
  {
    var x := n * num;
    assert 0 < x < n * den by {
      Multiply(n, num, den);
    }
    var m, r := x / den, x % den;
    assert x == m * den + r;
    QuotientBelow(m, r, n, den);
    RankOf(x, m, r, den);
  }

  /** The two indices before clipping, for x = m * den + r. */
  lemma RankOf(x: nat, m: nat, r: nat, den: nat)
    requires x > 0 && 0 < den <= 1_000_000 && r < den && x == m * den + r
    ensures x / den == m && x % den == r && (r == 0 ==> m > 0)
    ensures Ceiling(x, den) == if r == 0 then m else m + 1
    ensures RawRank(x, den) == if r == 0 then m - 1 else m
  {
    Words.ModUnique(x, den, m, r);
    if r == 0 {
      assert m != 0;
      Words.ModUnique(x + den - 1, den, m, den - 1);
      assert (m - 1) * den == m * den - den;
      Scale(m - 1, den, m * den - den);
      Words.ModUnique(x * 1_000_000 - den, den * 1_000_000, m - 1, 1_000_000 * den - den);
    } else {
      assert (m + 1) * den == m * den + den;
      Words.ModUnique(x + den - 1, den, m + 1, r - 1);
      Scale(m, den, m * den);
      Words.ModUnique(x * 1_000_000 - den, den * 1_000_000, m, r * 1_000_000 - den);
    }
  }

  lemma Scale(m: int, den: nat, p: int)
    requires p == m * den
    ensures m * (den * 1_000_000) == p * 1_000_000
  {
    assert m * (den * 1_000_000) == (m * den) * 1_000_000;
  }

  lemma Multiply(n: nat, a: nat, b: nat)
    requires n > 0 && 0 < a < b
    ensures 0 < n * a < n * b
  {
    assert n * b == n * a + n * (b - a);
    Words.NonzeroMultiple(a, n);
    Words.NonzeroMultiple(b - a, n);
  }

  lemma QuotientBelow(m: nat, r: nat, n: nat, den: nat)
    requires den > 0 && m * den + r < n * den
    ensures m < n
  {
    assert (m - n) * den == m * den - n * den;
    Words.NonzeroMultiple(m - n, den);
  }
}
