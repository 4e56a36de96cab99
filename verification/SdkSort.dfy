// qsort and bsearch of the SDK, on an array of elements and a comparator.
module SdkSort {

  type Comparator<!T> = (T, T) -> int

  function Compare<T>(cmp: Comparator<T>, x: T, y: T): int { cmp(x, y) }

  // ---- Orders and permutations

  /** What the C standard asks of a comparator: a total preorder, told consistently from both sides. */
  ghost predicate TotalPreorder<T(!new)>(cmp: Comparator<T>) {
    && (forall x, y :: Compare(cmp, x, y) > 0 <==> Compare(cmp, y, x) < 0)
    && (forall x, y, z :: Compare(cmp, x, y) <= 0 && Compare(cmp, y, z) <= 0 ==> Compare(cmp, x, z) <= 0)
  }

  lemma Flip<T(!new)>(cmp: Comparator<T>, x: T, y: T)
    requires TotalPreorder(cmp)
    ensures Compare(cmp, x, y) > 0 <==> Compare(cmp, y, x) < 0
    ensures Compare(cmp, x, y) < 0 <==> Compare(cmp, y, x) > 0
  {
  }

  ghost predicate InOrder<T>(cmp: Comparator<T>, s: seq<T>, x: nat, y: nat) {
    x < |s| && y < |s| && Compare(cmp, s[x], s[y]) <= 0
  }

  ghost predicate Sorted<T>(cmp: Comparator<T>, s: seq<T>, lo: nat, hi: nat) {
    forall x, y :: lo <= x < y <= hi ==> InOrder(cmp, s, x, y)
  }

  /** t is s with the elements from lo to hi permuted. */
  ghost predicate Shuffled<T>(s: seq<T>, t: seq<T>, lo: nat, hi: nat) {
    && lo <= hi < |s| == |t| && multiset(s) == multiset(t)
    && (forall x :: 0 <= x < lo ==> s[x] == t[x]) && forall x :: hi < x < |s| ==> s[x] == t[x]
  }

  lemma ShuffledNot<T>(s: seq<T>, lo: nat, hi: nat)
    requires lo <= hi < |s|
    ensures Shuffled(s, s, lo, hi)
  {
  }

  lemma ShuffledTwice<T>(s: seq<T>, t: seq<T>, u: seq<T>, a: nat, b: nat, lo: nat, hi: nat)
    requires Shuffled(s, t, lo, hi) && Shuffled(t, u, a, b) && lo <= a && b <= hi
    ensures Shuffled(s, u, lo, hi)
  {
  }

  /** An element that has been moved comes from the same stretch. */
  lemma ComesFrom<T>(s: seq<T>, t: seq<T>, lo: nat, hi: nat, y: nat) returns (x: nat)
    requires Shuffled(s, t, lo, hi) && lo <= y <= hi
    ensures lo <= x <= hi && s[x] == t[y]
  {
    var v := t[y];
    Stretch(s, lo, hi, v);
    Stretch(t, lo, hi, v);
    assert s[..lo] == t[..lo] && s[hi + 1..] == t[hi + 1..];
    assert t[lo..hi + 1][y - lo] == v;
    assert v in s[lo..hi + 1];
    var k :| 0 <= k < |s[lo..hi + 1]| && s[lo..hi + 1][k] == v;
    x := k + lo;
  }

  lemma Stretch<T>(s: seq<T>, lo: nat, hi: nat, v: T)
    requires lo <= hi < |s|
    ensures multiset(s)[v] == multiset(s[..lo])[v] + multiset(s[lo..hi + 1])[v] + multiset(s[hi + 1..])[v]
  {
    assert s == s[..lo] + s[lo..hi + 1] + s[hi + 1..];
  }

  // ---- Elements

  function Swapped<T>(s: seq<T>, i: nat, j: nat): (r: seq<T>)
    requires i < |s| && j < |s|
    ensures |r| == |s|
  {
    s[i := s[j]][j := s[i]]
  }

  method Swap<T>(a: array<T>, i: nat, j: nat)
    requires i < a.Length && j < a.Length
    modifies a
    ensures a[..] == Swapped(old(a[..]), i, j)
  {
    a[i], a[j] := a[j], a[i];
  }

  lemma SwapShuffles<T>(s: seq<T>, t: seq<T>, i: nat, j: nat, lo: nat, hi: nat)
    requires Shuffled(s, t, lo, hi) && lo <= i <= hi && lo <= j <= hi
    ensures i < |t| && j < |t| && Shuffled(s, Swapped(t, i, j), lo, hi)
  {
  }

  // ---- Small stretches

  method InsertionSort<T(!new)>(a: array<T>, lo: nat, hi: nat, cmp: Comparator<T>)
    requires TotalPreorder(cmp) && lo <= hi < a.Length
    modifies a
    ensures Sorted(cmp, a[..], lo, hi) && Shuffled(old(a[..]), a[..], lo, hi)
  {
    hide Compare, TotalPreorder, Sorted, Shuffled, Inserting, Swapped;
    ShuffledNot(a[..], lo, hi);
    SortedAlone(cmp, a[..], lo);
    var i := lo + 1;
    while i <= hi
      invariant lo < i <= hi + 1
      invariant Sorted(cmp, a[..], lo, i - 1) && Shuffled(old(a[..]), a[..], lo, hi)
    {
      var j := i;
      InsertingStarts(cmp, a[..], lo, i);
      while j > lo && Compare(cmp, a[j - 1], a[j]) > 0
        invariant lo <= j <= i && Inserting(cmp, a[..], lo, i, j) && Shuffled(old(a[..]), a[..], lo, hi)
      {
        InsertingStep(cmp, a[..], lo, i, j);
        SwapShuffles(old(a[..]), a[..], j - 1, j, lo, hi);
        Swap(a, j - 1, j);
        j := j - 1;
      }
      InsertingEnds(cmp, a[..], lo, i, j);
      i := i + 1;
    }
  }

  lemma SortedAlone<T>(cmp: Comparator<T>, s: seq<T>, lo: nat)
    ensures Sorted(cmp, s, lo, lo)
  {
  }

  /** From lo to i all is in order but for the element at j, which is no greater than any behind it. */
  ghost predicate Inserting<T>(cmp: Comparator<T>, s: seq<T>, lo: nat, i: nat, j: nat) {
    lo <= j <= i < |s| && forall x, y :: lo <= x < y <= i && y != j ==> InOrder(cmp, s, x, y)
  }

  lemma InsertingStarts<T>(cmp: Comparator<T>, s: seq<T>, lo: nat, i: nat)
    requires lo < i < |s| && Sorted(cmp, s, lo, i - 1)
    ensures Inserting(cmp, s, lo, i, i)
  {
  }

  lemma InsertingStep<T(!new)>(cmp: Comparator<T>, s: seq<T>, lo: nat, i: nat, j: nat)
    requires TotalPreorder(cmp) && Inserting(cmp, s, lo, i, j) && lo < j && Compare(cmp, s[j - 1], s[j]) > 0
    ensures Inserting(cmp, Swapped(s, j - 1, j), lo, i, j - 1)
  {
    hide Compare;
    var t := Swapped(s, j - 1, j);
    forall x, y | lo <= x < y <= i && y != j - 1
      ensures InOrder(cmp, t, x, y)
    {
      if y == j {
        if x < j - 1 {
          assert InOrder(cmp, s, x, j - 1);
        }
      } else {
        var x' := if x == j - 1 then j else if x == j then j - 1 else x;
        assert InOrder(cmp, s, x', y);
      }
    }
  }

  lemma InsertingEnds<T(!new)>(cmp: Comparator<T>, s: seq<T>, lo: nat, i: nat, j: nat)
    requires TotalPreorder(cmp) && Inserting(cmp, s, lo, i, j) && (j == lo || Compare(cmp, s[j - 1], s[j]) <= 0)
    ensures Sorted(cmp, s, lo, i)
  {
    hide Compare;
    forall x, y | lo <= x < y <= i
      ensures InOrder(cmp, s, x, y)
    {
      if y == j && x < j - 1 {
        assert InOrder(cmp, s, x, j - 1);
      }
    }
  }

  // ---- Partitioning

  /** No element from lo up to i is greater than p. */
  ghost predicate NoneGreater<T>(cmp: Comparator<T>, s: seq<T>, p: T, lo: nat, i: nat) {
    i <= |s| && forall k :: lo <= k < i ==> Compare(cmp, s[k], p) <= 0
  }

  /** No element from j to hi is smaller than p. */
  ghost predicate NoneSmaller<T>(cmp: Comparator<T>, s: seq<T>, p: T, j: nat, hi: nat) {
    hi < |s| && forall k :: j <= k <= hi ==> Compare(cmp, p, s[k]) <= 0
  }

  /** The pivot stands at i, with nothing greater before it and nothing smaller behind it. */
  ghost predicate Partitioned<T>(cmp: Comparator<T>, s: seq<T>, lo: nat, hi: nat, i: nat) {
    lo <= i <= hi < |s| && NoneGreater(cmp, s, s[i], lo, i) && NoneSmaller(cmp, s, s[i], i + 1, hi)
  }

  /** Median of three: afterwards the pivot stands at hi - 1, between the elements at lo and hi. */
  method PlacePivot<T(!new)>(a: array<T>, lo: nat, hi: nat, cmp: Comparator<T>)
    requires TotalPreorder(cmp) && lo + 8 <= hi < a.Length
    modifies a
    ensures Shuffled(old(a[..]), a[..], lo, hi)
    ensures Compare(cmp, a[lo], a[hi - 1]) <= 0 && Compare(cmp, a[hi - 1], a[hi]) <= 0
  {
    hide Shuffled, Compare, TotalPreorder;
    var mid := lo + (hi - lo) / 2;
    ghost var s := a[..];
    ShuffledNot(s, lo, hi);
    MedianOfThree(cmp, s[lo], s[mid], s[hi]);
    if Compare(cmp, a[lo], a[mid]) > 0 {
      SwapShuffles(s, a[..], lo, mid, lo, hi);
      Swap(a, lo, mid);
    }
    if Compare(cmp, a[lo], a[hi]) > 0 {
      SwapShuffles(s, a[..], lo, hi, lo, hi);
      Swap(a, lo, hi);
    }
    if Compare(cmp, a[mid], a[hi]) > 0 {
      SwapShuffles(s, a[..], mid, hi, lo, hi);
      Swap(a, mid, hi);
    }
    SwapShuffles(s, a[..], mid, hi - 1, lo, hi);
    Swap(a, mid, hi - 1);
  }

  /** The three exchanges on values. */
  lemma MedianOfThree<T(!new)>(cmp: Comparator<T>, x: T, y: T, z: T)
    requires TotalPreorder(cmp)
    ensures
      var (x1, y1) := if Compare(cmp, x, y) > 0 then (y, x) else (x, y);
      var (x2, z2) := if Compare(cmp, x1, z) > 0 then (z, x1) else (x1, z);
      var (y3, z3) := if Compare(cmp, y1, z2) > 0 then (z2, y1) else (y1, z2);
      Compare(cmp, x2, y3) <= 0 && Compare(cmp, y3, z3) <= 0
  {
    hide Compare;
  }

  method Partition<T(!new)>(a: array<T>, lo: nat, hi: nat, cmp: Comparator<T>) returns (i: nat)
    requires TotalPreorder(cmp) && lo + 8 <= hi < a.Length
    modifies a
    ensures lo < i < hi && Partitioned(cmp, a[..], lo, hi, i) && Shuffled(old(a[..]), a[..], lo, hi)
  {
    hide Shuffled, Compare, TotalPreorder, NoneGreater, NoneSmaller, Partitioned, Swapped;
    PlacePivot(a, lo, hi, cmp);
    var p := a[hi - 1];
    SplitStarts(cmp, a[..], lo, hi);
    i := lo;
    var j := hi - 1;
    while true
      invariant lo <= i < j < hi && a[hi - 1] == p && Shuffled(old(a[..]), a[..], lo, hi)
      invariant NoneGreater(cmp, a[..], p, lo, i + 1) && NoneSmaller(cmp, a[..], p, j, hi)
      decreases j - i
    {
      ghost var i0, j0, s := i, j, a[..];
      i := i + 1;
      while Compare(cmp, a[i], p) < 0
        invariant a[..] == s && i0 < i < hi && NoneGreater(cmp, s, p, lo, i)
        decreases hi - i
      {
        ScanRight(cmp, s, p, lo, i, hi);
        i := i + 1;
      }
      LeftEnd(cmp, s, p, lo, i);
      while j > lo
        invariant a[..] == s && lo <= j <= j0 && NoneSmaller(cmp, s, p, j, hi) && (j < j0 ==> Compare(cmp, s[j], p) > 0)
      {
        j := j - 1;
        if !(Compare(cmp, a[j], p) > 0) {
          break;
        }
        ScanLeft(cmp, s, p, j, hi);
      }
      if i >= j {
        break;
      }
      SwapShuffles(old(a[..]), a[..], i, j, lo, hi);
      SplitGoesOn(cmp, a[..], p, lo, hi, i, j);
      Swap(a, i, j);
    }
    SwapShuffles(old(a[..]), a[..], i, hi - 1, lo, hi);
    SplitEnds(cmp, a[..], lo, hi, i, j);
    Swap(a, i, hi - 1);
  }

  lemma SplitStarts<T(!new)>(cmp: Comparator<T>, s: seq<T>, lo: nat, hi: nat)
    requires TotalPreorder(cmp) && lo + 8 <= hi < |s| && Compare(cmp, s[lo], s[hi - 1]) <= 0 && Compare(cmp, s[hi - 1], s[hi]) <= 0
    ensures NoneGreater(cmp, s, s[hi - 1], lo, lo + 1) && NoneSmaller(cmp, s, s[hi - 1], hi - 1, hi)
  {
    Flip(cmp, s[hi - 1], s[hi - 1]);
  }

  /** The scan from the left stops at the pivot at the latest. */
  lemma ScanRight<T(!new)>(cmp: Comparator<T>, s: seq<T>, p: T, lo: nat, i: nat, hi: nat)
    requires TotalPreorder(cmp) && i < hi < |s| && s[hi - 1] == p && NoneGreater(cmp, s, p, lo, i) && Compare(cmp, s[i], p) < 0
    ensures i + 1 < hi && NoneGreater(cmp, s, p, lo, i + 1)
  {
    Flip(cmp, p, p);
  }

  lemma ScanLeft<T(!new)>(cmp: Comparator<T>, s: seq<T>, p: T, j: nat, hi: nat)
    requires TotalPreorder(cmp) && j < hi < |s| && NoneSmaller(cmp, s, p, j + 1, hi) && Compare(cmp, s[j], p) > 0
    ensures NoneSmaller(cmp, s, p, j, hi)
  {
    Flip(cmp, s[j], p);
  }

  /** The scan from the right never runs past lo. */
  lemma LeftEnd<T>(cmp: Comparator<T>, s: seq<T>, p: T, lo: nat, i: nat)
    requires NoneGreater(cmp, s, p, lo, i) && lo < i
    ensures Compare(cmp, s[lo], p) <= 0
  {
  }

  lemma SplitGoesOn<T(!new)>(cmp: Comparator<T>, s: seq<T>, p: T, lo: nat, hi: nat, i: nat, j: nat)
    requires TotalPreorder(cmp) && lo < i < j < hi - 1 && NoneGreater(cmp, s, p, lo, i) && NoneSmaller(cmp, s, p, j + 1, hi)
    requires Compare(cmp, s[i], p) >= 0 && Compare(cmp, s[j], p) <= 0
    ensures NoneGreater(cmp, Swapped(s, i, j), p, lo, i + 1) && NoneSmaller(cmp, Swapped(s, i, j), p, j, hi)
    ensures Swapped(s, i, j)[hi - 1] == s[hi - 1]
  {
    Flip(cmp, s[i], p);
  }

  lemma SplitEnds<T(!new)>(cmp: Comparator<T>, s: seq<T>, lo: nat, hi: nat, i: nat, j: nat)
    requires TotalPreorder(cmp) && lo < i < hi < |s| && j <= i
    requires NoneGreater(cmp, s, s[hi - 1], lo, i) && NoneSmaller(cmp, s, s[hi - 1], j + 1, hi) && Compare(cmp, s[i], s[hi - 1]) >= 0
    ensures Partitioned(cmp, Swapped(s, i, hi - 1), lo, hi, i)
  {
    Flip(cmp, s[i], s[hi - 1]);
    Flip(cmp, s[hi - 1], s[hi - 1]);
  }

  // ---- The whole sort

  function Pow2(n: nat): (r: nat)
    ensures r > 0
  {
    if n == 0 then 1 else 2 * Pow2(n - 1)
  }

  /** Every pair from lo to hi of which at least one lies outside a to b is in order. */
  ghost predicate SortedAround<T>(cmp: Comparator<T>, s: seq<T>, lo: nat, hi: nat, a: nat, b: nat) {
    forall x, y :: lo <= x < y <= hi && (x < a || b < y) ==> InOrder(cmp, s, x, y)
  }

  lemma AroundStarts<T>(cmp: Comparator<T>, s: seq<T>, lo: nat, hi: nat)
    ensures SortedAround(cmp, s, lo, hi, lo, hi)
  {
  }

  /** When the inside is sorted too, or has at most one element, everything is. */
  lemma AroundEnds<T>(cmp: Comparator<T>, s: seq<T>, lo: nat, hi: nat, a: nat, b: nat)
    requires SortedAround(cmp, s, lo, hi, a, b) && (b <= a || Sorted(cmp, s, a, b))
    ensures Sorted(cmp, s, lo, hi)
  {
    forall x, y | lo <= x < y <= hi
      ensures InOrder(cmp, s, x, y)
    {
      assert x < a || b < y || InOrder(cmp, s, x, y);
    }
  }

  /** Permuting the inside leaves the pairs around it in order. */
  lemma AroundShuffled<T>(cmp: Comparator<T>, s: seq<T>, t: seq<T>, lo: nat, hi: nat, a: nat, b: nat)
    requires SortedAround(cmp, s, lo, hi, a, b) && Shuffled(s, t, a, b) && lo <= a && b <= hi
    ensures SortedAround(cmp, t, lo, hi, a, b)
  {
    hide Shuffled, Compare;
    ShuffledBounds(s, t, a, b);
    forall x, y | lo <= x < y <= hi && (x < a || b < y)
      ensures InOrder(cmp, t, x, y)
    {
      var x', y' := x, y;
      if a <= x <= b {
        x' := ComesFrom(s, t, a, b, x);
      }
      if a <= y <= b {
        y' := ComesFrom(s, t, a, b, y);
      }
      assert InOrder(cmp, s, x', y');
    }
  }

  lemma ShuffledBounds<T>(s: seq<T>, t: seq<T>, lo: nat, hi: nat)
    requires Shuffled(s, t, lo, hi)
    ensures lo <= hi < |s| == |t| && forall x :: 0 <= x < |s| && !(lo <= x <= hi) ==> s[x] == t[x]
  {
  }

  /** Behind the partition one side can be sorted and then left out. */
  lemma LeftDone<T(!new)>(cmp: Comparator<T>, s: seq<T>, t: seq<T>, lo: nat, hi: nat, a: nat, b: nat, i: nat)
    requires TotalPreorder(cmp) && lo <= a < i < b <= hi < |s| && SortedAround(cmp, s, lo, hi, a, b) && Partitioned(cmp, s, a, b, i)
    requires if i - 1 == a then t == s else Shuffled(s, t, a, i - 1) && Sorted(cmp, t, a, i - 1)
    ensures SortedAround(cmp, t, lo, hi, i + 1, b)
  {
    hide Compare, Shuffled;
    assert i - 1 == a ==> Shuffled(s, t, a, i - 1) by {
      ShuffledNot(s, a, i - 1);
    }
    ShuffledBounds(s, t, a, i - 1);
    forall x, y | lo <= x < y <= hi && (x < i + 1 || b < y)
      ensures InOrder(cmp, t, x, y)
    {
      var x', y' := x, y;
      if a <= x <= i - 1 {
        x' := ComesFrom(s, t, a, i - 1, x);
      }
      if a <= y <= i - 1 {
        y' := ComesFrom(s, t, a, i - 1, y);
      }
      if x < a || b < y {
        assert InOrder(cmp, s, x', y');
      } else if y <= i - 1 {
        assert InOrder(cmp, t, x, y);
      } else {
        AcrossPivot(cmp, s, a, b, i, x', y');
      }
    }
  }

  /** An element up to the pivot and one from the pivot on are in order. */
  lemma AcrossPivot<T(!new)>(cmp: Comparator<T>, s: seq<T>, a: nat, b: nat, i: nat, x: nat, y: nat)
    requires TotalPreorder(cmp) && Partitioned(cmp, s, a, b, i) && a <= x <= i <= y <= b
    ensures InOrder(cmp, s, x, y)
  {
    hide Compare;
    Flip(cmp, s[i], s[i]);
  }

  lemma RightDone<T(!new)>(cmp: Comparator<T>, s: seq<T>, t: seq<T>, lo: nat, hi: nat, a: nat, b: nat, i: nat)
    requires TotalPreorder(cmp) && lo <= a < i < b <= hi < |s| && SortedAround(cmp, s, lo, hi, a, b) && Partitioned(cmp, s, a, b, i)
    requires if i + 1 == b then t == s else Shuffled(s, t, i + 1, b) && Sorted(cmp, t, i + 1, b)
    ensures SortedAround(cmp, t, lo, hi, a, i - 1)
  {
    hide Compare, Shuffled;
    assert i + 1 == b ==> Shuffled(s, t, i + 1, b) by {
      ShuffledNot(s, i + 1, b);
    }
    ShuffledBounds(s, t, i + 1, b);
    forall x, y | lo <= x < y <= hi && (x < a || i - 1 < y)
      ensures InOrder(cmp, t, x, y)
    {
      var x', y' := x, y;
      if i + 1 <= x <= b {
        x' := ComesFrom(s, t, i + 1, b, x);
      }
      if i + 1 <= y <= b {
        y' := ComesFrom(s, t, i + 1, b, y);
      }
      if x < a || b < y {
        assert InOrder(cmp, s, x', y');
      } else if i + 1 <= x {
        assert InOrder(cmp, t, x, y);
      } else {
        AcrossPivot(cmp, s, a, b, i, x', y');
      }
    }
  }

  /** A partition of at most half the elements: one more level still fits. */
  lemma OneLevelMore(depth: nat, d: nat, part: nat, n: nat)
    requires Pow2(depth) <= n && Pow2(d) <= part && 2 * part <= n
    ensures Pow2(if d + 1 > depth then d + 1 else depth) <= n
  {
  }

  /** _qsort_r from first to last; depth is the number of calls nested below this one. */
  method QsortR<T(!new)>(a: array<T>, first: nat, last: nat, cmp: Comparator<T>) returns (ghost depth: nat)
    requires TotalPreorder(cmp) && first <= last < a.Length
    modifies a
    ensures Sorted(cmp, a[..], first, last) && Shuffled(old(a[..]), a[..], first, last)
    ensures Pow2(depth) <= last - first + 1
    decreases last - first
  {
    hide Compare, TotalPreorder, Sorted, Shuffled, SortedAround, Partitioned, Pow2;
    var lo: nat, hi: nat := first, last;
    depth := 0;
    ghost var s0 := a[..];
    PowOfNone();
    AroundStarts(cmp, s0, first, last);
    ShuffledNot(s0, first, last);
    while lo < hi
      invariant first <= lo && hi <= last && lo <= hi + 1 && Pow2(depth) <= last - first + 1
      invariant Shuffled(s0, a[..], first, last) && SortedAround(cmp, a[..], first, last, lo, hi)
      decreases hi + 1 - lo
    {
      ghost var s := a[..];
      if hi - lo < 8 {
        InsertionSort(a, lo, hi, cmp);
        AroundShuffled(cmp, s, a[..], first, last, lo, hi);
        ShuffledTwice(s0, s, a[..], lo, hi, first, last);
        AroundEnds(cmp, a[..], first, last, lo, hi);
        return;
      }
      var i := Partition(a, lo, hi, cmp);
      ghost var t := a[..];
      AroundShuffled(cmp, s, t, first, last, lo, hi);
      ShuffledTwice(s0, s, t, lo, hi, first, last);
      if i - 1 - lo < hi - i - 1 {
        if i > lo + 1 {
          ghost var d := QsortR(a, lo, i - 1, cmp);
          OneLevelMore(depth, d, i - lo, last - first + 1);
          depth := if d + 1 > depth then d + 1 else depth;
          ShuffledTwice(s0, t, a[..], lo, i - 1, first, last);
        }
        LeftDone(cmp, t, a[..], first, last, lo, hi, i);
        lo := i + 1;
      } else {
        if i + 1 < hi {
          ghost var d := QsortR(a, i + 1, hi, cmp);
          OneLevelMore(depth, d, hi - i, last - first + 1);
          depth := if d + 1 > depth then d + 1 else depth;
          ShuffledTwice(s0, t, a[..], i + 1, hi, first, last);
        }
        RightDone(cmp, t, a[..], first, last, lo, hi, i);
        hi := i - 1;
      }
    }
    AroundEnds(cmp, a[..], first, last, lo, hi);
  }

  lemma PowOfNone()
    ensures Pow2(0) == 1
  {
  }

  /** qsort: a sorted permutation, with a recursion depth of at most the logarithm of the length. */
  method Qsort<T(!new)>(a: array<T>, cmp: Comparator<T>) returns (ghost depth: nat)
    requires TotalPreorder(cmp)
    modifies a
    ensures multiset(a[..]) == multiset(old(a[..]))
    ensures forall x, y :: 0 <= x < y < a.Length ==> InOrder(cmp, a[..], x, y)
    ensures depth == 0 || Pow2(depth) <= a.Length
  {
    hide Compare, TotalPreorder;
    depth := 0;
    if a.Length < 2 {
      return;
    }
    depth := QsortR(a, 0, a.Length - 1, cmp);
  }

  // ---- bsearch

  /** The elements that compare below the key come first, those above it last. */
  ghost predicate OrderedFor<K(!new), T(!new)>(s: seq<T>, key: K, cmp: (K, T) -> int) {
    forall x, y :: 0 <= x < y < |s| ==> NotBefore(s, key, cmp, x, y)
  }

  ghost predicate NotBefore<K, T>(s: seq<T>, key: K, cmp: (K, T) -> int, x: nat, y: nat)
    requires x < |s| && y < |s|
  {
    (cmp(key, s[x]) < 0 ==> cmp(key, s[y]) < 0) && (cmp(key, s[y]) > 0 ==> cmp(key, s[x]) > 0)
  }

  /** The index of a matching element, or -1 for NULL if there is none. */
  method Bsearch<K(!new), T(!new)>(key: K, a: array<T>, cmp: (K, T) -> int) returns (r: int)
    requires OrderedFor(a[..], key, cmp)
    ensures -1 <= r < a.Length
    ensures r >= 0 ==> cmp(key, a[r]) == 0
    ensures r == -1 <==> forall k :: 0 <= k < a.Length ==> cmp(key, a[k]) != 0
  {
    var lo: nat, hi: nat := 0, a.Length;
    while lo < hi
      invariant 0 <= lo <= hi <= a.Length
      invariant forall k :: 0 <= k < lo ==> cmp(key, a[k]) > 0
      invariant forall k :: hi <= k < a.Length ==> cmp(key, a[k]) < 0
    {
      var mid := lo + (hi - lo) / 2;
      var c := cmp(key, a[mid]);
      if c == 0 {
        return mid;
      } else if c < 0 {
        forall k | mid < k < hi
          ensures cmp(key, a[k]) < 0
        {
          assert NotBefore(a[..], key, cmp, mid, k);
        }
        hi := mid;
      } else {
        forall k | lo <= k < mid
          ensures cmp(key, a[k]) > 0
        {
          assert NotBefore(a[..], key, cmp, k, mid);
        }
        lo := mid + 1;
      }
    }
    return -1;
  }

  /** What qsort leaves behind is what bsearch with the same comparator needs, whatever the key. */
  lemma SortedIsOrderedFor<T(!new)>(s: seq<T>, key: T, cmp: Comparator<T>)
    requires TotalPreorder(cmp) && forall x, y :: 0 <= x < y < |s| ==> InOrder(cmp, s, x, y)
    ensures OrderedFor(s, key, cmp)
  {
    forall x, y | 0 <= x < y < |s|
      ensures NotBefore(s, key, cmp, x, y)
    {
      assert InOrder(cmp, s, x, y);
      KeyAgainstPair(cmp, key, s[x], s[y]);
    }
  }

  lemma KeyAgainstPair<T(!new)>(cmp: Comparator<T>, key: T, u: T, v: T)
    requires TotalPreorder(cmp) && Compare(cmp, u, v) <= 0
    ensures (Compare(cmp, key, u) < 0 ==> Compare(cmp, key, v) < 0) && (Compare(cmp, key, v) > 0 ==> Compare(cmp, key, u) > 0)
  {
    hide Compare;
    Flip(cmp, key, u);
    Flip(cmp, key, v);
  }

  /** Sorting and then searching finds an element that matches the key iff the array held one before. */
  method SortThenSearch<T(!new)>(a: array<T>, key: T, cmp: Comparator<T>) returns (r: int)
    requires TotalPreorder(cmp)
    modifies a
    ensures -1 <= r < a.Length && (r >= 0 ==> Compare(cmp, key, a[r]) == 0)
    ensures r >= 0 <==> exists k :: 0 <= k < a.Length && Compare(cmp, key, old(a[..])[k]) == 0
  {
    ghost var s := a[..];
    ghost var depth := Qsort(a, cmp);
    SortedIsOrderedFor(a[..], key, cmp);
    r := Bsearch(key, a, cmp);
    forall k | 0 <= k < a.Length
      ensures s[k] in a[..] && a[k] in s
    {
      assert s[k] in multiset(s) && a[..][k] in multiset(a[..]);
    }
  }
}
