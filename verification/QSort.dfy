/** The library's quicksort (src/libc/qsort.c): partitioning around a pivot that moves,
  recursion into the smaller side only, partitions of fewer than THRESH records left as
  they are, and one final insertion sort whose scan has no bounds test. */
module QSort {
  import opened PowersOfTwo

  const THRESH := 4
  const MTHRESH := 6

  type Comparator<!T> = (T, T) -> int

  predicate Le<T>(cmp: Comparator<T>, x: T, y: T) {
    cmp(x, y) <= 0
  }

  // Swapping the arguments swaps the sign.
  predicate Opposite<T>(cmp: Comparator<T>, x: T, y: T) {
    cmp(x, y) <= 0 <==> cmp(y, x) >= 0
  }

  predicate Chains<T>(cmp: Comparator<T>, x: T, y: T, z: T) {
    Le(cmp, x, y) && Le(cmp, y, z) ==> Le(cmp, x, z)
  }

  // What qsort asks of its comparison routine: a total preorder.
  ghost predicate Ordering<T(!new)>(cmp: Comparator<T>) {
    && (forall x, y :: Opposite(cmp, x, y))
    && (forall x, y, z :: Chains(cmp, x, y, z))
  }

  lemma Total<T(!new)>(cmp: Comparator<T>, x: T, y: T)
    requires Ordering(cmp)
    ensures cmp(x, y) < 0 <==> cmp(y, x) > 0
    ensures Le(cmp, x, y) || Le(cmp, y, x)
    ensures Le(cmp, x, x)
  {
    assert Opposite(cmp, x, y) && Opposite(cmp, y, x) && Opposite(cmp, x, x);
  }

  // ---- Facts about sequences ----

  ghost predicate Sorted<T>(cmp: Comparator<T>, s: seq<T>) {
    forall x, y | 0 <= x < y < |s| :: Le(cmp, s[x], s[y])
  }

  // No record from lo to m is after a record from m to hi.
  ghost predicate Split<T>(cmp: Comparator<T>, s: seq<T>, lo: int, m: int, hi: int)
    requires 0 <= lo && hi <= |s|
  {
    forall x, y | lo <= x < m <= y < hi :: Le(cmp, s[x], s[y])
  }

  // A boundary that no record is out of place across, within THRESH - 1 places after i.
  ghost predicate CutAfter<T>(cmp: Comparator<T>, s: seq<T>, lo: int, i: int, hi: int)
    requires 0 <= lo && hi <= |s|
  {
    exists m {:trigger Split(cmp, s, lo, m, hi)} | i < m <= i + THRESH - 1 && m <= hi :: Split(cmp, s, lo, m, hi)
  }

  // The records from lo to hi fall into consecutive segments shorter than THRESH, and are in order
  // except within these.
  ghost predicate NearlySorted<T>(cmp: Comparator<T>, s: seq<T>, lo: int, hi: int)
    requires 0 <= lo && hi <= |s|
  {
    forall i {:trigger CutAfter(cmp, s, lo, i, hi)} | lo <= i < hi :: CutAfter(cmp, s, lo, i, hi)
  }

  // t is s with the records from lo to hi rearranged.
  ghost predicate Rearranged<T>(s: seq<T>, t: seq<T>, lo: int, hi: int)
    requires 0 <= lo <= hi <= |s|
  {
    && |t| == |s|
    && t[..lo] == s[..lo]
    && t[hi..] == s[hi..]
    && multiset(t[lo..hi]) == multiset(s[lo..hi])
  }

  lemma RearrangedTransitive<T>(s: seq<T>, t: seq<T>, u: seq<T>, lo: int, hi: int)
    requires 0 <= lo <= hi <= |s|
    requires Rearranged(s, t, lo, hi) && Rearranged(t, u, lo, hi)
    ensures Rearranged(s, u, lo, hi)
  {
  }

  // Rearranging within a part is rearranging the whole.
  lemma RearrangedWider<T>(s: seq<T>, t: seq<T>, lo: int, hi: int, lo': int, hi': int)
    requires 0 <= lo' <= lo <= hi <= hi' <= |s|
    requires Rearranged(s, t, lo, hi)
    ensures Rearranged(s, t, lo', hi')
  {
    assert s[lo'..hi'] == s[lo'..lo] + s[lo..hi] + s[hi..hi'];
    assert t[lo'..hi'] == t[lo'..lo] + t[lo..hi] + t[hi..hi'];
    assert t[lo'..lo] == t[..lo][lo'..] == s[..lo][lo'..] == s[lo'..lo];
    assert t[hi..hi'] == t[hi..][..hi' - hi] == s[hi..][..hi' - hi] == s[hi..hi'];
    assert t[..lo'] == t[..lo][..lo'] == s[..lo][..lo'] == s[..lo'];
    assert t[hi'..] == t[hi..][hi' - hi..] == s[hi..][hi' - hi..] == s[hi'..];
  }

  // Where a rearranged record came from.
  lemma Origin<T>(s: seq<T>, t: seq<T>, lo: int, hi: int, y: int) returns (y': int)
    requires 0 <= lo <= hi <= |s| && Rearranged(s, t, lo, hi)
    requires 0 <= y < |s|
    ensures 0 <= y' < |s| && t[y] == s[y']
    ensures if lo <= y < hi then lo <= y' < hi else y' == y
  {
    if y < lo {
      assert t[y] == t[..lo][y];
      y' := y;
    } else if y >= hi {
      assert t[y] == t[hi..][y - hi];
      y' := y;
    } else {
      assert t[y] == t[lo..hi][y - lo];
      assert t[y] in multiset(s[lo..hi]);
      var k :| 0 <= k < hi - lo && s[lo..hi][k] == t[y];
      y' := lo + k;
    }
  }

  // Rearranging on one side of a split keeps it.
  lemma SplitRearranged<T>(cmp: Comparator<T>, s: seq<T>, t: seq<T>, lo: int, m: int, hi: int, p: int, q: int)
    requires 0 <= lo && hi <= |s| && 0 <= p <= q <= |s| && Rearranged(s, t, p, q)
    requires Split(cmp, s, lo, m, hi)
    requires (lo <= p && q <= m) || (m <= p && q <= hi)
    ensures Split(cmp, t, lo, m, hi)
  {
    forall x, y | lo <= x < m <= y < hi ensures Le(cmp, t[x], t[y]) {
      var x' := Origin(s, t, p, q, x);
      var y' := Origin(s, t, p, q, y);
    }
  }

  lemma NearlySortedRearranged<T>(cmp: Comparator<T>, s: seq<T>, t: seq<T>, lo: int, hi: int, p: int, q: int)
    requires 0 <= lo && hi <= |s| && 0 <= p <= q <= |s| && Rearranged(s, t, p, q)
    requires NearlySorted(cmp, s, lo, hi)
    requires hi <= p || q <= lo
    ensures NearlySorted(cmp, t, lo, hi)
  {
    forall k | lo <= k < hi ensures t[k] == s[k] {
      var k' := Origin(s, t, p, q, k);
    }
    forall i | lo <= i < hi ensures CutAfter(cmp, t, lo, i, hi) {
      assert CutAfter(cmp, s, lo, i, hi);
      var m :| i < m <= i + THRESH - 1 && m <= hi && Split(cmp, s, lo, m, hi);
      assert Split(cmp, t, lo, m, hi);
    }
  }

  // A part shorter than THRESH is one segment.
  lemma ShortIsNearlySorted<T>(cmp: Comparator<T>, s: seq<T>, lo: int, hi: int)
    requires 0 <= lo <= hi <= |s| && hi - lo < THRESH
    ensures NearlySorted(cmp, s, lo, hi)
  {
    assert Split(cmp, s, lo, hi, hi);
  }

  lemma NearlySortedJoin<T>(cmp: Comparator<T>, s: seq<T>, lo: int, m: int, hi: int)
    requires 0 <= lo <= m <= hi <= |s|
    requires NearlySorted(cmp, s, lo, m) && NearlySorted(cmp, s, m, hi) && Split(cmp, s, lo, m, hi)
    ensures NearlySorted(cmp, s, lo, hi)
  {
    forall i | lo <= i < hi ensures CutAfter(cmp, s, lo, i, hi) {
      if i < m {
        assert CutAfter(cmp, s, lo, i, m);
        var c :| i < c <= i + THRESH - 1 && c <= m && Split(cmp, s, lo, c, m);
        assert Split(cmp, s, lo, c, hi);
      } else {
        assert CutAfter(cmp, s, m, i, hi);
        var c :| i < c <= i + THRESH - 1 && c <= hi && Split(cmp, s, m, c, hi);
        assert Split(cmp, s, lo, c, hi);
      }
    }
  }

  lemma SwapRearranges<T>(s: seq<T>, i: int, j: int, lo: int, hi: int)
    requires 0 <= lo <= i < hi <= |s| && lo <= j < hi
    ensures Rearranged(s, s[i := s[j]][j := s[i]], lo, hi)
  {
    var t := s[i := s[j]][j := s[i]];
    assert t[lo..hi] == s[lo..hi][i - lo := s[lo..hi][j - lo]][j - lo := s[lo..hi][i - lo]];
  }

  // ---- qst ----

  // The records stay a rearrangement of `was`.
  method Swap<T>(a: array<T>, i: int, j: int, ghost was: seq<T>, ghost lo: int, ghost hi: int)
    requires 0 <= lo <= i < hi <= a.Length == |was| && lo <= j < hi
    requires Rearranged(was, a[..], lo, hi)
    modifies a
    ensures a[i] == old(a[j]) && a[j] == old(a[i])
    ensures forall k | 0 <= k < a.Length && k != i && k != j :: a[k] == old(a[k])
    ensures Rearranged(was, a[..], lo, hi)
  {
    SwapRearranges(a[..], i, j, lo, hi);
    ghost var s := a[..];
    a[i], a[j] := a[j], a[i];
    assert a[..] == s[i := s[j]][j := s[i]];
    RearrangedTransitive(was, s, a[..], lo, hi);
  }

  // m is a middle one of the three.
  ghost predicate Median<T>(cmp: Comparator<T>, x: T, y: T, z: T, m: T) {
    || (m == x && ((Le(cmp, y, m) && Le(cmp, m, z)) || (Le(cmp, z, m) && Le(cmp, m, y))))
    || (m == y && ((Le(cmp, x, m) && Le(cmp, m, z)) || (Le(cmp, z, m) && Le(cmp, m, x))))
    || (m == z && ((Le(cmp, x, m) && Le(cmp, m, y)) || (Le(cmp, y, m) && Le(cmp, m, x))))
  }

  // For large partitions, the median of the first, middle and last records is moved to
  // the middle.
  method ChoosePivot<T(!new)>(a: array<T>, cmp: Comparator<T>, base: int, max: int) returns (mid: int)
    requires Ordering(cmp)
    requires 0 <= base && base + THRESH <= max <= a.Length
    modifies a
    ensures base <= mid < max && Rearranged(old(a[..]), a[..], base, max)
    ensures max - base >= MTHRESH ==>
              Median(cmp, old(a[base]), old(a[mid]), old(a[max - 1]), a[mid])
  {
    var lo := max - base;
    mid := base + lo / 2;
    if lo >= MTHRESH {
      Total(cmp, a[base], a[mid]);
      Total(cmp, a[base], a[max - 1]);
      Total(cmp, a[mid], a[max - 1]);
      var j := if cmp(a[base], a[mid]) > 0 then base else mid;
      if cmp(a[j], a[max - 1]) > 0 {
        j := if j == base then mid else base;
        if cmp(a[j], a[max - 1]) < 0 {
          j := max - 1;
        }
      }
      if j != mid {
        Swap(a, mid, j, a[..], base, max);
      }
    }
  }

  // What is known on the way: i and j close in on the pivot, and what they have passed is on its
  // side.
  ghost predicate Closing<T>(cmp: Comparator<T>, s: seq<T>, base: int, i: int, mid: int, j: int, max: int, p: T) {
    && 0 <= base <= i <= mid <= j < max <= |s| && s[mid] == p
    && (forall k | base <= k < i :: Le(cmp, s[k], p))
    && (forall k | j < k < max :: Le(cmp, p, s[k]))
  }

  // The two scans towards the pivot.
  method Scan<T(!new)>(a: array<T>, cmp: Comparator<T>, ghost base: int, i0: int, mid: int, j0: int, ghost max: int)
    returns (i: int, j: int)
    requires 0 <= mid < a.Length && Closing(cmp, a[..], base, i0, mid, j0, max, a[mid])
    ensures i0 <= i && j <= j0 && Closing(cmp, a[..], base, i, mid, j, max, a[mid])
    ensures i < mid ==> cmp(a[i], a[mid]) > 0
    ensures mid < j ==> cmp(a[mid], a[j]) > 0
  {
    i, j := i0, j0;
    while i < mid && cmp(a[i], a[mid]) <= 0
      invariant i0 <= i && Closing(cmp, a[..], base, i, mid, j, max, a[mid])
    {
      i := i + 1;
    }
    while j > mid && cmp(a[mid], a[j]) <= 0
      invariant j <= j0 && Closing(cmp, a[..], base, i, mid, j, max, a[mid])
    {
      j := j - 1;
    }
  }

  // The exchange after the scans, if one of them stopped before the pivot.
  method Exchange<T(!new)>(a: array<T>, cmp: Comparator<T>, base: int, i0: int, mid0: int, j0: int, max: int,
                           ghost was: seq<T>)
    returns (i: int, mid: int, j: int)
    requires Ordering(cmp) && |was| == a.Length && 0 <= mid0 < a.Length
    requires Closing(cmp, a[..], base, i0, mid0, j0, max, a[mid0])
    requires Rearranged(was, a[..], base, max) && (i0 < mid0 || mid0 < j0)
    requires i0 < mid0 ==> cmp(a[i0], a[mid0]) > 0
    requires mid0 < j0 ==> cmp(a[mid0], a[j0]) > 0
    modifies a
    ensures Closing(cmp, a[..], base, i, mid, j, max, old(a[mid0])) && j - i < j0 - i0
    ensures Rearranged(was, a[..], base, max)
  {
    ghost var p := a[mid0];
    i, mid, j := i0, mid0, j0;
    Total(cmp, p, p);
    if j > mid {
      Total(cmp, p, a[j]);
      if i == mid {
        Swap(a, i, j, was, base, max);
        mid := j;
      } else {
        Total(cmp, p, a[i]);
        Swap(a, i, j, was, base, max);
        j := j - 1;
      }
      i := i + 1;
    } else {
      Total(cmp, p, a[i]);
      Swap(a, mid, i, was, base, max);
      j := mid - 1;
      mid := i;
    }
  }

  // One pass of partitioning: afterwards everything left of the pivot is at most the
  // pivot, and everything right of it at least the pivot.
  method Partition<T(!new)>(a: array<T>, cmp: Comparator<T>, base: int, max: int) returns (mid: int)
    requires Ordering(cmp)
    requires 0 <= base && base + THRESH <= max <= a.Length
    modifies a
    ensures base <= mid < max && Rearranged(old(a[..]), a[..], base, max)
    ensures forall k | base <= k < mid :: Le(cmp, a[k], a[mid])
    ensures forall k | mid < k < max :: Le(cmp, a[mid], a[k])
  {
    mid := ChoosePivot(a, cmp, base, max);
    var i, j := base, max - 1;
    while true
      invariant 0 <= mid < a.Length && Closing(cmp, a[..], base, i, mid, j, max, a[mid])
      invariant Rearranged(old(a[..]), a[..], base, max)
      decreases j - i
    {
      i, j := Scan(a, cmp, base, i, mid, j, max);
      if i == mid && j == mid {
        break;
      }
      i, mid, j := Exchange(a, cmp, base, i, mid, j, max, old(a[..]));
    }
  }

  // What is already settled around the part from base to max that is still to be sorted.
  ghost predicate Around<T>(cmp: Comparator<T>, s: seq<T>, lo: int, base: int, max: int, hi: int)
    requires 0 <= lo <= base <= max <= hi <= |s|
  {
    && NearlySorted(cmp, s, lo, base)
    && NearlySorted(cmp, s, max, hi)
    && Split(cmp, s, lo, base, hi)
    && Split(cmp, s, lo, max, hi)
  }

  lemma AroundRearranged<T>(cmp: Comparator<T>, s: seq<T>, t: seq<T>, lo: int, base: int, max: int, hi: int)
    requires 0 <= lo <= base <= max <= hi <= |s|
    requires Around(cmp, s, lo, base, max, hi) && Rearranged(s, t, base, max)
    ensures Around(cmp, t, lo, base, max, hi)
  {
    NearlySortedRearranged(cmp, s, t, lo, base, base, max);
    NearlySortedRearranged(cmp, s, t, max, hi, base, max);
    SplitRearranged(cmp, s, t, lo, base, hi, base, max);
    SplitRearranged(cmp, s, t, lo, max, hi, base, max);
  }

  // A pivot splits its partition on both sides, and the whole as well.
  lemma PivotSplits<T(!new)>(cmp: Comparator<T>, s: seq<T>, lo: int, base: int, mid: int, max: int, hi: int)
    requires Ordering(cmp)
    requires 0 <= lo <= base <= mid < max <= hi <= |s|
    requires Split(cmp, s, lo, base, hi) && Split(cmp, s, lo, max, hi)
    requires forall k | base <= k < mid :: Le(cmp, s[k], s[mid])
    requires forall k | mid < k < max :: Le(cmp, s[mid], s[k])
    ensures Split(cmp, s, lo, mid, hi) && Split(cmp, s, lo, mid + 1, hi)
  {
    forall x, y | lo <= x <= mid <= y < hi && (x < mid || mid < y) ensures Le(cmp, s[x], s[y]) {
      assert Chains(cmp, s[x], s[mid], s[y]);
    }
  }

  // The larger side becomes the part still to be sorted, once the smaller one is nearly so.
  lemma Narrow<T>(cmp: Comparator<T>, s: seq<T>, lo: int, base: int, mid: int, max: int, hi: int)
    requires 0 <= lo <= base <= mid < max <= hi <= |s|
    requires Around(cmp, s, lo, base, max, hi)
    requires Split(cmp, s, lo, mid, hi) && Split(cmp, s, lo, mid + 1, hi)
    ensures NearlySorted(cmp, s, base, mid) ==> Around(cmp, s, lo, mid + 1, max, hi)
    ensures NearlySorted(cmp, s, mid + 1, max) ==> Around(cmp, s, lo, base, mid, hi)
  {
    ShortIsNearlySorted(cmp, s, mid, mid + 1);
    if NearlySorted(cmp, s, base, mid) {
      NearlySortedJoin(cmp, s, lo, base, mid);
      NearlySortedJoin(cmp, s, lo, mid, mid + 1);
    }
    if NearlySorted(cmp, s, mid + 1, max) {
      NearlySortedJoin(cmp, s, mid, mid + 1, max);
      NearlySortedJoin(cmp, s, mid, max, hi);
    }
  }

  // Sorting one side of the pivot disturbs nothing settled so far.
  lemma Settle<T>(cmp: Comparator<T>, t: seq<T>, u: seq<T>, lo: int, base: int, mid: int, max: int, hi: int,
                  p: int, q: int)
    requires 0 <= lo <= base <= mid < max <= hi <= |t|
    requires (p == base && q == mid) || (p == mid + 1 && q == max)
    requires Rearranged(t, u, p, q)
    requires Around(cmp, t, lo, base, max, hi)
    requires Split(cmp, t, lo, mid, hi) && Split(cmp, t, lo, mid + 1, hi)
    ensures Rearranged(t, u, lo, hi)
    ensures Around(cmp, u, lo, base, max, hi)
    ensures Split(cmp, u, lo, mid, hi) && Split(cmp, u, lo, mid + 1, hi)
  {
    RearrangedWider(t, u, p, q, base, max);
    RearrangedWider(t, u, p, q, lo, hi);
    AroundRearranged(cmp, t, u, lo, base, max, hi);
    SplitRearranged(cmp, t, u, lo, mid, hi, p, q);
    SplitRearranged(cmp, t, u, lo, mid + 1, hi, p, q);
  }

  // The body of qst's loop: partition, recurse into the smaller side if it is worth it,
  // and leave the larger side for the next round.
  method Round<T(!new)>(a: array<T>, cmp: Comparator<T>, base0: int, base: int, max: int, max0: int)
    returns (base': int, max': int, ghost depth: nat)
    requires Ordering(cmp)
    requires 0 <= base0 <= base && base + THRESH <= max <= max0 <= a.Length
    requires Around(cmp, a[..], base0, base, max, max0)
    modifies a
    ensures base <= base' <= max' <= max && max' - base' < max - base
    ensures Rearranged(old(a[..]), a[..], base0, max0)
    ensures Around(cmp, a[..], base0, base', max', max0)
    ensures Pow2(depth) <= max - base
    decreases max - base, 0
  {
    ghost var s := a[..];
    var mid := Partition(a, cmp, base, max);
    ghost var t := a[..];
    RearrangedWider(s, t, base, max, base0, max0);
    AroundRearranged(cmp, s, t, base0, base, max, max0);
    PivotSplits(cmp, t, base0, base, mid, max, max0);
    var lo, hi := mid - base, max - (mid + 1);
    if lo <= hi {
      depth := SortSide(a, cmp, base0, base, mid, max, max0, base, mid);
      base', max' := mid + 1, max;
    } else {
      depth := SortSide(a, cmp, base0, base, mid, max, max0, mid + 1, max);
      base', max' := base, mid;
    }
    Narrow(cmp, a[..], base0, base, mid, max, max0);
    RearrangedTransitive(s, t, a[..], base0, max0);
  }

  // One side of the pivot, from p to q: sorted by recursion if it is worth it.
  method SortSide<T(!new)>(a: array<T>, cmp: Comparator<T>, ghost base0: int, ghost base: int,
                           ghost mid: int, ghost max: int, ghost max0: int, p: int, q: int)
    returns (ghost depth: nat)
    requires Ordering(cmp) && 0 <= base0 <= base <= mid < max <= max0 <= a.Length
    requires (p == base && q == mid) || (p == mid + 1 && q == max)
    requires Around(cmp, a[..], base0, base, max, max0)
    requires Split(cmp, a[..], base0, mid, max0) && Split(cmp, a[..], base0, mid + 1, max0)
    modifies a
    ensures Rearranged(old(a[..]), a[..], base0, max0) && NearlySorted(cmp, a[..], p, q)
    ensures Around(cmp, a[..], base0, base, max, max0)
    ensures Split(cmp, a[..], base0, mid, max0) && Split(cmp, a[..], base0, mid + 1, max0)
    ensures Pow2(depth) <= if q - p >= THRESH then 2 * (q - p) else 1
    decreases q - p, 2
  {
    depth := 0;
    if q - p >= THRESH {
      ghost var t := a[..];
      depth := Qst(a, cmp, p, q);
      depth := depth + 1;
      Settle(cmp, t, a[..], base0, base, mid, max, max0, p, q);
    } else {
      ShortIsNearlySorted(cmp, a[..], p, q);
    }
  }

  // qst: leaves the part from base0 to max0 nearly sorted, and recurses no deeper than
  // the logarithm of its size.
  method Qst<T(!new)>(a: array<T>, cmp: Comparator<T>, base0: int, max0: int) returns (ghost depth: nat)
    requires Ordering(cmp)
    requires 0 <= base0 && base0 + THRESH <= max0 <= a.Length
    modifies a
    ensures Rearranged(old(a[..]), a[..], base0, max0)
    ensures NearlySorted(cmp, a[..], base0, max0)
    ensures Pow2(depth) <= max0 - base0
    decreases max0 - base0, 1
  {
    var base, max := base0, max0;
    depth := 0;
    while max - base >= THRESH
      invariant base0 <= base <= max <= max0
      invariant Rearranged(old(a[..]), a[..], base0, max0)
      invariant Around(cmp, a[..], base0, base, max, max0)
      invariant Pow2(depth) <= max0 - base0
      decreases max - base
    {
      ghost var s := a[..];
      ghost var d;
      base, max, d := Round(a, cmp, base0, base, max, max0);
      RearrangedTransitive(old(a[..]), s, a[..], base0, max0);
      depth := if d > depth then d else depth;
    }
    ShortIsNearlySorted(cmp, a[..], base, max);
    NearlySortedJoin(cmp, a[..], base0, base, max);
    NearlySortedJoin(cmp, a[..], base0, max, max0);
  }

  // ---- qsort ----

  // A least record within the first THRESH is moved to the front.
  method SmallestFirst<T(!new)>(a: array<T>, cmp: Comparator<T>, hi: int)
    requires Ordering(cmp)
    requires 1 <= hi <= a.Length
    modifies a
    ensures Rearranged(old(a[..]), a[..], 0, hi)
    ensures forall k | 0 <= k < hi :: Le(cmp, a[0], a[k])
  {
    var j, lo := 0, 1;
    Total(cmp, a[0], a[0]);
    while lo < hi
      invariant 0 <= j < hi && 1 <= lo <= hi && a[..] == old(a[..])
      invariant forall k | 0 <= k < lo :: Le(cmp, a[j], a[k])
    {
      Total(cmp, a[j], a[lo]);
      if cmp(a[j], a[lo]) > 0 {
        forall k | 0 <= k < lo ensures Le(cmp, a[lo], a[k]) {
          assert Chains(cmp, a[lo], a[j], a[k]);
        }
        Total(cmp, a[lo], a[lo]);
        j := lo;
      }
      lo := lo + 1;
    }
    if j != 0 {
      Swap(a, 0, j, a[..], 0, hi);
    }
  }

  // s with the record at min moved down to hi.
  function Rotated<T>(s: seq<T>, hi: int, min: int): (t: seq<T>)
    requires 0 <= hi <= min < |s|
    ensures |t| == |s|
  {
    s[..hi] + [s[min]] + s[hi..min] + s[min + 1..]
  }

  // Moves the record at min down to hi, and those in between up by one.
  method Rotate<T>(a: array<T>, hi: int, min: int)
    requires 0 <= hi <= min < a.Length
    modifies a
    ensures a[..] == Rotated(old(a[..]), hi, min)
  {
    ghost var s := a[..];
    var c, i := a[min], min;
    while i - 1 >= hi
      invariant hi <= i <= min
      invariant a[..] == s[..i] + [a[i]] + s[i..min] + s[min + 1..]
    {
      a[i] := a[i - 1];
      i := i - 1;
      assert a[..] == s[..i] + [s[i]] + s[i..min] + s[min + 1..];
    }
    a[i] := c;
  }

  lemma RotateRearranges<T>(s: seq<T>, hi: int, min: int)
    requires 0 <= hi <= min < |s|
    ensures multiset(Rotated(s, hi, min)) == multiset(s)
  {
    assert s == s[..hi] + s[hi..min] + [s[min]] + s[min + 1..];
  }

  lemma InsertSorts<T(!new)>(cmp: Comparator<T>, s: seq<T>, hi: int, min: int)
    requires Ordering(cmp) && 0 < hi <= min < |s|
    requires Sorted(cmp, s[..min])
    requires Le(cmp, s[hi - 1], s[min])
    requires forall k | hi <= k < min :: Le(cmp, s[min], s[k])
    ensures Sorted(cmp, Rotated(s, hi, min)[..min + 1])
  {
    forall x | 0 <= x < hi ensures Le(cmp, s[x], s[min]) {
      if x < hi - 1 {
        assert Le(cmp, s[..min][x], s[..min][hi - 1]);
      }
      assert Chains(cmp, s[x], s[hi - 1], s[min]);
    }
    forall x, y | 0 <= x < y < min ensures Le(cmp, s[x], s[y]) {
      assert Le(cmp, s[..min][x], s[..min][y]);
    }
  }

  // The scan for a record's place, which stops only on a comparison: the least record at
  // the front is what keeps it inside the array.
  method FindPlace<T(!new)>(a: array<T>, cmp: Comparator<T>, min: int) returns (hi: int)
    requires Ordering(cmp) && 0 < min < a.Length && Le(cmp, a[0], a[min])
    ensures 0 < hi <= min && Le(cmp, a[hi - 1], a[min])
    ensures forall k | hi <= k < min :: Le(cmp, a[min], a[k])
  {
    hi := min - 1;
    while cmp(a[hi], a[min]) > 0
      invariant 0 <= hi < min
      invariant forall k | hi < k < min :: Le(cmp, a[min], a[k])
      decreases hi
    {
      Total(cmp, a[min], a[hi]);
      hi := hi - 1;
    }
    hi := hi + 1;
  }

  ghost predicate FirstIsLeast<T>(cmp: Comparator<T>, s: seq<T>) {
    forall k | 0 <= k < |s| :: Le(cmp, s[0], s[k])
  }

  // One round of the insertion sort.
  method Insert<T(!new)>(a: array<T>, cmp: Comparator<T>, min: int)
    requires Ordering(cmp) && 0 < min < a.Length
    requires FirstIsLeast(cmp, a[..]) && Sorted(cmp, a[..min])
    modifies a
    ensures FirstIsLeast(cmp, a[..]) && Sorted(cmp, a[..min + 1])
    ensures multiset(a[..]) == multiset(old(a[..]))
  {
    ghost var s := a[..];
    assert Le(cmp, s[0], s[min]);
    var hi := FindPlace(a, cmp, min);
    InsertSorts(cmp, s, hi, min);
    RotateRearranges(s, hi, min);
    StillLeast(cmp, s, Rotated(s, hi, min));
    if hi != min {
      Rotate(a, hi, min);
    } else {
      RotatedInPlace(s, min);
    }
  }

  lemma RotatedInPlace<T>(s: seq<T>, min: int)
    requires 0 <= min < |s|
    ensures Rotated(s, min, min) == s
  {
  }

  lemma StillLeast<T>(cmp: Comparator<T>, s: seq<T>, t: seq<T>)
    requires s != [] && FirstIsLeast(cmp, s) && multiset(t) == multiset(s) && |t| == |s| && t[0] == s[0]
    ensures FirstIsLeast(cmp, t)
  {
    forall k | 0 <= k < |t| ensures Le(cmp, t[0], t[k]) {
      assert t[k] in multiset(s);
    }
  }

  method InsertionSort<T(!new)>(a: array<T>, cmp: Comparator<T>)
    requires Ordering(cmp) && a.Length >= 1 && FirstIsLeast(cmp, a[..])
    modifies a
    ensures Sorted(cmp, a[..]) && multiset(a[..]) == multiset(old(a[..]))
  {
    var min := 1;
    while min < a.Length
      invariant 1 <= min <= a.Length
      invariant FirstIsLeast(cmp, a[..]) && Sorted(cmp, a[..min])
      invariant multiset(a[..]) == multiset(old(a[..]))
    {
      Insert(a, cmp, min);
      min := min + 1;
    }
    assert a[..] == a[..min];
  }

  // After a near sort, the least of the first THRESH records is the least of all.
  lemma LeastIsEarly<T(!new)>(cmp: Comparator<T>, s: seq<T>, t: seq<T>, hi: int)
    requires Ordering(cmp) && 1 <= hi <= |s| && (hi == |s| || hi == THRESH)
    requires hi < |s| ==> NearlySorted(cmp, s, 0, |s|)
    requires Rearranged(s, t, 0, hi)
    requires forall k | 0 <= k < hi :: Le(cmp, t[0], t[k])
    ensures FirstIsLeast(cmp, t)
  {
    assert hi < |s| ==> CutAfter(cmp, s, 0, 0, |s|);
    forall k | hi <= k < |s| ensures Le(cmp, t[0], t[k]) {
      assert Rearranged(t, s, 0, hi);
      var z := Origin(t, s, 0, hi, 0);
      assert t[k] == t[hi..][k - hi] == s[k];
      assert Le(cmp, s[0], s[k]);
      assert Chains(cmp, t[0], t[z], t[k]);
    }
  }

  // qsort
  method Sort<T(!new)>(a: array<T>, cmp: Comparator<T>)
    requires Ordering(cmp)
    modifies a
    ensures Sorted(cmp, a[..]) && multiset(a[..]) == multiset(old(a[..]))
  {
    if a.Length <= 1 {
      return;
    }
    var hi := a.Length;
    if a.Length >= THRESH {
      var _ := Qst(a, cmp, 0, a.Length);
      hi := THRESH;
      assert old(a[..])[0..a.Length] == old(a[..]) && a[..][0..a.Length] == a[..];
    }
    ghost var s := a[..];
    SmallestFirst(a, cmp, hi);
    LeastIsEarly(cmp, s, a[..], hi);
    RearrangedWider(s, a[..], 0, hi, 0, a.Length);
    assert s[0..a.Length] == s && a[..][0..a.Length] == a[..];
    InsertionSort(a, cmp);
  }
}
