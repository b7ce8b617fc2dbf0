/** qsort: a quicksort that moves a hole through the array instead of swapping.
    One generic sort stands for the three copies for 2-byte, 4-byte and other
    elements. */
module Qsort {
  import opened CTypes

  const QTEMP: nat := 128            // bytes in the buffer for the pivot

  /** A comparison function, as qsort uses it: positive, or not. */
  ghost predicate TotalPreorder<T(!new)>(cmp: (T, T) -> int) {
    (forall x, y :: cmp(x, y) <= 0 || cmp(y, x) <= 0) &&
    (forall x, y, z :: cmp(x, y) <= 0 && cmp(y, z) <= 0 ==> cmp(x, z) <= 0)
  }

  ghost predicate Sorted<T>(s: seq<T>, lo: int, hi: int, cmp: (T, T) -> int) {
    forall x, y :: 0 <= lo <= x < y <= hi < |s| ==> cmp(s[x], s[y]) <= 0
  }

  /** t is s but for a permutation of what lies between lo and hi. */
  ghost predicate Rearranged<T>(s: seq<T>, t: seq<T>, lo: int, hi: int) {
    |s| == |t| && multiset(s) == multiset(t) && 0 <= lo && -1 <= hi < |s| &&
    forall k :: 0 <= k < |s| && !(lo <= k <= hi) ==> t[k] == s[k]
  }

  ghost predicate Below<T>(s: seq<T>, lo: int, i: int, p: T, cmp: (T, T) -> int) {
    forall k :: lo <= k < i && 0 <= k < |s| ==> cmp(s[k], p) <= 0
  }

  /** Above j, all but what is in the hole at i is greater than p. */
  ghost predicate Above<T>(s: seq<T>, i: int, j: int, hi: int, p: T, cmp: (T, T) -> int) {
    forall k :: j < k <= hi && 0 <= k < |s| && k != i ==> cmp(s[k], p) > 0
  }

  /** Moving what is at j into the hole at i makes j the hole. */
  lemma HoleMoved<T>(s: seq<T>, i: nat, j: nat, p: T)
    requires i < |s| && j < |s|
    ensures multiset(s[i := s[j]][j := p]) == multiset(s[i := p])
  {
    if i != j {
      var t := s[i := p];
      assert s[i := s[j]][j := p] == t[i := t[j]][j := t[i]];
    } else {
      assert s[i := s[j]] == s;
    }
  }

  lemma Started<T>(s0: seq<T>, s: seq<T>, lo: int, hi: int, t: int)
    requires 0 <= lo <= t <= hi < |s0| && s == s0[t := s0[lo]][lo := s0[t]]
    ensures Rearranged(s0, s[lo := s0[t]], lo, hi)
  {
    assert s[lo := s0[t]] == s;
  }

  /** The hole moves from i to j. */
  lemma Passed<T>(s0: seq<T>, s: seq<T>, lo: int, hi: int, i: int, j: int, p: T)
    requires 0 <= lo <= i <= hi < |s| && lo <= j <= hi && Rearranged(s0, s[i := p], lo, hi)
    ensures Rearranged(s0, s[i := s[j]][j := p], lo, hi)
  {
    HoleMoved(s, i, j, p);
    var s1, s2 := s[i := p], s[i := s[j]][j := p];
    forall k | 0 <= k < |s0| && !(lo <= k <= hi) ensures s2[k] == s0[k] {
      assert s1[k] == s0[k];
    }
  }

  /** Step down over what is greater than p. There is no i < j in the loop: what
      has been moved down, or the pivot itself, stops the scan, at i - 1 or
      above, and never below lo. */
  method ScanDown<T(!new)>(a: array<T>, lo: int, i: int, j0: int, hi: int, p: T, cmp: (T, T) -> int) returns (j: int)
    requires 0 <= lo <= i < j0 <= hi < a.Length && TotalPreorder(cmp)
    requires Below(a[..], lo, i, p, cmp) && Above(a[..], i, j0, hi, p, cmp) && (i == lo ==> a[lo] == p)
    ensures lo <= j <= j0 && i - 1 <= j && cmp(a[j], p) <= 0 && Above(a[..], i, j, hi, p, cmp)
  {
    j := j0;
    ghost var stop := if i == lo then lo else i - 1;
    assert cmp(a[..][stop], p) <= 0;
    while cmp(a[j], p) > 0
      invariant stop <= j <= j0 && Above(a[..], i, j, hi, p, cmp)
      decreases j
    {
      j := j - 1;
    }
  }

  /** Step up over what is not greater than p. */
  method ScanUp<T(!new)>(a: array<T>, lo: int, i0: int, j: int, p: T, cmp: (T, T) -> int) returns (i: int)
    requires 0 <= lo <= i0 < a.Length && j < a.Length && Below(a[..], lo, i0, p, cmp)
    ensures i0 <= i < a.Length && Below(a[..], lo, i, p, cmp) && (i0 < j ==> i <= j) && (i0 >= j ==> i == i0)
    ensures i < j ==> cmp(a[i], p) > 0
    ensures i0 < j && cmp(a[i0], p) <= 0 ==> i0 < i
  {
    i := i0;
    while i < j && cmp(a[i], p) <= 0
      invariant i0 <= i < a.Length && Below(a[..], lo, i, p, cmp) && (i0 < j ==> i <= j) && (i0 >= j ==> i == i0)
    {
      i := i + 1;
    }
  }

  /** After the scan down, the element found goes into the hole. */
  lemma MovedDown<T>(s: seq<T>, lo: int, i: int, j: int, hi: int, p: T, cmp: (T, T) -> int)
    requires 0 <= lo <= i <= hi < |s| && lo <= j <= hi && i - 1 <= j && cmp(s[j], p) <= 0
    requires Below(s, lo, i, p, cmp) && Above(s, i, j, hi, p, cmp)
    ensures var t := s[i := s[j]]; Below(t, lo, i, p, cmp) && Above(t, i, j, hi, p, cmp) && cmp(t[i], p) <= 0
  {
  }

  /** After the scan up, the element found goes to j. */
  lemma MovedUp<T>(s: seq<T>, lo: int, i0: int, i: int, j: int, hi: int, p: T, cmp: (T, T) -> int)
    requires 0 <= lo <= i0 <= i <= hi < |s| && lo <= j <= hi && (i0 < j ==> i <= j) &&
             (i0 >= j ==> i == i0 && (i == j || (i == j + 1 && s[i] == s[j])))
    requires (i < j ==> cmp(s[i], p) > 0) && Below(s, lo, i, p, cmp) && Above(s, i0, j, hi, p, cmp)
    ensures var t := s[j := s[i]]; Below(t, lo, i, p, cmp) && Above(t, i, if i < j then j - 1 else j, hi, p, cmp)
  {
  }

  /** Partition a[lo..hi] around its middle element, which ends up at i. The sum of
      two indices has to fit in an int, of which intMax is the largest. */
  method Partition<T(!new)>(a: array<T>, lo: int, hi: int, cmp: (T, T) -> int, ghost intMax: int)
    returns (i: int, ghost p: T)
    requires 0 <= lo < hi < a.Length && lo + hi <= intMax && TotalPreorder(cmp)
    modifies a
    ensures lo <= i <= hi && a[i] == p && Below(a[..], lo, i, p, cmp) && Above(a[..], i, i, hi, p, cmp)
    ensures Rearranged(old(a[..]), a[..], lo, hi)
  {
    hide Rearranged;
    hide Below;
    hide Above;
    hide TotalPreorder;
    ghost var s0 := a[..];
    i := lo;
    var j := hi;
    var t := (i + j) / 2;
    var k := a[t];
    p := k;
    a[t] := a[i];
    a[i] := k;
    Started(s0, a[..], lo, hi, t);
    NothingYet(a[..], lo, hi, p, cmp);
    while i < j
      invariant lo <= i <= hi && lo <= j <= hi && i <= j + 1 && k == p
      invariant Below(a[..], lo, i, p, cmp) && Above(a[..], i, j, hi, p, cmp)
      invariant i == lo && i < j ==> a[lo] == p
      invariant Rearranged(s0, a[..][i := p], lo, hi)
      decreases j + 1 - i
    {
      j := ScanDown(a, lo, i, j, hi, k, cmp);
      Passed(s0, a[..], lo, hi, i, j, p);
      MovedDown(a[..], lo, i, j, hi, p, cmp);
      a[i] := a[j];
      ghost var i0 := i;
      i := ScanUp(a, lo, i, j, k, cmp);
      Passed(s0, a[..], lo, hi, j, i, p);
      MovedUp(a[..], lo, i0, i, j, hi, p, cmp);
      a[j] := a[i];
      MoreAbove(a[..], i, j, hi, p, cmp);
    }
    ghost var s := a[..];
    a[i] := k;
    Placed(s, lo, i, j, hi, p, cmp);
  }

  lemma NothingYet<T>(s: seq<T>, lo: int, hi: int, p: T, cmp: (T, T) -> int)
    ensures Below(s, lo, lo, p, cmp) && Above(s, lo, hi, hi, p, cmp)
  {
  }

  lemma MoreAbove<T>(s: seq<T>, i: int, j: int, hi: int, p: T, cmp: (T, T) -> int)
    ensures Above(s, i, j - 1, hi, p, cmp) ==> Above(s, i, j, hi, p, cmp)
  {
  }

  lemma Placed<T>(s: seq<T>, lo: int, i: int, j: int, hi: int, p: T, cmp: (T, T) -> int)
    requires 0 <= i < |s| && j <= i && Below(s, lo, i, p, cmp) && Above(s, i, j, hi, p, cmp)
    ensures Below(s[i := p], lo, i, p, cmp) && Above(s[i := p], i, i, hi, p, cmp)
  {
  }

  // ---- The recursion ----

  /** Outside the window lo2..hi2, all of lo..hi is in its final order. */
  ghost predicate OrderedAround<T>(s: seq<T>, lo: int, hi: int, lo2: int, hi2: int, cmp: (T, T) -> int) {
    forall x, y :: 0 <= lo <= x < y <= hi < |s| && (x < lo2 || hi2 < y) ==> cmp(s[x], s[y]) <= 0
  }

  lemma RearrangedTrans<T>(s: seq<T>, t: seq<T>, u: seq<T>, lo: int, hi: int, lo2: int, hi2: int)
    requires Rearranged(s, t, lo, hi) && Rearranged(t, u, lo2, hi2) && lo <= lo2 && hi2 <= hi
    ensures Rearranged(s, u, lo, hi)
  {
    forall k | 0 <= k < |s| && !(lo <= k <= hi) ensures u[k] == s[k] {
      assert t[k] == s[k];
    }
  }

  lemma Cancel<T>(a: multiset<T>, s: multiset<T>, b: multiset<T>, t: multiset<T>)
    requires a + s + b == a + t + b
    ensures s == t
  {
    assert s == a + s + b - a - b && t == a + t + b - a - b;
  }

  /** What is in the window afterwards was in the window before. */
  lemma WindowElement<T>(s: seq<T>, t: seq<T>, lo: int, hi: int, k: int) returns (n: int)
    requires Rearranged(s, t, lo, hi) && lo <= k <= hi
    ensures lo <= n <= hi && s[n] == t[k]
  {
    var s', t' := s[lo..hi + 1], t[lo..hi + 1];
    assert s == s[..lo] + s' + s[hi + 1..];
    assert t == s[..lo] + t' + s[hi + 1..];
    Cancel(multiset(s[..lo]), multiset(s'), multiset(s[hi + 1..]), multiset(t'));
    assert t'[k - lo] in multiset(t');
    assert t[k] in s';
    var m :| 0 <= m < |s'| && s'[m] == t[k];
    n := lo + m;
  }

  /** Rearranging the window keeps the order around it. */
  lemma OrderKept<T>(s: seq<T>, t: seq<T>, lo: int, hi: int, lo2: int, hi2: int, cmp: (T, T) -> int)
    requires OrderedAround(s, lo, hi, lo2, hi2, cmp) && Rearranged(s, t, lo2, hi2) && lo <= lo2 && hi2 <= hi && 0 <= lo
    ensures OrderedAround(t, lo, hi, lo2, hi2, cmp)
  {
    forall x, y | lo <= x < y <= hi < |t| && (x < lo2 || hi2 < y) ensures cmp(t[x], t[y]) <= 0 {
      var x', y' := x, y;
      if lo2 <= x <= hi2 { x' := WindowElement(s, t, lo2, hi2, x); }
      if lo2 <= y <= hi2 { y' := WindowElement(s, t, lo2, hi2, y); }
      assert cmp(s[x'], s[y']) <= 0;
    }
  }

  /** Only l..i-1 and i+1..h are left to sort, each by itself. */
  ghost predicate Split<T>(s: seq<T>, lo: int, hi: int, l: int, i: int, h: int, cmp: (T, T) -> int) {
    forall x, y :: 0 <= lo <= x < y <= hi < |s| && (x < l || h < y || x <= i <= y) ==> cmp(s[x], s[y]) <= 0
  }

  /** Partitioning puts the pivot, and what is around it, in order. */
  lemma PivotOrdered<T(!new)>(s: seq<T>, lo: int, hi: int, lo2: int, hi2: int, i: int, p: T, cmp: (T, T) -> int)
    requires OrderedAround(s, lo, hi, lo2, hi2, cmp) && 0 <= lo <= lo2 <= i <= hi2 <= hi < |s| && TotalPreorder(cmp)
    requires s[i] == p && Below(s, lo2, i, p, cmp) && Above(s, i, i, hi2, p, cmp)
    ensures Split(s, lo, hi, lo2, i, hi2, cmp)
  {
    forall x, y | lo2 <= x <= i <= y <= hi2 && x < y ensures cmp(s[x], s[y]) <= 0 {
      assert cmp(s[x], p) <= 0 && cmp(p, s[y]) <= 0;
    }
  }

  /** How far the loop of the sort has come: s is s0 rearranged, and only the
      window l..h is left to sort. */
  ghost predicate Sorting<T>(s0: seq<T>, s: seq<T>, lo: int, hi: int, l: int, h: int, cmp: (T, T) -> int) {
    OrderedAround(s, lo, hi, l, h, cmp) && Rearranged(s0, s, lo, hi)
  }

  lemma Flat()
    ensures Pow2(0) == 1
  {
  }

  /** A recursion on at most half of n is one level deeper. */
  lemma Deeper(d: nat, m: int, n: int)
    requires Pow2(d) <= Max(1, m) && 2 * m < n && 2 <= n
    ensures Pow2(d + 1) <= n
  {
  }

  function Max(a: int, b: int): int {
    if a < b then b else a
  }

  /** The sort of a[lo..hi]: recursion on the smaller part, a loop for the
      larger. depth is how deep the recursion went. */
  method Sort<T(!new)>(a: array<T>, lo: int, hi: int, cmp: (T, T) -> int, ghost intMax: int) returns (ghost depth: nat)
    requires 0 <= lo <= hi + 1 <= a.Length && 2 * hi - 1 <= intMax && TotalPreorder(cmp)
    modifies a
    ensures Sorted(a[..], lo, hi, cmp) && Rearranged(old(a[..]), a[..], lo, hi)
    ensures Pow2(depth) <= Max(1, hi - lo + 1)
    decreases hi + 1 - lo
  {
    hide TotalPreorder;
    hide Sorting;
    hide Rearranged;
    hide Below;
    hide Above;
    hide Sorted;
    hide Split;
    hide Pow2;
    Flat();
    ghost var s0 := a[..];
    var l, h := lo, hi;
    depth := 0;
    SortStart(s0, lo, hi, cmp);
    while h > l
      invariant lo <= l && h <= hi && l <= h + 1
      invariant Sorting(s0, a[..], lo, hi, l, h, cmp)
      invariant Pow2(depth) <= Max(1, hi - lo + 1)
      decreases h + 1 - l
    {
      ghost var s1 := a[..];
      var i;
      ghost var p, d;
      i, p := Partition(a, l, h, cmp, intMax);
      ghost var s2 := a[..];
      Partitioned(s0, s1, s2, lo, hi, l, h, i, p, cmp);
      if i - l < h - i {
        d := Sort(a, l, i - 1, cmp, intMax);
        HalfSorted(s0, s2, a[..], lo, hi, l, h, i, l, i - 1, cmp);
        Deeper(d, i - l, hi - lo + 1);
        l := i + 1;
      } else {
        d := Sort(a, i + 1, h, cmp, intMax);
        HalfSorted(s0, s2, a[..], lo, hi, l, h, i, i + 1, h, cmp);
        Deeper(d, h - i, hi - lo + 1);
        h := i - 1;
      }
      depth := if d + 1 > depth then d + 1 else depth;
    }
    AllSorted(s0, a[..], lo, hi, l, h, cmp);
  }

  lemma SortStart<T>(s: seq<T>, lo: int, hi: int, cmp: (T, T) -> int)
    requires 0 <= lo <= hi + 1 <= |s|
    ensures Sorting(s, s, lo, hi, lo, hi, cmp)
  {
  }

  /** What partitioning the window l..h does to the whole. */
  lemma Partitioned<T(!new)>(s0: seq<T>, s: seq<T>, t: seq<T>, lo: int, hi: int, l: int, h: int, i: int, p: T,
                             cmp: (T, T) -> int)
    requires Sorting(s0, s, lo, hi, l, h, cmp) && 0 <= lo <= l <= i <= h <= hi < |s| && TotalPreorder(cmp)
    requires Rearranged(s, t, l, h) && t[i] == p && Below(t, l, i, p, cmp) && Above(t, i, i, h, p, cmp)
    ensures Split(t, lo, hi, l, i, h, cmp) && Rearranged(s0, t, lo, hi)
  {
    hide OrderedAround;
    hide Split;
    hide Below;
    hide Above;
    hide TotalPreorder;
    OrderKept(s, t, lo, hi, l, h, cmp);
    RearrangedTrans(s0, s, t, lo, hi, l, h);
    PivotOrdered(t, lo, hi, l, h, i, p, cmp);
  }

  /** Once the part lo2..hi2 on one side of the pivot is sorted, only the other is left. */
  lemma HalfSorted<T>(s0: seq<T>, s: seq<T>, t: seq<T>, lo: int, hi: int, l: int, h: int, i: int, lo2: int, hi2: int,
                      cmp: (T, T) -> int)
    requires Split(s, lo, hi, l, i, h, cmp) && Rearranged(s0, s, lo, hi)
    requires 0 <= lo <= l <= i <= h <= hi < |s| && Rearranged(s, t, lo2, hi2) && Sorted(t, lo2, hi2, cmp)
    requires (lo2 == l && hi2 == i - 1) || (lo2 == i + 1 && hi2 == h)
    ensures lo2 == l ==> Sorting(s0, t, lo, hi, i + 1, h, cmp)
    ensures hi2 == h ==> Sorting(s0, t, lo, hi, l, i - 1, cmp)
  {
    RearrangedTrans(s0, s, t, lo, hi, lo2, hi2);
    forall x, y | lo <= x < y <= hi && (x < l || h < y || x <= i <= y || (lo2 <= x && y <= hi2))
      ensures cmp(t[x], t[y]) <= 0 {
      var x', y' := x, y;
      if lo2 <= x <= hi2 { x' := WindowElement(s, t, lo2, hi2, x); }
      if lo2 <= y <= hi2 { y' := WindowElement(s, t, lo2, hi2, y); }
      assert !(lo2 <= x && y <= hi2) ==> cmp(s[x'], s[y']) <= 0;
    }
  }

  lemma AllSorted<T>(s0: seq<T>, s: seq<T>, lo: int, hi: int, l: int, h: int, cmp: (T, T) -> int)
    requires Sorting(s0, s, lo, hi, l, h, cmp) && h <= l && 0 <= lo
    ensures Sorted(s, lo, hi, cmp) && Rearranged(s0, s, lo, hi)
  {
  }

  /** qsort, given the size of an element; qbuf says whether the caller has set
      up a buffer for the pivot. Without one, elements that do not fit the
      buffer on the stack are left as they are. */
  method QSort<T(!new)>(a: array<T>, num: nat, size: nat, qbuf: bool, cmp: (T, T) -> int, ghost intMax: int)
    returns (ghost depth: nat)
    requires num <= a.Length && (qbuf || size <= 128 ==> 2 * num - 3 <= intMax) && TotalPreorder(cmp)
    modifies a
    ensures !qbuf && size > 128 ==> a[..] == old(a[..])
    ensures qbuf || size <= 128 ==> forall i, j :: 0 <= i < j < num ==> cmp(a[i], a[j]) <= 0
    ensures multiset(a[..]) == multiset(old(a[..])) && forall k :: num <= k < a.Length ==> a[k] == old(a[k])
    ensures depth == 0 || Pow2(depth) <= num
  {
    depth := 0;
    if !qbuf {
      if size > QTEMP {                       // no room for the pivot
        return;
      }
    }
    depth := Sort(a, 0, num - 1, cmp, intMax);
    forall i, j | 0 <= i < j < num ensures cmp(a[i], a[j]) <= 0 { assert cmp(a[..][i], a[..][j]) <= 0; }
    forall k | num <= k < a.Length ensures a[k] == old(a[k]) { assert a[..][k] == old(a[..])[k]; }
  }
}
