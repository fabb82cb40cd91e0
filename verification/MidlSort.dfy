/**
  mdb_midl_sort: quicksort with median-of-three partitioning, an explicit stack of 64
  integers, and insertion sort below nine elements.  Places are counted from 1 in a list that
  begins at cell b of an array.  The midpoint of a segment is computed in a C int, where l + ir
  overflows for long lists.
 */
module MidlSort {
  import opened Arith
  import opened Midl

  const MAX_INT: nat := 0x7FFF_FFFF

  /** The greatest length n of a list for which the midpoint of every segment worth partitioning,
      at most places n - 8 and n, fits: 2 * n - 8 <= MAX_INT. */
  const SAFE_LENGTH: nat := 0x4000_0003

  // ---------- rearranging one segment ----------

  /** t is s with the elements of places lo..hi rearranged. */
  ghost predicate Permuted(s: seq<nat>, t: seq<nat>, lo: nat, hi: int) {
    && |s| == |t| && lo <= hi + 1 <= |s|
    && (forall x :: 0 <= x < |s| && !(lo <= x <= hi) ==> t[x] == s[x])
    && multiset(t[lo..hi + 1]) == multiset(s[lo..hi + 1])
  }

  lemma PermutedElement(s: seq<nat>, t: seq<nat>, lo: nat, hi: int, y: nat) returns (y': nat)
    requires Permuted(s, t, lo, hi) && lo <= y <= hi
    ensures lo <= y' <= hi && t[y] == s[y']
  {
    assert t[lo..hi + 1][y - lo] in multiset(t[lo..hi + 1]);
    assert t[y] in s[lo..hi + 1];
    var k :| 0 <= k < |s[lo..hi + 1]| && s[lo..hi + 1][k] == t[y];
    y' := lo + k;
  }

  ghost function Swapped(s: seq<nat>, i: nat, j: nat): seq<nat>
    requires i < |s| && j < |s|
  {
    s[i := s[j]][j := s[i]]
  }

  lemma SwapPermutes(s: seq<nat>, i: nat, j: nat, lo: nat, hi: int)
    requires lo <= i <= j <= hi < |s|
    ensures Permuted(s, Swapped(s, i, j), lo, hi)
  {
    var t, u := Swapped(s, i, j), s[lo..hi + 1];
    assert t[lo..hi + 1] == u[i - lo := u[j - lo]][j - lo := u[i - lo]];
  }

  /** Write one place of the list. */
  method Put(ids: array<nat>, b: nat, x: nat, v: nat)
    requires b + x < ids.Length
    modifies ids
    ensures ids[..b] == old(ids[..b]) && ids[b..] == old(ids[b..])[x := v]
  {
    ids[b + x] := v;
  }

  method Swap(ids: array<nat>, b: nat, i: nat, j: nat)
    requires b + i < ids.Length && b + j < ids.Length
    modifies ids
    ensures ids[..b] == old(ids[..b]) && ids[b..] == Swapped(old(ids[b..]), i, j)
  {
    var x, y := ids[b + i], ids[b + j];
    assert ids[b..][i] == x && ids[b..][j] == y;
    Put(ids, b, i, y);
    Put(ids, b, j, x);
  }

  // ---------- insertion sort ----------

  /** The element at place j moved down to place p. */
  ghost function Moved(s: seq<nat>, p: nat, j: nat): seq<nat>
    requires p <= j < |s|
  {
    s[..p] + [s[j]] + s[p..j] + s[j + 1..]
  }

  lemma MovedPermutes(s: seq<nat>, p: nat, j: nat, lo: nat, hi: int)
    requires lo <= p <= j <= hi < |s|
    ensures Permuted(s, Moved(s, p, j), lo, hi)
  {
    var t := Moved(s, p, j);
    var a, b, x, c := s[lo..p], s[p..j], [s[j]], s[j + 1..hi + 1];
    var u, v := s[..lo], s[hi + 1..];
    assert s[..p] == u + a && s[j + 1..] == c + v;
    assert s == u + (a + b + x + c) + v;
    assert t == u + (a + x + b + c) + v;
    Middle(u, a + b + x + c, v);
    Middle(u, a + x + b + c, v);
  }

  lemma Middle(u: seq<nat>, m: seq<nat>, v: seq<nat>)
    ensures (u + m + v)[|u|..|u| + |m|] == m
  {
  }

  ghost predicate SortedOn(s: seq<nat>, lo: nat, hi: int) {
    forall x, y :: lo <= x < y <= hi < |s| ==> s[x] >= s[y]
  }

  /** The inner insertion loop.  It is bounded by place 1 only: an element at least as large
      just before the segment keeps it inside. */
  method InsertOne(ids: array<nat>, b: nat, l: nat, j: nat) returns (ghost p: nat)
    requires 1 <= l < j < ids.Length - b && (l == 1 || ids[b..][l - 1] >= ids[b..][j])
    modifies ids
    ensures ids[..b] == old(ids[..b]) && l <= p <= j && ids[b..] == Moved(old(ids[b..]), p, j)
    ensures p == l || old(ids[b..])[p - 1] >= old(ids[b..])[j]
    ensures forall x :: p <= x < j ==> old(ids[b..])[x] < old(ids[b..])[j]
  {
    var a, i := ids[b + j], j - 1;
    ghost var s := ids[b..];
    assert s[j] == a;
    HoleStart(s, j);
    while i >= 1
      invariant l - 1 <= i < j && ids[..b] == old(ids[..b]) && ids[b..] == Hole(s, i, j)
      invariant forall x :: i < x < j ==> s[x] < a
    {
      HoleStep(s, i, j);
      assert ids[b..][i] == ids[b + i];
      if ids[b + i] >= a { break; }
      Put(ids, b, i + 1, ids[b + i]);
      i := i - 1;
    }
    HoleFilled(s, i, j);
    Put(ids, b, i + 1, a);
    p := i + 1;
  }

  /** The elements at places i + 1 to j - 1 have moved up by one. */
  ghost function Hole(s: seq<nat>, i: nat, j: nat): (t: seq<nat>)
    requires i < j < |s|
    ensures |t| == |s|
  {
    s[..i + 2] + s[i + 1..j] + s[j + 1..]
  }

  lemma HoleStart(s: seq<nat>, j: nat)
    requires 0 < j < |s|
    ensures Hole(s, j - 1, j) == s
  {
  }

  lemma HoleStep(s: seq<nat>, i: nat, j: nat)
    requires 0 < i < j < |s|
    ensures Hole(s, i, j)[i] == s[i] && Hole(s, i, j)[i + 1 := s[i]] == Hole(s, i - 1, j)
  {
  }

  lemma HoleFilled(s: seq<nat>, i: nat, j: nat)
    requires i < j < |s|
    ensures Hole(s, i, j)[i + 1 := s[j]] == Moved(s, i + 1, j)
  {
  }

  lemma MovedSorted(s: seq<nat>, l: nat, p: nat, j: nat)
    requires l <= p <= j < |s| && SortedOn(s, l, j - 1)
    requires p == l || s[p - 1] >= s[j]
    requires forall x :: p <= x < j ==> s[x] < s[j]
    ensures SortedOn(Moved(s, p, j), l, j)
  {
  }

  lemma PermutedTransitive(r: seq<nat>, s: seq<nat>, t: seq<nat>, lo: nat, hi: int)
    requires Permuted(r, s, lo, hi) && Permuted(s, t, lo, hi)
    ensures Permuted(r, t, lo, hi)
  {
  }

  method InsertionSort(ids: array<nat>, b: nat, l: nat, ir: int)
    requires 1 <= l <= ir + 1 <= ids.Length - b
    requires l == 1 || forall y :: l <= y <= ir ==> ids[b..][l - 1] >= ids[b..][y]
    modifies ids
    ensures ids[..b] == old(ids[..b])
    ensures Permuted(old(ids[b..]), ids[b..], l, ir) && SortedOn(ids[b..], l, ir)
  {
    ghost var s := ids[b..];
    var j := l + 1;
    while j <= ir
      invariant ids[..b] == old(ids[..b]) && l < j && Permuted(s, ids[b..], l, ir) && (j <= ir + 1 || j == l + 1)
      invariant SortedOn(ids[b..], l, j - 1)
    {
      ghost var t := ids[b..];
      if l > 1 { var j' := PermutedElement(s, t, l, ir, j); }
      ghost var p := InsertOne(ids, b, l, j);
      MovedPermutes(t, p, j, l, ir);
      PermutedTransitive(s, t, ids[b..], l, ir);
      MovedSorted(t, l, p, j);
      j := j + 1;
    }
  }

  // ---------- partitioning ----------

  function Median(a: nat, b: nat, c: nat): (m: nat)
    ensures m in {a, b, c} && (m <= a || m <= b) && (m <= a || m <= c) && (m <= b || m <= c)
    ensures (m >= a || m >= b) && (m >= a || m >= c) && (m >= b || m >= c)
  {
    if a < b then (if b < c then b else if a < c then c else a)
    else if a < c then a else if b < c then c else b
  }

  /** Order the first two and the last element of the segment around the median.  The sum of the
      segment's ends must fit an int. */
  method MedianOfThree(ids: array<nat>, b: nat, l: nat, ir: nat)
    requires 1 <= l && l + 8 <= ir < ids.Length - b && l + ir <= MAX_INT
    modifies ids
    ensures ids[..b] == old(ids[..b]) && Permuted(old(ids[b..]), ids[b..], l, ir)
    ensures var s, t := old(ids[b..]), ids[b..];
            t[l] >= t[l + 1] >= t[ir] && t[l + 1] == Median(s[l], s[(l + ir) / 2], s[ir])
  {
    ghost var s := ids[b..];
    var k := (l + ir) / 2;
    Swap(ids, b, l + 1, k);
    OrderTwo(ids, b, l, ir);
    OrderTwo(ids, b, l + 1, ir);
    OrderTwo(ids, b, l, l + 1);
    ThreePermutes(s, l, k, ir);
    ThreeMedian(s, l, k, ir);
  }

  ghost function Ordered(s: seq<nat>, i: nat, j: nat): (t: seq<nat>)
    requires i < j < |s|
    ensures |t| == |s|
  {
    if s[i] < s[j] then Swapped(s, i, j) else s
  }

  /** Swap two elements if they are in ascending order. */
  method OrderTwo(ids: array<nat>, b: nat, i: nat, j: nat)
    requires i < j < ids.Length - b
    modifies ids
    ensures ids[..b] == old(ids[..b]) && ids[b..] == Ordered(old(ids[b..]), i, j)
  {
    assert ids[b..][i] == ids[b + i] && ids[b..][j] == ids[b + j];
    if ids[b + i] < ids[b + j] { Swap(ids, b, i, j); }
  }

  ghost function ThreeOrdered(s: seq<nat>, l: nat, k: nat, ir: nat): (t: seq<nat>)
    requires l + 1 < k < ir < |s|
    ensures |t| == |s|
  {
    Ordered(Ordered(Ordered(Swapped(s, l + 1, k), l, ir), l + 1, ir), l, l + 1)
  }

  lemma ThreePermutes(s: seq<nat>, l: nat, k: nat, ir: nat)
    requires l + 1 < k < ir < |s|
    ensures Permuted(s, ThreeOrdered(s, l, k, ir), l, ir)
  {
    var t0 := Swapped(s, l + 1, k);
    var t1 := Ordered(t0, l, ir);
    var t2 := Ordered(t1, l + 1, ir);
    SwapPermutes(s, l + 1, k, l, ir);
    OrderedThen(s, t0, l, ir, l, ir);
    OrderedThen(s, t1, l + 1, ir, l, ir);
    OrderedThen(s, t2, l, l + 1, l, ir);
  }

  lemma OrderedThen(s: seq<nat>, t: seq<nat>, i: nat, j: nat, lo: nat, hi: int)
    requires lo <= i < j <= hi < |s| && Permuted(s, t, lo, hi)
    ensures Permuted(s, Ordered(t, i, j), lo, hi)
  {
    SwapPermutes(t, i, j, lo, hi);
    PermutedTransitive(s, t, Ordered(t, i, j), lo, hi);
  }

  lemma ThreeMedian(s: seq<nat>, l: nat, k: nat, ir: nat)
    requires l + 1 < k < ir < |s|
    ensures var t := ThreeOrdered(s, l, k, ir);
            t[l] >= t[l + 1] >= t[ir] && t[l + 1] == Median(s[l], s[k], s[ir])
  {
    var t0 := Swapped(s, l + 1, k);
    assert t0[l] == s[l] && t0[l + 1] == s[k] && t0[ir] == s[ir];
  }

  /** Everything up to place i is at least a, everything from place j on at most a. */
  ghost predicate Split(s: seq<nat>, l: nat, i: nat, j: nat, ir: nat, a: nat) {
    && (forall x :: l <= x <= i < |s| ==> s[x] >= a)
    && (forall x :: j <= x <= ir < |s| ==> s[x] <= a)
  }

  /** Both scans of one round.  Neither tests a bound: an element not above `a` stops the
      first one inside the segment, and the pivot itself stops the second. */
  method Scan(ids: array<nat>, b: nat, i0: nat, j0: nat, a: nat, ghost l: nat, ghost ir: nat)
    returns (i: nat, j: nat)
    requires l + 1 <= i0 <= j0 <= ir < ids.Length - b && l + 2 <= j0 && (i0 == j0 ==> j0 < ir)
    requires ids[b..][l + 1] == a && Split(ids[b..], l, i0, j0, ir, a)
    ensures i0 < i <= ir && l + 1 <= j < j0 && ids[b..][i] <= a && ids[b..][j] >= a
    ensures Split(ids[b..], l, i - 1, j + 1, ir, a)
  {
    i := i0 + 1;
    while ids[b + i] > a
      invariant i0 < i <= ir && (i <= j0 || i == i0 + 1)
      invariant forall x :: l <= x < i ==> ids[b..][x] >= a
      decreases ir - i
    { i := i + 1; }
    j := j0 - 1;
    while ids[b + j] < a
      invariant l + 1 <= j < j0
      invariant forall x :: j < x <= ir ==> ids[b..][x] <= a
      decreases j
    { j := j - 1; }
  }

  /** Places l..j-1 are at least a, j..i-1 equal to a, and i..ir at most a. */
  ghost predicate Parted(s: seq<nat>, l: nat, j: nat, i: nat, ir: nat, a: nat) {
    && l < j < i <= ir < |s|
    && (forall x :: l <= x < j ==> s[x] >= a)
    && (forall x :: j <= x < i ==> s[x] == a)
    && (forall x :: i <= x <= ir ==> s[x] <= a)
  }

  lemma SwapSplit(s: seq<nat>, l: nat, i: nat, j: nat, ir: nat, a: nat)
    requires l + 1 < i <= j < ir < |s| && Split(s, l, i - 1, j + 1, ir, a) && s[i] <= a <= s[j] && s[l + 1] == a
    ensures Split(Swapped(s, i, j), l, i, j, ir, a) && Swapped(s, i, j)[l + 1] == a
  {
  }

  /** The exchange loop: on return the two scans have crossed. */
  method Exchange(ids: array<nat>, b: nat, a: nat, l: nat, ir: nat) returns (i: nat, j: nat)
    requires 1 <= l && l + 8 <= ir < ids.Length - b && ids[b..][l] >= a == ids[b..][l + 1] >= ids[b..][ir]
    modifies ids
    ensures ids[..b] == old(ids[..b]) && Permuted(old(ids[b..]), ids[b..], l, ir) && ids[b..][l + 1] == a
    ensures l + 1 <= j < i <= ir && Split(ids[b..], l, i - 1, j + 1, ir, a) && ids[b..][j] >= a && ids[b..][i] <= a
  {
    ghost var s := ids[b..];
    i, j := Scan(ids, b, l + 1, ir, a, l, ir);
    while j >= i
      invariant ids[..b] == old(ids[..b]) && Permuted(s, ids[b..], l, ir)
      invariant l + 1 <= j < ir && l + 1 < i <= ir
      invariant ids[b..][l + 1] == a && ids[b..][j] >= a && ids[b..][i] <= a
      invariant Split(ids[b..], l, i - 1, j + 1, ir, a)
      decreases j
    {
      ghost var t := ids[b..];
      SwapSplit(t, l, i, j, ir, a);
      SwapPermutes(t, i, j, l, ir);
      Swap(ids, b, i, j);
      PermutedTransitive(s, t, ids[b..], l, ir);
      i, j := Scan(ids, b, i, j, a, l, ir);
    }
  }

  method Partition(ids: array<nat>, b: nat, l: nat, ir: nat) returns (i: nat, j: nat, ghost a: nat)
    requires 1 <= l && l + 8 <= ir < ids.Length - b && l + ir <= MAX_INT
    modifies ids
    ensures ids[..b] == old(ids[..b]) && Permuted(old(ids[b..]), ids[b..], l, ir) && Parted(ids[b..], l, j, i, ir, a)
    ensures var s := old(ids[b..]); a == Median(s[l], s[(l + ir) / 2], s[ir])
  {
    ghost var s := ids[b..];
    MedianOfThree(ids, b, l, ir);
    ghost var t := ids[b..];
    var pivot := ids[b + l + 1];
    assert t[l + 1] == pivot;
    i, j := Exchange(ids, b, pivot, l, ir);
    PermutedTransitive(s, t, ids[b..], l, ir);
    t := ids[b..];
    PlacePivot(ids, b, pivot, l, j);
    CrossedParts(t, l, j, i, ir, pivot);
    PermutedTransitive(s, t, ids[b..], l, ir);
    a := pivot;
  }

  /** The pivot, still at place l + 1, goes where the scans have crossed. */
  method PlacePivot(ids: array<nat>, b: nat, pivot: nat, l: nat, j: nat)
    requires l + 1 <= j < ids.Length - b && ids[b..][l + 1] == pivot
    modifies ids
    ensures ids[..b] == old(ids[..b]) && ids[b..] == Swapped(old(ids[b..]), l + 1, j)
  {
    assert ids[b..][j] == ids[b + j];
    Put(ids, b, l + 1, ids[b + j]);
    Put(ids, b, j, pivot);
  }

  lemma CrossedParts(s: seq<nat>, l: nat, j: nat, i: nat, ir: nat, a: nat)
    requires l + 1 <= j < i <= ir < |s| && s[l + 1] == a && s[j] >= a && s[i] <= a && Split(s, l, i - 1, j + 1, ir, a)
    ensures Permuted(s, Swapped(s, l + 1, j), l, ir) && Parted(Swapped(s, l + 1, j), l, j, i, ir, a)
  {
    SwapPermutes(s, l + 1, j, l, ir);
  }

  // ---------- the pending segments ----------

  /** Everything before places lo..hi is at least as large as everything in them, and
      everything after at most. */
  ghost predicate Apart(s: seq<nat>, n: nat, lo: nat, hi: int) {
    && 1 <= lo <= hi + 1 <= n + 1 && n < |s|
    && (forall x, y :: 1 <= x < lo <= y <= hi ==> s[x] >= s[y])
    && (forall x, y :: lo <= x <= hi < y <= n ==> s[x] >= s[y])
  }

  datatype Segment = Segment(lo: nat, hi: int)

  ghost predicate Covered(segs: seq<Segment>, x: nat) {
    exists d :: 0 <= d < |segs| && segs[d].lo <= x < segs[d].hi
  }

  ghost predicate Disjoint(p: Segment, q: Segment) { p.hi < q.lo || q.hi < p.lo }

  /** What the stack and the current segment stand for: all that is left to do is to sort
      each pending segment by itself. */
  ghost predicate Pending(s: seq<nat>, n: nat, segs: seq<Segment>) {
    && n < |s|
    && (forall d :: 0 <= d < |segs| ==> Apart(s, n, segs[d].lo, segs[d].hi))
    && (forall d, e :: 0 <= d < e < |segs| ==> Disjoint(segs[d], segs[e]))
    && (forall x :: 1 <= x < n ==> s[x] >= s[x + 1] || Covered(segs, x))
  }

  /** Rearranging one segment leaves every disjoint one apart from the rest. */
  lemma ApartKept(s: seq<nat>, t: seq<nat>, n: nat, c: Segment, d: Segment)
    requires Apart(s, n, d.lo, d.hi) && Permuted(s, t, c.lo, c.hi) && 1 <= c.lo && c.hi <= n
    requires d == c || Disjoint(c, d)
    ensures Apart(t, n, d.lo, d.hi)
  {
    forall x, y | 1 <= x < d.lo <= y <= d.hi ensures t[x] >= t[y] {
      var x', y' := x, y;
      if c.lo <= x <= c.hi { x' := PermutedElement(s, t, c.lo, c.hi, x); }
      if c.lo <= y <= c.hi { y' := PermutedElement(s, t, c.lo, c.hi, y); }
      assert s[x'] >= s[y'];
    }
    forall x, y | d.lo <= x <= d.hi < y <= n ensures t[x] >= t[y] {
      var x', y' := x, y;
      if c.lo <= x <= c.hi { x' := PermutedElement(s, t, c.lo, c.hi, x); }
      if c.lo <= y <= c.hi { y' := PermutedElement(s, t, c.lo, c.hi, y); }
      assert s[x'] >= s[y'];
    }
  }

  lemma AllApartKept(s: seq<nat>, t: seq<nat>, n: nat, segs: seq<Segment>, c: Segment)
    requires Pending(s, n, segs + [c]) && Permuted(s, t, c.lo, c.hi)
    ensures Apart(t, n, c.lo, c.hi)
    ensures forall d :: 0 <= d < |segs| ==> Apart(t, n, segs[d].lo, segs[d].hi) && Disjoint(segs[d], c)
  {
    var all := segs + [c];
    assert all[|segs|] == c;
    ApartKept(s, t, n, c, c);
    forall d | 0 <= d < |segs| ensures Apart(t, n, segs[d].lo, segs[d].hi) && Disjoint(segs[d], c) {
      assert all[d] == segs[d];
      ApartKept(s, t, n, c, segs[d]);
    }
  }

  lemma StillOrdered(s: seq<nat>, t: seq<nat>, n: nat, segs: seq<Segment>, c: Segment, x: nat)
    requires Pending(s, n, segs + [c]) && Permuted(s, t, c.lo, c.hi) && 1 <= x < n && !(c.lo <= x < c.hi)
    ensures t[x] >= t[x + 1] || Covered(segs, x)
  {
    var all := segs + [c];
    assert all[|segs|] == c;
    AllApartKept(s, t, n, segs, c);
    if x + 1 == c.lo || x == c.hi {
      if c.lo <= c.hi { assert t[x] >= t[x + 1]; }
    }
    if Covered(all, x) {
      var d :| 0 <= d < |all| && all[d].lo <= x < all[d].hi;
      assert d < |segs| && segs[d] == all[d];
    } else if !(c.lo <= x <= c.hi) && !(c.lo <= x + 1 <= c.hi) {
      assert s[x] >= s[x + 1];
    }
  }

  /** Once the current segment is sorted it is no longer pending. */
  lemma SortedIsDone(s: seq<nat>, t: seq<nat>, n: nat, segs: seq<Segment>, c: Segment)
    requires Pending(s, n, segs + [c]) && Permuted(s, t, c.lo, c.hi) && SortedOn(t, c.lo, c.hi)
    ensures Pending(t, n, segs)
  {
    AllApartKept(s, t, n, segs, c);
    forall d, e | 0 <= d < e < |segs| ensures Disjoint(segs[d], segs[e]) {
      assert (segs + [c])[d] == segs[d] && (segs + [c])[e] == segs[e];
    }
    forall x | 1 <= x < n ensures t[x] >= t[x + 1] || Covered(segs, x) {
      if !(c.lo <= x < c.hi) { StillOrdered(s, t, n, segs, c, x); }
    }
  }

  lemma PartsApart(t: seq<nat>, n: nat, c: Segment, j: nat, i: nat, a: nat)
    requires Apart(t, n, c.lo, c.hi) && 0 <= c.hi && Parted(t, c.lo, j, i, c.hi, a)
    ensures Apart(t, n, c.lo, j - 1) && Apart(t, n, i, c.hi)
    ensures forall x :: c.lo <= x < c.hi ==> t[x] >= t[x + 1] || c.lo <= x < j - 1 || i <= x < c.hi
  {
    forall x, y | c.lo <= x <= j - 1 < y <= n ensures t[x] >= t[y] {
      if y <= c.hi { assert t[x] >= a >= t[y]; }
    }
    forall x, y | 1 <= x < i <= y <= c.hi ensures t[x] >= t[y] {
      if c.lo <= x { assert t[x] >= a >= t[y]; }
    }
  }

  /** A partitioned segment is replaced by its two parts, in either order. */
  lemma PartsPending(s: seq<nat>, t: seq<nat>, n: nat, segs: seq<Segment>, c: Segment,
                     j: nat, i: nat, a: nat, p: Segment, q: Segment)
    requires Pending(s, n, segs + [c]) && Permuted(s, t, c.lo, c.hi) && 0 <= c.hi && Parted(t, c.lo, j, i, c.hi, a)
    requires || (p == Segment(c.lo, j - 1) && q == Segment(i, c.hi))
             || (q == Segment(c.lo, j - 1) && p == Segment(i, c.hi))
    ensures Pending(t, n, segs + [p] + [q])
  {
    AllApartKept(s, t, n, segs, c);
    PartsApart(t, n, c, j, i, a);
    var all, m := segs + [p] + [q], |segs|;
    assert all[m] == p && all[m + 1] == q;
    forall d, e | 0 <= d < e < |all| ensures Disjoint(all[d], all[e]) {
      if e < m { assert (segs + [c])[d] == segs[d] && (segs + [c])[e] == segs[e]; }
    }
    forall x | 1 <= x < n ensures t[x] >= t[x + 1] || Covered(all, x) {
      if c.lo <= x < c.hi {
        if p.lo <= x < p.hi { assert Covered(all, x) by { assert all[m].lo <= x < all[m].hi; } }
        else if q.lo <= x < q.hi { assert Covered(all, x) by { assert all[m + 1].lo <= x < all[m + 1].hi; } }
      } else {
        StillOrdered(s, t, n, segs, c, x);
        if Covered(segs, x) {
          var d :| 0 <= d < |segs| && segs[d].lo <= x < segs[d].hi;
          assert all[d] == segs[d];
        }
      }
    }
  }

  // ---------- the explicit stack ----------

  ghost function Size(c: Segment): nat { if c.lo <= c.hi then c.hi - c.lo + 1 else 0 }

  ghost function Weight(segs: seq<Segment>): nat {
    if segs == [] then 0 else Weight(segs[..|segs| - 1]) + Size(segs[|segs| - 1])
  }

  lemma WeightPush(segs: seq<Segment>, c: Segment)
    ensures Weight(segs + [c]) == Weight(segs) + Size(c)
  {
    assert (segs + [c])[..|segs|] == segs;
  }

  /** A segment with d others below it on the stack is at most a 2^d-th of the list. */
  ghost predicate Halved(c: Segment, d: nat, n: nat) { Size(c) >= 1 && Size(c) * Pow2(d) <= n }

  /** The stack cells 1, 2, ..., 2|segs| hold the pending segments. */
  ghost predicate Stacked(istack: seq<int>, segs: seq<Segment>, n: nat) {
    && |istack| == 64 && 2 * |segs| < 64
    && forall d :: 0 <= d < |segs| ==>
         istack[2 * d + 1] == segs[d].lo && istack[2 * d + 2] == segs[d].hi && Halved(segs[d], d, n)
  }

  lemma {:induction false} Pow2Grows(d: nat)
    requires d >= 30
    ensures Pow2(d) >= 0x4000_0000
  {
    if d == 30 {
      assert Pow2(10) == 1024;
      assert Pow2(20) == 1024 * Pow2(10) by { assert Pow2(15) == 32 * Pow2(10); assert Pow2(20) == 32 * Pow2(15); }
      assert Pow2(30) == 1024 * Pow2(20) by { assert Pow2(25) == 32 * Pow2(20); assert Pow2(30) == 32 * Pow2(25); }
    } else {
      Pow2Grows(d - 1);
    }
  }

  /** A segment worth partitioning is never so deep that the stack overflows. */
  lemma DepthBound(c: Segment, d: nat, n: nat)
    requires Halved(c, d, n) && Size(c) >= 9 && n <= MAX_INT
    ensures d < 30
  {
    if d >= 30 {
      Pow2Grows(d);
      Multiply(Size(c), Pow2(d), 9, 0x4000_0000);
    }
  }

  lemma Multiply(a: int, b: int, c: int, d: int)
    requires a >= c >= 0 && b >= d >= 0
    ensures a * b >= c * d
  {
    assert a * b >= c * b >= c * d;
  }

  lemma HalfFits(c: Segment, p: Segment, q: Segment, d: nat, n: nat)
    requires Halved(c, d, n) && 1 <= Size(q) <= Size(p) && Size(p) + Size(q) < Size(c)
    ensures Halved(p, d, n) && Halved(q, d + 1, n)
  {
    Multiply(Size(c), Pow2(d), Size(p), Pow2(d));
    Multiply(Size(c), Pow2(d), 2 * Size(q), Pow2(d));
  }

  /** Push a segment; both cells are inside the 64-cell stack. */
  method PushSegment(istack: array<int>, jstack: nat, p: Segment, ghost segs: seq<Segment>, ghost n: nat)
    requires Stacked(istack[..], segs, n) && jstack == 2 * |segs| && |segs| < 30 && Halved(p, |segs|, n)
    modifies istack
    ensures Stacked(istack[..], segs + [p], n)
  {
    istack[jstack + 2] := p.hi;
    istack[jstack + 1] := p.lo;
    forall d | 0 <= d < |segs| + 1
      ensures var c := (segs + [p])[d];
              istack[..][2 * d + 1] == c.lo && istack[..][2 * d + 2] == c.hi && Halved(c, d, n)
    {
      if d < |segs| { assert old(istack[..])[2 * d + 1] == segs[d].lo && old(istack[..])[2 * d + 2] == segs[d].hi; }
    }
  }

  lemma PendingHead(s: seq<nat>, n: nat, segs: seq<Segment>, c: Segment)
    requires Pending(s, n, segs + [c])
    ensures Apart(s, n, c.lo, c.hi)
  {
    assert (segs + [c])[|segs|] == c;
  }

  lemma AllSorted(s: seq<nat>, n: nat, x: nat, y: nat)
    requires Pending(s, n, []) && 1 <= x <= y <= n
    ensures s[x] >= s[y]
    decreases y - x
  {
    if x == y {
    } else {
      AllSorted(s, n, x + 1, y);
      assert s[x] >= s[x + 1] || Covered([], x);
    }
  }

  lemma SegmentWithin(s: seq<nat>, r: seq<nat>, t: seq<nat>, n: nat, lo: nat, hi: int)
    requires Permuted(s, r, 1, n) && Permuted(r, t, lo, hi) && 1 <= lo && hi <= n
    ensures Permuted(s, t, 1, n)
  {
    assert r[1..n + 1] == r[1..lo] + r[lo..hi + 1] + r[hi + 1..n + 1];
    assert t[1..n + 1] == t[1..lo] + t[lo..hi + 1] + t[hi + 1..n + 1];
    assert t[1..lo] == r[1..lo] && t[hi + 1..n + 1] == r[hi + 1..n + 1];
  }

  lemma WeightSplit(segs: seq<Segment>, c: Segment, p: Segment, q: Segment)
    requires Size(p) + Size(q) < Size(c)
    ensures Weight(segs + [p] + [q]) < Weight(segs + [c])
  {
    WeightPush(segs, c);
    WeightPush(segs, p);
    WeightPush(segs + [p], q);
  }

  /** Partition a segment and tell the larger part from the smaller. */
  method CutSegment(ids: array<nat>, b: nat, l: nat, ir: nat)
    returns (big: Segment, small: Segment, ghost i: nat, ghost j: nat, ghost a: nat)
    requires 1 <= l && l + 8 <= ir < ids.Length - b && l + ir <= MAX_INT
    modifies ids
    ensures ids[..b] == old(ids[..b])
    ensures Permuted(old(ids[b..]), ids[b..], l, ir) && Parted(ids[b..], l, j, i, ir, a)
    ensures || (big == Segment(i, ir) && small == Segment(l, j - 1))
            || (big == Segment(l, j - 1) && small == Segment(i, ir))
    ensures Size(big) >= Size(small)
    ensures Lopsided(old(ids[b..]), l, ir) ==> small == Segment(ir - 8, ir)
  {
    ghost var s := ids[b..];
    var right, left, pivot := Partition(ids, b, l, ir);
    i, j, a := right, left, pivot;
    if Lopsided(s, l, ir) { LopsidedParts(s, ids[b..], l, j, i, ir); }
    if ir - right + 1 >= left - l {
      big, small := Segment(right, ir), Segment(l, left - 1);
    } else {
      big, small := Segment(l, left - 1), Segment(right, ir);
    }
  }

  /** Partition the current segment into a larger and a smaller part. */
  method SplitSegment(ids: array<nat>, b: nat, l: nat, ir: nat, ghost segs: seq<Segment>, ghost n: nat)
    returns (big: Segment, small: Segment)
    requires n < ids.Length - b && n <= MAX_INT && l + 8 <= ir && l + ir <= MAX_INT && Halved(Segment(l, ir), |segs|, n)
    requires Pending(ids[b..], n, segs + [Segment(l, ir)])
    modifies ids
    ensures ids[..b] == old(ids[..b])
    ensures Permuted(old(ids[b..]), ids[b..], l, ir) && 1 <= l && ir <= n
    ensures Pending(ids[b..], n, segs + [big] + [small])
    ensures |segs| < 30 && Halved(big, |segs|, n) && Halved(small, |segs| + 1, n)
    ensures Weight(segs + [big] + [small]) < Weight(segs + [Segment(l, ir)])
    ensures Lopsided(old(ids[b..]), l, ir) ==> small == Segment(ir - 8, ir)
  {
    ghost var s, c := ids[b..], Segment(l, ir);
    PendingHead(s, n, segs, c);
    ghost var i, j, a;
    big, small, i, j, a := CutSegment(ids, b, l, ir);
    PartsPending(s, ids[b..], n, segs, c, j, i, a, big, small);
    PartsFit(segs, c, big, small, n);
  }

  /** The parts of a segment are small enough for their depth, and less is left to do. */
  lemma PartsFit(segs: seq<Segment>, c: Segment, p: Segment, q: Segment, n: nat)
    requires Halved(c, |segs|, n) && n <= MAX_INT && Size(c) >= 9
    requires 1 <= Size(q) <= Size(p) && Size(p) + Size(q) < Size(c)
    ensures |segs| < 30 && Halved(p, |segs|, n) && Halved(q, |segs| + 1, n)
    ensures Weight(segs + [p] + [q]) < Weight(segs + [c])
  {
    DepthBound(c, |segs|, n);
    HalfFits(c, p, q, |segs|, n);
    WeightSplit(segs, c, p, q);
  }

  // ---------- a list for which the midpoint overflows ----------

  /** The median of three is 1, and exactly nine smaller elements are in the segment. */
  ghost predicate Lopsided(s: seq<nat>, l: nat, ir: nat) {
    && l + 19 <= ir < |s| && s[l] == 2 && s[(l + ir) / 2] == 1 && s[ir] == 0
    && multiset(s[l..ir + 1])[1] == 1 && multiset(s[l..ir + 1])[0] == 9
  }

  lemma CountNone(s: seq<nat>, v: nat)
    requires forall x :: 0 <= x < |s| ==> s[x] != v
    ensures multiset(s)[v] == 0
  {
  }

  lemma {:induction false} CountAll(s: seq<nat>, v: nat)
    requires forall x :: 0 <= x < |s| ==> s[x] == v
    ensures multiset(s)[v] == |s|
  {
    if s == [] {
    } else {
      CountAll(s[1..], v);
      assert s == [s[0]] + s[1..];
    }
  }

  lemma CountParts(s: seq<nat>, l: nat, j: nat, i: nat, ir: nat, v: nat)
    requires l <= j <= i <= ir < |s|
    ensures multiset(s[l..ir + 1])[v] == multiset(s[l..j])[v] + multiset(s[j..i])[v] + multiset(s[i..ir + 1])[v]
  {
    assert s[l..ir + 1] == s[l..j] + s[j..i] + s[i..ir + 1];
  }

  /** Partitioning such a segment leaves the nine smallest elements on the right. */
  lemma LopsidedParts(s: seq<nat>, t: seq<nat>, l: nat, j: nat, i: nat, ir: nat)
    requires Lopsided(s, l, ir) && Permuted(s, t, l, ir) && Parted(t, l, j, i, ir, 1)
    ensures j == ir - 9 && i == ir - 8
  {
    CountParts(t, l, j, i, ir, 0);
    CountParts(t, l, j, i, ir, 1);
    CountNone(t[l..j], 0);
    CountNone(t[j..i], 0);
    CountAll(t[j..i], 1);
    var right := t[i..ir + 1];
    assert multiset(right)[1] == 0;
    forall x | 0 <= x < |right| ensures right[x] == 0 { assert right[x] in multiset(right); }
    CountAll(right, 0);
  }

  /** Sort the current segment, which is small enough, by insertion. */
  method FinishSegment(ids: array<nat>, b: nat, l: nat, ir: int, ghost segs: seq<Segment>, ghost n: nat)
    requires n < ids.Length - b && Pending(ids[b..], n, segs + [Segment(l, ir)])
    modifies ids
    ensures ids[..b] == old(ids[..b])
    ensures Permuted(old(ids[b..]), ids[b..], l, ir) && 1 <= l && ir <= n
    ensures Pending(ids[b..], n, segs)
  {
    ghost var s := ids[b..];
    PendingHead(s, n, segs, Segment(l, ir));
    InsertionSort(ids, b, l, ir);
    SortedIsDone(s, ids[b..], n, segs, Segment(l, ir));
  }

  method PopSegment(istack: array<int>, jstack: nat, ghost segs: seq<Segment>, ghost c: Segment, ghost n: nat)
    returns (l: nat, ir: int, ghost rest: seq<Segment>)
    requires Stacked(istack[..], segs, n) && jstack == 2 * |segs| > 0 && Size(c) >= 1
    ensures segs == rest + [Segment(l, ir)] && Stacked(istack[..], rest, n) && Halved(Segment(l, ir), |rest|, n)
    ensures Weight(segs) < Weight(segs + [c])
  {
    WeightPush(segs, c);
    ghost var d := |segs| - 1;
    assert istack[..][2 * d + 1] == segs[d].lo && istack[..][2 * d + 2] == segs[d].hi;
    rest := segs[..d];
    ir := istack[jstack];
    l := istack[jstack - 1];
  }

  /** Sort the list into descending order.  The result is false when the midpoint of some
      segment would overflow, which is undefined; a list of at most SAFE_LENGTH is always sorted,
      and a longer one whose whole segment is lopsided never is. */
  method Sort(ids: array<nat>, b: nat) returns (ok: bool, ghost at: Segment)
    requires WellFormedAt(ids, b) && ids[b] <= 0x7FFF_FFFF
    modifies ids
    ensures ids[..b] == old(ids[..b]) && ids[b] == old(ids[b]) && WellFormedAt(ids, b)
    ensures multiset(ListAt(ids, b)) == multiset(old(ListAt(ids, b))) && (ok ==> Descending(ListAt(ids, b)))
    ensures ids[b] <= 0x4000_0003 ==> ok
    ensures ids[b] > 0x4000_0003 && Lopsided(old(ids[b..]), 1, ids[b]) ==> !ok
    ensures !ok ==> 1 <= at.lo && at.lo + 8 <= at.hi <= ids[b] && at.lo + at.hi > 0x7FFF_FFFF
  {
    var n := ids[b];
    ghost var s := ids[b..];
    ok, at := SortPlaces(ids, b, n);
    ghost var t := ids[b..];
    assert t[0] == s[0];
    SortedList(t, n, ok);
    Inner(old(ids[..]), b, n);
    Inner(ids[..], b, n);
  }

  lemma Inner(a: seq<nat>, b: nat, n: nat)
    requires b + n < |a|
    ensures a[b..][1..n + 1] == a[b + 1..b + 1 + n]
  {
    var u, v := a[b..][1..n + 1], a[b + 1..b + 1 + n];
    forall k | 0 <= k < n ensures u[k] == v[k] { assert u[k] == a[b..][k + 1]; }
  }

  lemma SortedList(t: seq<nat>, n: nat, ok: bool)
    requires n < |t| && (ok ==> Pending(t, n, []))
    ensures ok ==> Descending(t[1..n + 1])
  {
    if ok {
      var u := t[1..n + 1];
      forall x, y | 0 <= x < y < n ensures u[x] >= u[y] { AllSorted(t, n, x + 1, y + 1); }
    }
  }

  /** For every length beyond SAFE_LENGTH there is such a list: hence all lists of a length are
      sorted if and only if it is at most SAFE_LENGTH. */
  lemma LopsidedList(n: nat) returns (s: seq<nat>)
    requires SAFE_LENGTH < n
    ensures |s| == n + 1 && s[0] == n && Lopsided(s, 1, n)
  {
    var k := (1 + n) / 2;
    var a, b, z := seq(k - 1, _ => 2), seq(n - 9 - k, _ => 2), seq(9, _ => 0);
    s := [n] + a + [1] + b + z;
    assert s[1..n + 1] == a + [1] + b + z;
    CountNone(a, 0); CountNone(b, 0); CountAll(z, 0);
    CountNone(a, 1); CountNone(b, 1); CountNone(z, 1);
  }

  /** Between rounds: a permutation of s in which the stacked segments and the current one
      are all that is left to sort. */
  ghost predicate Sorting(s: seq<nat>, t: seq<nat>, n: nat, istack: seq<int>, segs: seq<Segment>, c: Segment) {
    && Permuted(s, t, 1, n) && Pending(t, n, segs + [c]) && Stacked(istack, segs, n)
    && if n == 0 then c == Segment(1, 0) && segs == [] else Halved(c, |segs|, n)
  }

  lemma WholeListPending(s: seq<nat>, n: nat, istack: seq<int>)
    requires n < |s| && |istack| == 64
    ensures Sorting(s, s, n, istack, [], Segment(1, n))
  {
    var segs := [] + [Segment(1, n)];
    assert segs[0] == Segment(1, n) && Pow2(0) == 1;
    forall x | 1 <= x < n ensures Covered(segs, x) { assert segs[0].lo <= x < segs[0].hi; }
  }

  method SmallRound(ids: array<nat>, b: nat, istack: array<int>, l0: nat, ir0: int, jstack: nat,
                    ghost s: seq<nat>, n: nat, ghost segs0: seq<Segment>)
    returns (l: nat, ir: int, ghost segs: seq<Segment>)
    requires ids as object != istack && b <= ids.Length && jstack == 2 * |segs0|
    requires Sorting(s, ids[b..], n, istack[..], segs0, Segment(l0, ir0))
    modifies ids
    ensures ids[..b] == old(ids[..b])
    ensures jstack == 0 ==> Permuted(s, ids[b..], 1, n) && Pending(ids[b..], n, [])
    ensures jstack != 0 ==> Sorting(s, ids[b..], n, istack[..], segs, Segment(l, ir)) && |segs| + 1 == |segs0|
    ensures jstack != 0 ==> Weight(segs + [Segment(l, ir)]) < Weight(segs0 + [Segment(l0, ir0)])
  {
    l, ir, segs := l0, ir0, segs0;
    ghost var r, stack := ids[b..], istack[..];
    FinishSegment(ids, b, l0, ir0, segs0, n);
    assert istack[..] == stack;
    SegmentWithin(s, r, ids[b..], n, l0, ir0);
    if jstack != 0 {
      l, ir, segs := PopSegment(istack, jstack, segs0, Segment(l0, ir0), n);
    } else {
      assert segs0 == [];
    }
  }

  method LargeRound(ids: array<nat>, b: nat, istack: array<int>, l0: nat, ir0: nat, jstack: nat,
                    ghost s: seq<nat>, n: nat, ghost segs0: seq<Segment>)
    returns (l: nat, ir: int, ghost segs: seq<Segment>)
    requires ids as object != istack && b <= ids.Length && jstack == 2 * |segs0|
    requires Sorting(s, ids[b..], n, istack[..], segs0, Segment(l0, ir0))
    requires l0 + 8 <= ir0 && l0 + ir0 <= MAX_INT && n <= MAX_INT
    modifies ids, istack
    ensures ids[..b] == old(ids[..b])
    ensures Sorting(s, ids[b..], n, istack[..], segs, Segment(l, ir)) && |segs| == |segs0| + 1
    ensures Weight(segs + [Segment(l, ir)]) < Weight(segs0 + [Segment(l0, ir0)])
    ensures Lopsided(old(ids[b..]), l0, ir0) ==> l == ir0 - 8 && ir == ir0
  {
    ghost var r, stack := ids[b..], istack[..];
    var big, small := SplitSegment(ids, b, l0, ir0, segs0, n);
    assert istack[..] == stack;
    SegmentWithin(s, r, ids[b..], n, l0, ir0);
    r := ids[b..];
    PushSegment(istack, jstack, big, segs0, n);
    assert ids[b..] == r;
    segs := segs0 + [big];
    l, ir := small.lo, small.hi;
  }

  /** The current segment's midpoint overflows. */
  ghost predicate Overflows(l: nat, ir: int) { l + 8 <= ir && l + ir > MAX_INT }

  /** Segments of lists that are not too long have a midpoint. */
  lemma MidpointFits(s: seq<nat>, n: nat, segs: seq<Segment>, l: nat, ir: nat)
    requires Pending(s, n, segs + [Segment(l, ir)]) && n <= SAFE_LENGTH
    ensures !Overflows(l, ir)
  {
    PendingHead(s, n, segs, Segment(l, ir));
  }

  method SortPlaces(ids: array<nat>, b: nat, n: nat) returns (ok: bool, ghost at: Segment)
    requires n < ids.Length - b && n <= MAX_INT
    modifies ids
    ensures ids[..b] == old(ids[..b])
    ensures Permuted(old(ids[b..]), ids[b..], 1, n) && (ok ==> Pending(ids[b..], n, []))
    ensures n <= SAFE_LENGTH ==> ok
    ensures n > SAFE_LENGTH && Lopsided(old(ids[b..]), 1, n) ==> !ok
    ensures !ok ==> 1 <= at.lo && at.lo + 8 <= at.hi <= n && at.lo + at.hi > MAX_INT
  {
    at := Segment(1, n);
    var istack := new int[64];
    var l: nat, ir: int, jstack: nat := 1, n, 0;
    ghost var segs: seq<Segment> := [];
    ghost var s := ids[b..];
    WholeListPending(s, n, istack[..]);
    while true
      invariant ids[..b] == old(ids[..b])
      invariant Sorting(s, ids[b..], n, istack[..], segs, Segment(l, ir)) && jstack == 2 * |segs|
      invariant n > SAFE_LENGTH && Lopsided(s, 1, n) ==> (ids[b..] == s && l == 1 && ir == n) || Overflows(l, ir)
      decreases Weight(segs + [Segment(l, ir)])
    {
      if ir - l < 8 {
        l, ir, segs := SmallRound(ids, b, istack, l, ir, jstack, s, n, segs);
        if jstack == 0 { break; }
        jstack := jstack - 2;
      } else {
        if n <= SAFE_LENGTH { MidpointFits(ids[b..], n, segs, l, ir); }
        if l + ir > MAX_INT {
          PendingHead(ids[b..], n, segs, Segment(l, ir));
          return false, Segment(l, ir);
        }
        l, ir, segs := LargeRound(ids, b, istack, l, ir, jstack, s, n, segs);
        jstack := jstack + 2;
      }
    }
    ok := true;
  }
}
