/**
  The reclaimed page list me_pghead: finding a contiguous run in it, taking the run out,
  and putting a run back.
 */
module PageRuns {
  import opened Midl
  import opened PageStore

  ghost function Elems(s: seq<nat>): set<nat> { set x | x in s }

  // ---------- strictly descending lists as sets ----------

  lemma {:induction false} Gap(s: seq<nat>, i: nat, j: nat)
    requires StrictlyDescending(s) && i <= j < |s|
    ensures s[i] >= s[j] + (j - i)
    decreases j - i
  {
    if i == j {
    } else {
      Gap(s, i + 1, j);
    }
  }

  /** The n numbers that end at place i (counting from 1) are consecutive: it is enough to
      compare the two ends. */
  ghost predicate EndsRun(s: seq<nat>, i: nat, n: nat) { 0 < n <= i <= |s| && s[i - n] == s[i - 1] + n - 1 }

  lemma EndsRunIsDown(s: seq<nat>, i: nat, n: nat)
    requires StrictlyDescending(s) && EndsRun(s, i, n)
    ensures s[i - n..i] == Down(s[i - 1], n)
  {
    var d := Down(s[i - 1], n);
    forall k | i - n <= k < i ensures s[k] == d[k - (i - n)] {
      Gap(s, i - n, k);
      Gap(s, k, i - 1);
    }
  }

  lemma DownIsRun(p: nat, n: nat)
    ensures Elems(Down(p, n)) == Run(p, n) && StrictlyDescending(Down(p, n))
  {
    forall q ensures q in Down(p, n) <==> q in Run(p, n) {
      if q in Run(p, n) { assert Down(p, n)[p + n - 1 - q] == q; }
    }
  }

  lemma AddedMultiset(x: nat, e: set<nat>)
    requires x !in e
    ensures multiset({x} + e) == multiset{x} + multiset(e)
  {
  }

  lemma {:induction false} DistinctMultiset(s: seq<nat>)
    requires StrictlyDescending(s)
    ensures multiset(s) == multiset(Elems(s))
  {
    if s == [] {
    } else {
      var t := s[1..];
      DistinctMultiset(t);
      assert s == [s[0]] + t && s[0] !in t;
      ElemsConcat([s[0]], t);
      AddedMultiset(s[0], Elems(t));
      assert multiset(s) == multiset{s[0]} + multiset(t);
    }
  }

  lemma Successor(s: seq<nat>, a: nat, b: nat)
    requires StrictlyDescending(s) && a < |s| && b < |s| && s[a] == s[b] + 1
    ensures b == a + 1
  {
    assert a + 1 < |s| ==> s[a] > s[a + 1];
  }

  /** A run contained in the list occupies consecutive places. */
  lemma {:induction false} RunHasPlace(s: seq<nat>, p: nat, n: nat) returns (i: nat)
    requires StrictlyDescending(s) && 0 < n && forall q :: p <= q < p + n ==> q in s
    ensures EndsRun(s, i, n) && s[i - 1] == p
    decreases n
  {
    assert p in s;
    var k :| 0 <= k < |s| && s[k] == p;
    i := k + 1;
    if n == 1 {
    } else {
      var j := RunHasPlace(s, p + 1, n - 1);
      Successor(s, j - 1, k);
    }
  }

  /** The last place at which a run of n ends holds the lowest run of n in the list. */
  lemma LastPlaceIsLowest(s: seq<nat>, i: nat, n: nat, q: nat)
    requires StrictlyDescending(s) && 0 < n && i <= |s| && forall x :: i < x <= |s| ==> !EndsRun(s, x, n)
    requires Run(q, n) <= Elems(s)
    ensures i != 0 && s[i - 1] <= q
  {
    forall x | q <= x < q + n ensures x in s { assert x in Run(q, n); }
    var k := RunHasPlace(s, q, n);
    if i != k { assert s[k - 1] > s[i - 1]; }
  }

  lemma {:induction false} SameSetSameList(a: seq<nat>, b: seq<nat>)
    requires StrictlyDescending(a) && StrictlyDescending(b) && forall x :: x in a <==> x in b
    ensures a == b
  {
    assert a != [] ==> a[0] in b;
    assert b != [] ==> b[0] in a;
    if a == [] {
    } else {
      forall x ensures x in a[1..] <==> x in b[1..] {
        assert x in a[1..] <==> x in a && x != a[0];
        assert x in b[1..] <==> x in b && x != b[0];
      }
      SameSetSameList(a[1..], b[1..]);
    }
  }

  // ---------- taking a run out ----------

  /** The list without the n numbers that end at place i. */
  ghost function Without(s: seq<nat>, i: nat, n: nat): seq<nat>
    requires n <= i <= |s|
  {
    s[..i - n] + s[i..]
  }

  lemma WithoutRun(s: seq<nat>, i: nat, n: nat)
    requires StrictlyDescending(s) && EndsRun(s, i, n)
    ensures StrictlyDescending(Without(s, i, n))
    ensures Run(s[i - 1], n) <= Elems(s) && Elems(Without(s, i, n)) == Elems(s) - Run(s[i - 1], n)
  {
    EndsRunIsDown(s, i, n);
    DownIsRun(s[i - 1], n);
    WithoutElems(s, i, n);
  }

  lemma WithoutElems(s: seq<nat>, i: nat, n: nat)
    requires StrictlyDescending(s) && n <= i <= |s|
    ensures Elems(s[i - n..i]) <= Elems(s) && Elems(Without(s, i, n)) == Elems(s) - Elems(s[i - n..i])
  {
    forall x ensures x in Without(s, i, n) <==> x in s && x !in s[i - n..i] {
      if x in s { var k :| 0 <= k < |s| && s[k] == x; }
    }
  }

  /** Scan from the small end for `num` consecutive pages. */
  method FindRun(mop: array<nat>, num: nat) returns (i: nat)
    requires WellFormed(mop) && 0 < num
    ensures i <= mop[0] && (i != 0 ==> EndsRun(List(mop), i, num))
    ensures forall x :: i < x <= mop[0] ==> !EndsRun(List(mop), x, num)
  {
    var n2 := num - 1;
    i := 0;
    if mop[0] > n2 {
      i := mop[0];
      while true
        invariant n2 < i <= mop[0]
        invariant forall x :: i < x <= mop[0] ==> !EndsRun(List(mop), x, num)
        decreases i
      {
        assert EndsRun(List(mop), i, num) <==> mop[i - n2] == mop[i] + n2;
        if mop[i - n2] == mop[i] + n2 { break; }
        i := i - 1;
        if i <= n2 { i := 0; break; }
      }
    }
  }

  /** Close the gap left by the n numbers that end at place i. */
  method RemoveRun(mop: array<nat>, i0: nat, n: nat)
    requires WellFormed(mop) && 0 < n <= i0 <= mop[0]
    modifies mop
    ensures WellFormed(mop) && List(mop) == Without(old(List(mop)), i0, n)
  {
    ghost var s := List(mop);
    var len := mop[0] - n;
    mop[0] := len;
    var i, j := i0, i0 - n;
    while j < len
      invariant 0 <= j && j <= len && i == j + n && mop[0] == len
      invariant forall x :: 1 <= x <= i0 - n ==> mop[x] == s[x - 1]
      invariant forall x :: i0 - n < x <= j ==> mop[x] == s[x - 1 + n]
      invariant forall x :: i < x <= len + n ==> mop[x] == s[x - 1]
    {
      mop[j + 1] := mop[i + 1];
      i, j := i + 1, j + 1;
    }
  }

  // ---------- putting a run back ----------

  /** How many numbers of the list are at least p. */
  ghost function Above(s: seq<nat>, p: nat): (i: nat)
    ensures i <= |s| && (forall x :: i <= x < |s| ==> s[x] < p) && (i > 0 ==> s[i - 1] >= p)
  {
    if s == [] then 0 else if s[|s| - 1] >= p then |s| else Above(s[..|s| - 1], p)
  }

  ghost function With(s: seq<nat>, p: nat, n: nat): seq<nat> {
    s[..Above(s, p)] + Down(p, n) + s[Above(s, p)..]
  }

  lemma WithRun(s: seq<nat>, p: nat, n: nat)
    requires StrictlyDescending(s) && Run(p, n) !! Elems(s)
    ensures StrictlyDescending(With(s, p, n))
    ensures Elems(With(s, p, n)) == Elems(s) + Run(p, n)
  {
    WithDescends(s, p, n);
    WithElems(s, p, n);
  }

  lemma ElemsConcat(a: seq<nat>, b: seq<nat>)
    ensures Elems(a + b) == Elems(a) + Elems(b)
  {
    forall x ensures x in a + b <==> x in a || x in b { }
  }

  lemma ElemsBetween(a: seq<nat>, d: seq<nat>, b: seq<nat>)
    ensures Elems(a + d + b) == Elems(a + b) + Elems(d)
  {
    ElemsConcat(a + d, b);
    ElemsConcat(a, d);
    ElemsConcat(a, b);
  }

  lemma Rejoined(s: seq<nat>, i: nat)
    requires i <= |s|
    ensures s[..i] + s[i..] == s
  {
  }

  lemma WithElems(s: seq<nat>, p: nat, n: nat)
    ensures Elems(With(s, p, n)) == Elems(s) + Run(p, n)
  {
    var i := Above(s, p);
    DownIsRun(p, n);
    Rejoined(s, i);
    ElemsBetween(s[..i], Down(p, n), s[i..]);
  }

  lemma WithDescends(s: seq<nat>, p: nat, n: nat)
    requires StrictlyDescending(s) && Run(p, n) !! Elems(s)
    ensures StrictlyDescending(With(s, p, n))
  {
    var i, d := Above(s, p), Down(p, n);
    assert StrictlyDescending(s[..i]) && StrictlyDescending(s[i..]) && StrictlyDescending(d);
    forall x | 0 <= x < i ensures s[x] >= p + n {
      assert s[x] >= s[i - 1] && s[x] in Elems(s) && s[x] !in Run(p, n);
    }
    Join(s[..i], d);
    Join(s[..i] + d, s[i..]);
  }

  lemma Join(a: seq<nat>, b: seq<nat>)
    requires StrictlyDescending(a) && StrictlyDescending(b)
    requires forall x, y :: 0 <= x < |a| && 0 <= y < |b| ==> a[x] > b[y]
    ensures StrictlyDescending(a + b)
  {
  }

  /** Shift the numbers below pg up by n places. */
  method ShiftUp(mop: array<nat>, pg: nat, n: nat) returns (i: nat)
    requires WellFormed(mop) && mop[0] + n < mop.Length
    modifies mop
    ensures WellFormed(mop) && mop[0] == old(mop[0]) && i == Above(old(List(mop)), pg)
    ensures forall x :: 1 <= x <= i ==> mop[x] == old(List(mop))[x - 1]
    ensures forall x :: i + n < x <= mop[0] + n ==> mop[x] == old(List(mop))[x - 1 - n]
  {
    ghost var s := List(mop);
    var len := mop[0];
    var j: nat := len + n;
    i := len;
    while i != 0 && mop[i] < pg
      invariant i <= len && j == i + n && mop[0] == len
      invariant forall x :: 1 <= x <= i ==> mop[x] == s[x - 1]
      invariant forall x :: j < x <= len + n ==> mop[x] == s[x - 1 - n]
      invariant forall x :: i <= x < len ==> s[x] < pg
    {
      mop[j] := mop[i];
      i, j := i - 1, j - 1;
    }
  }

  /** Put the pages pg, ..., pg+n-1 into the list. */
  method InsertRun(mop: array<nat>, pg: nat, n: nat)
    requires WellFormed(mop) && mop[0] + n < mop.Length
    modifies mop
    ensures WellFormed(mop) && List(mop) == With(old(List(mop)), pg, n)
  {
    ghost var s := List(mop);
    var len := mop[0];
    var i := ShiftUp(mop, pg, n);
    FillRun(mop, i, pg, n, len);
    mop[0] := len + n;
    WithPlaces(s, pg, n, List(mop));
  }

  /** Write the run into the n places after i, largest page first. */
  method FillRun(mop: array<nat>, i: nat, pg: nat, n: nat, ghost len: nat)
    requires i <= len && len + n < mop.Length
    modifies mop
    ensures forall x :: 0 <= x <= len + n && !(i < x <= i + n) ==> mop[x] == old(mop[x])
    ensures forall x :: i < x <= i + n ==> mop[x] == pg + (i + n - x)
  {
    var j: nat, p := i + n, pg;
    while j > i
      invariant i <= j <= i + n && p == pg + (i + n - j)
      invariant forall x :: 0 <= x <= len + n && !(j < x <= i + n) ==> mop[x] == old(mop[x])
      invariant forall x :: j < x <= i + n ==> mop[x] == pg + (i + n - x)
    {
      mop[j] := p;
      j, p := j - 1, p + 1;
    }
  }

  lemma WithPlaces(s: seq<nat>, p: nat, n: nat, r: seq<nat>)
    requires |r| == |s| + n
    requires forall x :: 0 <= x < Above(s, p) ==> r[x] == s[x]
    requires forall x :: Above(s, p) <= x < Above(s, p) + n ==> r[x] == p + (Above(s, p) + n - 1 - x)
    requires forall x :: Above(s, p) + n <= x < |r| ==> r[x] == s[x - n]
    ensures r == With(s, p, n)
  {
  }

  /** Freeing a run that was just taken restores the list exactly. */
  lemma TakeThenFree(s: seq<nat>, i: nat, n: nat)
    requires StrictlyDescending(s) && EndsRun(s, i, n)
    ensures With(Without(s, i, n), s[i - 1], n) == s
  {
    var w := Without(s, i, n);
    WithoutRun(s, i, n);
    WithRun(w, s[i - 1], n);
    forall x ensures x in With(w, s[i - 1], n) <==> x in s {
      assert x in Elems(With(w, s[i - 1], n)) <==> x in Elems(s);
    }
    SameSetSameList(With(w, s[i - 1], n), s);
  }

  // ---------- merging records ----------

  lemma TwoPlaces(s: seq<nat>, i: nat, j: nat)
    requires i < j < |s| && s[i] == s[j]
    ensures multiset(s)[s[i]] >= 2
  {
    assert s == s[..i] + [s[i]] + s[i + 1..j] + [s[j]] + s[j + 1..];
  }

  lemma NoDuplicates(r: seq<nat>)
    requires Descending(r) && forall x :: multiset(r)[x] <= 1
    ensures StrictlyDescending(r)
  {
    forall i, j | 0 <= i < j < |r| ensures r[i] != r[j] {
      if r[i] == r[j] { TwoPlaces(r, i, j); }
    }
  }

  /** Merging two disjoint strictly descending lists is the union of their pages. */
  lemma MergedIsUnion(a: seq<nat>, b: seq<nat>)
    requires StrictlyDescending(a) && StrictlyDescending(b) && Elems(a) !! Elems(b)
    ensures StrictlyDescending(Merged(a, b)) && Elems(Merged(a, b)) == Elems(a) + Elems(b)
  {
    var r, ea, eb := Merged(a, b), Elems(a), Elems(b);
    assert multiset(r) == multiset(ea) + multiset(eb) by {
      MergedElements(a, b);
      DistinctMultiset(a);
      DistinctMultiset(b);
    }
    forall x ensures multiset(r)[x] <= 1 { assert x in ea ==> x !in eb; }
    MergedDescends(a, b);
    NoDuplicates(r);
    forall x ensures x in Elems(r) <==> x in ea + eb { assert x in r <==> x in multiset(r); }
  }
}
