/**
  LMDB's page-number lists.  A list is an array whose element 0 is the count and whose
  elements 1, 2, ..., count are the numbers, kept in descending order.
 */
module Midl {
  const MAX_ID: nat := 0xFFFF_FFFF_FFFF_FFFF     // (MDB_ID)-1

  ghost predicate WellFormed(ids: array<nat>)
    reads ids
  {
    1 <= ids.Length && ids[0] < ids.Length
  }

  /** The numbers in the list. */
  ghost function List(ids: array<nat>): (s: seq<nat>)
    requires WellFormed(ids)
    reads ids
  {
    ids[1..ids[0] + 1]
  }

  /** A list may also begin at a later cell of an array. */
  ghost predicate WellFormedAt(ids: array<nat>, off: nat)
    reads ids
  {
    off < ids.Length && off + ids[off] < ids.Length
  }

  ghost function ListAt(ids: array<nat>, off: nat): (s: seq<nat>)
    requires WellFormedAt(ids, off)
    reads ids
  {
    ids[off + 1..off + 1 + ids[off]]
  }

  lemma ListAtStart(ids: array<nat>)
    requires WellFormed(ids)
    ensures ListAt(ids, 0) == List(ids)
  {
  }

  ghost predicate Descending(s: seq<nat>) { forall i, j :: 0 <= i < j < |s| ==> s[i] >= s[j] }

  ghost predicate StrictlyDescending(s: seq<nat>) { forall i, j :: 0 <= i < j < |s| ==> s[i] > s[j] }

  /** id+n-1, ..., id+1, id */
  function Down(id: nat, n: nat): (s: seq<nat>) { seq(n, i requires 0 <= i < n => id + n - 1 - i) }

  /** Binary search: the position of `id`, or the first position holding a smaller number. */
  method Search(ids: array<nat>, id: nat) returns (x: nat)
    requires WellFormed(ids) && StrictlyDescending(List(ids))
    ensures 1 <= x <= ids[0] + 1
    ensures forall i :: 1 <= i < x ==> ids[i] > id
    ensures forall i :: x <= i <= ids[0] ==> ids[i] <= id
    ensures id in List(ids) <==> x <= ids[0] && ids[x] == id
  {
    var base, cursor, val, n := 0, 1, 0, ids[0];
    assert forall i :: 1 <= i <= ids[0] ==> ids[i] == List(ids)[i - 1];
    while 0 < n
      invariant 0 <= n && 0 <= base && base + n <= ids[0]
      invariant forall i :: 1 <= i <= base ==> ids[i] > id
      invariant forall i :: base + n < i <= ids[0] ==> ids[i] < id
      invariant n == 0 ==> (if val > 0 then cursor == base else cursor == base + 1)
    {
      var pivot := n / 2;
      cursor := base + pivot + 1;
      val := if ids[cursor] < id then -1 else if ids[cursor] > id then 1 else 0;
      if val < 0 {
        n := pivot;
      } else if val > 0 {
        base := cursor;
        n := n - (pivot + 1);
      } else {
        return cursor;
      }
    }
    if val > 0 {
      cursor := cursor + 1;
    }
    return cursor;
  }

  /** Append a range of consecutive numbers, growing the list when it is full. */
  method AppendRange(ids: array<nat>, id: nat, n: nat) returns (r: array<nat>)
    requires WellFormed(ids)
    modifies ids
    ensures WellFormed(r) && (r == ids || fresh(r))
    ensures List(r) == old(List(ids)) + Down(id, n)
  {
    var len := ids[0];
    ghost var was := List(ids);
    r := ids;
    if len + n > ids.Length - 1 {
      r := new nat[len + n + 1];
      forall i | 0 <= i <= len { r[i] := ids[i]; }
    }
    r[0] := len + n;
    assert r[1..len + 1] == was;
    var k, next := n, id;
    while 0 < k
      invariant 0 <= k <= n && next == id + n - k && r[0] == len + n
      invariant r[1..len + 1] == was
      invariant forall x :: len + k < x <= len + n ==> r[x] == id + n - (x - len)
    {
      r[len + k] := next;
      k, next := k - 1, next + 1;
    }
  }

  /** The merge of two descending lists, decided at their small ends. */
  ghost function Merged(a: seq<nat>, b: seq<nat>): (r: seq<nat>)
    ensures |r| == |a| + |b|
    decreases |a| + |b|
  {
    if b == [] then a
    else if a != [] && a[|a| - 1] < b[|b| - 1] then Merged(a[..|a| - 1], b) + [a[|a| - 1]]
    else Merged(a, b[..|b| - 1]) + [b[|b| - 1]]
  }

  lemma {:induction false} MergedElements(a: seq<nat>, b: seq<nat>)
    ensures multiset(Merged(a, b)) == multiset(a) + multiset(b)
    decreases |a| + |b|
  {
    if b == [] {
    } else if a != [] && a[|a| - 1] < b[|b| - 1] {
      assert a == a[..|a| - 1] + [a[|a| - 1]];
      MergedElements(a[..|a| - 1], b);
    } else {
      assert b == b[..|b| - 1] + [b[|b| - 1]];
      MergedElements(a, b[..|b| - 1]);
    }
  }

  /** Merging two descending lists gives a descending list. */
  lemma {:induction false} MergedDescends(a: seq<nat>, b: seq<nat>)
    requires Descending(a) && Descending(b)
    ensures Descending(Merged(a, b))
    decreases |a| + |b|
  {
    if b == [] {
    } else if a != [] && a[|a| - 1] < b[|b| - 1] {
      MergedDescends(a[..|a| - 1], b);
      MergedAbove(a[..|a| - 1], b, a[|a| - 1]);
      PushBack(Merged(a[..|a| - 1], b), a[|a| - 1]);
    } else {
      MergedDescends(a, b[..|b| - 1]);
      MergedAbove(a, b[..|b| - 1], b[|b| - 1]);
      PushBack(Merged(a, b[..|b| - 1]), b[|b| - 1]);
    }
  }

  lemma MergedAbove(a: seq<nat>, b: seq<nat>, x: nat)
    requires forall i :: 0 <= i < |a| ==> a[i] >= x
    requires forall i :: 0 <= i < |b| ==> b[i] >= x
    ensures forall y :: y in Merged(a, b) ==> y >= x
  {
    MergedElements(a, b);
    forall y | y in Merged(a, b) ensures y >= x {
      assert y in multiset(Merged(a, b));
    }
  }

  lemma PushBack(s: seq<nat>, x: nat)
    requires Descending(s) && forall y :: y in s ==> y >= x
    ensures Descending(s + [x])
  {
    forall i, j | 0 <= i < j < |s| + 1 ensures (s + [x])[i] >= (s + [x])[j] {
      assert s[i] in s;
    }
  }

  /** When the first i+j numbers of a merge come from the prefixes of length j and i, its
      number i+j-1 is the smaller of their last ones. */
  lemma MergedStep(r: seq<nat>, a: seq<nat>, j: nat, b: seq<nat>, i: nat)
    requires j <= |a| && 0 < i <= |b| && i + j <= |r| && r[..i + j] == Merged(a[..j], b[..i])
    ensures if j > 0 && a[j - 1] < b[i - 1]
      then r[i + j - 1] == a[j - 1] && r[..i + j - 1] == Merged(a[..j - 1], b[..i])
      else r[i + j - 1] == b[i - 1] && r[..i + j - 1] == Merged(a[..j], b[..i - 1])
  {
    assert r[..i + j][i + j - 1] == r[i + j - 1] && r[..i + j][..i + j - 1] == r[..i + j - 1];
    assert b[..i][..i - 1] == b[..i - 1];
    if j > 0 { assert a[..j][..j - 1] == a[..j - 1]; }
  }

  /** The first j numbers are still those of `a`, and the cells after k already hold `r`. */
  ghost predicate Merging(idl: array<nat>, r: seq<nat>, a: seq<nat>, j: nat, k: nat)
    reads idl
  {
    && j <= |a| && j <= k <= |r| < idl.Length && idl[0] == MAX_ID
    && (forall x :: 1 <= x <= j ==> idl[x] == a[x - 1])
    && (forall x :: k < x <= |r| ==> idl[x] == r[x - 1])
  }

  /** Write the number that belongs in cell k; the first j0 old numbers stay. */
  method Settle(idl: array<nat>, k: nat, x: nat, ghost r: seq<nat>, ghost a: seq<nat>, ghost j: nat, ghost j0: nat)
    requires Merging(idl, r, a, j, k) && j0 <= j && j0 < k && x == r[k - 1]
    modifies idl
    ensures Merging(idl, r, a, j0, k - 1) && idl[|r| + 1..] == old(idl[|r| + 1..])
  {
    idl[k] := x;
  }

  /** One round of the merge: move the old numbers below `mergeId` up, then place it. */
  method MergeOne(idl: array<nat>, j0: nat, k0: nat, mergeId: nat,
                  ghost r: seq<nat>, ghost a: seq<nat>, ghost b: seq<nat>, ghost i: nat)
    returns (j: nat, k: nat)
    requires Merging(idl, r, a, j0, k0) && k0 == i + j0 && 0 < i <= |b| && mergeId == b[i - 1] <= MAX_ID
    requires r[..k0] == Merged(a[..j0], b[..i])
    modifies idl
    ensures Merging(idl, r, a, j, k) && k == i - 1 + j && r[..k] == Merged(a[..j], b[..i - 1])
    ensures idl[|r| + 1..] == old(idl[|r| + 1..])
  {
    j, k := j0, k0;
    var oldId := idl[j];
    while oldId < mergeId
      invariant Merging(idl, r, a, j, k) && k == i + j && oldId == idl[j]
      invariant r[..k] == Merged(a[..j], b[..i]) && idl[|r| + 1..] == old(idl[|r| + 1..])
      decreases j
    {
      MergedStep(r, a, j, b, i);
      Settle(idl, k, oldId, r, a, j, j - 1);
      k, j := k - 1, j - 1;
      oldId := idl[j];
    }
    MergedStep(r, a, j, b, i);
    Settle(idl, k, mergeId, r, a, j, j);
    k := k - 1;
  }

  /** Put the count back: every cell holds what it should. */
  method Finish(idl: array<nat>, total: nat, ghost r: seq<nat>, ghost a: seq<nat>, ghost j: nat)
    requires Merging(idl, r, a, j, j) && r[..j] == a[..j] && total == |r|
    modifies idl
    ensures WellFormed(idl) && List(idl) == r && idl[|r| + 1..] == old(idl[|r| + 1..])
  {
    assert forall x :: 1 <= x <= j ==> idl[x] == r[..j][x - 1];
    idl[0] := total;
  }

  /** Cells behind the first n are unchanged, so the cells from off on are if they lie there. */
  lemma TailKept(s: seq<nat>, t: seq<nat>, n: nat, off: nat)
    requires n + 1 <= off <= |s| == |t| && s[n + 1..] == t[n + 1..]
    ensures s[off..] == t[off..]
  {
    assert s[off..] == s[n + 1..][off - n - 1..] && t[off..] == t[n + 1..][off - n - 1..];
  }

  /** Set the sentinel: nothing has been moved yet. */
  method StartMerge(idl: array<nat>, ghost r: seq<nat>, ghost a: seq<nat>)
    requires WellFormed(idl) && a == List(idl) && |a| <= |r| < idl.Length
    modifies idl
    ensures Merging(idl, r, a, |a|, |r|) && idl[|r| + 1..] == old(idl[|r| + 1..])
  {
    idl[0] := MAX_ID;
  }

  /** What is left to merge are the first i numbers of b, which m holds, into the first j of a;
      the cells behind the result, `tail`, are unchanged. */
  ghost predicate Halfway(idl: array<nat>, merge: array<nat>, off: nat, r: seq<nat>, a: seq<nat>, b: seq<nat>,
                          m: seq<nat>, tail: seq<nat>, i: nat, j: nat, k: nat)
    reads idl, merge
  {
    && off <= merge.Length && merge[off..] == m && |b| < |m| && m[1..|b| + 1] == b && (idl == merge ==> |r| < off)
    && i <= |b| && Merging(idl, r, a, j, k) && k == i + j && r[..k] == Merged(a[..j], b[..i])
    && idl[|r| + 1..] == tail
  }

  method MergeRound(idl: array<nat>, merge: array<nat>, off: nat, i: nat, j0: nat, k0: nat,
                    ghost r: seq<nat>, ghost a: seq<nat>, ghost b: seq<nat>, ghost m: seq<nat>, ghost tail: seq<nat>)
    returns (j: nat, k: nat)
    requires 0 < i && Halfway(idl, merge, off, r, a, b, m, tail, i, j0, k0) && b[i - 1] <= MAX_ID
    modifies idl
    ensures Halfway(idl, merge, off, r, a, b, m, tail, i - 1, j, k)
  {
    ghost var c := idl[..];
    assert b[i - 1] == m[1..|b| + 1][i - 1] == m[i];
    j, k := MergeOne(idl, j0, k0, merge[off + i], r, a, b, i);
    if idl == merge { TailKept(c, idl[..], |r|, off); }
  }

  /** Merge the descending list at `off` of `merge` into the descending list `idl` in place, from
      the small end; the count cell temporarily holds a number no element exceeds.  The list to
      merge may lie in spare cells of idl, behind all that the merge will fill. */
  method XMerge(idl: array<nat>, merge: array<nat>, off: nat)
    requires WellFormed(idl) && WellFormedAt(merge, off) && idl[0] + merge[off] < idl.Length
    requires idl == merge ==> idl[0] + merge[off] < off
    requires forall x :: x in ListAt(merge, off) ==> x <= MAX_ID
    modifies idl
    ensures WellFormed(idl) && List(idl) == Merged(old(List(idl)), old(ListAt(merge, off)))
    ensures idl[idl[0] + 1..] == old(idl[idl[0] + merge[off] + 1..])
  {
    var i: nat, j: nat := merge[off], idl[0];
    var k: nat, total: nat := i + j, i + j;
    ghost var a, b, m := List(idl), ListAt(merge, off), merge[off..];
    ghost var r := Merged(a, b);
    ghost var tail := idl[|r| + 1..];
    BeginMerge(idl, merge, off, r, a, b, m, tail);
    j := MergeAll(idl, merge, off, i, j, k, r, a, b, m, tail);
    Finish(idl, total, r, a, j);
  }

  method MergeAll(idl: array<nat>, merge: array<nat>, off: nat, i0: nat, j0: nat, k0: nat,
                  ghost r: seq<nat>, ghost a: seq<nat>, ghost b: seq<nat>, ghost m: seq<nat>, ghost tail: seq<nat>)
    returns (j: nat)
    requires Halfway(idl, merge, off, r, a, b, m, tail, i0, j0, k0) && forall x :: x in b ==> x <= MAX_ID
    modifies idl
    ensures Merging(idl, r, a, j, j) && r[..j] == a[..j] && idl[|r| + 1..] == tail
  {
    var i, k := i0, k0;
    j := j0;
    while i > 0
      invariant Halfway(idl, merge, off, r, a, b, m, tail, i, j, k)
    {
      assert b[i - 1] in b;
      j, k := MergeRound(idl, merge, off, i, j, k, r, a, b, m, tail);
      i := i - 1;
    }
    assert b[..0] == [];
  }

  method BeginMerge(idl: array<nat>, merge: array<nat>, ghost off: nat, ghost r: seq<nat>, ghost a: seq<nat>,
                    ghost b: seq<nat>, ghost m: seq<nat>, ghost tail: seq<nat>)
    requires WellFormed(idl) && a == List(idl) && WellFormedAt(merge, off) && b == ListAt(merge, off)
    requires m == merge[off..] && r == Merged(a, b) && |r| < idl.Length && tail == idl[|r| + 1..]
    requires idl == merge ==> |r| < off
    modifies idl
    ensures Halfway(idl, merge, off, r, a, b, m, tail, |b|, |a|, |r|)
  {
    ghost var c := idl[..];
    StartMerge(idl, r, a);
    if idl == merge { TailKept(c, idl[..], |r|, off); }
    assert a[..|a|] == a && b[..|b|] == b && r[..|r|] == r;
  }
}
