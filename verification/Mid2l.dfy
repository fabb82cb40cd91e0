/**
  LMDB's dirty-page list: pairs of a page number and a page in memory, in ascending order.
  Element 0 carries the count in its page-number field.
 */
module Mid2l {
  const MDB_IDL_UM_MAX: nat := 131071      // (1 << 17) - 1

  datatype Id2 = Id2(mid: nat, mptr: int)

  ghost predicate WellFormed(ids: array<Id2>)
    reads ids
  {
    ids.Length == MDB_IDL_UM_MAX + 1 && ids[0].mid <= MDB_IDL_UM_MAX
  }

  ghost function List(ids: array<Id2>): seq<Id2>
    requires WellFormed(ids)
    reads ids
  {
    ids[1..ids[0].mid + 1]
  }

  ghost predicate Ascending(s: seq<Id2>) { forall i, j :: 0 <= i < j < |s| ==> s[i].mid < s[j].mid }

  /** Binary search: the position of `id`, or the first position holding a larger number. */
  method Search(ids: array<Id2>, id: nat) returns (x: nat)
    requires WellFormed(ids) && Ascending(List(ids))
    ensures 1 <= x <= ids[0].mid + 1
    ensures forall i :: 1 <= i < x ==> ids[i].mid < id
    ensures forall i :: x <= i <= ids[0].mid ==> id <= ids[i].mid
    ensures forall i :: x < i <= ids[0].mid ==> id < ids[i].mid
  {
    var base, cursor, val, n := 0, 1, 0, ids[0].mid;
    assert forall i :: 1 <= i <= ids[0].mid ==> ids[i] == List(ids)[i - 1];
    while 0 < n
      invariant 0 <= n && 0 <= base && base + n <= ids[0].mid
      invariant forall i :: 1 <= i <= base ==> ids[i].mid < id
      invariant forall i :: base + n < i <= ids[0].mid ==> id < ids[i].mid
      invariant n == 0 ==> (if val > 0 then cursor == base else cursor == base + 1)
    {
      var pivot := n / 2;
      cursor := base + pivot + 1;
      val := if id < ids[cursor].mid then -1 else if id > ids[cursor].mid then 1 else 0;
      if val < 0 {
        n := pivot;
      } else if val > 0 {
        base := cursor;
        n := n - (pivot + 1);
      } else {
        return cursor;
      }
    }
    if val > 0 {
      cursor := cursor + 1;
    }
    return cursor;
  }

  /** s with e inserted before place x (counting from 1). */
  ghost function Inserted(s: seq<Id2>, x: nat, e: Id2): seq<Id2>
    requires 1 <= x <= |s| + 1
  {
    s[..x - 1] + [e] + s[x - 1..]
  }

  /** Insert by shifting the larger entries up: -1 for a duplicate, -2 for a full list. */
  method Insert(ids: array<Id2>, id: Id2) returns (rc: int, ghost x: nat)
    requires WellFormed(ids) && Ascending(List(ids))
    modifies ids
    ensures WellFormed(ids) && Ascending(List(ids))
    ensures rc == -1 <==> exists i :: 0 <= i < |old(List(ids))| && old(List(ids))[i].mid == id.mid
    ensures rc == -2 <==> rc != -1 && |old(List(ids))| == 131071
    ensures rc == 0 <==> rc != -1 && rc != -2
    ensures if rc == 0 then 1 <= x <= |old(List(ids))| + 1 && List(ids) == Inserted(old(List(ids)), x, id)
            else ids[..] == old(ids[..])
  {
    ghost var s := List(ids);
    assert forall i :: 1 <= i <= ids[0].mid ==> ids[i] == s[i - 1];
    var at := Search(ids, id.mid);
    x := at;
    if at <= ids[0].mid && ids[at].mid == id.mid {
      assert s[at - 1].mid == id.mid;
      return -1, x;
    }
    InsertedAscends(s, at, id);
    if ids[0].mid >= MDB_IDL_UM_MAX { return -2, x; }
    ShiftIn(ids, at, id);
    return 0, x;
  }

  lemma InsertedAscends(s: seq<Id2>, x: nat, e: Id2)
    requires Ascending(s) && 1 <= x <= |s| + 1
    requires forall i :: 0 <= i < x - 1 ==> s[i].mid < e.mid
    requires forall i :: x - 1 <= i < |s| ==> e.mid < s[i].mid
    ensures Ascending(Inserted(s, x, e))
  {
  }

  method ShiftIn(ids: array<Id2>, x: nat, id: Id2)
    requires WellFormed(ids) && 1 <= x <= ids[0].mid + 1 && ids[0].mid < MDB_IDL_UM_MAX
    modifies ids
    ensures WellFormed(ids) && List(ids) == Inserted(old(List(ids)), x, id)
  {
    ghost var s := List(ids);
    var n := ids[0].mid + 1;
    ids[0] := ids[0].(mid := n);
    var i := n;
    while i > x
      invariant x <= i <= n && ids[0].mid == n
      invariant forall k :: 1 <= k < i ==> ids[k] == s[k - 1]
      invariant forall k :: i < k <= n ==> ids[k] == s[k - 2]
    {
      ids[i] := ids[i - 1];
      i := i - 1;
    }
    ids[x] := id;
    InsertedPlaces(s, x, id, List(ids));
  }

  lemma InsertedPlaces(s: seq<Id2>, x: nat, e: Id2, r: seq<Id2>)
    requires 1 <= x <= |s| + 1 == |r| && r[x - 1] == e
    requires forall k :: 0 <= k < x - 1 ==> r[k] == s[k]
    requires forall k :: x <= k < |r| ==> r[k] == s[k - 1]
    ensures r == Inserted(s, x, e)
  {
  }
}
