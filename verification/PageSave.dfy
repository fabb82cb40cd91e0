/**
  The end of a transaction: writing the lists of pages into the freeDB.  The records written
  stand for the freeDB of a commit step of the page store, so the transaction that begins
  next starts from lists that match it.
 */
module PageSave {
  import opened Options
  import opened Midl
  import opened MidlSort
  import opened PageStore
  import opened PageRuns
  import opened PageView
  import opened PageAlloc

  // ---------- beginning ----------

  /** A write transaction begins with empty lists, and they stand for the state it begins in. */
  lemma BeginStands(s: State, freeDB: map<nat, seq<nat>>, readers: seq<Slot>) returns (v: View, s': State)
    requires Inv(s) && s.txn.None? && RecordsMatch(freeDB, PickMeta(s).freeDB) && ReadersMatch(readers, s.readers)
    ensures v == View(None, 0, s.oldest, [], [], {}, PickMeta(s).nextPg, PickMeta(s).txnid + 1, freeDB, readers)
    ensures Next(s, BeginWriter, s') && Stands(v, s')
  {
    var m := PickMeta(s);
    v := View(None, 0, s.oldest, [], [], {}, m.nextPg, m.txnid + 1, freeDB, readers);
    s' := s.(txn := Some(Txn(m.txnid + 1, m.nextPg, m.tree, {}, [], None, 0)));
    StepInv(s, BeginWriter, s');
  }

  /** In a fresh file there is nothing to match. */
  lemma FirstStands(s: State, readers: seq<Slot>) returns (v: View, s': State)
    requires Init(s) && forall r :: 0 <= r < |readers| ==> readers[r].pid == 0
    ensures Inv(s) && Next(s, BeginWriter, s') && Stands(v, s') && Reached(s')
    ensures v == View(None, 0, 0, [], [], {}, 2, 1, map[], readers)
  {
    InitInv(s);
    ReachedInit(s);
    v, s' := BeginStands(s, map[], readers);
    ReachedStep(s, BeginWriter, s');
  }

  // ---------- filling the reserved records ----------

  /** A record reserved for the reclaimed list: its key and how many numbers it has room for. */
  datatype Room = Room(id: nat, size: nat)

  /** How many of n numbers are left when the first i records are full. */
  ghost function Left(n: nat, rooms: seq<Room>, i: nat): (l: nat)
    requires i <= |rooms|
    ensures l <= n
  {
    if i == 0 then n
    else
      var l := Left(n, rooms, i - 1);
      if rooms[i - 1].size < l then l - rooms[i - 1].size else 0
  }

  lemma {:induction false} LeftFalls(n: nat, rooms: seq<Room>, i: nat, j: nat)
    requires i <= j <= |rooms|
    ensures Left(n, rooms, j) <= Left(n, rooms, i)
    decreases j - i
  {
    if i == j {
    } else {
      LeftFalls(n, rooms, i, j - 1);
    }
  }

  function Capacity(rooms: seq<Room>): nat {
    if rooms == [] then 0 else Capacity(rooms[..|rooms| - 1]) + rooms[|rooms| - 1].size
  }

  lemma {:induction false} LeftOver(n: nat, rooms: seq<Room>, i: nat)
    requires i <= |rooms|
    ensures Left(n, rooms, i) == if Capacity(rooms[..i]) < n then n - Capacity(rooms[..i]) else 0
  {
    if i == 0 {
    } else {
      LeftOver(n, rooms, i - 1);
      assert rooms[..i][..i - 1] == rooms[..i - 1];
    }
  }

  /** The i-th record gets its numbers from the small end of what is left. */
  ghost function Piece(list: seq<nat>, rooms: seq<Room>, i: nat): seq<nat>
    requires i < |rooms|
  {
    LeftFalls(|list|, rooms, i, i + 1);
    list[Left(|list|, rooms, i + 1)..Left(|list|, rooms, i)]
  }

  /** How many of n numbers are left when `used` have been placed. */
  ghost function Rest(n: nat, used: nat): nat { if used < n then n - used else 0 }

  /** The records are filled one after the other from the small end of the list: what a record gets
      starts where the capacity of those before it ends, and is never more than it has room for. */
  lemma PieceIs(list: seq<nat>, rooms: seq<Room>, i: nat)
    requires i < |rooms|
    ensures var from, to := Rest(|list|, Capacity(rooms[..i + 1])), Rest(|list|, Capacity(rooms[..i]));
            from <= to && Piece(list, rooms, i) == list[from..to] && |Piece(list, rooms, i)| <= rooms[i].size
  {
    LeftOver(|list|, rooms, i);
    LeftOver(|list|, rooms, i + 1);
    LeftFalls(|list|, rooms, i, i + 1);
    assert rooms[..i + 1][..i] == rooms[..i];
  }

  predicate Ascending(rooms: seq<Room>) { forall i, j :: 0 <= i < j < |rooms| ==> rooms[i].id < rooms[j].id }

  ghost predicate HasRoom(rooms: seq<Room>, k: nat) { exists i :: 0 <= i < |rooms| && rooms[i].id == k }

  /** The records hold the list, cut up. */
  ghost predicate Fills(recs: map<nat, seq<nat>>, list: seq<nat>, rooms: seq<Room>) {
    && (forall k :: k in recs <==> HasRoom(rooms, k))
    && (forall i {:trigger Piece(list, rooms, i)} ::
          0 <= i < |rooms| ==> rooms[i].id in recs && recs[rooms[i].id] == Piece(list, rooms, i))
  }

  lemma {:induction false} PieceWith(list: seq<nat>, rooms: seq<Room>, n: nat, x: nat) returns (i: nat)
    requires n <= |rooms| && Left(|list|, rooms, n) <= x < |list|
    ensures i < n && Left(|list|, rooms, i + 1) <= x < Left(|list|, rooms, i)
  {
    if x < Left(|list|, rooms, n - 1) {
      i := n - 1;
    } else {
      i := PieceWith(list, rooms, n - 1, x);
    }
  }

  /** Each record is in order and takes its numbers from the list. */
  lemma FilledPiece(recs: map<nat, seq<nat>>, list: seq<nat>, rooms: seq<Room>, k: nat)
    requires StrictlyDescending(list) && Fills(recs, list, rooms) && k in recs
    ensures StrictlyDescending(recs[k]) && forall p :: p in recs[k] ==> p in list
  {
    var i :| 0 <= i < |rooms| && rooms[i].id == k;
    assert recs[k] == Piece(list, rooms, i);
  }

  /** Every number goes to some record, */
  lemma FilledSomewhere(recs: map<nat, seq<nat>>, list: seq<nat>, rooms: seq<Room>, p: nat) returns (k: nat)
    requires Fills(recs, list, rooms) && Capacity(rooms) >= |list| && p in list
    ensures k in recs && p in recs[k]
  {
    var x :| 0 <= x < |list| && list[x] == p;
    LeftOver(|list|, rooms, |rooms|);
    assert rooms[..|rooms|] == rooms;
    var i := PieceWith(list, rooms, |rooms|, x);
    assert Piece(list, rooms, i)[x - Left(|list|, rooms, i + 1)] == p;
    k := rooms[i].id;
  }

  /** and to only one. */
  lemma FilledOnce(recs: map<nat, seq<nat>>, list: seq<nat>, rooms: seq<Room>, j: nat, k: nat, p: nat)
    requires StrictlyDescending(list) && Fills(recs, list, rooms)
    requires j in recs && k in recs && p in recs[j] && p in recs[k]
    ensures j == k
  {
    var a :| 0 <= a < |rooms| && rooms[a].id == j;
    var b :| 0 <= b < |rooms| && rooms[b].id == k;
    assert recs[j] == Piece(list, rooms, a) && recs[k] == Piece(list, rooms, b);
    PiecesApart(list, rooms, a, b, p);
  }

  lemma PiecesApart(list: seq<nat>, rooms: seq<Room>, a: nat, b: nat, p: nat)
    requires StrictlyDescending(list) && a < |rooms| && b < |rooms|
    requires p in Piece(list, rooms, a) && p in Piece(list, rooms, b)
    ensures a == b
  {
    var n := |list|;
    var x :| 0 <= x < |Piece(list, rooms, a)| && Piece(list, rooms, a)[x] == p;
    var y :| 0 <= y < |Piece(list, rooms, b)| && Piece(list, rooms, b)[y] == p;
    var i, j := Left(n, rooms, a + 1) + x, Left(n, rooms, b + 1) + y;
    assert list[i] == p == list[j];
    if a < b { LeftFalls(n, rooms, a + 1, b); } else if b < a { LeftFalls(n, rooms, b + 1, a); }
  }

  /** The first i records are filled and the others still empty. */
  ghost predicate Filling(recs: map<nat, seq<nat>>, list: seq<nat>, rooms: seq<Room>, i: nat) {
    && i <= |rooms| && (forall k :: k in recs <==> HasRoom(rooms, k))
    && (forall x :: 0 <= x < |rooms| ==> rooms[x].id in recs)
    && (forall x {:trigger Piece(list, rooms, x)} :: 0 <= x < i ==> recs[rooms[x].id] == Piece(list, rooms, x))
    && (forall x :: i <= x < |rooms| ==> recs[rooms[x].id] == [])
  }

  lemma FillOne(recs: map<nat, seq<nat>>, list: seq<nat>, rooms: seq<Room>, i: nat)
    requires Filling(recs, list, rooms, i) && i < |rooms| && Ascending(rooms)
    ensures Filling(recs[rooms[i].id := Piece(list, rooms, i)], list, rooms, i + 1)
  {
    assert HasRoom(rooms, rooms[i].id);
  }

  lemma FillRest(recs: map<nat, seq<nat>>, list: seq<nat>, rooms: seq<Room>, i: nat)
    requires Filling(recs, list, rooms, i) && (i < |rooms| ==> Left(|list|, rooms, i) == 0)
    ensures Fills(recs, list, rooms)
  {
    forall x | i <= x < |rooms| ensures Piece(list, rooms, x) == [] { LeftFalls(|list|, rooms, i, x); }
  }

  /** The numbers for the i-th record are those in front of the cells already used. */
  lemma NextPiece(a: seq<nat>, list: seq<nat>, rooms: seq<Room>, i: nat, len: nat)
    requires |list| < |a| && list == a[1..|list| + 1] && i < |rooms|
    requires var l := Left(|list|, rooms, i); len == if rooms[i].size > l then l else rooms[i].size
    ensures var l := Left(|list|, rooms, i);
            Left(|list|, rooms, i + 1) == l - len && a[l - len + 1..l - len + 1 + len] == Piece(list, rooms, i)
  {
    var l := Left(|list|, rooms, i);
    InnerSlice(a, |list|, l - len, l);
  }

  lemma InnerSlice(a: seq<nat>, n: nat, x: nat, y: nat)
    requires x <= y <= n < |a|
    ensures a[1..n + 1][x..y] == a[x + 1..y + 1]
  {
    var b := a[1..n + 1];
    assert forall k :: 0 <= k < y - x ==> b[x..y][k] == b[x + k] == a[x + 1..y + 1][k];
  }

  /** The last loop of mdb_freelist_save.  A record is written straight from the list, with its
      length put for the moment into the cell in front of it. */
  method FillRecords(mop: array<nat>, rooms: seq<Room>) returns (recs: map<nat, seq<nat>>)
    requires WellFormed(mop) && Ascending(rooms)
    modifies mop
    ensures mop[..] == old(mop[..]) && Fills(recs, old(List(mop)), rooms)
  {
    recs := Reserved(rooms);
    var mopLen, i := mop[0], 0;
    ghost var list := List(mop);
    while mopLen != 0 && i < |rooms|
      invariant 0 <= i <= |rooms| && mopLen == Left(|list|, rooms, i)
      invariant mop[..] == old(mop[..]) && Filling(recs, list, rooms, i)
    {
      var len := if rooms[i].size > mopLen then mopLen else rooms[i].size;
      var record := PutRecord(mop, mopLen - len, len);
      NextPiece(mop[..], list, rooms, i, len);
      FillOne(recs, list, rooms, i);
      recs := recs[rooms[i].id := record];
      mopLen, i := mopLen - len, i + 1;
    }
    FillRest(recs, list, rooms, i);
  }

  /** The reserved records before they are filled: their length is zero. */
  method Reserved(rooms: seq<Room>) returns (recs: map<nat, seq<nat>>)
    ensures forall k :: k in recs <==> HasRoom(rooms, k)
    ensures forall x :: 0 <= x < |rooms| ==> rooms[x].id in recs && recs[rooms[x].id] == []
  {
    recs := map[];
    for i := 0 to |rooms|
      invariant forall k :: k in recs <==> exists x :: 0 <= x < i && rooms[x].id == k
      invariant forall k :: k in recs ==> recs[k] == []
    {
      recs := recs[rooms[i].id := []];
    }
  }

  /** The `len` numbers after cell p, written as a list. */
  method PutRecord(mop: array<nat>, p: nat, len: nat) returns (record: seq<nat>)
    requires p + len < mop.Length
    modifies mop
    ensures mop[..] == old(mop[..]) && record == mop[p + 1..p + 1 + len]
  {
    var save := mop[p];
    mop[p] := len;
    record := mop[p + 1..p + 1 + mop[p]];
    mop[p] := save;
  }

  // ---------- what the written records stand for ----------

  /** The list for the transaction's own record, sorted. */
  ghost predicate OwnList(v: View, own: seq<nat>) {
    && Descending(own)
    && multiset(own) == multiset(v.freed) + (if v.head.None? then multiset(v.loose) else multiset{})
  }

  ghost predicate SortedLoose(v: View, loose: seq<nat>) { Descending(loose) && multiset(loose) == multiset(v.loose) }

  /** The reclaimed list with the loose pages merged in. */
  ghost predicate Returned(v: View, list: seq<nat>) {
    if v.head.None? then list == []
    else exists loose :: SortedLoose(v, loose) && list == Merged(v.head.value, loose)
  }

  /** The freeDB after the records have been written. */
  ghost function Saved(v: View, own: seq<nat>, recs: map<nat, seq<nat>>): map<nat, seq<nat>> {
    (map k | k in v.freeDB && v.last < k :: v.freeDB[k]) + recs + (if own == [] then map[] else map[v.txnid := own])
  }

  ghost function Sets(freeDB: map<nat, seq<nat>>): FreeDB { map k | k in freeDB :: Elems(freeDB[k]) }

  /** The reservation is large enough and uses keys of consumed records only. */
  predicate RoomsOk(rooms: seq<Room>, last: nat, n: nat) {
    Ascending(rooms) && Capacity(rooms) >= n && forall i :: 0 <= i < |rooms| ==> 1 <= rooms[i].id <= last
  }

  lemma OwnIsRecord(v: View, s: State, own: seq<nat>)
    requires Stands(v, s) && OwnList(v, own)
    ensures StrictlyDescending(own)
    ensures forall p :: p in own <==> OwnRecord(s.txn.value, s.loose, p)
  {
    var t, f := s.txn.value, PickMeta(s).freeDB;
    forall p ensures multiset(own)[p] <= 1 { assert Places(t, s.loose, f, p) <= 1; }
    NoDuplicates(own);
    forall p ensures p in own <==> OwnRecord(t, s.loose, p) {
      assert p in own <==> p in multiset(own);
      assert p in v.freed <==> p in multiset(v.freed);
      assert p in v.loose <==> p in multiset(v.loose);
    }
  }

  lemma LooseIsStrict(v: View, s: State, loose: seq<nat>)
    requires Stands(v, s) && SortedLoose(v, loose)
    ensures StrictlyDescending(loose) && forall p :: p in loose <==> p in s.loose
  {
    var t, f := s.txn.value, PickMeta(s).freeDB;
    forall p ensures multiset(loose)[p] <= 1 { assert Places(t, s.loose, f, p) <= 1; }
    NoDuplicates(loose);
    forall p ensures p in loose <==> p in s.loose {
      assert p in loose <==> p in multiset(loose);
      assert p in v.loose <==> p in multiset(v.loose);
    }
  }

  lemma ReturnedIsStrict(v: View, s: State, list: seq<nat>)
    requires Stands(v, s) && Returned(v, list)
    ensures StrictlyDescending(list)
    ensures forall p :: p in list <==> v.head.Some? && (p in HeadPages(s.txn.value) || p in s.loose)
  {
    if v.head.Some? {
      var t, f := s.txn.value, PickMeta(s).freeDB;
      var h := v.head.value;
      var loose :| SortedLoose(v, loose) && list == Merged(h, loose);
      LooseIsStrict(v, s, loose);
      forall p | p in Elems(h) ensures p !in Elems(loose) { assert Places(t, s.loose, f, p) <= 1; }
      MergedIsUnion(h, loose);
      forall p ensures p in list <==> p in HeadPages(t) || p in s.loose {
        assert p in list <==> p in Elems(list);
        assert p in Elems(h) <==> p in HeadPages(t);
      }
    }
  }

  /** Everything the commit needs to know about the lists it has written. */
  ghost predicate Written(v: View, own: seq<nat>, list: seq<nat>, rooms: seq<Room>, recs: map<nat, seq<nat>>) {
    OwnList(v, own) && Returned(v, list) && RoomsOk(rooms, v.last, |list|) && Fills(recs, list, rooms)
  }

  /** Page p is in record k of the freeDB that has been written. */
  lemma SavedAt(v: View, own: seq<nat>, recs: map<nat, seq<nat>>, k: nat)
    requires v.txnid !in recs && v.txnid !in v.freeDB && (forall j :: j in recs ==> j <= v.last)
    ensures k in Saved(v, own, recs) <==>
              (k in v.freeDB && v.last < k) || k in recs || (k == v.txnid && own != [])
    ensures k in recs ==> Saved(v, own, recs)[k] == recs[k]
    ensures k in v.freeDB && v.last < k ==> Saved(v, own, recs)[k] == v.freeDB[k]
    ensures k == v.txnid && own != [] ==> Saved(v, own, recs)[k] == own
  {
  }

  lemma KeysApart(v: View, s: State, list: seq<nat>, rooms: seq<Room>, recs: map<nat, seq<nat>>)
    requires Stands(v, s) && RoomsOk(rooms, v.last, |list|) && Fills(recs, list, rooms)
    ensures v.txnid !in recs && v.txnid !in v.freeDB && v.last < v.txnid
    ensures forall k :: k in recs ==> 1 <= k <= v.last
  {
    assert MetaConserved(PickMeta(s));
    forall k | k in recs ensures 1 <= k <= v.last { assert HasRoom(rooms, k); }
  }

  ghost predicate InHead(s: State, p: nat)
    requires s.txn.Some?
  {
    s.txn.value.head.Some? && (p in HeadPages(s.txn.value) || p in s.loose)
  }

  /** A page of a written record comes from the reclaimed list, a kept record or the freed list. */
  lemma WhereSaved(v: View, s: State, own: seq<nat>, list: seq<nat>, rooms: seq<Room>, recs: map<nat, seq<nat>>,
                   k: nat, p: nat)
    requires Stands(v, s) && Written(v, own, list, rooms, recs)
    requires k in Saved(v, own, recs) && p in Saved(v, own, recs)[k]
    ensures var t, f := s.txn.value, PickMeta(s).freeDB;
      || (k in recs && p in recs[k] && InHead(s, p))
      || (k !in recs && k != t.txnid && k in f && t.last < k && p in f[k])
      || (k !in recs && k == t.txnid && OwnRecord(t, s.loose, p))
  {
    KeysApart(v, s, list, rooms, recs);
    SavedAt(v, own, recs, k);
    ReturnedIsStrict(v, s, list);
    OwnIsRecord(v, s, own);
    if k in recs { FilledPiece(recs, list, rooms, k); }
  }

  lemma SavedOnce(v: View, s: State, own: seq<nat>, list: seq<nat>, rooms: seq<Room>, recs: map<nat, seq<nat>>,
                  j: nat, k: nat, p: nat)
    requires Stands(v, s) && Written(v, own, list, rooms, recs)
    requires j in Saved(v, own, recs) && k in Saved(v, own, recs)
    requires p in Saved(v, own, recs)[j] && p in Saved(v, own, recs)[k]
    ensures j == k
  {
    var t, f := s.txn.value, PickMeta(s).freeDB;
    WhereSaved(v, s, own, list, rooms, recs, j, p);
    WhereSaved(v, s, own, list, rooms, recs, k, p);
    assert Places(t, s.loose, f, p) <= 1;
    if j in recs && k in recs {
      ReturnedIsStrict(v, s, list);
      FilledOnce(recs, list, rooms, j, k, p);
    } else {
      OnePlace(t, s.loose, f, p);
      assert MetaConserved(PickMeta(s));
    }
  }

  /** Three of the places of a page exclude one another. */
  lemma OnePlace(t: Txn, loose: seq<nat>, f: FreeDB, p: nat)
    requires Places(t, loose, f, p) <= 1
    ensures !(OwnRecord(t, loose, p) && Recorded(f, t.last, p))
    ensures t.head.Some? && (p in HeadPages(t) || p in loose) ==> !OwnRecord(t, loose, p) && !Recorded(f, t.last, p)
  {
    assert p in loose <==> p in multiset(loose);
    assert p in t.freed <==> p in multiset(t.freed);
  }

  lemma SavedElems(db: map<nat, seq<nat>>, k: nat, p: nat)
    ensures k in Sets(db) <==> k in db
    ensures k in db ==> (p in Sets(db)[k] <==> p in db[k])
  {
  }

  lemma SavedKeys(v: View, s: State, own: seq<nat>, list: seq<nat>, rooms: seq<Room>, recs: map<nat, seq<nat>>)
    requires Stands(v, s) && Written(v, own, list, rooms, recs)
    ensures var t, f, f' := s.txn.value, PickMeta(s).freeDB, Sets(Saved(v, own, recs));
      && (forall k :: k in f' ==> 1 <= k && (k <= t.last || k in f || k == t.txnid))
      && (forall k :: k in f && t.last < k ==> k in f' && f'[k] == f[k])
  {
    var t, f, db := s.txn.value, PickMeta(s).freeDB, Saved(v, own, recs);
    KeysApart(v, s, list, rooms, recs);
    assert MetaConserved(PickMeta(s));
    forall k | k in db ensures 1 <= k && (k <= t.last || k in f || k == t.txnid) { SavedAt(v, own, recs, k); }
    forall k | k in f && t.last < k ensures k in db && Elems(db[k]) == f[k] { SavedAt(v, own, recs, k); }
  }

  lemma SavedOwn(v: View, s: State, own: seq<nat>, list: seq<nat>, rooms: seq<Room>, recs: map<nat, seq<nat>>)
    requires Stands(v, s) && Written(v, own, list, rooms, recs)
    ensures var t, f' := s.txn.value, Sets(Saved(v, own, recs));
      && (t.txnid in f' ==> forall p :: p in f'[t.txnid] <==> OwnRecord(t, s.loose, p))
      && (t.txnid !in f' ==> forall p :: !OwnRecord(t, s.loose, p))
  {
    KeysApart(v, s, list, rooms, recs);
    SavedAt(v, own, recs, v.txnid);
    OwnIsRecord(v, s, own);
    if own == [] { assert forall p :: p !in own; }
  }

  lemma SavedReturned(v: View, s: State, own: seq<nat>, list: seq<nat>, rooms: seq<Room>, recs: map<nat, seq<nat>>)
    requires Stands(v, s) && Written(v, own, list, rooms, recs)
    ensures var t, f' := s.txn.value, Sets(Saved(v, own, recs));
      && (forall k, p :: k in f' && k <= t.last && p in f'[k] ==> p in HeadPages(t) || p in s.loose)
      && (forall p :: p in HeadPages(t) || (t.head.Some? && p in s.loose) ==> ReturnedTo(f', t.last, p))
  {
    var t, db := s.txn.value, Saved(v, own, recs);
    var f' := Sets(db);
    KeysApart(v, s, list, rooms, recs);
    forall k, p | k in f' && k <= t.last && p in f'[k] ensures p in HeadPages(t) || p in s.loose {
      SavedElems(db, k, p);
      WhereSaved(v, s, own, list, rooms, recs, k, p);
    }
    ReturnedIsStrict(v, s, list);
    forall p | p in HeadPages(t) || (t.head.Some? && p in s.loose) ensures ReturnedTo(f', t.last, p) {
      var k := FilledSomewhere(recs, list, rooms, p);
      SavedAt(v, own, recs, k);
      SavedElems(db, k, p);
    }
  }

  /** The records written are what a commit has to leave in the freeDB. */
  lemma SavedIsFreelist(v: View, s: State, own: seq<nat>, list: seq<nat>, rooms: seq<Room>, recs: map<nat, seq<nat>>)
    requires Stands(v, s) && Written(v, own, list, rooms, recs)
    ensures FreelistSaved(s.txn.value, s.loose, PickMeta(s).freeDB, Sets(Saved(v, own, recs)))
  {
    var db := Saved(v, own, recs);
    var f' := Sets(db);
    forall j, k, p | j in f' && k in f' && p in f'[j] && p in f'[k] ensures j == k {
      SavedElems(db, j, p);
      SavedElems(db, k, p);
      SavedOnce(v, s, own, list, rooms, recs, j, k, p);
    }
    SavedKeys(v, s, own, list, rooms, recs);
    SavedOwn(v, s, own, list, rooms, recs);
    SavedReturned(v, s, own, list, rooms, recs);
  }

  /** Each of them is in descending order, as the next allocation will expect. */
  lemma SavedMatches(v: View, s: State, own: seq<nat>, list: seq<nat>, rooms: seq<Room>, recs: map<nat, seq<nat>>)
    requires Stands(v, s) && Written(v, own, list, rooms, recs) && v.nextPg <= MAX_ID
    ensures RecordsMatch(Saved(v, own, recs), Sets(Saved(v, own, recs)))
  {
    var db := Saved(v, own, recs);
    KeysApart(v, s, list, rooms, recs);
    forall k | k in db ensures StrictlyDescending(db[k]) && forall p :: p in db[k] ==> p <= MAX_ID {
      SavedAt(v, own, recs, k);
      OwnIsRecord(v, s, own);
      ReturnedIsStrict(v, s, list);
      if k in recs { FilledPiece(recs, list, rooms, k); }
      forall p | p in db[k] ensures p <= MAX_ID {
        WhereSaved(v, s, own, list, rooms, recs, k, p);
        SavedBelowEnd(s, k, p);
      }
    }
    forall k, i | k in db && 0 <= i < |db[k]| ensures db[k][i] <= MAX_ID { assert db[k][i] in db[k]; }
  }

  lemma SavedBelowEnd(s: State, k: nat, p: nat)
    requires Inv(s) && s.txn.Some?
    requires var t, f := s.txn.value, PickMeta(s).freeDB;
      InHead(s, p) || (k in f && t.last < k && p in f[k]) || OwnRecord(t, s.loose, p)
    ensures p < s.txn.value.nextPg
  {
    var t, f := s.txn.value, PickMeta(s).freeDB;
    assert Places(t, s.loose, f, p) == One(2 <= p < t.nextPg);
    assert p in s.loose <==> p in multiset(s.loose);
    assert p in t.freed <==> p in multiset(t.freed);
    assert k in f && t.last < k && p in f[k] ==> Recorded(f, t.last, p);
  }

  /** The file gets the contents of the dirty pages of the tree; other pages stay as they are. */
  ghost predicate Flushed(s: State, disk: map<nat, int>)
    requires s.txn.Some?
  {
    var t := s.txn.value;
    && (forall p :: p in t.tree && p in t.dirty ==> p in disk && disk[p] == t.tree[p])
    && (forall p :: p in s.disk && p !in t.dirty ==> p in disk && disk[p] == s.disk[p])
  }

  lemma CommitStep(s: State, f: FreeDB, disk: map<nat, int>) returns (s': State)
    requires Inv(s) && s.txn.Some? && FreelistSaved(s.txn.value, s.loose, PickMeta(s).freeDB, f) && Flushed(s, disk)
    ensures Next(s, Commit(f, disk), s') && Inv(s') && s'.txn.None? && s'.readers == s.readers
    ensures s'.oldest == s.oldest
    ensures var t := s.txn.value; PickMeta(s') == Meta(t.txnid, t.nextPg, t.tree, f)
  {
    var m, t := PickMeta(s), s.txn.value;
    var m' := Meta(t.txnid, t.nextPg, t.tree, f);
    s' := s.(disk := disk, txn := None, loose := [],
             meta0 := if t.txnid % 2 == 0 then Some(m') else s.meta0,
             meta1 := if t.txnid % 2 == 1 then Some(m') else s.meta1);
    assert CommitNext(s, m, t, f, disk, s');
    CommitInv(s, Commit(f, disk), s');
    CommitPicks(s, Commit(f, disk), s');
  }

  /** Writing the lists and the dirty pages is a commit, and the freeDB left behind matches the
      lists again, so the next transaction can begin. */
  lemma CommitStands(v: View, s: State, own: seq<nat>, list: seq<nat>, rooms: seq<Room>, recs: map<nat, seq<nat>>,
                     disk: map<nat, int>)
    returns (s': State)
    requires Stands(v, s) && Written(v, own, list, rooms, recs) && v.nextPg <= MAX_ID && Flushed(s, disk)
    ensures Next(s, Commit(Sets(Saved(v, own, recs)), disk), s') && Inv(s') && s'.txn.None?
    ensures PickMeta(s').txnid == v.txnid && PickMeta(s').tree == s.txn.value.tree && PickMeta(s').nextPg == v.nextPg
    ensures s'.oldest == s.oldest && s'.readers == s.readers
    ensures RecordsMatch(Saved(v, own, recs), PickMeta(s').freeDB) && ReadersMatch(v.readers, s'.readers)
  {
    SavedIsFreelist(v, s, own, list, rooms, recs);
    SavedMatches(v, s, own, list, rooms, recs);
    s' := CommitStep(s, Sets(Saved(v, own, recs)), disk);
  }

  /** Between s and s' a transaction has committed and the next one has begun on its tree. */
  ghost predicate Committed(s: State, s': State)
    requires Inv(s) && Inv(s') && s.txn.Some? && s'.txn.Some?
  {
    var m := PickMeta(s');
    && m.tree == s.txn.value.tree && m.txnid == s.txn.value.txnid && m.nextPg == s.txn.value.nextPg
    && s'.txn.value.tree == m.tree && s'.readers == s.readers
  }

  /** One transaction after another: the lists stand for the state again right after the commit. */
  lemma NextTransactionStands(v: View, s: State, own: seq<nat>, list: seq<nat>, rooms: seq<Room>,
                              recs: map<nat, seq<nat>>, disk: map<nat, int>)
    returns (s1: State, v': View, s': State)
    requires Stands(v, s) && Written(v, own, list, rooms, recs) && v.nextPg <= MAX_ID && Flushed(s, disk)
    ensures Next(s, Commit(Sets(Saved(v, own, recs)), disk), s1) && Inv(s1) && Next(s1, BeginWriter, s')
    ensures Stands(v', s') && (Reached(s) ==> Reached(s'))
    ensures v' == View(None, 0, v.oldest, [], [], {}, v.nextPg, v.txnid + 1, Saved(v, own, recs), v.readers)
    ensures Committed(s, s')
  {
    s1 := CommitStands(v, s, own, list, rooms, recs, disk);
    v', s' := BeginStands(s1, Saved(v, own, recs), v.readers);
    if Reached(s) {
      ReachedStep(s, Commit(Sets(Saved(v, own, recs)), disk), s1);
      ReachedStep(s1, BeginWriter, s');
    }
  }

  // ---------- writing the lists ----------

  /** Without a reclaimed list the loose pages join the freed ones. */
  method FreeLoose(env: Env)
    requires env.Valid()
    modifies env`freePgs, env`loosePgs, env.freePgs
    ensures env.Valid() && (env.freePgs == old(env.freePgs) || fresh(env.freePgs))
    ensures env.V() == old(env.V()).(freed := old(env.V()).freed + old(env.loosePgs), loose := [])
  {
    ghost var v := env.V();
    while env.loosePgs != []
      invariant env.Valid() && (env.freePgs == old(env.freePgs) || fresh(env.freePgs))
      invariant LooseFreed(v, env.V())
      decreases |env.loosePgs|
    {
      ghost var m := env.V();
      env.FreeRange(env.loosePgs[0], 1);
      env.loosePgs := env.loosePgs[1..];
      MoveOne(v, m, env.V());
    }
    assert env.V().freed + [] == v.freed + v.loose;
  }

  /** From v to m pages have moved from the front of the loose list to the end of the freed one. */
  ghost predicate LooseFreed(v: View, m: View) {
    m == v.(freed := m.freed, loose := m.loose) && m.freed + m.loose == v.freed + v.loose
  }

  lemma MoveOne(v: View, m: View, m': View)
    requires LooseFreed(v, m) && m.loose != []
    requires m' == m.(freed := m.freed + Down(m.loose[0], 1), loose := m.loose[1..])
    ensures LooseFreed(v, m')
  {
    assert Down(m.loose[0], 1) == [m.loose[0]];
    assert m'.freed + m'.loose == m.freed + ([m.loose[0]] + m.loose[1..]) && [m.loose[0]] + m.loose[1..] == m.loose;
  }

  /** The list for the transaction's own record. */
  method SortFreed(env: Env) returns (ok: bool)
    requires env.Valid() && env.freePgs[0] + |env.loosePgs| <= MAX_INT
    modifies env`freePgs, env`loosePgs, env.freePgs
    ensures env.Valid() && (ok ==> OwnList(old(env.V()), List(env.freePgs)))
    ensures env.freePgs == old(env.freePgs) || fresh(env.freePgs)
    ensures env.V() == old(env.V()).(freed := List(env.freePgs),
                                     loose := if env.pghead == null then [] else old(env.loosePgs))
    ensures old(env.freePgs[0] + |env.loosePgs|) <= SAFE_LENGTH ==> ok
  {
    assert |env.V().freed| == env.freePgs[0];
    if env.pghead == null { FreeLoose(env); }
    assert |env.V().freed| == env.freePgs[0];
    ok := SortList(env.freePgs);
  }

  /** mdb_midl_sort of a list at the start of its array. */
  method SortList(ids: array<nat>) returns (ok: bool)
    requires WellFormed(ids) && ids[0] <= MAX_INT
    modifies ids
    ensures WellFormed(ids) && ids[0] == old(ids[0]) && multiset(List(ids)) == multiset(old(List(ids)))
    ensures (ok ==> Descending(List(ids))) && (ids[0] <= SAFE_LENGTH ==> ok)
  {
    ListAtStart(ids);
    ghost var at;
    ok, at := Sort(ids, 0);
    ListAtStart(ids);
  }

  /** Write the loose pages into the last cells of the reclaimed list, as a list of their own. */
  method WriteLoose(mop: array<nat>, loose: seq<nat>) returns (off: nat)
    requires WellFormed(mop) && mop[0] + 2 * |loose| + 1 < mop.Length
    modifies mop
    ensures off == mop.Length - 1 - |loose| && mop[..off] == old(mop[..off])
    ensures WellFormedAt(mop, off) && ListAt(mop, off) == loose
  {
    off := mop.Length - 1 - |loose|;
    var count := 0;
    while count < |loose|
      invariant 0 <= count <= |loose| && mop[..off] == old(mop[..off])
      invariant mop[off + 1..off + 1 + count] == loose[..count]
    {
      count := count + 1;
      mop[off + count] := loose[count - 1];
    }
    mop[off] := count;
  }

  /** A list that ends before cell off depends on the cells before off only. */
  lemma ListKept(s: seq<nat>, t: seq<nat>, off: nat)
    requires off <= |s| == |t| && s[..off] == t[..off] && 0 < off && s[0] + 1 <= off
    ensures t[0] == s[0] && t[1..t[0] + 1] == s[1..s[0] + 1]
  {
    forall k | 0 <= k < off ensures s[k] == t[k] { assert s[..off][k] == t[..off][k]; }
  }

  /** Sort the loose pages in the spare cells and merge them into the list in front of them. */
  method SortAndMerge(mop: array<nat>, loose: seq<nat>) returns (ok: bool, ghost sorted: seq<nat>)
    requires WellFormed(mop) && mop[0] + 2 * |loose| + 1 < mop.Length && |loose| <= MAX_INT
    requires forall p :: p in loose ==> p <= MAX_ID
    modifies mop
    ensures WellFormed(mop) && List(mop) == Merged(old(List(mop)), sorted) && multiset(sorted) == multiset(loose)
    ensures (ok ==> Descending(sorted)) && (|loose| <= SAFE_LENGTH ==> ok)
  {
    ghost var c := mop[..];
    var off := WriteLoose(mop, loose);
    ListKept(c, mop[..], off);
    ok, sorted := SortSpare(mop, off, loose);
    ListKept(c, mop[..], off);
    SameNumbers(sorted, loose);
    XMerge(mop, mop, off);
  }

  method SortSpare(mop: array<nat>, off: nat, ghost loose: seq<nat>) returns (ok: bool, ghost sorted: seq<nat>)
    requires WellFormedAt(mop, off) && mop[off] <= MAX_INT && ListAt(mop, off) == loose
    modifies mop
    ensures mop[..off] == old(mop[..off]) && mop[off] == old(mop[off]) && WellFormedAt(mop, off)
    ensures sorted == ListAt(mop, off) && multiset(sorted) == multiset(loose) && (ok ==> Descending(sorted))
    ensures mop[off] <= SAFE_LENGTH ==> ok
  {
    ghost var at;
    ok, at := Sort(mop, off);
    sorted := ListAt(mop, off);
  }

  lemma SameNumbers(a: seq<nat>, b: seq<nat>)
    requires multiset(a) == multiset(b) && forall p :: p in b ==> p <= MAX_ID
    ensures forall p :: p in a ==> p <= MAX_ID
  {
    forall p | p in a ensures p <= MAX_ID {
      assert p in multiset(a) && p in multiset(b);
      assert p in b;
    }
  }

  /** With a reclaimed list the loose pages are sorted and merged into it.  The temporary list of
      loose pages lies in its spare cells; the room asked for keeps the two apart. */
  method ReturnLoose(env: Env) returns (ok: bool)
    requires env.Valid() && env.pghead != null && |env.loosePgs| <= MAX_INT
    requires forall p :: p in env.loosePgs ==> p <= MAX_ID
    modifies env`pghead, env`loosePgs, env.pghead
    ensures env.Valid() && env.pghead != null && (env.pghead == old(env.pghead) || fresh(env.pghead))
    ensures ok ==> Returned(old(env.V()), List(env.pghead))
    ensures env.V() == old(env.V()).(head := Some(List(env.pghead)), loose := [])
    ensures old(|env.loosePgs|) <= SAFE_LENGTH ==> ok
  {
    ghost var v := env.V();
    if env.loosePgs == [] {
      assert SortedLoose(v, []);
      return true;
    }
    env.Need(2 * |env.loosePgs| + 1);
    ghost var sorted;
    ok, sorted := SortAndMerge(env.pghead, env.loosePgs);
    env.loosePgs := [];
    assert ok ==> SortedLoose(v, sorted);
  }

  lemma SameReturned(v: View, v': View, list: seq<nat>)
    requires Returned(v', list) && v'.head == v.head && (v.head.Some? ==> v'.loose == v.loose)
    ensures Returned(v, list)
  {
    if v.head.Some? {
      var loose :| SortedLoose(v', loose) && list == Merged(v'.head.value, loose);
      assert SortedLoose(v, loose);
    }
  }

  /** The reserved records, filled from the reclaimed list and the loose pages. */
  method SaveHead(env: Env, rooms: seq<Room>) returns (ok: bool, recs: map<nat, seq<nat>>, ghost list: seq<nat>)
    requires env.Valid() && Ascending(rooms) && |env.loosePgs| <= MAX_INT
    requires forall p :: p in env.loosePgs ==> p <= MAX_ID
    modifies env`loosePgs, env`pghead, env.pghead
    ensures env.Valid() && (env.pghead == old(env.pghead) || fresh(env.pghead))
    ensures env.pghead != null || old(env.loosePgs) == [] ==> env.loosePgs == []
    ensures ok ==> Returned(old(env.V()), list)
    ensures Fills(recs, list, rooms) && (old(|env.loosePgs|) <= SAFE_LENGTH ==> ok)
  {
    if env.pghead == null {
      ok, list := true, [];
      recs := Reserved(rooms);
      FillRest(recs, [], rooms, 0);
    } else {
      ok := ReturnLoose(env);
      list := List(env.pghead);
      recs := FillRecords(env.pghead, rooms);
    }
  }

  /** mdb_freelist_save once the records for the reclaimed list are reserved: what it writes is
      what CommitStands asks for. */
  method SaveFreelist(env: Env, rooms: seq<Room>)
    returns (ok: bool, own: seq<nat>, recs: map<nat, seq<nat>>, ghost list: seq<nat>)
    requires env.Valid() && Ascending(rooms) && env.freePgs[0] + |env.loosePgs| <= MAX_INT
    requires forall p :: p in env.loosePgs ==> p <= MAX_ID
    modifies env`freePgs, env`loosePgs, env`pghead, env`freeDB, env.freePgs, env.pghead
    ensures ok ==> OwnList(old(env.V()), own) && Returned(old(env.V()), list) && Fills(recs, list, rooms)
    ensures env.freeDB == Saved(old(env.V()), own, recs) && env.loosePgs == [] && WellFormed(env.freePgs)
    ensures env.freePgs == old(env.freePgs) || fresh(env.freePgs)
    ensures env.pghead == old(env.pghead) || fresh(env.pghead)
    ensures old(env.freePgs[0] + |env.loosePgs|) <= SAFE_LENGTH ==> ok
  {
    ghost var v := env.V();
    ok := SortFreed(env);
    own := env.freePgs[1..env.freePgs[0] + 1];
    ghost var v' := env.V();
    var sorted;
    sorted, recs, list := SaveHead(env, rooms);
    if sorted { SameReturned(v, v', list); }
    ok := ok && sorted;
    var kept := map k | k in env.freeDB && env.pglast < k :: env.freeDB[k];
    env.freeDB := kept + recs + (if own == [] then map[] else map[env.txnid := own]);
  }
}
