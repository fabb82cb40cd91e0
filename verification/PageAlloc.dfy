/**
  The environment and its write transaction, with the page allocator and the operations
  that give pages back, working on the real arrays.  Each method is specified by its effect
  on the lists; module PageRefinement shows what these effects mean for the page store.
 */
module PageAlloc {
  import opened Options
  import opened Midl
  import opened PageStore
  import opened PageRuns
  import opened PageView

  const UM_MAX: nat := 0x1_FFFF     // MDB_IDL_UM_MAX, the room for dirty pages

  datatype Rc = Success | TxnFull | MapFull

  // ---------- effects on the lists ----------

  /** The smallest transaction id in the reader table, or `latest` if none is smaller. */
  ghost predicate OldestSlot(readers: seq<Slot>, latest: nat, o: nat) {
    && o <= latest
    && (forall r :: 0 <= r < |readers| && readers[r].pid != 0 ==> o <= readers[r].txnid)
    && (o == latest || exists r :: 0 <= r < |readers| && readers[r].pid != 0 && readers[r].txnid == o)
  }

  /** One step towards a fuller reclaimed list. */
  datatype Refill = Refresh(o: nat) | Fetch(k: nat)

  ghost predicate RefillOk(v: View, r: Refill) {
    match r
    case Refresh(o) => 1 <= v.txnid && OldestSlot(v.readers, v.txnid - 1, o)
    case Fetch(k) => k in v.freeDB && v.last < k < v.oldest && forall j :: j in v.freeDB && v.last < j ==> k <= j
  }

  ghost function RefillOne(v: View, r: Refill): View
    requires RefillOk(v, r)
  {
    match r
    case Refresh(o) => v.(oldest := o)
    case Fetch(k) => v.(head := Some(Merged(HeadList(v), v.freeDB[k])), last := k)
  }

  /** The effect of several steps, if each of them is allowed where it is taken. */
  ghost function RefillAll(v: View, rs: seq<Refill>): Option<View> {
    if rs == [] then Some(v)
    else match RefillAll(v, rs[..|rs| - 1])
      case None => None
      case Some(m) => if RefillOk(m, rs[|rs| - 1]) then Some(RefillOne(m, rs[|rs| - 1])) else None
  }

  /** Append r to the refill steps unless nothing has changed. */
  lemma Extended(v: View, rs: seq<Refill>, m: View, m': View, r: Refill) returns (rs': seq<Refill>)
    requires RefillAll(v, rs) == Some(m) && (m' == m || (RefillOk(m, r) && m' == RefillOne(m, r)))
    ensures RefillAll(v, rs') == Some(m')
    ensures Counts(v, rs, rs', m' != m && r.Fetch?, m')
  {
    rs' := rs;
    if m' != m {
      rs' := rs + [r];
      assert rs'[..|rs|] == rs;
    }
  }

  ghost predicate UsesLoose(v: View, num: nat, pgno: nat, v': View) {
    num == 1 && v.loose != [] && pgno == v.loose[0] && v' == v.(loose := v.loose[1..])
  }

  /** The lowest run of `num` pages in the reclaimed list, which ends at place i. */
  ghost predicate UsesRun(v: View, i: nat, num: nat, pgno: nat, v': View) {
    && v.head.Some? && EndsRun(v.head.value, i, num) && pgno == v.head.value[i - 1]
    && (forall x :: i < x <= |v.head.value| ==> !EndsRun(v.head.value, x, num))
    && v' == v.(head := Some(Without(v.head.value, i, num)), dirty := v.dirty + Run(pgno, num))
  }

  ghost predicate NoRun(v: View, num: nat) { forall x :: 0 <= x <= |HeadList(v)| ==> !EndsRun(HeadList(v), x, num) }

  ghost predicate UsesNew(v: View, num: nat, pgno: nat, v': View) {
    && NoRun(v, num) && pgno == v.nextPg
    && v' == v.(nextPg := pgno + num, dirty := v.dirty + Run(pgno, num))
  }

  ghost predicate Uses(v: View, num: nat, pgno: nat, v': View) {
    || UsesLoose(v, num, pgno, v')
    || (!(num == 1 && v.loose != []) && (UsesNew(v, num, pgno, v') || exists i :: UsesRun(v, i, num, pgno, v')))
  }

  /** Every record that has not been consumed is too recent for some reader. */
  ghost predicate Drained(v: View) {
    forall k :: k in v.freeDB && v.last < k ==>
      v.oldest <= k && 1 <= v.txnid && OldestSlot(v.readers, v.txnid - 1, v.oldest)
  }

  ghost function Fetches(rs: seq<Refill>): nat {
    if rs == [] then 0 else Fetches(rs[..|rs| - 1]) + if rs[|rs| - 1].Fetch? then 1 else 0
  }

  ghost function LongEnough(v: View, num: nat): nat { if |HeadList(v)| >= num then 1 else 0 }

  /** How often the reclaimed list was long enough to be searched, in the beginning and after each
      record that was merged. */
  ghost function Searches(v: View, rs: seq<Refill>, num: nat): nat {
    if rs == [] then LongEnough(v, num)
    else
      var n, m := Searches(v, rs[..|rs| - 1], num), RefillAll(v, rs);
      if m.Some? && rs[|rs| - 1].Fetch? then n + LongEnough(m.value, num) else n
  }

  /** From rs0 to rs one more record was merged, or none, with m as the result. */
  ghost predicate Counts(v: View, rs0: seq<Refill>, rs: seq<Refill>, more: bool, m: View) {
    forall num {:trigger Searches(v, rs, num)} ::
      Searches(v, rs, num) == Searches(v, rs0, num) + if more then LongEnough(m, num) else 0
  }

  /** The search stops without a run only when nothing more can be fetched, or after one fruitless
      search more than sixty for each page asked for. */
  ghost predicate SearchedEnough(v: View, rs: seq<Refill>, num: nat, m: View) {
    NoRun(m, num) && (Drained(m) || Searches(v, rs, num) == 60 * num + 1)
  }

  // ---------- the environment ----------

  /** A list as an array with its length in front. */
  method NewList(record: seq<nat>) returns (idl: array<nat>)
    ensures fresh(idl) && WellFormed(idl) && List(idl) == record
    ensures idl[0] == |record| && forall i :: 1 <= i <= idl[0] ==> idl[i] == record[i - 1]
  {
    idl := new nat[|record| + 1](i requires 0 <= i <= |record| => if i == 0 then |record| else record[i - 1]);
  }

  ghost predicate Bounded(freeDB: map<nat, seq<nat>>) {
    forall k, i :: k in freeDB && 0 <= i < |freeDB[k]| ==> freeDB[k][i] <= MAX_ID
  }

  /** What is left of the dirty list, and whether the transaction has been marked as failed. */
  datatype Ledger = Ledger(room: nat, failed: bool)

  class Env {
    var pghead: array?<nat>
    var pglast: nat
    var pgoldest: nat
    var readers: seq<Slot>
    var freeDB: map<nat, seq<nat>>
    const maxpg: nat

    // the write transaction
    var txnid: nat
    var nextPgno: nat
    var freePgs: array<nat>
    var loosePgs: seq<nat>
    var dirty: set<nat>
    var dirtyRoom: nat
    var failed: bool

    ghost predicate Valid()
      reads this, pghead, freePgs
    {
      && WellFormed(freePgs) && (pghead != null ==> WellFormed(pghead) && pghead != freePgs)
      && 1 <= txnid && Bounded(freeDB)
    }

    ghost function V(): View
      requires Valid()
      reads this, pghead, freePgs
    {
      View(if pghead == null then None else Some(List(pghead)), pglast, pgoldest, List(freePgs), loosePgs,
           dirty, nextPgno, txnid, freeDB, readers)
    }

    ghost function L(): Ledger
      reads this
    {
      Ledger(dirtyRoom, failed)
    }

    /** A new environment with an idle reader table, at the beginning of its first transaction. */
    constructor (maxpg: nat, slots: nat)
      ensures Valid() && fresh(freePgs) && pghead == null && this.maxpg == maxpg && dirtyRoom == 131071 && !failed
      ensures V() == View(None, 0, 0, [], [], {}, 2, 1, map[], seq(slots, _ => Slot(0, 0xFFFF_FFFF_FFFF_FFFF)))
    {
      pghead, pglast, pgoldest := null, 0, 0;
      readers, freeDB, this.maxpg := seq(slots, _ => Slot(0, MAX_ID)), map[], maxpg;
      txnid, nextPgno, loosePgs, dirty, dirtyRoom, failed := 1, 2, [], {}, UM_MAX, false;
      freePgs := new nat[1](_ => 0);
    }

    /** mdb_txn_renew0 for the writer, on top of the snapshot `last` whose meta page names the pages
        below `next`; the end of the transaction before has dropped the reclaimed list. */
    method Begin(last: nat, next: nat)
      requires WellFormed(freePgs) && Bounded(freeDB) && loosePgs == []
      modifies this`pghead, this`pglast, this`txnid, this`nextPgno, this`dirty, this`dirtyRoom, this`failed, freePgs
      ensures Valid() && pghead == null && dirtyRoom == 131071 && !failed
      ensures V() == View(None, 0, pgoldest, [], [], {}, next, last + 1, freeDB, readers)
    {
      pghead, pglast := null, 0;
      txnid, nextPgno := last + 1, next;
      dirty, dirtyRoom, failed := {}, UM_MAX, false;
      freePgs[0] := 0;
    }

    /** A reader publishes the last committed transaction in its slot, and takes it back. */
    method BeginRead(slot: nat, pid: nat)
      requires Valid() && slot < |readers|
      modifies this`readers
      ensures Valid() && V() == old(V()).(readers := old(readers)[slot := Slot(pid, txnid - 1)])
    {
      readers := readers[slot := Slot(pid, txnid - 1)];
    }

    method EndRead(slot: nat)
      requires Valid() && slot < |readers|
      modifies this`readers
      ensures Valid()
      ensures V() == old(V()).(readers := old(readers)[slot := Slot(old(readers)[slot].pid, 0xFFFF_FFFF_FFFF_FFFF)])
    {
      readers := readers[slot := readers[slot].(txnid := MAX_ID)];
    }

    /** The smallest transaction id still in use, by a scan of the reader table. */
    method FindOldest() returns (oldest: nat)
      requires Valid()
      ensures OldestSlot(readers, txnid - 1, oldest)
    {
      oldest := txnid - 1;
      var i := |readers|;
      while i > 0
        invariant 0 <= i <= |readers| && oldest <= txnid - 1
        invariant forall r :: i <= r < |readers| && readers[r].pid != 0 ==> oldest <= readers[r].txnid
        invariant || oldest == txnid - 1
                  || exists r :: 0 <= r < |readers| && readers[r].pid != 0 && readers[r].txnid == oldest
      {
        i := i - 1;
        if readers[i].pid != 0 {
          var mr := readers[i].txnid;
          if oldest > mr {
            oldest := mr;
          }
        }
      }
    }

    /** Whether a record of transaction `last` is older than every reader, looking at the
        reader table at most once per allocation. */
    method OldEnough(last: nat, foundOld: bool) returns (ok: bool, found: bool)
      requires Valid() && (foundOld ==> OldestSlot(readers, txnid - 1, pgoldest))
      modifies this`pgoldest
      ensures Valid() && (ok <==> last < pgoldest)
      ensures (!ok ==> found) && (found ==> OldestSlot(readers, txnid - 1, pgoldest))
      ensures || V() == old(V())
              || (!foundOld && RefillOk(old(V()), Refresh(pgoldest)) && V() == RefillOne(old(V()), Refresh(pgoldest)))
      ensures !found ==> !foundOld && V() == old(V())
    {
      found := foundOld;
      if pgoldest <= last && !foundOld {
        pgoldest := FindOldest();
        found := true;
      }
      ok := last < pgoldest;
    }

    /** The same, recording the scan among the refill steps. */
    method OldEnoughStep(last: nat, foundOld: bool, ghost v: View, ghost rs0: seq<Refill>)
      returns (ok: bool, found: bool, ghost rs: seq<Refill>)
      requires Valid() && RefillAll(v, rs0) == Some(V())
      requires foundOld ==> OldestSlot(readers, txnid - 1, pgoldest)
      modifies this`pgoldest
      ensures Valid() && RefillAll(v, rs) == Some(V()) && Counts(v, rs0, rs, false, V())
      ensures (ok <==> last < pgoldest) && (!ok ==> found) && (found ==> OldestSlot(readers, txnid - 1, pgoldest))
    {
      ghost var m := V();
      ok, found := OldEnough(last, foundOld);
      rs := Extended(v, rs0, m, V(), Refresh(pgoldest));
    }

    /** mdb_midl_need: room for n more numbers in the reclaimed list. */
    method Need(n: nat)
      requires Valid() && pghead != null
      modifies this`pghead
      ensures Valid() && V() == old(V()) && pghead != null && pghead[0] + n < pghead.Length
      ensures pghead == old(pghead) || fresh(pghead)
    {
      if pghead[0] + n >= pghead.Length {
        var bigger := new nat[pghead[0] + n + 1];
        forall i | 0 <= i <= pghead[0] { bigger[i] := pghead[i]; }
        assert List(bigger) == List(pghead);
        pghead := bigger;
      }
    }

    method MergeIntoHead(record: seq<nat>)
      requires Valid() && forall i :: 0 <= i < |record| ==> record[i] <= MAX_ID
      modifies this`pghead, pghead
      ensures Valid() && pghead != null && (pghead == old(pghead) || fresh(pghead))
      ensures V() == old(V()).(head := Some(Merged(HeadList(old(V())), record)))
    {
      ghost var h := HeadList(V());
      if pghead == null {
        pghead := new nat[|record| + 1](_ => 0);
        assert List(pghead) == [];
      } else {
        Need(|record|);
      }
      assert List(pghead) == h;
      var idl := NewList(record);
      ListAtStart(idl);
      XMerge(pghead, idl, 0);
    }

    /** The smallest record key from `last` on, as the freeDB cursor finds it. */
    method NextRecord(last: nat) returns (key: Option<nat>)
      ensures key.None? ==> forall j :: j in freeDB ==> j < last
      ensures key.Some? ==> key.value in freeDB && last <= key.value && forall j :: j in freeDB && last <= j ==>
                key.value <= j
    {
      key := None;
      var keys := freeDB.Keys;
      while keys != {}
        invariant keys <= freeDB.Keys
        invariant key.None? ==> forall j :: j in freeDB && j !in keys ==> j < last
        invariant key.Some? ==> key.value in freeDB && last <= key.value
        invariant key.Some? ==> forall j :: j in freeDB && j !in keys && last <= j ==> key.value <= j
        decreases keys
      {
        var k :| k in keys;
        keys := keys - {k};
        if last <= k && (key.None? || k < key.value) {
          key := Some(k);
        }
      }
    }

    method FetchOne(key: nat)
      requires Valid() && RefillOk(V(), Fetch(key))
      modifies this`pghead, this`pglast, pghead
      ensures Valid() && V() == RefillOne(old(V()), Fetch(key)) && (pghead == old(pghead) || fresh(pghead))
    {
      MergeIntoHead(freeDB[key]);
      pglast := key;
    }

    /** Merge record `key` into the reclaimed list if it is old enough. */
    method MergeIfOld(key: nat, foundOld: bool, ghost v: View, ghost rs0: seq<Refill>)
      returns (more: bool, found: bool, ghost rs: seq<Refill>)
      requires Valid() && RefillAll(v, rs0) == Some(V())
      requires foundOld ==> OldestSlot(readers, txnid - 1, pgoldest)
      requires key in freeDB && pglast < key && forall j :: j in freeDB && pglast < j ==> key <= j
      modifies this`pghead, this`pglast, this`pgoldest, pghead
      ensures Valid() && RefillAll(v, rs) == Some(V()) && (pghead == old(pghead) || fresh(pghead))
      ensures pglast == (if more then key else old(pglast)) && Counts(v, rs0, rs, more, V())
      ensures found ==> OldestSlot(readers, txnid - 1, pgoldest)
      ensures !more ==> Drained(V()) && HeadList(V()) == old(HeadList(V()))
    {
      more, found, rs := OldEnoughStep(key, foundOld, v, rs0);
      if more {
        ghost var m := V();
        FetchOne(key);
        rs := Extended(v, rs, m, V(), Fetch(key));
      }
    }

    /** Merge one more record into the reclaimed list if there is one that is old enough. */
    method FetchRecord(foundOld: bool, ghost v: View, ghost rs0: seq<Refill>)
      returns (more: bool, found: bool, ghost rs: seq<Refill>)
      requires Valid() && RefillAll(v, rs0) == Some(V())
      requires foundOld ==> OldestSlot(readers, txnid - 1, pgoldest)
      modifies this`pghead, this`pglast, this`pgoldest, pghead
      ensures Valid() && RefillAll(v, rs) == Some(V()) && (pghead == old(pghead) || fresh(pghead))
      ensures Counts(v, rs0, rs, more, V())
      ensures found ==> OldestSlot(readers, txnid - 1, pgoldest)
      ensures !more ==> Drained(V()) && HeadList(V()) == old(HeadList(V()))
      ensures if more then old(pglast) < pglast && pglast in freeDB else pglast == old(pglast)
    {
      more, found, rs := OldEnoughStep(pglast + 1, foundOld, v, rs0);
      if more {
        more, found, rs := FetchNext(found, v, rs);
      }
    }

    /** The next record by key, if there is one and it is old enough. */
    method FetchNext(foundOld: bool, ghost v: View, ghost rs0: seq<Refill>)
      returns (more: bool, found: bool, ghost rs: seq<Refill>)
      requires Valid() && RefillAll(v, rs0) == Some(V())
      requires foundOld ==> OldestSlot(readers, txnid - 1, pgoldest)
      modifies this`pghead, this`pglast, this`pgoldest, pghead
      ensures Valid() && RefillAll(v, rs) == Some(V()) && (pghead == old(pghead) || fresh(pghead))
      ensures Counts(v, rs0, rs, more, V())
      ensures found ==> OldestSlot(readers, txnid - 1, pgoldest)
      ensures !more ==> Drained(V()) && HeadList(V()) == old(HeadList(V()))
      ensures if more then old(pglast) < pglast && pglast in freeDB else pglast == old(pglast)
    {
      var key := NextRecord(pglast + 1);
      if key.None? { return false, foundOld, rs0; }
      more, found, rs := MergeIfOld(key.value, foundOld, v, rs0);
    }

    /** Look for a run in the reclaimed list, if it is long enough. */
    method SearchHead(num: nat) returns (i: nat, searched: bool)
      requires Valid() && 0 < num
      ensures i != 0 ==> pghead != null && EndsRun(List(pghead), i, num)
      ensures i != 0 ==> forall x :: i < x <= pghead[0] ==> !EndsRun(List(pghead), x, num)
      ensures i == 0 ==> NoRun(V(), num)
      ensures searched <==> LongEnough(V(), num) == 1
    {
      i, searched := 0, pghead != null && pghead[0] > num - 1;
      if searched { i := FindRun(pghead, num); }
    }

    /** The search loop of mdb_page_alloc: look for a run, and while there is none merge one
        more old enough record.  Returns the place where the run ends, or 0. */
    method SeekRun(num: nat) returns (i: nat, ghost rs: seq<Refill>)
      requires Valid() && 0 < num
      modifies this`pghead, this`pglast, this`pgoldest, pghead
      ensures Valid() && RefillAll(old(V()), rs) == Some(V()) && (pghead == old(pghead) || fresh(pghead))
      ensures i != 0 ==> pghead != null && EndsRun(List(pghead), i, num)
      ensures i != 0 ==> forall x :: i < x <= pghead[0] ==> !EndsRun(List(pghead), x, num)
      ensures i == 0 ==> SearchedEnough(old(V()), rs, num, V())
      ensures Searches(old(V()), rs, num) <= 60 * num + 1
    {
      hide OldestSlot, EndsRun, Drained;
      var retry, foundOld, more := num * 60, false, true;
      i, rs := 0, [];
      while more
        invariant Valid() && RefillAll(old(V()), rs) == Some(V()) && (pghead == old(pghead) || fresh(pghead))
        invariant i == 0 && Searches(old(V()), rs, num) <= 60 * num + 1
        invariant more ==> retry + Searches(old(V()), rs, num) == 60 * num + LongEnough(V(), num)
        invariant more ==> retry >= 0
        invariant foundOld ==> OldestSlot(readers, txnid - 1, pgoldest)
        invariant !more ==> Drained(V()) && NoRun(V(), num)
        decreases more, set k | k in freeDB && pglast < k
      {
        var searched;
        i, searched := SearchHead(num);
        if i != 0 { return; }
        if searched {
          retry := retry - 1;
          if retry < 0 { return; }
        }
        ghost var newer := set k | k in freeDB && pglast < k;
        more, foundOld, rs := FetchRecord(foundOld, old(V()), rs);
        assert more ==> pglast in newer;
      }
    }

    /** Take the run that ends at place i out of the reclaimed list. */
    method UseRun(i: nat, num: nat) returns (pgno: nat)
      requires Valid() && pghead != null && EndsRun(List(pghead), i, num)
      requires forall x :: i < x <= pghead[0] ==> !EndsRun(List(pghead), x, num)
      modifies this`dirty, pghead
      ensures Valid() && UsesRun(old(V()), i, num, pgno, V())
    {
      pgno := pghead[i];
      RemoveRun(pghead, i, num);
      dirty := dirty + RunSet(pgno, num);
    }

    method UseNew(num: nat) returns (pgno: nat)
      requires Valid() && NoRun(V(), num)
      modifies this`nextPgno, this`dirty
      ensures Valid() && UsesNew(old(V()), num, pgno, V())
    {
      pgno := nextPgno;
      nextPgno := pgno + num;
      dirty := dirty + RunSet(pgno, num);
    }

    /** The lowest run in the reclaimed list, refilled as far as needed, else pages past the
        end of the file. */
    method AllocFresh(num: nat) returns (rc: Rc, pgno: nat, ghost rs: seq<Refill>, ghost m: View)
      requires Valid() && 0 < num
      modifies this`pghead, this`pglast, this`pgoldest, this`nextPgno, this`dirty, pghead
      ensures Valid() && (pghead == old(pghead) || fresh(pghead))
      ensures RefillAll(old(V()), rs) == Some(m) && rc != TxnFull
      ensures if rc == Success then (UsesNew(m, num, pgno, V()) || exists i :: UsesRun(m, i, num, pgno, V()))
              else V() == m && nextPgno + num >= maxpg
      ensures nextPgno != old(nextPgno) || rc != Success ==> SearchedEnough(old(V()), rs, num, m)
      ensures Searches(old(V()), rs, num) <= 60 * num + 1
      ensures nextPgno == old(nextPgno) || nextPgno < maxpg
    {
      pgno := 0;
      var i;
      i, rs := SeekRun(num);
      m := V();
      if i != 0 {
        pgno := UseRun(i, num);
        return Success, pgno, rs, m;
      }
      if nextPgno + num >= maxpg {
        return MapFull, pgno, rs, m;
      }
      pgno := UseNew(num);
      return Success, pgno, rs, m;
    }

    /** Allocate `num` contiguous pages, preferring a loose page if one will do. */
    method Alloc(num: nat) returns (rc: Rc, pgno: nat, ghost rs: seq<Refill>, ghost m: View)
      requires Valid() && 0 < num
      modifies this`pghead, this`pglast, this`pgoldest, this`nextPgno, this`dirty, this`loosePgs
      modifies this`dirtyRoom, this`failed, pghead
      ensures Valid() && (pghead == old(pghead) || fresh(pghead))
      ensures RefillAll(old(V()), rs) == Some(m)
      ensures if rc == Success then Uses(m, num, pgno, V()) else V() == m
      ensures rc == TxnFull <==> !(num == 1 && old(loosePgs) != []) && old(dirtyRoom) == 0
      ensures rc == MapFull ==> nextPgno + num >= maxpg
      ensures nextPgno != old(nextPgno) || rc == MapFull ==> SearchedEnough(old(V()), rs, num, m)
      ensures Searches(old(V()), rs, num) <= 60 * num + 1
      ensures failed == (old(failed) || rc != Success)
      ensures dirtyRoom == old(dirtyRoom) - if rc == Success && !(num == 1 && old(loosePgs) != []) then 1 else 0
      ensures nextPgno == old(nextPgno) || nextPgno < maxpg
    {
      pgno, rs, m := 0, [], V();
      if num == 1 && loosePgs != [] {
        pgno := loosePgs[0];
        loosePgs := loosePgs[1..];
        assert UsesLoose(m, num, pgno, V());
        return Success, pgno, rs, m;
      }
      if dirtyRoom == 0 {
        failed := true;
        return TxnFull, pgno, rs, m;
      }
      rc, pgno, rs, m := AllocFresh(num);
      Account(rc);
    }

    /** mdb_page_dirty uses up one entry of the dirty list; a failed call marks the transaction. */
    method Account(rc: Rc)
      requires Valid() && dirtyRoom > 0
      modifies this`dirtyRoom, this`failed
      ensures Valid() && V() == old(V()) && failed == (old(failed) || rc != Success)
      ensures dirtyRoom == old(dirtyRoom) - if rc == Success then 1 else 0
    {
      if rc == Success {
        dirtyRoom := dirtyRoom - 1;
      } else {
        failed := true;
      }
    }

    // ---------- giving pages back ----------

    /** Copy-on-write of page p: a clean page is replaced by a newly allocated one and its
        number goes to the list of freed pages; a dirty page is left alone. */
    method Touch(p: nat) returns (rc: Rc, pgno: nat, ghost rs: seq<Refill>, ghost m: View, ghost m': View)
      requires Valid()
      modifies this, pghead, freePgs
      ensures Valid() && RefillAll(old(V()), rs) == Some(m)
      ensures p in old(dirty) ==> rc == Success && pgno == p && V() == old(V())
      ensures p !in old(dirty) ==>
                if rc == Success then Uses(m, 1, pgno, m') && V() == m'.(freed := m'.freed + Down(p, 1))
                else V() == m
      ensures rc == TxnFull <==> p !in old(dirty) && old(loosePgs) == [] && old(dirtyRoom) == 0
      ensures rc == MapFull ==> nextPgno + 1 >= maxpg
      ensures nextPgno != old(nextPgno) || rc == MapFull ==> SearchedEnough(old(V()), rs, 1, m)
      ensures failed == (old(failed) || rc != Success)
      ensures dirtyRoom == old(dirtyRoom) - if rc == Success && p !in old(dirty) && old(loosePgs) == [] then 1 else 0
      ensures (pghead == old(pghead) || fresh(pghead)) && (freePgs == old(freePgs) || fresh(freePgs))
      ensures nextPgno == old(nextPgno) || nextPgno < maxpg
    {
      rs, m, m' := [], V(), V();
      if p in dirty { return Success, p, rs, m, m'; }
      rc, pgno, rs, m := Alloc(1);
      m' := V();
      if rc == Success { FreeRange(p, 1); }
    }

    method FreeRange(p: nat, n: nat)
      requires Valid()
      modifies this`freePgs, freePgs
      ensures Valid() && V() == old(V()).(freed := old(V()).freed + Down(p, n))
      ensures freePgs == old(freePgs) || fresh(freePgs)
    {
      freePgs := AppendRange(freePgs, p, n);
    }

    /** A page of this transaction becomes loose, unless it belongs to the freeDB. */
    method Loose(p: nat, inFreeDB: bool)
      requires Valid()
      modifies this`loosePgs, this`freePgs, freePgs
      ensures Valid() && (freePgs == old(freePgs) || fresh(freePgs))
      ensures V() == if p in dirty && !inFreeDB then old(V()).(loose := [p] + old(loosePgs))
                     else old(V()).(freed := old(V()).freed + Down(p, 1))
    {
      if p in dirty && !inFreeDB {
        loosePgs := [p] + loosePgs;
      } else {
        FreeRange(p, 1);
      }
    }

    /** An overflow page of this transaction goes back to the reclaimed list, if there is one. */
    method OvpageFree(pg: nat, n: nat)
      requires Valid()
      modifies this`pghead, this`freePgs, this`dirty, pghead, freePgs
      ensures Valid() && (pghead == old(pghead) || fresh(pghead)) && (freePgs == old(freePgs) || fresh(freePgs))
      ensures V() == if old(pghead) != null && pg in old(dirty)
                     then old(V()).(head := Some(With(HeadList(old(V())), pg, n)), dirty := old(dirty) - Run(pg, n))
                     else old(V()).(freed := old(V()).freed + Down(pg, n))
    {
      if pghead != null && pg in dirty {
        Need(n);
        InsertRun(pghead, pg, n);
        dirty := dirty - RunSet(pg, n);
      } else {
        FreeRange(pg, n);
      }
    }
  }

  /** The page numbers pgno, ..., pgno+num-1 entered into the dirty list. */
  function RunSet(pgno: nat, num: nat): (r: set<nat>)
    ensures r == Run(pgno, num)
  {
    if num == 0 then {} else RunSet(pgno, num - 1) + {pgno + num - 1}
  }
}
