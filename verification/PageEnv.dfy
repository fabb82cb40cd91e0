/**
  The environment at work.  Each operation on its arrays is carried out together with the steps
  of the page store it amounts to, so whatever a caller does, the lists stand for the end of a
  run of the page store, and what is proved of every run holds of the environment.
 */
module PageEnv {
  import opened Options
  import opened Midl
  import opened MidlSort
  import opened PageStore
  import opened PageRuns
  import opened PageView
  import opened PageAlloc
  import opened PageRefinement
  import opened PageSave

  /** The lists stand for the end of a run, and the numbers fit the machine's words. */
  ghost predicate Tracks(v: View, s: State) {
    Stands(v, s) && Reached(s) && v.txnid <= MAX_ID && v.nextPg <= MAX_ID
  }

  /** The pages of the running transaction's tree. */
  ghost function TreePages(s: State): set<nat>
    requires s.txn.Some?
  {
    s.txn.value.tree.Keys
  }

  /** No snapshot that a reader holds or a meta page names has a page among `ps`. */
  ghost predicate Unread(s: State, ps: set<nat>) { forall m :: Pinned(s, m) ==> ps !! m.tree.Keys }

  // ---------- pages ----------

  /** Pages pgno, ..., pgno+num-1 have joined the tree: they are new to it and unread. */
  ghost predicate Allocated(s: State, s': State, pgno: nat, num: nat)
    requires s.txn.Some? && s'.txn.Some?
  {
    && Run(pgno, num) !! TreePages(s) && Unread(s, Run(pgno, num))
    && TreePages(s') == TreePages(s) + Run(pgno, num) && SameSnapshots(s, s')
  }

  /** Nothing has happened to the tree. */
  ghost predicate Spared(s: State, s': State)
    requires s.txn.Some? && s'.txn.Some?
  {
    TreePages(s') == TreePages(s) && SameSnapshots(s, s')
  }

  ghost predicate Exchanged(s: State, s': State, p: nat, pgno: nat)
    requires s.txn.Some? && s'.txn.Some?
  {
    Unread(s, {pgno}) && TreePages(s') == TreePages(s) - {p} + {pgno} && SameSnapshots(s, s')
  }

  lemma RefillTracks(v: View, s: State, rs: seq<Refill>, m: View) returns (s': State)
    requires Tracks(v, s) && RefillAll(v, rs) == Some(m) && m.nextPg <= MAX_ID
    ensures Tracks(m, s') && Spared(s, s') && m.txnid == v.txnid
  {
    s' := RefillRefines(v, s, rs, m);
  }

  lemma AllocTracks(v: View, s: State, rs: seq<Refill>, m: View, num: nat, pgno: nat, v': View) returns (s': State)
    requires Tracks(v, s) && RefillAll(v, rs) == Some(m) && Uses(m, num, pgno, v') && v'.nextPg <= MAX_ID
    ensures Tracks(v', s') && Allocated(s, s', pgno, num) && v'.txnid == v.txnid
  {
    var mid, step;
    mid, step, s' := AllocRefines(v, s, rs, m, num, pgno, v');
    RefillKeepsId(v, rs, m);
  }

  lemma TouchTracks(v: View, s: State, p: nat, rs: seq<Refill>, m: View, pgno: nat, m': View, v': View)
    returns (s': State)
    requires Tracks(v, s) && p in TreePages(s) && p !in v.dirty && v'.nextPg <= MAX_ID
    requires RefillAll(v, rs) == Some(m) && Uses(m, 1, pgno, m') && v' == m'.(freed := m'.freed + Down(p, 1))
    ensures Tracks(v', s') && Exchanged(s, s', p, pgno) && v'.txnid == v.txnid
  {
    var mid, step, s1;
    mid, step, s1, s' := TouchRefines(v, s, p, rs, m, pgno, m', v');
    RefillKeepsId(v, rs, m);
  }

  /** A page this transaction has written is in no snapshot. */
  lemma KeepTracks(v: View, s: State, p: nat) returns (s': State)
    requires Tracks(v, s) && p in TreePages(s) && p in v.dirty
    ensures Tracks(v, s') && Exchanged(s, s', p, p)
  {
    s' := s;
    forall m | Pinned(s, m) ensures {p} !! m.tree.Keys {
      assert Untouched(s.txn.value, m);
    }
  }

  lemma {:induction false} RefillKeepsId(v: View, rs: seq<Refill>, m: View)
    requires RefillAll(v, rs) == Some(m)
    ensures m.txnid == v.txnid && m.nextPg == v.nextPg
    decreases |rs|
  {
    if rs == [] {
    } else {
      RefillKeepsId(v, rs[..|rs| - 1], RefillAll(v, rs[..|rs| - 1]).value);
    }
  }

  /** The answer to a call that asks, or does not ask, for an entry of the dirty list: the
      transaction is full if and only if none is left, and an entry is used up only by success. */
  ghost predicate Charged(l: Ledger, asks: bool, rc: Rc, l': Ledger) {
    && (rc == TxnFull <==> asks && l.room == 0)
    && l'.failed == (l.failed || rc != Success)
    && l'.room == l.room - if asks && rc == Success then 1 else 0
  }

  /** The records that have been merged between two views. */
  ghost function Consumed(v: View, v': View): set<nat> { set k | k in v.freeDB && v.last < k <= v'.last }

  /** Some reader may still see the pages that transaction k has freed: it reads a snapshot up to
      that of k, or k is the last transaction committed. */
  ghost predicate StillRead(v: View, k: nat) {
    k + 1 >= v.txnid || exists r :: 0 <= r < |v.readers| && v.readers[r].pid != 0 && v.readers[r].txnid <= k
  }

  /** The reclaimed list holds all of the pages pgno, ..., pgno+num-1. */
  ghost predicate HoldsRun(v: View, pgno: nat, num: nat) { v.head.Some? && Run(pgno, num) <= Elems(v.head.value) }

  /** There is no run of num pages in the reclaimed list, and every record that is left is still
      read by somebody, unless sixty for each page asked for have been merged in vain. */
  ghost predicate Exhausted(num: nat, v: View, v': View) {
    && (forall pgno :: !HoldsRun(v', pgno, num))
    && (|Consumed(v, v')| >= 60 * num || forall k :: k in v'.freeDB && v'.last < k ==> StillRead(v', k))
  }

  /** The file grows, and the map is full, only when nothing else is left. */
  ghost predicate Answered(maxpg: nat, num: nat, v: View, rc: Rc, v': View) {
    && (rc == MapFull ==> v'.nextPg + num >= maxpg)
    && (v'.nextPg != v.nextPg || rc == MapFull ==> Exhausted(num, v, v'))
  }

  lemma {:induction false} FetchesConsume(v: View, rs: seq<Refill>, m: View)
    requires RefillAll(v, rs) == Some(m)
    ensures m.freeDB == v.freeDB && v.last <= m.last && |Consumed(v, m)| == Fetches(rs)
    decreases |rs|
  {
    if rs == [] {
      assert Consumed(v, m) == {};
    } else {
      var m' := RefillAll(v, rs[..|rs| - 1]).value;
      FetchesConsume(v, rs[..|rs| - 1], m');
      if rs[|rs| - 1].Fetch? {
        assert Consumed(v, m) == Consumed(v, m') + {m.last};
      } else {
        assert Consumed(v, m) == Consumed(v, m');
      }
    }
  }

  lemma DrainedIsRead(v: View, k: nat)
    requires Drained(v) && k in v.freeDB && v.last < k
    ensures StillRead(v, k)
  {
    if v.oldest != v.txnid - 1 {
      var r :| 0 <= r < |v.readers| && v.readers[r].pid != 0 && v.readers[r].txnid == v.oldest;
    }
  }

  lemma HeldRunIsSeen(v: View, num: nat, pgno: nat)
    requires num > 0 && HoldsRun(v, pgno, num) && StrictlyDescending(v.head.value)
    ensures !NoRun(v, num)
  {
    forall q | pgno <= q < pgno + num ensures q in v.head.value { assert q in Run(pgno, num); }
    var i := RunHasPlace(v.head.value, pgno, num);
    assert EndsRun(HeadList(v), i, num);
  }

  lemma {:induction false} SearchesFetch(v: View, rs: seq<Refill>, num: nat)
    ensures Searches(v, rs, num) <= Fetches(rs) + 1
  {
    if rs == [] {
    } else {
      SearchesFetch(v, rs[..|rs| - 1], num);
    }
  }

  lemma SearchedIsExhausted(v: View, rs: seq<Refill>, m: View, num: nat, v': View)
    requires RefillAll(v, rs) == Some(m) && SearchedEnough(v, rs, num, m) && num > 0
    requires m.head.Some? ==> StrictlyDescending(m.head.value)
    requires v' == m.(nextPg := v'.nextPg, dirty := v'.dirty, freed := v'.freed)
    ensures Exhausted(num, v, v')
  {
    FetchesConsume(v, rs, m);
    SearchesFetch(v, rs, num);
    assert Consumed(v, v') == Consumed(v, m);
    forall pgno ensures !HoldsRun(v', pgno, num) {
      if HoldsRun(m, pgno, num) { HeldRunIsSeen(m, num, pgno); }
    }
    if Drained(m) {
      forall k | k in v'.freeDB && v'.last < k ensures StillRead(v', k) { DrainedIsRead(m, k); }
    }
  }

  lemma AllocAnswers(maxpg: nat, v: View, s: State, rs: seq<Refill>, m: View, num: nat, rc: Rc, pgno: nat, v': View)
    requires Tracks(v, s) && num > 0
    requires RefillAll(v, rs) == Some(m) && (if rc == Success then Uses(m, num, pgno, v') else v' == m)
    requires rc == MapFull ==> v'.nextPg + num >= maxpg
    requires v'.nextPg != v.nextPg || rc == MapFull ==> SearchedEnough(v, rs, num, m)
    ensures Answered(maxpg, num, v, rc, v')
  {
    hide Inv, Reached;
    RefillKeepsId(v, rs, m);
    var mid := RefillRefines(v, s, rs, m);
    if v'.nextPg != v.nextPg || rc == MapFull { SearchedIsExhausted(v, rs, m, num, v'); }
  }

  /** The list of freed pages does not matter for the answer. */
  lemma TouchAnswers(maxpg: nat, v: View, rc: Rc, m: View, v': View)
    requires Answered(maxpg, 1, v, rc, m) && v' == m.(freed := v'.freed)
    ensures Answered(maxpg, 1, v, rc, v')
  {
    assert Consumed(v, v') == Consumed(v, m);
    forall pgno | HoldsRun(v', pgno, 1) ensures HoldsRun(m, pgno, 1) { }
    forall k | StillRead(m, k) ensures StillRead(v', k) { }
  }

  /** mdb_page_alloc: the pages it gives out are new to the transaction and unread, and a failed
      call leaves the tree alone. */
  method AllocPages(env: Env, num: nat, ghost s: State) returns (rc: Rc, pgno: nat, ghost s': State)
    requires env.Valid() && 0 < num && env.maxpg <= MAX_ID && Tracks(env.V(), s)
    modifies env, env.pghead
    ensures env.Valid() && (env.pghead == old(env.pghead) || fresh(env.pghead)) && env.freePgs == old(env.freePgs)
    ensures Tracks(env.V(), s') && env.txnid == old(env.txnid)
    ensures env.nextPgno == old(env.nextPgno) || env.nextPgno < env.maxpg
    ensures if rc == Success then Allocated(s, s', pgno, num) else Spared(s, s')
    ensures Charged(old(env.L()), !(num == 1 && old(env.loosePgs) != []), rc, env.L())
    ensures Answered(env.maxpg, num, old(env.V()), rc, env.V())
  {
    hide Inv, Unread, SameSnapshots, Reached, Uses, SearchedEnough, Answered, Allocated, Spared, RefillAll;
    ghost var v := env.V();
    ghost var rs, m;
    rc, pgno, rs, m := env.Alloc(num);
    AllocAnswers(env.maxpg, v, s, rs, m, num, rc, pgno, env.V());
    if rc == Success {
      s' := AllocTracks(v, s, rs, m, num, pgno, env.V());
    } else {
      s' := RefillTracks(v, s, rs, m);
    }
  }

  /** mdb_page_touch of a page of the tree: a clean page is exchanged for an unread one, and a
      dirty page, which is unread itself, stays. */
  method TouchPage(env: Env, p: nat, ghost s: State) returns (rc: Rc, pgno: nat, ghost s': State)
    requires env.Valid() && env.maxpg <= MAX_ID && Tracks(env.V(), s) && p in TreePages(s)
    modifies env, env.pghead, env.freePgs
    ensures env.Valid() && (env.pghead == old(env.pghead) || fresh(env.pghead))
    ensures env.freePgs == old(env.freePgs) || fresh(env.freePgs)
    ensures Tracks(env.V(), s') && env.txnid == old(env.txnid)
    ensures env.nextPgno == old(env.nextPgno) || env.nextPgno < env.maxpg
    ensures if rc == Success then Exchanged(s, s', p, pgno) else Spared(s, s')
    ensures Charged(old(env.L()), p !in old(env.dirty) && old(env.loosePgs) == [], rc, env.L())
    ensures Answered(env.maxpg, 1, old(env.V()), rc, env.V())
  {
    hide Inv, Unread, SameSnapshots, Reached, Uses, SearchedEnough, Exhausted;
    ghost var v := env.V();
    ghost var rs, m, m';
    rc, pgno, rs, m, m' := env.Touch(p);
    if p in v.dirty {
      s' := KeepTracks(v, s, p);
    } else if rc == Success {
      s' := TouchTracks(v, s, p, rs, m, pgno, m', env.V());
      AllocAnswers(env.maxpg, v, s, rs, m, 1, rc, pgno, m');
      TouchAnswers(env.maxpg, v, rc, m', env.V());
    } else {
      s' := RefillTracks(v, s, rs, m);
      AllocAnswers(env.maxpg, v, s, rs, m, 1, rc, pgno, m);
    }
  }

  /** mdb_page_loose takes exactly the page out of the tree. */
  method LoosePage(env: Env, p: nat, inFreeDB: bool, ghost s: State) returns (ghost s': State)
    requires env.Valid() && Tracks(env.V(), s) && p in TreePages(s)
    modifies env, env.freePgs
    ensures env.Valid() && (env.freePgs == old(env.freePgs) || fresh(env.freePgs)) && env.pghead == old(env.pghead)
    ensures Tracks(env.V(), s') && SameSnapshots(s, s') && TreePages(s') == TreePages(s) - {p}
    ensures env.txnid == old(env.txnid) && env.nextPgno == old(env.nextPgno) && env.L() == old(env.L())
  {
    hide Inv, SameSnapshots, Reached;
    ghost var v := env.V();
    env.Loose(p, inFreeDB);
    ghost var step;
    step, s' := LooseRefines(v, s, p, inFreeDB, env.V());
  }

  /** mdb_ovpage_free takes exactly the run out of the tree. */
  method FreeOverflow(env: Env, pg: nat, n: nat, ghost s: State) returns (ghost s': State)
    requires env.Valid() && Tracks(env.V(), s) && Run(pg, n) <= TreePages(s)
    requires pg in env.dirty ==> Run(pg, n) <= env.dirty
    modifies env, env.pghead, env.freePgs
    ensures env.Valid() && (env.pghead == old(env.pghead) || fresh(env.pghead))
    ensures env.freePgs == old(env.freePgs) || fresh(env.freePgs)
    ensures Tracks(env.V(), s') && SameSnapshots(s, s') && TreePages(s') == TreePages(s) - Run(pg, n)
    ensures env.txnid == old(env.txnid) && env.nextPgno == old(env.nextPgno) && env.L() == old(env.L())
  {
    hide Inv, SameSnapshots, Reached, With, Down, Next, RecordsMatch, ReadersMatch, StrictlyDescending;
    ghost var v := env.V();
    env.OvpageFree(pg, n);
    ghost var step;
    step, s' := OvpageFreeRefines(v, s, pg, n, env.V());
  }

  // ---------- readers ----------

  lemma BeginReadStands(v: View, s: State, slot: nat, pid: nat, v': View) returns (s': State)
    requires Tracks(v, s) && slot < |v.readers| && !SlotActive(v.readers, slot) && pid != 0
    requires v' == v.(readers := v.readers[slot := Slot(pid, v.txnid - 1)])
    ensures Tracks(v', s') && slot !in s.readers
    ensures s' == s.(readers := s.readers[slot := PickMeta(s)])
  {
    s' := s.(readers := s.readers[slot := PickMeta(s)]);
    StepInv(s, BeginReader(slot), s');
    ReachedStep(s, BeginReader(slot), s');
    forall r: nat | r != slot ensures SlotActive(v'.readers, r) <==> SlotActive(v.readers, r) { }
  }

  lemma EndReadStands(v: View, s: State, slot: nat, v': View) returns (s': State)
    requires Tracks(v, s) && SlotActive(v.readers, slot)
    requires v' == v.(readers := v.readers[slot := Slot(v.readers[slot].pid, MAX_ID)])
    ensures Tracks(v', s')
    ensures s' == s.(readers := s.readers - {slot})
  {
    s' := s.(readers := s.readers - {slot});
    StepInv(s, EndReader(slot), s');
    ReachedStep(s, EndReader(slot), s');
    forall r: nat | r != slot ensures SlotActive(v'.readers, r) <==> SlotActive(v.readers, r) { }
  }

  /** A reader pins the snapshot that the newest meta page names. */
  method StartReader(env: Env, slot: nat, pid: nat, ghost s: State) returns (ghost s': State)
    requires env.Valid() && Tracks(env.V(), s) && slot < |env.readers| && !SlotActive(env.readers, slot) && pid != 0
    modifies env`readers
    ensures env.Valid() && Tracks(env.V(), s') && slot !in s.readers
    ensures s' == s.(readers := s.readers[slot := PickMeta(s)])
  {
    ghost var v := env.V();
    env.BeginRead(slot, pid);
    s' := BeginReadStands(v, s, slot, pid, env.V());
  }

  method StopReader(env: Env, slot: nat, ghost s: State) returns (ghost s': State)
    requires env.Valid() && Tracks(env.V(), s) && SlotActive(env.readers, slot)
    modifies env`readers
    ensures env.Valid() && Tracks(env.V(), s') && s' == s.(readers := s.readers - {slot})
  {
    ghost var v := env.V();
    env.EndRead(slot);
    s' := EndReadStands(v, s, slot, env.V());
  }

  // ---------- the end of a transaction ----------

  /** A transaction begins with room for 131071 entries in its dirty list. */
  ghost const NEW_LEDGER := Ledger(131071, false)

  /** Saving the free list and writing the meta page. */
  method Save(env: Env, rooms: seq<Room>, ghost s: State) returns (ok: bool, ghost s': State)
    requires env.Valid() && Tracks(env.V(), s) && env.txnid < MAX_ID
    requires env.freePgs[0] + |env.loosePgs| <= MAX_INT
    requires RoomsOk(rooms, env.pglast, Unwritten(env.V()))
    modifies env`freePgs, env`loosePgs, env`pghead, env`freeDB, env.freePgs, env.pghead
    ensures WellFormed(env.freePgs) && env.loosePgs == []
    ensures env.freePgs == old(env.freePgs) || fresh(env.freePgs)
    ensures ok ==> Bounded(env.freeDB) && Begun(s, s', env.pgoldest, env.nextPgno, env.txnid, env.freeDB, env.readers)
    ensures old(env.freePgs[0] + |env.loosePgs|) <= SAFE_LENGTH ==> ok
  {
    ghost var v := env.V();
    s' := s;
    LooseBounded(v, s);
    var own, recs;
    ghost var list;
    ok, own, recs, list := SaveFreelist(env, rooms);
    if ok { s' := CommitLists(v, s, own, list, rooms, recs); }
  }

  /** After a commit, empty lists stand for the beginning of the next transaction. */
  ghost predicate Begun(s: State, s': State, oldest: nat, nextPg: nat, txnid: nat, freeDB: map<nat, seq<nat>>,
                        readers: seq<Slot>)
    requires Inv(s) && s.txn.Some?
  {
    Tracks(View(None, 0, oldest, [], [], {}, nextPg, txnid + 1, freeDB, readers), s') && Committed(s, s')
  }

  /** mdb_txn_commit, and the beginning of the next transaction: the next transaction starts from
      exactly the tree committed, which the newest meta page names. */
  method CommitAndBegin(env: Env, rooms: seq<Room>, ghost s: State) returns (ok: bool, ghost s': State)
    requires env.Valid() && Tracks(env.V(), s) && env.txnid < MAX_ID
    requires env.freePgs[0] + |env.loosePgs| <= MAX_INT
    requires RoomsOk(rooms, env.pglast, Unwritten(env.V()))
    modifies env, env.pghead, env.freePgs
    ensures ok ==> env.Valid() && env.pghead == null && Tracks(env.V(), s') && Committed(s, s')
    ensures ok ==> env.txnid == old(env.txnid) + 1 && env.nextPgno == old(env.nextPgno) && env.L() == NEW_LEDGER
    ensures env.freePgs == old(env.freePgs) || fresh(env.freePgs)
    ensures old(env.freePgs[0] + |env.loosePgs|) <= SAFE_LENGTH ==> ok
  {
    ok, s' := Save(env, rooms, s);
    if ok { env.Begin(env.txnid, env.nextPgno); }
  }

  /** How many page numbers the commit has to return to the freeDB. */
  ghost function Unwritten(v: View): nat { if v.head.None? then 0 else |v.head.value| + |v.loose| }

  lemma LooseBounded(v: View, s: State)
    requires Tracks(v, s)
    ensures forall p :: p in v.loose ==> p <= MAX_ID
  {
    forall p | p in v.loose ensures p <= MAX_ID {
      assert p in multiset(s.loose);
      assert Places(s.txn.value, s.loose, PickMeta(s).freeDB, p) == One(2 <= p < v.nextPg);
    }
  }

  /** The file once the dirty pages of the tree have been written to it. */
  ghost function Flush(s: State): (disk: map<nat, int>)
    requires s.txn.Some?
    ensures Flushed(s, disk)
  {
    s.disk + map p | p in s.txn.value.tree && p in s.txn.value.dirty :: s.txn.value.tree[p]
  }

  lemma CommitLists(v: View, s: State, own: seq<nat>, list: seq<nat>, rooms: seq<Room>, recs: map<nat, seq<nat>>)
    returns (s': State)
    requires Tracks(v, s) && v.txnid < MAX_ID && RoomsOk(rooms, v.last, Unwritten(v))
    requires OwnList(v, own) && Returned(v, list) && Fills(recs, list, rooms)
    ensures Begun(s, s', v.oldest, v.nextPg, v.txnid, Saved(v, own, recs), v.readers) && Bounded(Saved(v, own, recs))
  {
    ReturnedLength(v, list);
    var s1, v';
    s1, v', s' := NextTransactionStands(v, s, own, list, rooms, recs, Flush(s));
  }

  lemma ReturnedLength(v: View, list: seq<nat>)
    requires Returned(v, list)
    ensures |list| == Unwritten(v)
  {
    if v.head.Some? {
      var loose :| SortedLoose(v, loose) && list == Merged(v.head.value, loose);
      assert |multiset(loose)| == |loose| && |multiset(v.loose)| == |v.loose|;
    }
  }

  /** mdb_txn_abort of a transaction without loose pages, and the beginning of another one. */
  method AbortAndBegin(env: Env, next: nat, ghost s: State) returns (ghost s': State)
    requires env.Valid() && Tracks(env.V(), s) && env.loosePgs == [] && next == PickMeta(s).nextPg
    modifies env, env.freePgs
    ensures env.Valid() && env.pghead == null && env.freePgs == old(env.freePgs)
    ensures env.txnid == old(env.txnid) && env.nextPgno == next && env.L() == NEW_LEDGER
    ensures Tracks(env.V(), s') && SameSnapshots(s, s') && s'.txn.value.tree == PickMeta(s).tree
  {
    s' := AbortStands(env.V(), s);
    env.Begin(env.txnid - 1, next);
  }

  lemma AbortStands(v: View, s: State) returns (s': State)
    requires Tracks(v, s) && v.loose == []
    ensures Tracks(View(None, 0, v.oldest, [], [], {}, PickMeta(s).nextPg, v.txnid, v.freeDB, v.readers), s')
    ensures SameSnapshots(s, s') && s'.txn.value.tree == PickMeta(s).tree
  {
    var s1 := s.(txn := None);
    AbortInv(s, s1);
    ReachedStep(s, Step.Abort, s1);
    var v';
    v', s' := BeginStands(s1, v.freeDB, v.readers);
    ReachedStep(s1, BeginWriter, s');
  }

  // ---------- whole runs of the environment ----------

  /** What a caller may ask for. */
  datatype Op =
    | Alloc(num: nat)
    | Touch(p: nat)
    | Loose(p: nat, inFreeDB: bool)
    | FreeRun(pg: nat, n: nat)
    | BeginRead(slot: nat, pid: nat)
    | EndRead(slot: nat)
    | Commit(rooms: seq<Room>)
    | Abort

  /** What the layer above the environment knows: the pages of the running transaction's tree,
      those of the last committed one, and where the latter ends. */
  datatype Book = Book(pages: set<nat>, committed: set<nat>, next: nat)

  ghost predicate Knows(b: Book, s: State)
    requires Inv(s) && s.txn.Some?
  {
    b.pages == TreePages(s) && b.committed == PickMeta(s).tree.Keys && b.next == PickMeta(s).nextPg
  }

  /** A slot of the reader table that nobody reads with: it is free, or holds the largest id. */
  ghost predicate Idle(slot: Slot) { slot.pid == 0 || slot.txnid >= 0xFFFF_FFFF_FFFF_FFFF }

  ghost function TotalSize(rooms: seq<Room>): nat {
    if rooms == [] then 0 else rooms[0].size + TotalSize(rooms[1..])
  }

  /** A reservation that a commit can use: increasing keys of consumed records, and n numbers fit. */
  ghost predicate Reserves(rooms: seq<Room>, last: nat, n: nat) {
    && TotalSize(rooms) >= n && (forall i :: 0 <= i < |rooms| ==> 1 <= rooms[i].id <= last)
    && (forall i :: 0 < i < |rooms| ==> rooms[i - 1].id < rooms[i].id)
  }

  lemma {:induction false} CapacityIsTotal(rooms: seq<Room>, more: seq<Room>)
    ensures Capacity(rooms + more) == Capacity(rooms) + TotalSize(more)
    decreases |more|
  {
    if more == [] {
      assert rooms + more == rooms;
    } else {
      CapacityIsTotal(rooms + [more[0]], more[1..]);
      assert rooms + [more[0]] + more[1..] == rooms + more && (rooms + [more[0]])[..|rooms|] == rooms;
    }
  }

  lemma {:induction false} NeighboursAscend(rooms: seq<Room>, i: nat, j: nat)
    requires i < j < |rooms| && forall k :: 0 < k < |rooms| ==> rooms[k - 1].id < rooms[k].id
    ensures rooms[i].id < rooms[j].id
    decreases j - i
  {
    assert rooms[j - 1].id < rooms[j].id;
    if i == j - 1 {
    } else {
      NeighboursAscend(rooms, i, j - 1);
    }
  }

  lemma ReservesIff(rooms: seq<Room>, last: nat, n: nat)
    ensures RoomsOk(rooms, last, n) <==> Reserves(rooms, last, n)
  {
    assert Capacity(rooms) == TotalSize(rooms) by {
      CapacityIsTotal([], rooms);
      assert [] + rooms == rooms;
    }
    hide Capacity, TotalSize;
    if Reserves(rooms, last, n) {
      forall i, j | 0 <= i < j < |rooms| ensures rooms[i].id < rooms[j].id { NeighboursAscend(rooms, i, j); }
      assert Ascending(rooms);
    }
  }

  /** What the operation means for the tree, the readers and the snapshots, with v and v' the lists
      before and after it.  What the caller may not ask for, such as freeing pages that are not in
      the tree, is passed over. */
  ghost predicate Effect(maxpg: nat, op: Op, v: View, s: State, rc: Rc, v': View, s': State)
    requires Inv(s) && s.txn.Some? && Inv(s') && s'.txn.Some?
  {
    match op
    case Alloc(num) =>
      if num == 0 then s' == s
      else
        && Answered(maxpg, num, v, rc, v')
        && if rc == Success then exists pgno :: Allocated(s, s', pgno, num) else Spared(s, s')
    case Touch(p) =>
      if p !in TreePages(s) then s' == s
      else
        && Answered(maxpg, 1, v, rc, v')
        && if rc == Success then exists pgno :: Exchanged(s, s', p, pgno) else Spared(s, s')
    case Loose(p, _) => SameSnapshots(s, s') && TreePages(s') == TreePages(s) - {p}
    case FreeRun(pg, n) =>
      if Run(pg, n) <= TreePages(s) && (pg in v.dirty ==> Run(pg, n) <= v.dirty)
      then SameSnapshots(s, s') && TreePages(s') == TreePages(s) - Run(pg, n) else s' == s
    case BeginRead(slot, pid) =>
      if slot < |v.readers| && Idle(v.readers[slot]) && pid != 0
      then slot !in s.readers && s' == s.(readers := s.readers[slot := PickMeta(s)]) else s' == s
    case EndRead(slot) => s' == s.(readers := s.readers - {slot})
    case Commit(rooms) => if Reserves(rooms, v.last, Unwritten(v)) then Committed(s, s') else s' == s
    case Abort =>
      if v.loose == [] then SameSnapshots(s, s') && s'.txn.value.tree == PickMeta(s).tree else s' == s
  }

  /** The operation needs an entry of the dirty list: no loose page serves it. */
  ghost predicate Asks(op: Op, v: View, s: State)
    requires s.txn.Some?
  {
    || (op.Alloc? && op.num > 0 && !(op.num == 1 && v.loose != []))
    || (op.Touch? && op.p in TreePages(s) && op.p !in v.dirty && v.loose == [])
  }

  /** The operation ends the transaction, and another one begins. */
  ghost predicate Ends(op: Op, v: View) {
    (op.Commit? && Reserves(op.rooms, v.last, Unwritten(v))) || (op.Abort? && v.loose == [])
  }

  /** What the operation answers, and what it does to the dirty list. */
  ghost predicate Accounts(op: Op, v: View, s: State, l: Ledger, rc: Rc, l': Ledger)
    requires s.txn.Some?
  {
    && (rc != Success ==> op.Alloc? || op.Touch?)
    && if Ends(op, v) then l' == NEW_LEDGER else Charged(l, Asks(op, v, s), rc, l')
  }

  /** One operation, if the caller may ask for it: a page it gives back is in the tree, a reader
      uses an idle slot, a reservation fits, and an abort leaves no loose page behind.  The result
      `ok` is false only for a commit that has a list too long for mdb_midl_sort. */
  method Perform(env: Env, op: Op, b: Book, ghost s: State) returns (ok: bool, rc: Rc, b': Book, ghost s': State)
    requires env.Valid() && env.maxpg <= MAX_ID && env.txnid < MAX_ID && Tracks(env.V(), s) && Knows(b, s)
    modifies env, env.pghead, env.freePgs
    ensures env.Valid() && (env.pghead == old(env.pghead) || env.pghead == null || fresh(env.pghead))
    ensures env.freePgs == old(env.freePgs) || fresh(env.freePgs)
    ensures Tracks(env.V(), s') && Knows(b', s')
    ensures ok ==> Effect(env.maxpg, op, old(env.V()), s, rc, env.V(), s')
    ensures ok ==> Accounts(op, old(env.V()), s, old(env.L()), rc, env.L())
    ensures env.txnid <= old(env.txnid) + 1
    ensures env.nextPgno <= old(env.nextPgno) || env.nextPgno < env.maxpg
    ensures !ok ==> op.Commit? && SAFE_LENGTH < env.nextPgno && b' == b && s' == s
    ensures !ok ==> env.V() == old(env.V()) && env.L() == old(env.L())
  {
    hide Inv, Effect, Accounts, Reached, Committed;
    ok, rc, b', s' := true, Success, b, s;
    if op.Alloc? || op.Touch? {
      rc, b', s' := Take(env, op, b, s);
    } else if op.Loose? || op.FreeRun? {
      b', s' := GiveBack(env, op, b, s);
    } else if op.BeginRead? || op.EndRead? {
      s' := Read(env, op, b, s);
    } else {
      ok, b', s' := Finish(env, op, b, s);
    }
  }

  method Take(env: Env, op: Op, b: Book, ghost s: State) returns (rc: Rc, b': Book, ghost s': State)
    requires env.Valid() && env.maxpg <= MAX_ID && Tracks(env.V(), s) && Knows(b, s) && (op.Alloc? || op.Touch?)
    modifies env, env.pghead, env.freePgs
    ensures env.Valid() && (env.pghead == old(env.pghead) || fresh(env.pghead))
    ensures env.freePgs == old(env.freePgs) || fresh(env.freePgs)
    ensures Tracks(env.V(), s') && Knows(b', s') && Effect(env.maxpg, op, old(env.V()), s, rc, env.V(), s')
    ensures Accounts(op, old(env.V()), s, old(env.L()), rc, env.L())
    ensures env.txnid == old(env.txnid)
    ensures env.nextPgno == old(env.nextPgno) || env.nextPgno < env.maxpg
  {
    hide Inv, Unread, Answered, Reached, RecordsMatch, ReadersMatch, StrictlyDescending;
    rc, b', s' := Success, b, s;
    if op.Alloc? && op.num > 0 {
      var pgno;
      rc, pgno, s' := AllocPages(env, op.num, s);
      if rc == Success { b' := b.(pages := b.pages + RunSet(pgno, op.num)); }
    } else if op.Touch? && op.p in b.pages {
      var pgno;
      rc, pgno, s' := TouchPage(env, op.p, s);
      if rc == Success { b' := b.(pages := b.pages - {op.p} + {pgno}); }
    }
  }

  method GiveBack(env: Env, op: Op, b: Book, ghost s: State) returns (b': Book, ghost s': State)
    requires env.Valid() && Tracks(env.V(), s) && Knows(b, s) && (op.Loose? || op.FreeRun?)
    modifies env, env.pghead, env.freePgs
    ensures env.Valid() && (env.pghead == old(env.pghead) || fresh(env.pghead))
    ensures env.freePgs == old(env.freePgs) || fresh(env.freePgs)
    ensures Tracks(env.V(), s') && Knows(b', s') && Effect(env.maxpg, op, old(env.V()), s, Success, env.V(), s')
    ensures Accounts(op, old(env.V()), s, old(env.L()), Success, env.L())
    ensures env.txnid == old(env.txnid) && env.nextPgno == old(env.nextPgno)
  {
    hide Inv, Reached;
    b', s' := b, s;
    if op.Loose? {
      if op.p in b.pages {
        s' := LoosePage(env, op.p, op.inFreeDB, s);
        b' := b.(pages := b.pages - {op.p});
      }
    } else {
      var run := RunSet(op.pg, op.n);
      if run <= b.pages && (op.pg in env.dirty ==> run <= env.dirty) {
        s' := FreeOverflow(env, op.pg, op.n, s);
        b' := b.(pages := b.pages - run);
      }
    }
  }

  method Read(env: Env, op: Op, b: Book, ghost s: State) returns (ghost s': State)
    requires env.Valid() && Tracks(env.V(), s) && Knows(b, s) && (op.BeginRead? || op.EndRead?)
    modifies env`readers
    ensures env.Valid() && Tracks(env.V(), s') && Knows(b, s')
    ensures Effect(env.maxpg, op, old(env.V()), s, Success, env.V(), s')
    ensures Accounts(op, old(env.V()), s, old(env.L()), Success, env.L())
  {
    hide Inv, Reached;
    s' := s;
    if op.BeginRead? {
      if op.slot < |env.readers| && !SlotActive(env.readers, op.slot) && op.pid != 0 {
        s' := StartReader(env, op.slot, op.pid, s);
      }
    } else if SlotActive(env.readers, op.slot) {
      s' := StopReader(env, op.slot, s);
    } else {
      assert s.readers - {op.slot} == s.readers;
    }
  }

  method Finish(env: Env, op: Op, b: Book, ghost s: State) returns (ok: bool, b': Book, ghost s': State)
    requires env.Valid() && env.txnid < MAX_ID && Tracks(env.V(), s) && Knows(b, s) && (op.Commit? || op.Abort?)
    modifies env, env.pghead, env.freePgs
    ensures env.Valid() && (env.pghead == old(env.pghead) || env.pghead == null || fresh(env.pghead))
    ensures env.freePgs == old(env.freePgs) || fresh(env.freePgs)
    ensures Tracks(env.V(), s') && Knows(b', s')
    ensures ok ==> Effect(env.maxpg, op, old(env.V()), s, Success, env.V(), s')
    ensures ok ==> Accounts(op, old(env.V()), s, old(env.L()), Success, env.L())
    ensures env.txnid <= old(env.txnid) + 1
    ensures env.nextPgno <= old(env.nextPgno)
    ensures !ok ==> op.Commit? && SAFE_LENGTH < env.nextPgno && b' == b && s' == s
    ensures !ok ==> env.V() == old(env.V()) && env.L() == old(env.L())
  {
    ok, b', s' := true, b, s;
    if op.Commit? { ReservesIff(op.rooms, env.pglast, Unwritten(env.V())); }
    ListsFit(env.V(), s);
    if op.Abort? {
      if env.loosePgs == [] {
        s' := AbortAndBegin(env, b.next, s);
        b' := b.(pages := b.committed);
      }
    } else if RoomsOk(op.rooms, env.pglast, if env.pghead == null then 0 else env.pghead[0] + |env.loosePgs|) {
      ok := env.freePgs[0] + |env.loosePgs| <= SAFE_LENGTH;
      if ok {
        var done;
        done, s' := CommitAndBegin(env, op.rooms, s);
        b' := Book(b.pages, b.pages, env.nextPgno);
      }
    }
  }

  /** The freed and the loose pages are different pages of the file. */
  lemma ListsFit(v: View, s: State)
    requires Stands(v, s)
    ensures |v.freed| + |v.loose| <= v.nextPg
  {
    var t := s.txn.value;
    var all, run := multiset(v.freed) + multiset(v.loose), multiset(Run(0, v.nextPg));
    forall p: nat ensures all[p] <= run[p] {
      assert Places(t, s.loose, PickMeta(s).freeDB, p) == One(2 <= p < t.nextPg);
    }
    assert run == all + (run - all) && |run| == v.nextPg && |all| == |v.freed| + |v.loose|;
  }

  /** The environment between two operations, and what the last one has answered. */
  datatype Moment = Moment(v: View, s: State, l: Ledger, rc: Rc)

  /** Every moment of a run of the environment, one per operation done: the lists stand for the end
      of a run of the page store, and each operation has its effect. */
  ghost predicate History(maxpg: nat, ops: seq<Op>, done: nat, ms: seq<Moment>) {
    && done <= |ops| && |ms| == done + 1 && ms[0].l == NEW_LEDGER
    && (forall i :: 0 <= i <= done ==> Tracks(ms[i].v, ms[i].s))
    && (forall i {:trigger Link(maxpg, ops, ms, i)} :: 0 <= i < done ==> Link(maxpg, ops, ms, i))
  }

  ghost predicate Leads(maxpg: nat, op: Op, m: Moment, m': Moment) {
    && Tracks(m.v, m.s) && Tracks(m'.v, m'.s) && Effect(maxpg, op, m.v, m.s, m'.rc, m'.v, m'.s)
    && Accounts(op, m.v, m.s, m.l, m'.rc, m'.l)
  }

  /** Operation i has led from its moment to the next one. */
  ghost predicate Link(maxpg: nat, ops: seq<Op>, ms: seq<Moment>, i: nat) {
    i < |ops| && i + 1 < |ms| && Leads(maxpg, ops[i], ms[i], ms[i + 1])
  }

  lemma LinkKept(maxpg: nat, ops: seq<Op>, ms: seq<Moment>, m: Moment, i: nat)
    requires Link(maxpg, ops, ms, i)
    ensures Link(maxpg, ops, ms + [m], i)
  {
    assert (ms + [m])[i] == ms[i] && (ms + [m])[i + 1] == ms[i + 1];
  }

  ghost predicate Following(maxpg: nat, ops: seq<Op>, done: nat, ms: seq<Moment>, v: View, l: Ledger, b: Book)
  {
    History(maxpg, ops, done, ms) && ms[done].v == v && ms[done].l == l && Knows(b, ms[done].s)
  }

  lemma Remember(maxpg: nat, ops: seq<Op>, done: nat, ms: seq<Moment>, m: Moment)
    requires History(maxpg, ops, done, ms) && done < |ops| && Leads(maxpg, ops[done], ms[done], m)
    ensures History(maxpg, ops, done + 1, ms + [m])
  {
    hide Effect, Inv, Accounts;
    forall i | 0 <= i < done + 1 ensures Link(maxpg, ops, ms + [m], i) {
      if i < done { LinkKept(maxpg, ops, ms, m, i); }
    }
  }

  lemma EffectKeepsReader(maxpg: nat, op: Op, m: Moment, m': Moment, r: nat)
    requires Leads(maxpg, op, m, m') && r in m.s.readers && op != Op.EndRead(r)
    ensures r in m'.s.readers && m'.s.readers[r] == m.s.readers[r]
  {
  }

  lemma ReaderNext(maxpg: nat, ops: seq<Op>, done: nat, ms: seq<Moment>, i: nat, r: nat)
    requires History(maxpg, ops, done, ms) && i < done && r in ms[i].s.readers && ops[i] != Op.EndRead(r)
    ensures r in ms[i + 1].s.readers && ms[i + 1].s.readers[r] == ms[i].s.readers[r]
  {
    assert Link(maxpg, ops, ms, i);
    EffectKeepsReader(maxpg, ops[i], ms[i], ms[i + 1], r);
  }

  lemma ReaderReads(s: State, r: nat)
    requires Inv(s) && r in s.readers
    ensures forall p :: p in s.readers[r].tree ==> p in s.disk && s.disk[p] == s.readers[r].tree[p]
  {
    assert Pinned(s, s.readers[r]) && PinnedOk(PickMeta(s), s.oldest, s.disk, s.readers[r]);
  }

  lemma {:induction false} ReaderStays(maxpg: nat, ops: seq<Op>, done: nat, ms: seq<Moment>, i: nat, j: nat, r: nat)
    requires History(maxpg, ops, done, ms) && i <= j <= done && r in ms[i].s.readers
    requires forall x :: i <= x < j ==> ops[x] != Op.EndRead(r)
    ensures r in ms[j].s.readers && ms[j].s.readers[r] == ms[i].s.readers[r]
    decreases j - i
  {
    hide Effect, Inv;
    if i == j {
    } else {
      ReaderNext(maxpg, ops, done, ms, i, r);
      ReaderStays(maxpg, ops, done, ms, i + 1, j, r);
    }
  }

  /** Whatever the writer and the other readers do, a reader that has not ended keeps the snapshot
      it began with, and the file keeps exactly the contents of its pages. */
  lemma ReaderUnharmed(maxpg: nat, ops: seq<Op>, done: nat, ms: seq<Moment>, i: nat, j: nat, r: nat)
    requires History(maxpg, ops, done, ms) && i <= j <= done && r in ms[i].s.readers
    requires forall x :: i <= x < j ==> ops[x] != Op.EndRead(r)
    ensures r in ms[j].s.readers && ms[j].s.readers[r] == ms[i].s.readers[r]
    ensures var tree, disk := ms[i].s.readers[r].tree, ms[j].s.disk;
            forall p :: p in tree ==> p in disk && disk[p] == tree[p]
  {
    ReaderStays(maxpg, ops, done, ms, i, j, r);
    ReaderReads(ms[j].s, r);
  }

  /** How many operations of the running transaction have used up an entry of the dirty list. */
  ghost function Entries(ops: seq<Op>, ms: seq<Moment>, i: nat): nat
    requires i < |ms| <= |ops| + 1 && forall j :: 0 <= j < |ms| ==> ms[j].s.txn.Some?
  {
    if i == 0 || Ends(ops[i - 1], ms[i - 1].v) then 0
    else
      var n := Entries(ops, ms, i - 1);
      if Asks(ops[i - 1], ms[i - 1].v, ms[i - 1].s) && ms[i].rc == Success then n + 1 else n
  }

  lemma {:induction false} RoomLeft(maxpg: nat, ops: seq<Op>, done: nat, ms: seq<Moment>, i: nat)
    requires History(maxpg, ops, done, ms) && i <= done
    ensures ms[i].l.room + Entries(ops, ms, i) == 131071
  {
    hide Effect, Inv;
    if i == 0 {
    } else {
      RoomLeft(maxpg, ops, done, ms, i - 1);
      assert Link(maxpg, ops, ms, i - 1);
    }
  }

  /** In every run of the environment an operation answers that the transaction is full if and only
      if 131071 allocations of this transaction have succeeded without a loose page, and none
      serves this one either.  Pages given back make no room. */
  lemma TxnFullIff(maxpg: nat, ops: seq<Op>, done: nat, ms: seq<Moment>, i: nat)
    requires History(maxpg, ops, done, ms) && i < done
    ensures ms[i + 1].rc == TxnFull <==> Asks(ops[i], ms[i].v, ms[i].s) && Entries(ops, ms, i) == 131071
  {
    hide Effect, Inv;
    RoomLeft(maxpg, ops, done, ms, i);
    assert Link(maxpg, ops, ms, i);
  }

  /** A new file, at the beginning of its first transaction. */
  method Open(maxpg: nat, slots: nat) returns (env: Env, ghost s: State)
    ensures fresh(env) && fresh(env.freePgs) && env.pghead == null && env.maxpg == maxpg
    ensures env.Valid() && env.txnid == 1 && env.nextPgno == 2 && Tracks(env.V(), s)
    ensures Init(s.(txn := None)) && Knows(Book({}, {}, 2), s) && env.L() == NEW_LEDGER
  {
    env := new Env(maxpg, slots);
    ghost var m := Meta(0, 2, map[], map[]);
    ghost var s0 := State(Some(m), Some(m), map[], 0, None, [], map[]);
    ghost var v;
    v, s := FirstStands(s0, env.readers);
    assert s.(txn := None) == s0;
  }

  method PlayOne(env: Env, ops: seq<Op>, done: nat, b: Book, ghost ms: seq<Moment>)
    returns (ok: bool, next: nat, b': Book, ghost ms': seq<Moment>)
    requires env.Valid() && env.maxpg <= MAX_ID && env.txnid < MAX_ID
    requires done < |ops| && Following(env.maxpg, ops, done, ms, env.V(), env.L(), b)
    modifies env, env.pghead, env.freePgs
    ensures env.Valid() && (env.pghead == old(env.pghead) || env.pghead == null || fresh(env.pghead))
    ensures env.freePgs == old(env.freePgs) || fresh(env.freePgs)
    ensures env.txnid <= old(env.txnid) + next - done && (env.nextPgno <= old(env.nextPgno) || env.nextPgno < env.maxpg)
    ensures Following(env.maxpg, ops, next, ms', env.V(), env.L(), b') && ms'[0] == ms[0]
    ensures next == if ok then done + 1 else done
    ensures !ok ==> ops[done].Commit? && SAFE_LENGTH < env.nextPgno
  {
    var rc;
    ghost var s';
    ok, rc, b', s' := Perform(env, ops[done], b, ms[done].s);
    next, ms' := done, ms;
    if ok {
      Remember(env.maxpg, ops, done, ms, Moment(env.V(), s', env.L(), rc));
      next, ms' := done + 1, ms + [Moment(env.V(), s', env.L(), rc)];
    }
  }

  lemma Starting(maxpg: nat, ops: seq<Op>, s: State, v: View, b: Book)
    requires Tracks(v, s) && Knows(b, s)
    ensures Following(maxpg, ops, 0, [Moment(v, s, NEW_LEDGER, Success)], v, NEW_LEDGER, b)
  {
  }

  /** The rest of the operations, as far as they can be done. */
  method PlayFrom(env: Env, ops: seq<Op>, done: nat, b: Book, ghost ms: seq<Moment>)
    returns (last: nat, b': Book, ghost ms': seq<Moment>)
    requires env.Valid() && env.maxpg <= MAX_ID && done <= |ops| && env.txnid + |ops| - done <= MAX_ID
    requires Following(env.maxpg, ops, done, ms, env.V(), env.L(), b)
    modifies env, env.pghead, env.freePgs
    ensures env.Valid() && Following(env.maxpg, ops, last, ms', env.V(), env.L(), b') && ms'[0] == ms[0]
    ensures env.nextPgno <= old(env.nextPgno) || env.nextPgno < env.maxpg
    ensures last < |ops| ==> ops[last].Commit? && SAFE_LENGTH < env.nextPgno
    decreases |ops| - done
  {
    last, b', ms' := done, b, ms;
    if done < |ops| {
      var ok;
      ok, last, b', ms' := PlayOne(env, ops, done, b, ms);
      if ok { last, b', ms' := PlayFrom(env, ops, last, b', ms'); }
    }
  }

  /** Any sequence of operations on a new environment: its lists stand, after each of them, for the
      end of a run of the page store.  All of them are done if the file has room for no more pages
      than mdb_midl_sort can sort; otherwise at least those before a commit that has too many. */
  method Play(ops: seq<Op>, maxpg: nat, slots: nat) returns (env: Env, done: nat, b: Book, ghost ms: seq<Moment>)
    requires maxpg <= 0xFFFF_FFFF_FFFF_FFFF && |ops| < 0xFFFF_FFFF_FFFF_FFFF
    ensures env.Valid() && env.maxpg == maxpg && Following(maxpg, ops, done, ms, env.V(), env.L(), b)
    ensures Init(ms[0].s.(txn := None))
    ensures done < |ops| ==> ops[done].Commit? && 0x4000_0003 < env.nextPgno < maxpg
  {
    ghost var s;
    env, s := Open(maxpg, slots);
    Starting(env.maxpg, ops, s, env.V(), Book({}, {}, 2));
    done, b, ms := PlayFrom(env, ops, 0, Book({}, {}, 2), [Moment(env.V(), s, env.L(), Success)]);
  }
}
