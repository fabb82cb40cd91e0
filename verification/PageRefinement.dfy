/**
  What the list effects of module PageAlloc mean for the page store: every operation of the
  environment is a sequence of page-store steps, and the lists go on standing for the state
  it leads to.  Module PageSave starts and ends a transaction, and module PageEnv applies both
  to the environment itself, one operation after another.
 */
module PageRefinement {
  import opened Options
  import opened Midl
  import opened PageStore
  import opened PageRuns
  import opened PageView
  import opened PageAlloc

  /** From s to s' only the reclaimed list, the last consumed record and the cached oldest
      reader have changed. */
  ghost predicate Refilled(s: State, s': State) {
    && s.txn.Some? && s'.txn.Some? && s' == s.(oldest := s'.oldest, txn := s'.txn)
    && s'.txn.value == s.txn.value.(head := s'.txn.value.head, last := s'.txn.value.last)
  }

  /** From s to s' nothing has changed that a reader or a recovery after a crash can see. */
  ghost predicate SameSnapshots(s: State, s': State) {
    s'.meta0 == s.meta0 && s'.meta1 == s.meta1 && s'.readers == s.readers && s'.disk == s.disk
  }

  /** The contents of freshly allocated pages. */
  ghost function Blank(pgno: nat, num: nat): (cs: Tree)
    ensures cs.Keys == Run(pgno, num)
  {
    map p | p in Run(pgno, num) :: 0
  }

  lemma OldestAgrees(v: View, s: State, o: nat)
    requires ReadersMatch(v.readers, s.readers) && 1 <= v.txnid <= MAX_ID && OldestSlot(v.readers, v.txnid - 1, o)
    ensures IsOldest(s.readers, v.txnid - 1, o)
  {
    if o != v.txnid - 1 {
      var r :| 0 <= r < |v.readers| && v.readers[r].pid != 0 && v.readers[r].txnid == o;
      assert SlotActive(v.readers, r);
    }
  }

  lemma RefillOneRefines(v: View, s: State, r: Refill) returns (s': State)
    requires Stands(v, s) && v.txnid <= MAX_ID && RefillOk(v, r)
    ensures Stands(RefillOne(v, r), s') && Refilled(s, s') && (Reached(s) ==> Reached(s'))
  {
    match r
    case Refresh(o) =>
      OldestAgrees(v, s, o);
      s' := RefreshOldest(v, s, o);
      if Reached(s) { ReachedStep(s, FindOldest(o), s'); }
    case Fetch(k) =>
      s' := ReclaimRecord(v, s, k);
      if Reached(s) { ReachedStep(s, Reclaim(k), s'); }
  }

  lemma {:induction false} RefillRefines(v: View, s: State, rs: seq<Refill>, m: View) returns (s': State)
    requires Stands(v, s) && v.txnid <= MAX_ID && RefillAll(v, rs) == Some(m)
    ensures Stands(m, s') && Refilled(s, s') && m.txnid == v.txnid && (Reached(s) ==> Reached(s'))
    decreases |rs|
  {
    if rs == [] {
      s' := s;
    } else {
      var rs', r := rs[..|rs| - 1], rs[|rs| - 1];
      var m' := RefillAll(v, rs').value;
      s' := RefillRefines(v, s, rs', m');
      s' := RefillOneRefines(m', s', r);
    }
  }

  lemma UsesLooseRefines(v: View, s: State, num: nat, pgno: nat, v': View) returns (step: Step, s': State)
    requires Stands(v, s) && UsesLoose(v, num, pgno, v')
    ensures Next(s, step, s') && Stands(v', s') && HandedOut(s, step) == Run(pgno, num) && SameSnapshots(s, s')
    ensures s'.txn.value.tree.Keys == s.txn.value.tree.Keys + Run(pgno, num)
  {
    step := TakeLoose(pgno, 0);
    s' := TakeLoosePage(v, s, 0);
    assert Run(pgno, 1) == {pgno};
  }

  lemma UsesRunRefines(v: View, s: State, i: nat, num: nat, pgno: nat, v': View) returns (step: Step, s': State)
    requires Stands(v, s) && UsesRun(v, i, num, pgno, v')
    ensures Next(s, step, s') && Stands(v', s') && HandedOut(s, step) == Run(pgno, num) && SameSnapshots(s, s')
    ensures s'.txn.value.tree.Keys == s.txn.value.tree.Keys + Run(pgno, num)
  {
    step := TakeRun(pgno, num, Blank(pgno, num));
    s' := TakeRunAt(v, s, i, num, Blank(pgno, num));
  }

  lemma UsesNewRefines(v: View, s: State, num: nat, pgno: nat, v': View) returns (step: Step, s': State)
    requires Stands(v, s) && UsesNew(v, num, pgno, v')
    ensures Next(s, step, s') && Stands(v', s') && HandedOut(s, step) == Run(pgno, num) && SameSnapshots(s, s')
    ensures s'.txn.value.tree.Keys == s.txn.value.tree.Keys + Run(pgno, num)
  {
    step := TakeNew(num, Blank(pgno, num));
    s' := TakeNewPages(v, s, num, Blank(pgno, num));
  }

  lemma UsesRefines(v: View, s: State, num: nat, pgno: nat, v': View) returns (step: Step, s': State)
    requires Stands(v, s) && Uses(v, num, pgno, v')
    ensures Next(s, step, s') && Stands(v', s') && HandedOut(s, step) == Run(pgno, num) && SameSnapshots(s, s')
    ensures s'.txn.value.tree.Keys == s.txn.value.tree.Keys + Run(pgno, num)
  {
    if UsesLoose(v, num, pgno, v') {
      step, s' := UsesLooseRefines(v, s, num, pgno, v');
    } else if UsesNew(v, num, pgno, v') {
      step, s' := UsesNewRefines(v, s, num, pgno, v');
    } else {
      var i :| UsesRun(v, i, num, pgno, v');
      step, s' := UsesRunRefines(v, s, i, num, pgno, v');
    }
  }

  /** An allocation refills the reclaimed list and then takes one step that hands out pages
      which no readable snapshot, and not the transaction itself, is using. */
  lemma AllocRefines(v: View, s: State, rs: seq<Refill>, m: View, num: nat, pgno: nat, v': View)
    returns (mid: State, step: Step, s': State)
    requires Stands(v, s) && v.txnid <= MAX_ID && RefillAll(v, rs) == Some(m) && Uses(m, num, pgno, v')
    ensures Refilled(s, mid) && Inv(mid) && Next(mid, step, s') && Stands(v', s')
    ensures HandedOut(mid, step) == Run(pgno, num)
    ensures forall p :: Pinned(s, p) ==> Run(pgno, num) !! p.tree.Keys
    ensures Run(pgno, num) !! s.txn.value.tree.Keys
    ensures s'.txn.value.tree.Keys == s.txn.value.tree.Keys + Run(pgno, num)
    ensures SameSnapshots(s, s') && (Reached(s) ==> Reached(s'))
  {
    mid := RefillRefines(v, s, rs, m);
    step, s' := UsesRefines(m, mid, num, pgno, v');
    if Reached(mid) { ReachedStep(mid, step, s'); }
    AllHandedOutSafe(mid, step, s');
    assert forall p :: Pinned(s, p) ==> Pinned(mid, p);
  }

  lemma AllHandedOutSafe(s: State, step: Step, s': State)
    requires Inv(s) && s.txn.Some? && Next(s, step, s')
    ensures forall p :: Pinned(s, p) ==> HandedOut(s, step) !! p.tree.Keys
    ensures HandedOut(s, step) !! s.txn.value.tree.Keys
  {
    forall p | Pinned(s, p) ensures HandedOut(s, step) !! p.tree.Keys { HandedOutIsSafe(s, step, s', p); }
    HandedOutIsSafe(s, step, s', PickMeta(s));
  }

  lemma SwapPages(keys: set<nat>, p: nat, q: nat)
    requires p in keys && Run(q, 1) !! keys
    ensures p != q && Run(p, 1) <= keys + Run(q, 1) && keys + Run(q, 1) - Run(p, 1) == keys - {p} + {q}
  {
    assert Run(p, 1) == {p} && Run(q, 1) == {q};
  }

  /** Touching a clean page of the tree replaces it by a page nobody can be reading. */
  lemma TouchRefines(v: View, s: State, p: nat, rs: seq<Refill>, m: View, pgno: nat, m': View, v': View)
    returns (mid: State, step: Step, s1: State, s': State)
    requires Stands(v, s) && v.txnid <= MAX_ID && p in s.txn.value.tree && p !in v.dirty
    requires RefillAll(v, rs) == Some(m) && Uses(m, 1, pgno, m') && v' == m'.(freed := m'.freed + Down(p, 1))
    ensures Refilled(s, mid) && Inv(mid) && Next(mid, step, s1) && Inv(s1) && Next(s1, Free(p, 1, Down(p, 1)), s')
    ensures Stands(v', s') && pgno != p && SameSnapshots(s, s')
    ensures s'.txn.value.tree.Keys == s.txn.value.tree.Keys - {p} + {pgno}
    ensures forall m :: Pinned(s, m) ==> pgno !in m.tree
    ensures Reached(s) ==> Reached(s')
  {
    mid, step, s1 := AllocRefines(v, s, rs, m, 1, pgno, m');
    var keys := s.txn.value.tree.Keys;
    SwapPages(keys, p, pgno);
    s' := FreePages(m', s1, p, 1);
    if Reached(s1) { ReachedStep(s1, Free(p, 1, Down(p, 1)), s'); }
  }

  lemma LooseRefines(v: View, s: State, p: nat, inFreeDB: bool, v': View) returns (step: Step, s': State)
    requires Stands(v, s) && p in s.txn.value.tree
    requires v' == if p in v.dirty && !inFreeDB then v.(loose := [p] + v.loose) else v.(freed := v.freed + Down(p, 1))
    ensures Next(s, step, s') && Stands(v', s') && s'.txn.value.tree.Keys == s.txn.value.tree.Keys - {p}
    ensures SameSnapshots(s, s') && (Reached(s) ==> Reached(s'))
  {
    if p in v.dirty && !inFreeDB {
      step := Loosen(p);
      s' := LoosenPage(v, s, p);
    } else {
      assert Run(p, 1) == {p};
      step := Free(p, 1, Down(p, 1));
      s' := FreePages(v, s, p, 1);
    }
    if Reached(s) { ReachedStep(s, step, s'); }
  }

  /** Freeing an overflow run; its pages are dirty together or clean together. */
  lemma OvpageFreeRefines(v: View, s: State, pg: nat, n: nat, v': View) returns (step: Step, s': State)
    requires Stands(v, s) && Run(pg, n) <= s.txn.value.tree.Keys && (pg in v.dirty ==> Run(pg, n) <= v.dirty)
    requires v' == if v.head.Some? && pg in v.dirty
                   then v.(head := Some(With(HeadList(v), pg, n)), dirty := v.dirty - Run(pg, n))
                   else v.(freed := v.freed + Down(pg, n))
    ensures Next(s, step, s') && Stands(v', s') && s'.txn.value.tree.Keys == s.txn.value.tree.Keys - Run(pg, n)
    ensures SameSnapshots(s, s') && (Reached(s) ==> Reached(s'))
  {
    if v.head.Some? && pg in v.dirty {
      step := FreeDirtyRun(pg, n);
      s' := ReturnRun(v, s, pg, n);
    } else {
      step := Free(pg, n, Down(pg, n));
      s' := FreePages(v, s, pg, n);
    }
    if Reached(s) { ReachedStep(s, step, s'); }
  }
}
