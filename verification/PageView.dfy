/**
  The writer's in-memory lists as values, what they stand for in the page store, and the
  effect of each list operation on it.
 */
module PageView {
  import opened Options
  import opened Midl
  import opened PageStore
  import opened PageRuns

  /** One entry of the reader table; an idle entry holds the largest transaction id. */
  datatype Slot = Slot(pid: nat, txnid: nat)

  datatype View = View(head: Option<seq<nat>>, last: nat, oldest: nat, freed: seq<nat>, loose: seq<nat>,
                       dirty: set<nat>, nextPg: nat, txnid: nat,
                       freeDB: map<nat, seq<nat>>, readers: seq<Slot>)

  predicate SlotActive(readers: seq<Slot>, r: nat) {
    r < |readers| && readers[r].pid != 0 && readers[r].txnid < MAX_ID
  }

  ghost predicate ReadersMatch(readers: seq<Slot>, rs: map<nat, Meta>) {
    && (forall r :: r in rs ==> SlotActive(readers, r) && readers[r].txnid == rs[r].txnid)
    && (forall r: nat :: SlotActive(readers, r) ==> r in rs)
  }

  ghost predicate RecordsMatch(freeDB: map<nat, seq<nat>>, f: FreeDB) {
    && freeDB.Keys == f.Keys
    && (forall k :: k in f ==> StrictlyDescending(freeDB[k]) && Elems(freeDB[k]) == f[k])
    && (forall k, i :: k in f && 0 <= i < |freeDB[k]| ==> freeDB[k][i] <= MAX_ID)
  }

  /** The view v stands for state s with a write transaction in progress. */
  ghost predicate Stands(v: View, s: State) {
    && Inv(s) && s.txn.Some?
    && var t := s.txn.value;
       && t.last == v.last && s.oldest == v.oldest && t.freed == v.freed && s.loose == v.loose
       && t.dirty == v.dirty && t.nextPg == v.nextPg && t.txnid == v.txnid
       && (t.head.None? <==> v.head.None?)
       && (v.head.Some? ==> StrictlyDescending(v.head.value) && Elems(v.head.value) == t.head.value)
       && RecordsMatch(v.freeDB, PickMeta(s).freeDB)
       && ReadersMatch(v.readers, s.readers)
  }

  ghost function HeadList(v: View): seq<nat> { if v.head.Some? then v.head.value else [] }

  // ---------- one lemma per list operation ----------

  lemma RefreshOldest(v: View, s: State, o: nat) returns (s': State)
    requires Stands(v, s) && IsOldest(s.readers, v.txnid - 1, o)
    ensures Next(s, FindOldest(o), s') && Stands(v.(oldest := o), s')
  {
    s' := s.(oldest := o);
    StepInv(s, FindOldest(o), s');
  }

  /** Merging the next old enough freeDB record into the reclaimed list. */
  lemma ReclaimRecord(v: View, s: State, k: nat) returns (s': State)
    requires Stands(v, s) && k in v.freeDB && v.last < k < v.oldest
    requires forall j :: j in v.freeDB && v.last < j ==> k <= j
    ensures Next(s, Reclaim(k), s')
    ensures Stands(v.(head := Some(Merged(HeadList(v), v.freeDB[k])), last := k), s')
  {
    var m, t := PickMeta(s), s.txn.value;
    var t' := t.(head := Some(HeadPages(t) + m.freeDB[k]), last := k);
    s' := s.(txn := Some(t'));
    StepInv(s, Reclaim(k), s');
    var a, b := HeadList(v), v.freeDB[k];
    assert Elems(a) == HeadPages(t) && Elems(b) == m.freeDB[k];
    forall p | p in HeadPages(t) ensures p !in m.freeDB[k] {
      assert Places(t, s.loose, m.freeDB, p) <= 1;
      assert p in m.freeDB[k] ==> Recorded(m.freeDB, t.last, p);
    }
    MergedIsUnion(a, b);
  }

  lemma TakeLoosePage(v: View, s: State, c: int) returns (s': State)
    requires Stands(v, s) && v.loose != []
    ensures Next(s, TakeLoose(v.loose[0], c), s') && Stands(v.(loose := v.loose[1..]), s')
    ensures s'.txn.value.tree.Keys == s.txn.value.tree.Keys + {v.loose[0]}
  {
    var t := s.txn.value;
    s' := s.(loose := s.loose[1..], txn := Some(t.(tree := t.tree[v.loose[0] := c])));
    StepInv(s, TakeLoose(v.loose[0], c), s');
  }

  /** Taking the run that ends at the last place where one of this length ends. */
  lemma TakeRunAt(v: View, s: State, i: nat, n: nat, cs: Tree) returns (s': State)
    requires Stands(v, s) && v.head.Some? && EndsRun(v.head.value, i, n)
    requires forall x :: i < x <= |v.head.value| ==> !EndsRun(v.head.value, x, n)
    requires cs.Keys == Run(v.head.value[i - 1], n)
    ensures Next(s, TakeRun(v.head.value[i - 1], n, cs), s')
    ensures Stands(v.(head := Some(Without(v.head.value, i, n)), dirty := v.dirty + Run(v.head.value[i - 1], n)), s')
    ensures s'.txn.value.tree.Keys == s.txn.value.tree.Keys + Run(v.head.value[i - 1], n)
  {
    var h, t := v.head.value, s.txn.value;
    var p := h[i - 1];
    WithoutRun(h, i, n);
    forall q: nat | q < p ensures !(Run(q, n) <= HeadPages(t)) {
      if Run(q, n) <= Elems(h) { LastPlaceIsLowest(h, i, n, q); }
    }
    s' := s.(txn := Some(t.(head := Some(HeadPages(t) - Run(p, n)), tree := t.tree + cs,
                            dirty := t.dirty + Run(p, n))));
    StepInv(s, TakeRun(p, n, cs), s');
  }

  lemma TakeNewPages(v: View, s: State, n: nat, cs: Tree) returns (s': State)
    requires Stands(v, s) && cs.Keys == Run(v.nextPg, n)
    ensures Next(s, TakeNew(n, cs), s')
    ensures Stands(v.(nextPg := v.nextPg + n, dirty := v.dirty + Run(v.nextPg, n)), s')
    ensures s'.txn.value.tree.Keys == s.txn.value.tree.Keys + Run(v.nextPg, n)
    ensures HandedOut(s, TakeNew(n, cs)) == Run(v.nextPg, n)
  {
    var t := s.txn.value;
    s' := s.(txn := Some(t.(nextPg := t.nextPg + n, tree := t.tree + cs, dirty := t.dirty + Run(t.nextPg, n))));
    StepInv(s, TakeNew(n, cs), s');
  }

  lemma LoosenPage(v: View, s: State, p: nat) returns (s': State)
    requires Stands(v, s) && p in s.txn.value.tree && p in v.dirty
    ensures Next(s, Loosen(p), s') && Stands(v.(loose := [p] + v.loose), s')
    ensures s'.txn.value.tree.Keys == s.txn.value.tree.Keys - {p}
  {
    var t := s.txn.value;
    s' := s.(loose := [p] + s.loose, txn := Some(t.(tree := t.tree - {p})));
    StepInv(s, Loosen(p), s');
  }

  lemma FreePages(v: View, s: State, p: nat, n: nat) returns (s': State)
    requires Stands(v, s) && Run(p, n) <= s.txn.value.tree.Keys
    ensures Next(s, Free(p, n, Down(p, n)), s') && Stands(v.(freed := v.freed + Down(p, n)), s')
    ensures s'.txn.value.tree.Keys == s.txn.value.tree.Keys - Run(p, n)
  {
    var t := s.txn.value;
    DownIsRun(p, n);
    DistinctMultiset(Down(p, n));
    s' := s.(txn := Some(t.(tree := t.tree - Run(p, n), freed := t.freed + Down(p, n))));
    StepInv(s, Free(p, n, Down(p, n)), s');
  }

  lemma ReturnRun(v: View, s: State, p: nat, n: nat) returns (s': State)
    requires Stands(v, s) && v.head.Some? && Run(p, n) <= s.txn.value.tree.Keys && Run(p, n) <= v.dirty
    ensures Next(s, FreeDirtyRun(p, n), s')
    ensures Stands(v.(head := Some(With(v.head.value, p, n)), dirty := v.dirty - Run(p, n)), s')
    ensures s'.txn.value.tree.Keys == s.txn.value.tree.Keys - Run(p, n)
  {
    var t := s.txn.value;
    forall q | q in Run(p, n) ensures q !in Elems(v.head.value) {
      assert Places(t, s.loose, PickMeta(s).freeDB, q) <= 1;
    }
    WithRun(v.head.value, p, n);
    s' := s.(txn := Some(t.(tree := t.tree - Run(p, n), dirty := t.dirty - Run(p, n),
                            head := Some(t.head.value + Run(p, n)))));
    StepInv(s, FreeDirtyRun(p, n), s');
  }
}
