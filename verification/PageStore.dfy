/**
  LMDB's page accounting as a transition system.  A database file is a set of numbered
  pages plus two meta pages.  Each committed transaction leaves a snapshot: the pages
  reachable from its roots (with their contents) and its freeDB, which records under each
  transaction id the pages that this transaction stopped using.  One writer at a time
  works copy-on-write beside any number of readers, each pinned to the snapshot that was
  current when it started.  A crash forgets everything in memory and may tear one meta page.
 */
module PageStore {
  import opened Arith
  import opened Options

  type Tree = map<nat, int>           // page number -> content
  type FreeDB = map<nat, set<nat>>    // transaction id -> pages it freed

  /** What one meta page names: a complete snapshot. */
  datatype Meta = Meta(txnid: nat, nextPg: nat, tree: Tree, freeDB: FreeDB)

  /** The running write transaction: me_pghead and me_pglast are `head` and `last`. */
  datatype Txn = Txn(txnid: nat, nextPg: nat, tree: Tree, dirty: set<nat>,
                     freed: seq<nat>, head: Option<set<nat>>, last: nat)

  /** `loose` belongs to the environment's one write-transaction object, which outlives
      the transactions that use it. */
  datatype State = State(meta0: Option<Meta>, meta1: Option<Meta>, readers: map<nat, Meta>,
                         oldest: nat, txn: Option<Txn>, loose: seq<nat>, disk: map<nat, int>)

  // ---------- pages ----------

  /** The pages p, p+1, ..., p+n-1. */
  ghost function Run(p: nat, n: nat): (r: set<nat>)
    ensures forall q :: q in r <==> p <= q < p + n
    ensures |r| == n
  {
    if n == 0 then {} else Run(p, n - 1) + {p + n - 1}
  }

  ghost function HeadPages(t: Txn): set<nat> { if t.head.Some? then t.head.value else {} }

  /** Page p is listed in a freeDB record newer than `last`. */
  ghost predicate Recorded(f: FreeDB, last: nat, p: nat) { exists k :: k in f && last < k && p in f[k] }

  ghost predicate RecordsDisjoint(f: FreeDB) {
    forall j, k, p :: j in f && k in f && p in f[j] && p in f[k] ==> j == k
  }

  ghost function One(b: bool): nat { if b then 1 else 0 }

  /** In how many places page p is accounted for while transaction t runs. */
  ghost function Places(t: Txn, loose: seq<nat>, f: FreeDB, p: nat): nat {
    One(p in t.tree) + One(p in HeadPages(t)) + multiset(t.freed)[p] + multiset(loose)[p]
    + One(Recorded(f, t.last, p))
  }

  // ---------- meta pages and readers ----------

  ghost predicate Readable(s: State) { s.meta0.Some? || s.meta1.Some? }

  /** The newer of the two meta pages; a torn one is never picked. */
  ghost function Newest(meta0: Option<Meta>, meta1: Option<Meta>): Meta
    requires meta0.Some? || meta1.Some?
  {
    if meta0.None? || (meta1.Some? && meta0.value.txnid < meta1.value.txnid)
    then meta1.value else meta0.value
  }

  ghost function PickMeta(s: State): Meta
    requires Readable(s)
  {
    Newest(s.meta0, s.meta1)
  }

  /** The snapshots somebody may still read: pinned by a reader, or named by a meta page. */
  ghost predicate Pinned(s: State, m: Meta) {
    m in s.readers.Values || s.meta0 == Some(m) || s.meta1 == Some(m)
  }

  /** The transaction id mdb_find_oldest computes for a writer on top of snapshot `latest`. */
  ghost predicate IsOldest(readers: map<nat, Meta>, latest: nat, oldest: nat) {
    && oldest <= latest
    && (forall r :: r in readers ==> oldest <= readers[r].txnid)
    && (oldest == latest || exists r :: r in readers && readers[r].txnid == oldest)
  }

  /** The record a commit writes for itself: what it freed, and the loose pages too when
      there is no reclaimed list to return them to. */
  ghost predicate OwnRecord(t: Txn, loose: seq<nat>, p: nat) { p in t.freed || (t.head.None? && p in loose) }

  /** What mdb_freelist_save leaves in the freeDB: consumed records are gone, newer ones are
      kept, the pages freed by this transaction form its own record, and the unused part of
      the reclaimed list goes back under consumed transaction ids. */
  ghost predicate FreelistSaved(t: Txn, loose: seq<nat>, f: FreeDB, f': FreeDB) {
    && RecordsDisjoint(f')
    && (forall k :: k in f' ==> 1 <= k && (k <= t.last || k in f || k == t.txnid))
    && (forall k :: k in f && t.last < k ==> k in f' && f'[k] == f[k])
    && (t.txnid in f' ==> forall p :: p in f'[t.txnid] <==> OwnRecord(t, loose, p))
    && (t.txnid !in f' ==> forall p :: !OwnRecord(t, loose, p))
    && (forall k, p :: k in f' && k <= t.last && p in f'[k] ==> p in HeadPages(t) || p in loose)
    && (forall p :: p in HeadPages(t) || (t.head.Some? && p in loose) ==> ReturnedTo(f', t.last, p))
  }

  ghost predicate ReturnedTo(f: FreeDB, last: nat, p: nat) { exists k :: k in f && k <= last && p in f[k] }

  // ---------- steps ----------

  datatype Step =
    | BeginReader(r: nat)
    | EndReader(r: nat)
    | BeginWriter
    | FindOldest(o: nat)
    | Reclaim(k: nat)                        // merge one freeDB record into me_pghead
    | TakeLoose(p: nat, c: int)
    | TakeRun(p: nat, n: nat, cs: Tree)
    | TakeNew(n: nat, cs: Tree)
    | Modify(p: nat, c: int)
    | Loosen(p: nat)
    | Free(p: nat, n: nat, ps: seq<nat>)     // to mt_free_pgs
    | FreeDirtyRun(p: nat, n: nat)           // back to me_pghead
    | Flush(p: nat, c: int)
    | Commit(f: FreeDB, disk: map<nat, int>)
    | Abort
    | Crash(torn: Option<bool>)              // Some(false): meta page 0 torn, Some(true): meta page 1

  ghost predicate Next(s: State, step: Step, s': State)
    requires Readable(s)
  {
    var m := PickMeta(s);
    match step
    case BeginReader(r) => r !in s.readers && s' == s.(readers := s.readers[r := m])
    case EndReader(r) => r in s.readers && s' == s.(readers := s.readers - {r})
    case BeginWriter =>
      s.txn.None? && s' == s.(txn := Some(Txn(m.txnid + 1, m.nextPg, m.tree, {}, [], None, 0)))
    case Abort => s.txn.Some? && s' == s.(txn := None)
    case Crash(torn) =>
      && Readable(s')
      // The first transaction written to meta page 0 is 2, so page 1 then holds an odd one.
      && (torn == Some(false) && s.meta1.Some? ==> s.meta1.value.txnid != 0)
      && s' == State(if torn == Some(false) then None else s.meta0,
                     if torn == Some(true) then None else s.meta1, map[], 0, None, [], s.disk)
    case FindOldest(o) =>
      s.txn.Some? && IsOldest(s.readers, m.txnid, o) && s' == s.(oldest := o)
    case Flush(p, c) =>
      s.txn.Some? && p in s.txn.value.dirty && s' == s.(disk := s.disk[p := c])
    case Commit(f, disk) => s.txn.Some? && CommitNext(s, m, s.txn.value, f, disk, s')
    case _ =>
      && s.txn.Some? && s'.txn.Some?
      && s' == s.(txn := s'.txn, loose := s'.loose)
      && PageNext(m.freeDB, s.oldest, s.txn.value, s.loose, step, s'.txn.value, s'.loose)
  }

  /** The steps that move pages between the places of a running transaction. */
  ghost predicate PageNext(f: FreeDB, oldest: nat, t: Txn, loose: seq<nat>, step: Step, t': Txn, loose': seq<nat>) {
    match step
    case Reclaim(k) =>
      && k in f && t.last < k < oldest && loose' == loose
      && (forall j :: j in f && t.last < j ==> k <= j)
      && t' == t.(head := Some(HeadPages(t) + f[k]), last := k)
    case TakeLoose(p, c) =>
      && loose != [] && p == loose[0] && loose' == loose[1..]
      && t' == t.(tree := t.tree[p := c])
    case TakeRun(p, n, cs) =>
      && 0 < n && Run(p, n) <= HeadPages(t) && cs.Keys == Run(p, n) && loose' == loose
      && (forall q: nat :: q < p ==> !(Run(q, n) <= HeadPages(t)))
      && t' == t.(head := Some(HeadPages(t) - Run(p, n)), tree := t.tree + cs, dirty := t.dirty + Run(p, n))
    case TakeNew(n, cs) =>
      && cs.Keys == Run(t.nextPg, n) && loose' == loose
      && t' == t.(nextPg := t.nextPg + n, tree := t.tree + cs, dirty := t.dirty + Run(t.nextPg, n))
    case Modify(p, c) =>
      p in t.tree && p in t.dirty && t' == t.(tree := t.tree[p := c]) && loose' == loose
    case Loosen(p) =>
      p in t.tree && p in t.dirty && loose' == [p] + loose && t' == t.(tree := t.tree - {p})
    case Free(p, n, ps) =>
      && Run(p, n) <= t.tree.Keys && multiset(ps) == multiset(Run(p, n)) && loose' == loose
      && t' == t.(tree := t.tree - Run(p, n), freed := t.freed + ps)
    case FreeDirtyRun(p, n) =>
      && t.head.Some? && Run(p, n) <= t.tree.Keys && Run(p, n) <= t.dirty && loose' == loose
      && t' == t.(tree := t.tree - Run(p, n), dirty := t.dirty - Run(p, n),
                  head := Some(t.head.value + Run(p, n)))
    case _ => false
  }

  /** Saving the freelist, flushing every dirty page of the tree, then writing the meta page
      whose number is the parity of the transaction id. */
  ghost predicate CommitNext(s: State, m: Meta, t: Txn, f: FreeDB, disk: map<nat, int>, s': State) {
    var m' := Meta(t.txnid, t.nextPg, t.tree, f);
    && FreelistSaved(t, s.loose, m.freeDB, f)
    && (forall p :: p in t.tree && p in t.dirty ==> p in disk && disk[p] == t.tree[p])
    && (forall p :: p in s.disk && p !in t.dirty ==> p in disk && disk[p] == s.disk[p])
    && s' == s.(disk := disk, txn := None, loose := [],
                meta0 := if t.txnid % 2 == 0 then Some(m') else s.meta0,
                meta1 := if t.txnid % 2 == 1 then Some(m') else s.meta1)
  }

  /** A fresh file: both meta pages hold transaction 0 and no page is in use. */
  ghost predicate Init(s: State) {
    var m := Meta(0, 2, map[], map[]);
    s == State(Some(m), Some(m), map[], 0, None, [], map[])
  }

  // ---------- the invariant ----------

  /** Every page from 2 up to the end of a snapshot is in its tree or in exactly one record. */
  ghost predicate MetaConserved(m: Meta) {
    && 2 <= m.nextPg
    && (forall p: nat :: One(p in m.tree) + One(Recorded(m.freeDB, 0, p)) == One(2 <= p < m.nextPg))
    && RecordsDisjoint(m.freeDB)
    && (forall k :: k in m.freeDB ==> 1 <= k <= m.txnid)
  }

  /** Every page from 2 up to the end of the transaction is in exactly one of its five places. */
  ghost predicate Conserved(t: Txn, loose: seq<nat>, f: FreeDB) {
    forall p: nat :: Places(t, loose, f, p) == One(2 <= p < t.nextPg)
  }

  ghost predicate MetasInv(meta0: Option<Meta>, meta1: Option<Meta>) {
    && (meta0.Some? || meta1.Some?)
    && (meta0.Some? ==> MetaConserved(meta0.value) && meta0.value.txnid % 2 == 0)
    && (meta1.Some? ==> MetaConserved(meta1.value) && (meta1.value.txnid % 2 == 1 || meta1.value.txnid == 0))
    && (meta1.Some? && meta1.value.txnid == 0 ==> meta0.Some? && meta0.value.txnid == 0)
    && (meta0.Some? && meta1.Some? ==> -1 <= meta0.value.txnid - meta1.value.txnid <= 1)
  }

  /** A snapshot somebody may still read is undamaged on disk, and no record that could be
      consumed while it is readable names one of its pages. */
  ghost predicate PinnedOk(m: Meta, oldest: nat, disk: map<nat, int>, p: Meta) {
    && p.txnid <= m.txnid && p.nextPg <= m.nextPg && oldest <= p.txnid + 1
    && (forall q :: q in p.tree ==> 2 <= q < p.nextPg && q in disk && disk[q] == p.tree[q])
    && (forall k, q :: k in m.freeDB && k <= p.txnid && q in m.freeDB[k] ==> q !in p.tree)
  }

  /** No page the writer may overwrite or hand out is in `p`. */
  ghost predicate Untouched(t: Txn, p: Meta) {
    forall q :: q in p.tree ==> q !in t.dirty && q !in HeadPages(t)
  }

  ghost predicate TxnInv(m: Meta, oldest: nat, loose: seq<nat>, t: Txn) {
    && t.txnid == m.txnid + 1 && m.nextPg <= t.nextPg
    && Conserved(t, loose, m.freeDB)
    && (t.last == 0 || t.last < oldest)
    && (t.head.None? ==> t.last == 0)
    && (forall q :: q in loose ==> q in t.dirty)
    && (forall q :: q in t.tree && q !in t.dirty ==> q in m.tree && m.tree[q] == t.tree[q])
  }

  ghost predicate Inv(s: State) {
    && MetasInv(s.meta0, s.meta1)
    && s.oldest <= PickMeta(s).txnid
    && (forall r :: r in s.readers ==> s.oldest <= s.readers[r].txnid)
    && (forall p :: Pinned(s, p) ==> PinnedOk(PickMeta(s), s.oldest, s.disk, p))
    && (s.txn.None? ==> s.loose == [])
    && (s.txn.Some? ==> TxnInv(PickMeta(s), s.oldest, s.loose, s.txn.value))
    && (s.txn.Some? ==> forall p :: Pinned(s, p) ==> Untouched(s.txn.value, p))
  }

  // ---------- preservation, step by step ----------

  lemma InitInv(s: State)
    requires Init(s)
    ensures Inv(s)
  {
    assert forall p :: Pinned(s, p) ==> p == Meta(0, 2, map[], map[]);
  }

  lemma ReaderStepInv(s: State, step: Step, s': State)
    requires Inv(s) && (step.BeginReader? || step.EndReader?) && Next(s, step, s')
    ensures Inv(s')
  {
    forall p | Pinned(s', p) ensures Pinned(s, p) { }
  }

  lemma BeginWriterInv(s: State, s': State)
    requires Inv(s) && Next(s, BeginWriter, s')
    ensures Inv(s')
  {
    var m, t := PickMeta(s), s'.txn.value;
    assert MetaConserved(m);
    forall p: nat ensures Places(t, [], m.freeDB, p) == One(2 <= p < t.nextPg) { }
    forall p | Pinned(s', p) ensures Pinned(s, p) { }
  }

  lemma AbortInv(s: State, s': State)
    requires Inv(s) && Next(s, Abort, s') && s.loose == []
    ensures Inv(s')
  {
    forall p | Pinned(s', p) ensures Pinned(s, p) { }
  }

  lemma CrashPinned(s: State, step: Step, s': State, p: Meta)
    requires Inv(s) && step.Crash? && Next(s, step, s') && Pinned(s', p)
    ensures PinnedOk(PickMeta(s'), 0, s'.disk, p)
  {
    var m, m' := PickMeta(s), PickMeta(s');
    assert Pinned(s, p) && PinnedOk(m, s.oldest, s.disk, p);
    assert MetaConserved(p) && MetaConserved(m');
    if m' != m {
      assert p == m' || p.txnid < m'.txnid;
    }
  }

  lemma CrashInv(s: State, step: Step, s': State)
    requires Inv(s) && step.Crash? && Next(s, step, s')
    ensures Inv(s')
  {
    assert Pinned(s, PickMeta(s'));
    forall p | Pinned(s', p) ensures PinnedOk(PickMeta(s'), 0, s'.disk, p) { CrashPinned(s, step, s', p); }
  }

  lemma FindOldestInv(s: State, step: Step, s': State)
    requires Inv(s) && step.FindOldest? && Next(s, step, s')
    ensures Inv(s')
  {
    var m := PickMeta(s);
    forall p | Pinned(s', p) ensures PinnedOk(m, s'.oldest, s'.disk, p) {
      assert Pinned(s, p);
      if r :| r in s.readers && s.readers[r] == p { }
    }
    forall p | Pinned(s', p) ensures Pinned(s, p) { }
  }

  lemma FlushInv(s: State, step: Step, s': State)
    requires Inv(s) && step.Flush? && Next(s, step, s')
    ensures Inv(s')
  {
    var m, t := PickMeta(s), s.txn.value;
    forall p | Pinned(s', p) ensures PinnedOk(m, s'.oldest, s'.disk, p) && Untouched(t, p) {
      assert Pinned(s, p);
    }
  }

  lemma ReclaimConserved(f: FreeDB, oldest: nat, t: Txn, loose: seq<nat>, step: Step, t': Txn)
    requires Conserved(t, loose, f) && RecordsDisjoint(f) && step.Reclaim?
    requires PageNext(f, oldest, t, loose, step, t', loose)
    ensures Conserved(t', loose, f)
  {
    forall p: nat ensures Places(t', loose, f, p) == One(2 <= p < t'.nextPg) {
      assert Places(t, loose, f, p) == One(2 <= p < t.nextPg);
      assert Recorded(f, t.last, p) <==> p in f[step.k] || Recorded(f, step.k, p);
    }
  }

  lemma TakeLooseConserved(f: FreeDB, oldest: nat, t: Txn, loose: seq<nat>, step: Step, t': Txn, loose': seq<nat>)
    requires Conserved(t, loose, f) && step.TakeLoose? && PageNext(f, oldest, t, loose, step, t', loose')
    ensures Conserved(t', loose', f)
  {
    assert loose == [step.p] + loose';
    forall p: nat ensures Places(t', loose', f, p) == One(2 <= p < t'.nextPg) {
      assert Places(t, loose, f, p) == One(2 <= p < t.nextPg);
    }
  }

  lemma TakeRunConserved(f: FreeDB, oldest: nat, t: Txn, loose: seq<nat>, step: Step, t': Txn)
    requires Conserved(t, loose, f) && step.TakeRun? && PageNext(f, oldest, t, loose, step, t', loose)
    ensures Conserved(t', loose, f)
  {
    forall p: nat ensures Places(t', loose, f, p) == One(2 <= p < t'.nextPg) {
      assert Places(t, loose, f, p) == One(2 <= p < t.nextPg);
    }
  }

  lemma TakeNewConserved(f: FreeDB, oldest: nat, t: Txn, loose: seq<nat>, step: Step, t': Txn)
    requires Conserved(t, loose, f) && 2 <= t.nextPg
    requires step.TakeNew? || step.Modify?
    requires PageNext(f, oldest, t, loose, step, t', loose)
    ensures Conserved(t', loose, f)
  {
    forall p: nat ensures Places(t', loose, f, p) == One(2 <= p < t'.nextPg) {
      assert Places(t, loose, f, p) == One(2 <= p < t.nextPg);
    }
  }

  lemma LoosenConserved(f: FreeDB, oldest: nat, t: Txn, loose: seq<nat>, step: Step, t': Txn, loose': seq<nat>)
    requires Conserved(t, loose, f) && step.Loosen? && PageNext(f, oldest, t, loose, step, t', loose')
    ensures Conserved(t', loose', f)
  {
    forall p: nat ensures Places(t', loose', f, p) == One(2 <= p < t'.nextPg) {
      assert Places(t, loose, f, p) == One(2 <= p < t.nextPg);
    }
  }

  lemma FreeConserved(f: FreeDB, oldest: nat, t: Txn, loose: seq<nat>, step: Step, t': Txn, loose': seq<nat>)
    requires Conserved(t, loose, f) && step.Free? && PageNext(f, oldest, t, loose, step, t', loose')
    ensures Conserved(t', loose', f)
  {
    forall p: nat ensures Places(t', loose', f, p) == One(2 <= p < t'.nextPg) {
      assert Places(t, loose, f, p) == One(2 <= p < t.nextPg);
    }
  }

  lemma FreeDirtyConserved(f: FreeDB, oldest: nat, t: Txn, loose: seq<nat>, step: Step, t': Txn, loose': seq<nat>)
    requires Conserved(t, loose, f) && step.FreeDirtyRun? && PageNext(f, oldest, t, loose, step, t', loose')
    ensures Conserved(t', loose', f)
  {
    forall p: nat ensures Places(t', loose', f, p) == One(2 <= p < t'.nextPg) {
      assert Places(t, loose, f, p) == One(2 <= p < t.nextPg);
    }
  }

  ghost predicate IsPageStep(step: Step) {
    || step.Reclaim? || step.TakeLoose? || step.TakeRun? || step.TakeNew? || step.Modify?
    || step.Loosen? || step.Free? || step.FreeDirtyRun?
  }

  /** Nothing a page step adds to the writer's own pages belongs to a readable snapshot. */
  lemma PageStepUntouched(m: Meta, oldest: nat, t: Txn, loose: seq<nat>, step: Step, t': Txn, loose': seq<nat>,
                          disk: map<nat, int>, p: Meta)
    requires PinnedOk(m, oldest, disk, p) && Untouched(t, p) && m.nextPg <= t.nextPg
    requires PageNext(m.freeDB, oldest, t, loose, step, t', loose')
    ensures Untouched(t', p)
  {
  }

  lemma PageStepTxn(m: Meta, oldest: nat, t: Txn, loose: seq<nat>, step: Step, t': Txn, loose': seq<nat>)
    requires TxnInv(m, oldest, loose, t) && RecordsDisjoint(m.freeDB) && 2 <= m.nextPg
    requires PageNext(m.freeDB, oldest, t, loose, step, t', loose')
    ensures TxnInv(m, oldest, loose', t')
  {
    if step.Reclaim? {
      ReclaimConserved(m.freeDB, oldest, t, loose, step, t');
    } else if step.Loosen? {
      LoosenConserved(m.freeDB, oldest, t, loose, step, t', loose');
    } else if step.Free? {
      FreeConserved(m.freeDB, oldest, t, loose, step, t', loose');
    } else if step.FreeDirtyRun? {
      FreeDirtyConserved(m.freeDB, oldest, t, loose, step, t', loose');
      forall q | q in loose ensures q !in t.tree {
        assert Places(t, loose, m.freeDB, q) <= 1;
      }
    } else if step.TakeLoose? {
      TakeLooseConserved(m.freeDB, oldest, t, loose, step, t', loose');
    } else if step.TakeRun? {
      TakeRunConserved(m.freeDB, oldest, t, loose, step, t');
    } else {
      TakeNewConserved(m.freeDB, oldest, t, loose, step, t');
    }
  }

  /** After the freelist is saved the records account for every page outside the tree. */
  lemma SavedRecords(m: Meta, oldest: nat, t: Txn, loose: seq<nat>, f: FreeDB, p: nat)
    requires TxnInv(m, oldest, loose, t) && MetaConserved(m) && FreelistSaved(t, loose, m.freeDB, f)
    ensures Recorded(f, 0, p) <==> p in HeadPages(t) || p in t.freed || p in loose || Recorded(m.freeDB, t.last, p)
  {
    if Recorded(f, 0, p) {
      var k :| k in f && 0 < k && p in f[k];
      if t.last < k && k != t.txnid {
        assert k in m.freeDB && f[k] == m.freeDB[k];
      }
    }
    if OwnRecord(t, loose, p) {
      assert t.txnid in f && p in f[t.txnid];
    }
    if Recorded(m.freeDB, t.last, p) {
      var k :| k in m.freeDB && t.last < k && p in m.freeDB[k];
      assert k in f && p in f[k];
    }
    if ReturnedTo(f, t.last, p) {
      var k :| k in f && k <= t.last && p in f[k];
      assert 0 < k;
    }
  }

  lemma CommitConserved(m: Meta, oldest: nat, t: Txn, loose: seq<nat>, f: FreeDB)
    requires oldest <= m.txnid
    requires TxnInv(m, oldest, loose, t) && MetaConserved(m) && FreelistSaved(t, loose, m.freeDB, f)
    ensures MetaConserved(Meta(t.txnid, t.nextPg, t.tree, f))
  {
    forall p: nat ensures One(p in t.tree) + One(Recorded(f, 0, p)) == One(2 <= p < t.nextPg) {
      assert Places(t, loose, m.freeDB, p) == One(2 <= p < t.nextPg);
      SavedRecords(m, oldest, t, loose, f, p);
    }
    forall k | k in f ensures 1 <= k <= t.txnid {
      if t.last < k && k != t.txnid { assert k in m.freeDB; }
    }
  }

  /** A snapshot that was readable before the commit stays undamaged and unreusable. */
  lemma CommitKeepsPinned(m: Meta, oldest: nat, t: Txn, loose: seq<nat>, f: FreeDB,
                          disk: map<nat, int>, disk': map<nat, int>, p: Meta)
    requires TxnInv(m, oldest, loose, t) && FreelistSaved(t, loose, m.freeDB, f)
    requires PinnedOk(m, oldest, disk, p) && Untouched(t, p)
    requires forall q :: q in disk && q !in t.dirty ==> q in disk' && disk'[q] == disk[q]
    ensures PinnedOk(Meta(t.txnid, t.nextPg, t.tree, f), oldest, disk', p)
  {
    forall k, q | k in f && k <= p.txnid && q in f[k] ensures q !in p.tree {
      if t.last < k {
        assert k in m.freeDB && f[k] == m.freeDB[k];
      }
    }
  }

  lemma CommitPinsItself(m: Meta, oldest: nat, t: Txn, loose: seq<nat>, f: FreeDB,
                         disk: map<nat, int>, disk': map<nat, int>)
    requires TxnInv(m, oldest, loose, t) && MetaConserved(m) && FreelistSaved(t, loose, m.freeDB, f)
    requires PinnedOk(m, oldest, disk, m) && oldest <= m.txnid
    requires forall q :: q in t.tree && q in t.dirty ==> q in disk' && disk'[q] == t.tree[q]
    requires forall q :: q in disk && q !in t.dirty ==> q in disk' && disk'[q] == disk[q]
    ensures var m' := Meta(t.txnid, t.nextPg, t.tree, f); PinnedOk(m', oldest, disk', m')
  {
    CommitConserved(m, oldest, t, loose, f);
    var m' := Meta(t.txnid, t.nextPg, t.tree, f);
    forall q | q in t.tree ensures 2 <= q < t.nextPg && q in disk' && disk'[q] == t.tree[q] {
      assert Places(t, loose, m.freeDB, q) == One(2 <= q < t.nextPg);
    }
    forall k, q | k in f && q in f[k] ensures q !in t.tree {
      assert Recorded(f, 0, q);
      assert One(q in m'.tree) + One(Recorded(f, 0, q)) == One(2 <= q < t.nextPg);
    }
  }

  /** The new meta page replaces the older of the two, so the newest one survives beside it. */
  lemma CommitMetas(meta0: Option<Meta>, meta1: Option<Meta>, m': Meta)
    requires MetasInv(meta0, meta1) && MetaConserved(m') && m'.txnid == Newest(meta0, meta1).txnid + 1
    ensures var n0 := if m'.txnid % 2 == 0 then Some(m') else meta0;
            var n1 := if m'.txnid % 2 == 1 then Some(m') else meta1;
            MetasInv(n0, n1) && Newest(n0, n1) == m'
            && (n0 == Some(Newest(meta0, meta1)) || n1 == Some(Newest(meta0, meta1)))
  {
  }

  lemma CommitPicks(s: State, step: Step, s': State)
    requires Inv(s) && step.Commit? && Next(s, step, s')
    ensures MetasInv(s'.meta0, s'.meta1)
    ensures var t := s.txn.value; PickMeta(s') == Meta(t.txnid, t.nextPg, t.tree, step.f)
  {
    var m, t := PickMeta(s), s.txn.value;
    assert MetaConserved(m);
    CommitConserved(m, s.oldest, t, s.loose, step.f);
    CommitMetas(s.meta0, s.meta1, Meta(t.txnid, t.nextPg, t.tree, step.f));
  }

  lemma CommitPinned(s: State, step: Step, s': State, p: Meta)
    requires Inv(s) && step.Commit? && Next(s, step, s') && Pinned(s', p)
    ensures var t := s.txn.value; PinnedOk(Meta(t.txnid, t.nextPg, t.tree, step.f), s'.oldest, s'.disk, p)
  {
    var m, t := PickMeta(s), s.txn.value;
    assert Pinned(s, m) && MetaConserved(m);
    if p == Meta(t.txnid, t.nextPg, t.tree, step.f) {
      CommitPinsItself(m, s.oldest, t, s.loose, step.f, s.disk, s'.disk);
    } else {
      assert Pinned(s, p);
      CommitKeepsPinned(m, s.oldest, t, s.loose, step.f, s.disk, s'.disk, p);
    }
  }

  lemma CommitInv(s: State, step: Step, s': State)
    requires Inv(s) && step.Commit? && Next(s, step, s')
    ensures Inv(s')
  {
    CommitPicks(s, step, s');
    forall p | Pinned(s', p) ensures PinnedOk(PickMeta(s'), s'.oldest, s'.disk, p) {
      CommitPinned(s, step, s', p);
    }
  }

  lemma PageStepInv(s: State, step: Step, s': State)
    requires Inv(s) && IsPageStep(step) && Next(s, step, s')
    ensures Inv(s')
  {
    var m, t := PickMeta(s), s.txn.value;
    assert MetaConserved(m);
    PageStepTxn(m, s.oldest, t, s.loose, step, s'.txn.value, s'.loose);
    forall p | Pinned(s', p) ensures Pinned(s, p) && Untouched(s'.txn.value, p) {
      PageStepUntouched(m, s.oldest, t, s.loose, step, s'.txn.value, s'.loose, s.disk, p);
    }
  }

  /** The one way the invariant is lost: aborting while pages are loose. */
  ghost predicate LeakyAbort(s: State, step: Step) { step.Abort? && s.loose != [] }

  lemma StepInv(s: State, step: Step, s': State)
    requires Inv(s) && Next(s, step, s') && !LeakyAbort(s, step)
    ensures Inv(s')
  {
    if IsPageStep(step) {
      PageStepInv(s, step, s');
    } else if step.BeginReader? || step.EndReader? {
      ReaderStepInv(s, step, s');
    } else if step.Commit? {
      CommitInv(s, step, s');
    } else if step.Crash? {
      CrashInv(s, step, s');
    } else if step.FindOldest? {
      FindOldestInv(s, step, s');
    } else if step.Flush? {
      FlushInv(s, step, s');
    } else if step.Abort? {
      AbortInv(s, s');
    } else {
      BeginWriterInv(s, s');
    }
  }

  // ---------- whole runs ----------

  ghost predicate IsRun(ss: seq<State>, steps: seq<Step>) {
    && |ss| == |steps| + 1 && Init(ss[0])
    && forall i :: 0 <= i < |steps| ==> Readable(ss[i]) && Next(ss[i], steps[i], ss[i + 1])
  }

  /** A run followed by one more step. */
  lemma Then(ss: seq<State>, steps: seq<Step>, step: Step, s': State) returns (ss': seq<State>, steps': seq<Step>)
    requires IsRun(ss, steps) && Readable(ss[|steps|]) && Next(ss[|steps|], step, s')
    ensures ss' == ss + [s'] && steps' == steps + [step] && IsRun(ss', steps')
  {
    ss', steps' := ss + [s'], steps + [step];
    forall i | 0 <= i < |steps'| ensures Readable(ss'[i]) && Next(ss'[i], steps'[i], ss'[i + 1]) {
      if i < |steps| {
        assert Next(ss[i], steps[i], ss[i + 1]);
      }
    }
  }

  /** No write transaction was aborted while it had loose pages. */
  ghost predicate NoLeak(ss: seq<State>, steps: seq<Step>)
    requires IsRun(ss, steps)
  {
    forall i :: 0 <= i < |steps| ==> !LeakyAbort(ss[i], steps[i])
  }

  ghost predicate EndsIn(ss: seq<State>, steps: seq<Step>, s: State) {
    IsRun(ss, steps) && NoLeak(ss, steps) && ss[|steps|] == s
  }

  /** Some run without a leaking abort ends in s. */
  ghost predicate Reached(s: State) { exists ss, steps :: EndsIn(ss, steps, s) }

  lemma ReachedInit(s: State)
    requires Init(s)
    ensures Reached(s)
  {
    assert EndsIn([s], [], s);
  }

  lemma ReachedStep(s: State, step: Step, s': State)
    requires Reached(s) && Readable(s) && Next(s, step, s') && !LeakyAbort(s, step)
    ensures Reached(s')
  {
    var ss, steps :| EndsIn(ss, steps, s);
    var ss', steps' := Then(ss, steps, step, s');
    assert EndsIn(ss', steps', s');
  }

  lemma {:induction false} RunInv(ss: seq<State>, steps: seq<Step>, i: nat)
    requires IsRun(ss, steps) && NoLeak(ss, steps) && i < |ss|
    ensures Inv(ss[i])
  {
    if i == 0 {
      InitInv(ss[0]);
    } else {
      RunInv(ss, steps, i - 1);
      assert Next(ss[i - 1], steps[i - 1], ss[i - 1 + 1]);
      StepInv(ss[i - 1], steps[i - 1], ss[i]);
    }
  }

  /** The pages an allocation step gives to the writer. */
  ghost function HandedOut(s: State, step: Step): set<nat> {
    match step
    case TakeLoose(p, _) => {p}
    case TakeRun(p, n, _) => Run(p, n)
    case TakeNew(n, _) => if s.txn.Some? then Run(s.txn.value.nextPg, n) else {}
    case _ => {}
  }

  lemma HandedOutIsSafe(s: State, step: Step, s': State, p: Meta)
    requires Inv(s) && Next(s, step, s') && Pinned(s, p)
    ensures HandedOut(s, step) !! p.tree.Keys
    ensures s.txn.Some? ==> HandedOut(s, step) !! s.txn.value.tree.Keys
  {
    if s.txn.Some? {
      var t := s.txn.value;
      assert PinnedOk(PickMeta(s), s.oldest, s.disk, p) && Untouched(t, p);
      forall q | q in HandedOut(s, step) ensures q !in p.tree && q !in t.tree {
        assert Places(t, s.loose, PickMeta(s).freeDB, q) == One(2 <= q < t.nextPg);
      }
    }
  }

  /** In every run, no allocation ever hands out a page of a snapshot that an active reader
      holds or that either meta page names, and never one that is already in use. */
  lemma AllocationIsSafe(ss: seq<State>, steps: seq<Step>, i: nat, p: Meta)
    requires IsRun(ss, steps) && NoLeak(ss, steps) && i < |steps| && Pinned(ss[i], p)
    ensures HandedOut(ss[i], steps[i]) !! p.tree.Keys
    ensures ss[i].txn.Some? ==> HandedOut(ss[i], steps[i]) !! ss[i].txn.value.tree.Keys
  {
    RunInv(ss, steps, i);
    assert Next(ss[i], steps[i], ss[i + 1]);
    HandedOutIsSafe(ss[i], steps[i], ss[i + 1], p);
  }

  lemma ReaderKept(s: State, step: Step, s': State, r: nat)
    requires Readable(s) && Next(s, step, s') && r in s.readers && step != EndReader(r) && !step.Crash?
    ensures r in s'.readers && s'.readers[r] == s.readers[r]
  {
  }

  /** A reader that has not ended still holds the snapshot it started with, and the file
      still holds exactly the contents of that snapshot. */
  lemma {:induction false} ReaderViewIsStable(ss: seq<State>, steps: seq<Step>, i: nat, j: nat, r: nat)
    requires IsRun(ss, steps) && NoLeak(ss, steps) && i <= j < |ss| && r in ss[i].readers
    requires forall k :: i <= k < j ==> steps[k] != EndReader(r) && !steps[k].Crash?
    ensures r in ss[j].readers && ss[j].readers[r] == ss[i].readers[r]
    ensures forall q :: q in ss[i].readers[r].tree ==> q in ss[j].disk && ss[j].disk[q] == ss[i].readers[r].tree[q]
    decreases j - i
  {
    if i == j {
    } else {
      ReaderViewIsStable(ss, steps, i, j - 1, r);
      assert Next(ss[j - 1], steps[j - 1], ss[j - 1 + 1]);
      ReaderKept(ss[j - 1], steps[j - 1], ss[j], r);
    }
    RunInv(ss, steps, j);
    assert Pinned(ss[j], ss[j].readers[r]);
  }

  /** After a crash the newer intact meta page names an undamaged tree whose pages and
      records account for the whole file; it is the last commit unless that page was torn. */
  lemma CrashRecovers(ss: seq<State>, steps: seq<Step>, i: nat)
    requires IsRun(ss, steps) && NoLeak(ss, steps) && i < |steps| && steps[i].Crash?
    ensures var m := PickMeta(ss[i + 1]);
      && (forall q :: q in m.tree ==> q in ss[i + 1].disk && ss[i + 1].disk[q] == m.tree[q])
      && MetaConserved(m)
      && m.txnid + 1 >= PickMeta(ss[i]).txnid
      && (steps[i].torn.None? ==> m == PickMeta(ss[i]))
  {
    assert Next(ss[i], steps[i], ss[i + 1]);
    RunInv(ss, steps, i);
    RunInv(ss, steps, i + 1);
    var m := PickMeta(ss[i + 1]);
    assert Pinned(ss[i + 1], m);
  }

  /** In every state of every run, each page is in exactly one place. */
  lemma PagesAreConserved(ss: seq<State>, steps: seq<Step>, i: nat, p: nat)
    requires IsRun(ss, steps) && NoLeak(ss, steps) && i < |ss|
    ensures Readable(ss[i])
    ensures ss[i].txn.Some? ==>
      Places(ss[i].txn.value, ss[i].loose, PickMeta(ss[i]).freeDB, p) == One(2 <= p < ss[i].txn.value.nextPg)
    ensures MetaConserved(PickMeta(ss[i]))
  {
    RunInv(ss, steps, i);
  }

  // ---------- the audit count ----------

  /** The sum of the record lengths, as mdb_audit adds them up. */
  ghost function FreeCount(f: FreeDB): nat {
    if f == map[] then 0 else var k :| k in f; |f[k]| + FreeCount(f - {k})
  }

  lemma {:induction false} FreeCountIsSize(f: FreeDB, all: set<nat>)
    requires RecordsDisjoint(f)
    requires forall k, p :: k in f && p in f[k] ==> p in all
    requires forall p :: p in all ==> exists k :: k in f && p in f[k]
    ensures FreeCount(f) == |all|
    decreases |f|
  {
    if f == map[] {
      assert all == {};
    } else {
      var k :| k in f && FreeCount(f) == |f[k]| + FreeCount(f - {k});
      var rest := all - f[k];
      forall p | p in rest ensures exists j :: j in f - {k} && p in (f - {k})[j] {
        var j :| j in f && p in f[j];
        assert j in f - {k};
      }
      FreeCountIsSize(f - {k}, rest);
      assert all == rest + f[k];
    }
  }

  lemma MetaPlace(m: Meta, p: nat)
    requires MetaConserved(m)
    ensures Recorded(m.freeDB, 0, p) <==> 2 <= p < m.nextPg && p !in m.tree
    ensures p in m.tree ==> 2 <= p < m.nextPg
  {
    assert One(p in m.tree) + One(Recorded(m.freeDB, 0, p)) == One(2 <= p < m.nextPg);
  }

  /** The equation mdb_audit checks: free pages, tree pages and the two meta pages make up
      the file. */
  lemma AuditHolds(m: Meta)
    requires MetaConserved(m)
    ensures FreeCount(m.freeDB) + |m.tree| + 2 == m.nextPg
  {
    var all := Run(2, m.nextPg - 2) - m.tree.Keys;
    assert forall k, p :: k in m.freeDB && p in m.freeDB[k] ==> p in all by {
      forall k, p | k in m.freeDB && p in m.freeDB[k] ensures p in all {
        assert Recorded(m.freeDB, 0, p);
        MetaPlace(m, p);
      }
    }
    assert forall p :: p in all ==> exists k :: k in m.freeDB && p in m.freeDB[k] by {
      forall p | p in all ensures exists k :: k in m.freeDB && p in m.freeDB[k] {
        MetaPlace(m, p);
      }
    }
    FreeCountIsSize(m.freeDB, all);
    RangeSplits(m);
  }

  lemma RangeSplits(m: Meta)
    requires MetaConserved(m)
    ensures |Run(2, m.nextPg - 2) - m.tree.Keys| + |m.tree| == m.nextPg - 2
  {
    assert m.tree.Keys <= Run(2, m.nextPg - 2) by {
      forall p | p in m.tree.Keys ensures p in Run(2, m.nextPg - 2) { MetaPlace(m, p); }
    }
    SubsetSize(m.tree.Keys, Run(2, m.nextPg - 2));
  }

  // ---------- aborting with loose pages ----------

  /** The write-transaction object keeps its loose list across an abort, so the transaction
      that follows accounts for every page exactly once if and only if that list was empty. */
  lemma AbortConservesIffNothingLoose(s: State, s1: State, s2: State)
    requires Inv(s) && Next(s, Abort, s1) && Next(s1, BeginWriter, s2)
    ensures Conserved(s2.txn.value, s2.loose, PickMeta(s2).freeDB) <==> s.loose == []
  {
    var m, t2 := PickMeta(s), s2.txn.value;
    assert MetaConserved(m);
    forall p: nat
      ensures Places(t2, s2.loose, m.freeDB, p) == One(2 <= p < m.nextPg) + multiset(s.loose)[p]
    {
      assert One(p in m.tree) + One(Recorded(m.freeDB, 0, p)) == One(2 <= p < m.nextPg);
    }
    if s.loose != [] {
      assert s.loose[0] in multiset(s.loose);
      assert Places(t2, s2.loose, m.freeDB, s.loose[0]) != One(2 <= s.loose[0] < m.nextPg);
    }
  }

  ghost function Fresh(txn: Option<Txn>, loose: seq<nat>): State {
    var m := Meta(0, 2, map[], map[]);
    State(Some(m), Some(m), map[], 0, txn, loose, map[])
  }

  lemma TakeNewPage2(t: Txn, c: int)
    requires t.nextPg == 2
    ensures Next(Fresh(Some(t), []), TakeNew(1, map[2 := c]),
                 Fresh(Some(t.(nextPg := 3, tree := t.tree + map[2 := c], dirty := t.dirty + {2})), []))
    ensures HandedOut(Fresh(Some(t), []), TakeNew(1, map[2 := c])) == {2}
  {
    assert Run(2, 1) == {2};
  }

  ghost const Began := Txn(1, 2, map[], {}, [], None, 0)

  lemma LeakyStart() returns (ss: seq<State>, steps: seq<Step>)
    ensures IsRun(ss, steps) && |steps| == 3
    ensures ss[3] == Fresh(Some(Began.(nextPg := 3, dirty := {2})), [2])
  {
    var t2 := Began.(nextPg := 3, tree := Began.tree + map[2 := 7], dirty := Began.dirty + {2});
    var s1, s2 := Fresh(Some(Began), []), Fresh(Some(t2), []);
    var s3 := Fresh(Some(t2.(tree := t2.tree - {2})), [2]);
    assert t2.tree - {2} == map[];
    assert Next(s2, Loosen(2), s3) by { assert [2] + [] == [2]; }
    ss, steps := Then([Fresh(None, [])], [], BeginWriter, s1);
    TakeNewPage2(Began, 7);
    ss, steps := Then(ss, steps, TakeNew(1, map[2 := 7]), s2);
    ss, steps := Then(ss, steps, Loosen(2), s3);
  }

  /** Page 2 can be given to the same transaction twice: once as a loose page left behind by
      an aborted transaction, and once as a new page.  This is the run under MDB_WRITEMAP, where
      a loose page keeps its number.  Without it the abort also puts the page's buffer on a free
      list and overwrites the number with a link, so what is handed out first is no page number
      of this store at all. */
  lemma LeakedLoosePageIsReused() returns (ss: seq<State>, steps: seq<Step>)
    ensures IsRun(ss, steps) && |steps| == 7
    ensures steps[3] == Abort && HandedOut(ss[5], steps[5]) == {2} && HandedOut(ss[6], steps[6]) == {2}
  {
    ss, steps := LeakyStart();
    var t6 := Began.(tree := Began.tree[2 := 8]);
    var t7 := t6.(nextPg := 3, tree := t6.tree + map[2 := 9], dirty := t6.dirty + {2});
    var s5, s6 := Fresh(Some(Began), [2]), Fresh(Some(t6), []);
    ss, steps := Then(ss, steps, Abort, Fresh(None, [2]));
    ss, steps := Then(ss, steps, BeginWriter, s5);
    assert Next(s5, TakeLoose(2, 8), s6);
    ss, steps := Then(ss, steps, TakeLoose(2, 8), s6);
    TakeNewPage2(t6, 9);
    ss, steps := Then(ss, steps, TakeNew(1, map[2 := 9]), Fresh(Some(t7), []));
  }
}
