# socketplane: verified core

A Dafny model of the parts of socketplane, and of the libraries vendored with it, that carry the
hardest invariants.

* **LMDB page accounting.** `PageStore` is the transition system: readers, one copy-on-write
  writer, commits that alternate two meta pages, crashes. `Midl`, `MidlSort`, `Mid2l` and
  `PageRuns` are the page-number lists on arrays with the original loops, `PageAlloc` is the
  allocator on the environment's fields, and `PageView` and `PageRefinement` show that the
  allocator takes steps of the transition system. `PageSave` begins a transaction and writes its
  lists at the end, and `PageEnv` carries out operation after operation on the environment's
  arrays together with the steps they amount to, so that its lists always stand for the end of a
  run of the transition system.
  The tree of a snapshot is the set of its pages with their contents.
* **Radix tree.** `Trie` and `TrieOrder` hold the shape and the order of the tree on values,
  `Radix` the linked nodes that are changed in place.
* **VLAN and IP allocation.** `BitmapStore` is the machine of many daemons that read a shared
  bitmap, change it and write it back by compare-and-swap; `Vlan` and `Ipam` are the code between
  reading and writing, with the address arithmetic; `Subnets` is the overlap test. `Bits` has the
  bit operators on numbers. The store is taken to write when the key is missing or holds exactly
  the expected bytes, and to leave everything alone otherwise; the library that implements it is
  not part of this model.
* **Gossip membership.** `Gossip` is the alive/suspect/dead protocol on values and over whole
  runs, `GossipLaws` what each message makes of a view, case by case, `Membership` the handlers on
  shared records (with `Shuffling`), `BroadcastQueue` the retransmit queue, `Framing` the compound
  messages, the padding and the size of gossip packets, `FramingLaws` their bytes and budgets.
* **TOML basic strings.** `Utf8`, `TomlString` and `TomlLexer`: the encoder's quoting against the
  lexer's and the parser's unquoting; `TomlEscapes` and `Utf8Table` say what the escapes and the
  bytes mean.

Clocks, random numbers, the routing table, compression and the user delegate are parameters.
`dafny verify dfyconfig.toml` checks all files.

Properties that turned out not to hold as one might expect, each with its exact condition:

* an aborted LMDB write transaction leaves its loose pages on the list of the shared transaction
  object (`AbortConservesIffNothingLoose`);
* freeing an overflow page of the running LMDB transaction does not give back its entry in the
  dirty list, so a transaction is full after 131071 allocations however many were freed again
  (`TxnFullIff`);
* mdb_midl_sort adds up places in an int, which overflows for some lists of every length above
  2^30+3 and for no shorter one (`MidlSort.Sort`, `LopsidedList`);
* deleting the empty key from a radix tree whose root has one child breaks other lookups
  (`Radix.Tree.Delete`, with the run in `DeleteEmptyKey`); sequences of operations are right up to
  the first such deletion (`Radix.Replay`);
* IP requests treat a full bitmap like its last position (`IpsAreUniqueIffNeverFull`), and with a
  prefix above 29 two sessions come to hold one address although no request found the bitmap full
  (`AlwaysApartIff`, with the run in `SmallSubnetShares`), of which one release then clears the
  wrong bit or indexes out of range (`SharedIsReleasedWrongly`);
* an accusation with the largest incarnation is never refuted (`RefutationEndsIff`), and merging a
  push/pull state is idempotent if and only if its messages are quiet in the view it leaves
  (`MergeTwiceIff`), which need not be so when it names a member twice
  (`MergeTwiceNeedsDistinctNodes`);
* compound messages of more than 127 parts are decoded from the wrong offset (`RoundTripIff`),
  and gossip can send one (`PacketDecodesIff`, with the packet in `UndecodedGossip`);
* the empty TOML literal is misread before a rune of more than one byte (`LexLiteral`, with the
  text in `LexEmptyLiteral`).

## Model

| member | source | states |
|---|---|---|
| `PageStore.AllocationIsSafe` | Godeps/_workspace/src/github.com/armon/gomdb/mdb.c:1941-2073 | in every run of readers, allocations, commits, crashes, and aborts that leave no loose page, no page handed out lies in a snapshot held by an active reader, in a snapshot named by either meta page, or in the running transaction's own tree |
| `PageStore.HandedOutIsSafe` | Godeps/_workspace/src/github.com/armon/gomdb/mdb.c:1984-2073 | the same for one step from any state that satisfies the invariant, with the cached oldest reader |
| `PageStore.ReaderViewIsStable` | Godeps/_workspace/src/github.com/armon/gomdb/mdb.c:2528-2542 | in every such run a reader that has not ended keeps its snapshot, and the file keeps exactly the contents of that snapshot, however many commits happen meanwhile |
| `PageStore.CrashRecovers` | Godeps/_workspace/src/github.com/armon/gomdb/mdb.c:3654-3658 | in every such run, after a crash, even one that tears a meta page, the newer intact meta page names an undamaged tree; nothing but the torn commit is lost |
| `PageStore.PagesAreConserved` | Godeps/_workspace/src/github.com/armon/gomdb/mdb.c:1494-1542 | in every state of every such run each page from 2 up to the next page number is in exactly one place: tree, reclaimed list, freed list, loose list, or a record newer than the last one reclaimed |
| `PageStore.AuditHolds` | Godeps/_workspace/src/github.com/armon/gomdb/mdb.c:1502-1541 | conservation implies the equation of mdb_audit: record lengths plus tree pages plus two make up the file |
| `PageStore.FreeCountIsSize` | Godeps/_workspace/src/github.com/armon/gomdb/mdb.c:1504-1505 | adding up the lengths of disjoint records counts the recorded pages |
| `PageStore.RunInv` | Godeps/_workspace/src/github.com/armon/gomdb/mdb.c:1941-2108 | the invariant holds in every state of every run in which no transaction with loose pages is aborted |
| `PageStore.StepInv` | Godeps/_workspace/src/github.com/armon/gomdb/mdb.c:1941-2108 | every step of readers, writer, commit and crash keeps the invariant |
| `PageStore.InitInv` | Godeps/_workspace/src/github.com/armon/gomdb/mdb.c:3464-3475 | a new file satisfies the invariant |
| `PageStore.CommitInv` | Godeps/_workspace/src/github.com/armon/gomdb/mdb.c:3331-3385 | a commit that alternates the meta pages keeps every pinned snapshot intact and conserves pages |
| `PageStore.CommitPicks` | Godeps/_workspace/src/github.com/armon/gomdb/mdb.c:3654-3658 | after a commit the newest meta page is the one just written |
| `PageStore.CommitKeepsPinned` | Godeps/_workspace/src/github.com/armon/gomdb/mdb.c:3549-3564 | overwriting the older meta page leaves the pages of every snapshot still pinned untouched |
| `PageStore.CommitConserved` | Godeps/_workspace/src/github.com/armon/gomdb/mdb.c:2839-2848 | saving the free list moves reclaimed, freed and loose pages into records without losing or doubling one |
| `PageStore.CrashInv` | Godeps/_workspace/src/github.com/armon/gomdb/mdb.c:3405-3461 | what a crash leaves behind satisfies the invariant again |
| `PageStore.FindOldestInv` | Godeps/_workspace/src/github.com/armon/gomdb/mdb.c:1888-1904 | a fresh scan of the reader table only moves the cached oldest reader to a value that is still safe |
| `PageStore.ReclaimConserved` | Godeps/_workspace/src/github.com/armon/gomdb/mdb.c:2051-2072 | merging a record into the reclaimed list keeps every page in one place |
| `PageStore.PageStepInv` | Godeps/_workspace/src/github.com/armon/gomdb/mdb.c:1643-1687 | taking, loosening and freeing pages keep the invariant |
| `PageStore.AbortConservesIffNothingLoose` | Godeps/_workspace/src/github.com/armon/gomdb/mdb.c:2760-2805 | the write-transaction object keeps its loose list across an abort, so the next transaction accounts for every page once if and only if the list was empty |
| `PageStore.LeakedLoosePageIsReused` | Godeps/_workspace/src/github.com/armon/gomdb/mdb.c:1966-1974 | a run, under MDB_WRITEMAP, in which the same page is handed out twice to one transaction after such an abort; without that flag mdb_txn_reset0 also frees the page's buffer and overwrites its number (line 1601), so the number handed out first is none the store accounts for |
| `PageStore.ReachedStep` | Godeps/_workspace/src/github.com/armon/gomdb/mdb.c:1941-2108 | the end of a run without such an abort, and one more step, is the end of a run again |
| `PageRefinement.AllocRefines` | Godeps/_workspace/src/github.com/armon/gomdb/mdb.c:1941-2108 | each successful mdb_page_alloc is a sequence of machine steps that extends any run, and the pages it returns are in no pinned snapshot and not in the transaction's tree |
| `PageRefinement.TouchRefines` | Godeps/_workspace/src/github.com/armon/gomdb/mdb.c:2203-2235 | copy-on-write replaces exactly the touched page by a page nobody can be reading |
| `PageRefinement.LooseRefines` | Godeps/_workspace/src/github.com/armon/gomdb/mdb.c:1643-1687 | loosening, or freeing, takes exactly the one page out of the tree |
| `PageRefinement.OvpageFreeRefines` | Godeps/_workspace/src/github.com/armon/gomdb/mdb.c:5140-5210 | freeing an overflow run takes exactly its pages out of the tree, into the reclaimed list or the freed list |
| `PageRefinement.RefillRefines` | Godeps/_workspace/src/github.com/armon/gomdb/mdb.c:2003-2073 | refilling the reclaimed list is a sequence of oldest-reader scans and record merges of the machine, each of which extends any run |
| `PageSave.BeginStands` | Godeps/_workspace/src/github.com/armon/gomdb/mdb.c:2532-2562 | a write transaction begins with empty lists that stand for the state it begins in, when the records and the reader table match that state |
| `PageSave.FirstStands` | Godeps/_workspace/src/github.com/armon/gomdb/mdb.c:3464-3475 | in a new file with an idle reader table they do, so the lists of the first transaction stand for the end of a run |
| `PageSave.FillRecords` | Godeps/_workspace/src/github.com/armon/gomdb/mdb.c:3001-3028 | the loop that writes the reclaimed list into the reserved records cuts it up from its small end and leaves the array as it was |
| `PageSave.FilledSomewhere` | Godeps/_workspace/src/github.com/armon/gomdb/mdb.c:3001-3028 | with enough room every number goes to some record |
| `PageSave.FilledOnce` | Godeps/_workspace/src/github.com/armon/gomdb/mdb.c:3001-3028 | no number goes to two records |
| `PageSave.FilledPiece` | Godeps/_workspace/src/github.com/armon/gomdb/mdb.c:3001-3028 | each record is in order and takes its numbers from the list |
| `PageSave.PieceIs` | Godeps/_workspace/src/github.com/armon/gomdb/mdb.c:3001-3028 | each record gets the stretch of the list that begins where the capacity of those before it ends, and never more than it has room for |
| `PageSave.OwnIsRecord` | Godeps/_workspace/src/github.com/armon/gomdb/mdb.c:2865-2925 | sorting the freed list, with the loose pages when there is no reclaimed list, gives a strictly descending list of exactly the pages the transaction's own record must name |
| `PageSave.ReturnedIsStrict` | Godeps/_workspace/src/github.com/armon/gomdb/mdb.c:2979-2999 | sorting the loose pages and merging them into the reclaimed list gives a strictly descending list of exactly those pages |
| `PageSave.SavedOnce` | Godeps/_workspace/src/github.com/armon/gomdb/mdb.c:2843-3029 | no page is in two of the records left behind |
| `PageSave.SavedIsFreelist` | Godeps/_workspace/src/github.com/armon/gomdb/mdb.c:2843-3029 | the records left behind are what a commit of the machine has to leave in the freeDB |
| `PageSave.SavedMatches` | Godeps/_workspace/src/github.com/armon/gomdb/mdb.c:2843-3029 | each of them is strictly descending, as the next allocation expects of a record it merges |
| `PageSave.CommitStands` | Godeps/_workspace/src/github.com/armon/gomdb/mdb.c:3331-3385 | writing these records and the dirty pages is a commit of the machine after which records and reader table match again |
| `PageSave.NextTransactionStands` | Godeps/_workspace/src/github.com/armon/gomdb/mdb.c:3331-3385 | so the lists of the next transaction stand for the state it begins in, its tree is exactly the one committed, and if the old lists stood for the end of a run, so do they |
| `PageSave.SortFreed` | Godeps/_workspace/src/github.com/armon/gomdb/mdb.c:2865-2925 | moves the loose pages if need be and sorts the freed list with mdb_midl_sort |
| `PageSave.ReturnLoose` | Godeps/_workspace/src/github.com/armon/gomdb/mdb.c:2979-2999 | sorts the loose pages and merges them into the reclaimed list in place; the temporary list lies in spare cells of the same array, and the room asked for keeps the two apart |
| `PageSave.WriteLoose` | Godeps/_workspace/src/github.com/armon/gomdb/mdb.c:2985-2993 | the temporary list of loose pages is written at the far end of the reclaimed list's array without touching the list |
| `PageSave.SortAndMerge` | Godeps/_workspace/src/github.com/armon/gomdb/mdb.c:2994-2996 | sorting the temporary list in place and merging it into the list before it, in one array, gives the merge of both |
| `PageSave.SaveFreelist` | Godeps/_workspace/src/github.com/armon/gomdb/mdb.c:2843-3029 | what is written, once the records for the reclaimed list are reserved, meets what the commit asks for, whenever both sorts succeed, and they do for lists of up to 2^30+3 pages; no loose page is left |
| `PageEnv.Play` | Godeps/_workspace/src/github.com/armon/gomdb/mdb.c:1941-3385 | for any sequence of allocations, copy-on-writes, frees, reads, commits and aborts without loose pages on a new environment, its lists stand after each operation for the end of a run of the machine; all operations are done unless a commit meets more pages than mdb_midl_sort can sort, which takes a file of more than 2^30+3 pages |
| `PageEnv.Perform` | Godeps/_workspace/src/github.com/armon/gomdb/mdb.c:1941-3385 | one operation on the environment's arrays, with its effect on tree, readers and snapshots |
| `PageEnv.ReaderUnharmed` | Godeps/_workspace/src/github.com/armon/gomdb/mdb.c:2528-2542 | through any such sequence a reader that has not ended keeps the snapshot it began with, and the file the contents of its pages |
| `PageEnv.TxnFullIff` | Godeps/_workspace/src/github.com/armon/gomdb/mdb.c:1979-1983 | through any such sequence, an operation answers that the transaction is full if and only if 131071 allocations of the running transaction have succeeded without a loose page, and no loose page serves this one |
| `PageEnv.RoomLeft` | Godeps/_workspace/src/github.com/armon/gomdb/mdb.c:1905-1923 | the room left and these allocations always make up 131071; pages given back count for nothing |
| `PageEnv.ReservesIff` | Godeps/_workspace/src/github.com/armon/gomdb/mdb.c:2843-2848 | the reservations a commit takes are those with increasing keys of consumed records and room for all pages to be returned |
| `PageEnv.AllocPages` | Godeps/_workspace/src/github.com/armon/gomdb/mdb.c:1941-2108 | after mdb_page_alloc on the arrays the lists stand for the end of a run; the pages it returns are new to the tree and in no snapshot that a reader holds or a meta page names, and a failed call leaves the tree alone; the file grows, or is full, only when the reclaimed list holds no run of that length and every record left is still read by somebody, or sixty records per page were merged in vain |
| `PageEnv.TouchPage` | Godeps/_workspace/src/github.com/armon/gomdb/mdb.c:2203-2235 | the same for copy-on-write, which exchanges exactly the touched page for one that is in no snapshot |
| `PageEnv.LoosePage` | Godeps/_workspace/src/github.com/armon/gomdb/mdb.c:1643-1687 | the same for loosening a page, which takes exactly it out of the tree |
| `PageEnv.FreeOverflow` | Godeps/_workspace/src/github.com/armon/gomdb/mdb.c:5140-5210 | the same for freeing an overflow run |
| `PageEnv.StartReader` | Godeps/_workspace/src/github.com/armon/gomdb/mdb.c:2506-2530 | a reader in an idle slot pins the snapshot the newest meta page names |
| `PageEnv.StopReader` | Godeps/_workspace/src/github.com/armon/gomdb/mdb.c:2772-2776 | ending a reader lets go of exactly its snapshot |
| `PageEnv.CommitAndBegin` | Godeps/_workspace/src/github.com/armon/gomdb/mdb.c:3331-3385 | saving the free list on the arrays, committing and beginning again: the newest meta page names exactly the tree of the transaction, the next one starts from it, and its lists stand for the end of a run |
| `PageEnv.AbortAndBegin` | Godeps/_workspace/src/github.com/armon/gomdb/mdb.c:2760-2805 | aborting without loose pages and beginning again: the tree is the committed one, and the lists stand for the end of a run |
| `PageEnv.ListsFit` | Godeps/_workspace/src/github.com/armon/gomdb/mdb.c:2865-2999 | freed and loose pages are different pages of the file, so there are at most as many as it has |
| `PageAlloc.Env.constructor` | Godeps/_workspace/src/github.com/armon/gomdb/mdb.c:3464-3475 | a new environment: empty lists, an idle reader table, transaction 1, room for 131071 dirty pages |
| `PageAlloc.Env.Begin` | Godeps/_workspace/src/github.com/armon/gomdb/mdb.c:2532-2562 | a write transaction begins with empty lists, room for 131071 dirty pages and no error, on top of the snapshot that the meta page names |
| `PageAlloc.Env.FindOldest` | Godeps/_workspace/src/github.com/armon/gomdb/mdb.c:1888-1904 | the smallest transaction id among the active reader slots and the writer's predecessor |
| `PageAlloc.Env.OldEnough` | Godeps/_workspace/src/github.com/armon/gomdb/mdb.c:2020-2029 | a record may be used exactly when it is below the oldest reader, scanning the table again at most once |
| `PageAlloc.Env.Need` | Godeps/_workspace/src/github.com/armon/gomdb/midl.c:144-156 | room for n more entries without changing the list |
| `PageAlloc.Env.MergeIntoHead` | Godeps/_workspace/src/github.com/armon/gomdb/mdb.c:2051-2072 | the reclaimed list becomes its merge with the record |
| `PageAlloc.Env.NextRecord` | Godeps/_workspace/src/github.com/armon/gomdb/mdb.c:2030-2036 | the smallest record key from the given one on |
| `PageAlloc.Env.MergeIfOld` | Godeps/_workspace/src/github.com/armon/gomdb/mdb.c:2036-2072 | a record is merged only if it is old enough; otherwise nothing usable is left |
| `PageAlloc.Env.FetchRecord` | Godeps/_workspace/src/github.com/armon/gomdb/mdb.c:2019-2072 | one round of reclaiming: the next record is merged, or none is left that is old enough |
| `PageAlloc.Env.FetchNext` | Godeps/_workspace/src/github.com/armon/gomdb/mdb.c:2030-2072 | the next record by key is merged if there is one that is old enough |
| `PageAlloc.Env.SeekRun` | Godeps/_workspace/src/github.com/armon/gomdb/mdb.c:1984-2073 | finds the lowest run of the wanted length, or has searched the list and all old enough records, or gives up at exactly one fruitless search more than sixty for each page, and never searches more often |
| `PageAlloc.Env.UseRun` | Godeps/_workspace/src/github.com/armon/gomdb/mdb.c:2093-2097 | takes exactly the run found out of the reclaimed list |
| `PageAlloc.Env.UseNew` | Godeps/_workspace/src/github.com/armon/gomdb/mdb.c:2075-2100 | takes pages at the end of the file |
| `PageAlloc.Env.Alloc` | Godeps/_workspace/src/github.com/armon/gomdb/mdb.c:1941-2108 | the whole of mdb_page_alloc: loose page first, then the lowest run, then new pages; TxnFull if and only if no entry of the dirty list is left and no loose page serves, MapFull only at the end of the map with nothing left to search; a success without a loose page uses up exactly one entry, and only a failure marks the transaction |
| `PageAlloc.Env.Account` | Godeps/_workspace/src/github.com/armon/gomdb/mdb.c:1922-1922 | mdb_page_dirty takes one entry of the dirty list; a failure takes none and marks the transaction |
| `PageAlloc.Env.Touch` | Godeps/_workspace/src/github.com/armon/gomdb/mdb.c:2203-2235 | page-number effect of copy-on-write, for dirty and clean pages and for a failed allocation |
| `PageAlloc.Env.Loose` | Godeps/_workspace/src/github.com/armon/gomdb/mdb.c:1643-1687 | a dirty page goes to the front of the loose list, any other to the freed list |
| `PageAlloc.Env.OvpageFree` | Godeps/_workspace/src/github.com/armon/gomdb/mdb.c:5140-5210 | a dirty overflow run goes back into the reclaimed list in order, any other to the freed list |
| `PageView.ReclaimRecord` | Godeps/_workspace/src/github.com/armon/gomdb/mdb.c:2051-2072 | the array-level merge is the machine's reclaim step |
| `PageView.TakeRunAt` | Godeps/_workspace/src/github.com/armon/gomdb/mdb.c:2093-2097 | removing a run from the array is the machine's step that hands out that run |
| `PageView.ReturnRun` | Godeps/_workspace/src/github.com/armon/gomdb/mdb.c:5160-5210 | inserting a run into the array is the machine's step that returns it |
| `PageRuns.FindRun` | Godeps/_workspace/src/github.com/armon/gomdb/mdb.c:1992-2000 | the place found ends num truly consecutive pages and is the last such place, or there is no run |
| `PageRuns.LastPlaceIsLowest` | Godeps/_workspace/src/github.com/armon/gomdb/mdb.c:1992-2000 | the last place in a descending list is the lowest run |
| `PageRuns.RunHasPlace` | Godeps/_workspace/src/github.com/armon/gomdb/mdb.c:1992-2000 | every run of consecutive pages in the list has a place where the search sees it |
| `PageRuns.RemoveRun` | Godeps/_workspace/src/github.com/armon/gomdb/mdb.c:2093-2097 | the list loses exactly the run, order kept |
| `PageRuns.WithoutRun` | Godeps/_workspace/src/github.com/armon/gomdb/mdb.c:2093-2097 | removing a run removes exactly its pages and stays strictly descending |
| `PageRuns.InsertRun` | Godeps/_workspace/src/github.com/armon/gomdb/mdb.c:5198-5205 | the list gains exactly the run in its place |
| `PageRuns.WithRun` | Godeps/_workspace/src/github.com/armon/gomdb/mdb.c:5198-5205 | inserting a disjoint run adds exactly its pages and stays strictly descending |
| `PageRuns.TakeThenFree` | Godeps/_workspace/src/github.com/armon/gomdb/mdb.c:5198-5205 | freeing a run that was just taken restores the original list |
| `PageRuns.MergedIsUnion` | Godeps/_workspace/src/github.com/armon/gomdb/midl.c:202-214 | merging disjoint strictly descending lists gives the strictly descending union |
| `Midl.Search` | Godeps/_workspace/src/github.com/armon/gomdb/midl.c:31-64 | the place of the id, or the place where it belongs |
| `Midl.AppendRange` | Godeps/_workspace/src/github.com/armon/gomdb/midl.c:186-200 | the pages of the range are appended in descending order |
| `Midl.XMerge` | Godeps/_workspace/src/github.com/armon/gomdb/midl.c:202-214 | the in-place merge computes the merge of the two lists, within bounds thanks to the sentinel, also when the second list lies in spare cells of the first one's array; the cells behind the result stay as they are |
| `Midl.MergedElements` | Godeps/_workspace/src/github.com/armon/gomdb/midl.c:202-214 | a merge holds every number as often as both lists together |
| `Midl.MergedDescends` | Godeps/_workspace/src/github.com/armon/gomdb/midl.c:202-214 | the merge of descending lists descends |
| `MidlSort.Sort` | Godeps/_workspace/src/github.com/armon/gomdb/midl.c:221-280 | for a list that begins at any cell of an array: a permutation of any list whose length fits an int, and descending unless the int sum of a midpoint overflows, for a segment that is returned; it never does up to 2^30+3 elements, and on a longer list as LopsidedList gives it does; cells before the list stay as they are |
| `MidlSort.LopsidedList` | Godeps/_workspace/src/github.com/armon/gomdb/midl.c:246-246 | for every length above 2^30+3 there is a list on which the sum for a midpoint overflows, so all lists of a length are sorted if and only if it is at most 2^30+3 |
| `MidlSort.LopsidedParts` | Godeps/_workspace/src/github.com/armon/gomdb/midl.c:246-277 | partitioning such a list leaves exactly its nine smallest elements on the right, at places whose sum is too large |
| `MidlSort.MidpointFits` | Godeps/_workspace/src/github.com/armon/gomdb/midl.c:246-246 | in a list of at most 2^30+3 elements no segment that is partitioned has such a sum |
| `MidlSort.InsertionSort` | Godeps/_workspace/src/github.com/armon/gomdb/midl.c:233-241 | sorts a segment; the inner loop, bounded only by place 1, stays inside it |
| `MidlSort.MedianOfThree` | Godeps/_workspace/src/github.com/armon/gomdb/midl.c:246-256 | for a segment whose two ends add up within an int, orders three elements around the median of first, middle and last, permuting the segment |
| `MidlSort.Scan` | Godeps/_workspace/src/github.com/armon/gomdb/midl.c:261-262 | both scans, which test no bound, stop inside the segment |
| `MidlSort.Partition` | Godeps/_workspace/src/github.com/armon/gomdb/midl.c:257-267 | splits the segment around the pivot |
| `MidlSort.LargeRound` | Godeps/_workspace/src/github.com/armon/gomdb/midl.c:246-277 | one partitioning round pushes the larger part and goes on with the smaller |
| `MidlSort.SmallRound` | Godeps/_workspace/src/github.com/armon/gomdb/midl.c:233-244 | one insertion-sort round pops the next segment |
| `MidlSort.DepthBound` | Godeps/_workspace/src/github.com/armon/gomdb/midl.c:225-225 | because each pushed part is at least as large as what remains, the fixed stack of 64 never overflows |
| `MidlSort.PartsPending` | Godeps/_workspace/src/github.com/armon/gomdb/midl.c:268-277 | the parts of a split segment are sorted once each of them is |
| `Mid2l.Search` | Godeps/_workspace/src/github.com/armon/gomdb/midl.c:282-315 | the first place whose id is not below the wanted one |
| `Mid2l.Insert` | Godeps/_workspace/src/github.com/armon/gomdb/midl.c:317-346 | inserts in order, or reports a duplicate or a full list, changing nothing |
| `Mid2l.InsertedAscends` | Godeps/_workspace/src/github.com/armon/gomdb/midl.c:317-346 | insertion keeps the list strictly ascending and adds exactly the new id |
| `Radix.Replay` | Godeps/_workspace/src/github.com/armon/go-radix/radix.go:135-271 | after any sequence of insertions and deletions the tree represents exactly the map built by the same operations and counts its keys, as far as the first deletion that meets the failing case of Delete; without one, all of them |
| `Radix.Perform` | Godeps/_workspace/src/github.com/armon/go-radix/radix.go:135-271 | one operation that is not that deletion keeps the tree well formed and changes the map as a map would |
| `Radix.NoEmptyDeleteFails` | Godeps/_workspace/src/github.com/armon/go-radix/radix.go:256-271 | a sequence without a deletion of the empty key never meets it |
| `Radix.Tree.constructor` | Godeps/_workspace/src/github.com/armon/go-radix/radix.go:98-110 | an empty tree is a root without leaf and children and represents the empty map |
| `Radix.Tree.Insert` | Godeps/_workspace/src/github.com/armon/go-radix/radix.go:135-225 | the map gains or replaces exactly the key, the previous value is returned, the size is kept, and the new shape is the old one with a leaf set, a leaf child added, or an edge split first |
| `Radix.Tree.Delete` | Godeps/_workspace/src/github.com/armon/go-radix/radix.go:229-271 | the tree stays well formed, its size counts the keys left and the key's value is returned, for every key; the map loses exactly the key if and only if it is not the case that the root holds it, has one child and other keys exist; then every other key loses the child's prefix |
| `Radix.DeleteEmptyKey` | Godeps/_workspace/src/github.com/armon/go-radix/radix.go:256-271 | after storing the empty key and any other one, deleting the empty key makes a lookup of the other find nothing, and a lookup of the empty key find the other's value |
| `Trie.InsertedModel` | Godeps/_workspace/src/github.com/armon/go-radix/radix.go:135-225 | in each of the cases of an insertion the new shape stands for the map with exactly the key added |
| `Radix.DeletedExactly` | Godeps/_workspace/src/github.com/armon/go-radix/radix.go:256-271 | the deletion is right if and only if the root does not absorb its only child while other keys are stored |
| `Trie.RootMergeModel` | Godeps/_workspace/src/github.com/armon/go-radix/radix.go:263-269 | absorbing the only child into the root changes the map if and only if other keys are stored |
| `Radix.Tree.Get` | Godeps/_workspace/src/github.com/armon/go-radix/radix.go:275-302 | the value the map holds for the key, for every key |
| `Radix.Tree.LongestPrefix` | Godeps/_workspace/src/github.com/armon/go-radix/radix.go:305-337 | the longest stored key that prefixes the query, or none |
| `Radix.Tree.Walk` | Godeps/_workspace/src/github.com/armon/go-radix/radix.go:373-375 | visits every stored key, none twice, in byte-lexicographic order, up to where the callback stops |
| `Radix.Tree.WalkPrefix` | Godeps/_workspace/src/github.com/armon/go-radix/radix.go:378-410 | visits exactly the stored keys under the prefix, in order, up to where the callback stops |
| `Radix.Tree.WalkPath` | Godeps/_workspace/src/github.com/armon/go-radix/radix.go:413-440 | visits exactly the stored prefixes of the path by increasing length, up to where the callback stops |
| `Radix.Tree.RecursiveWalk` | Godeps/_workspace/src/github.com/armon/go-radix/radix.go:444-457 | the leaves under a node in order, up to where the callback stops |
| `TrieOrder.UnderLists` | Godeps/_workspace/src/github.com/armon/go-radix/radix.go:444-457 | own leaf first, then the children in label order, lists every key under a node, sorted and none twice |
| `TrieOrder.SortedOnce` | Godeps/_workspace/src/github.com/armon/go-radix/radix.go:444-457 | a listing in strict byte-lexicographic order has no key twice |
| `TrieOrder.VisitedUnder` | Godeps/_workspace/src/github.com/armon/go-radix/radix.go:373-410 | a walk that its callback may end has visited the keys in order and none twice, none after the one that ended it, and missed only later ones |
| `TrieOrder.VisitedPath` | Godeps/_workspace/src/github.com/armon/go-radix/radix.go:413-440 | the same for the prefixes of a path |
| `TrieOrder.PathLists` | Godeps/_workspace/src/github.com/armon/go-radix/radix.go:413-440 | collecting leaves along a path lists exactly the stored prefixes |
| `Radix.FindEdge` | Godeps/_workspace/src/github.com/armon/go-radix/radix.go:59-68 | binary search for an edge label |
| `Radix.CommonPrefix` | Godeps/_workspace/src/github.com/armon/go-radix/radix.go:119-131 | the length of the longest common prefix |
| `Radix.Tree.SplitNode` | Godeps/_workspace/src/github.com/armon/go-radix/radix.go:184-199 | a new node is put between a node and its child |
| `Radix.Tree.AddChild` | Godeps/_workspace/src/github.com/armon/go-radix/radix.go:160-175 | a new leaf child is added in label order |
| `Radix.Tree.Locate` | Godeps/_workspace/src/github.com/armon/go-radix/radix.go:135-182 | the node where an insertion has to act and which of its cases applies; a key that needs a new node is not stored yet |
| `Trie.SplitOk` | Godeps/_workspace/src/github.com/armon/go-radix/radix.go:184-199 | splitting an edge keeps the shape and the map |
| `Trie.AddNodeOk` | Godeps/_workspace/src/github.com/armon/go-radix/radix.go:160-175 | adding a leaf keeps the shape and adds exactly its key |
| `Trie.MergeOk` | Godeps/_workspace/src/github.com/armon/go-radix/radix.go:263-269 | merging a node with its only child keeps the shape and the map |
| `Trie.SetLeafOk` | Godeps/_workspace/src/github.com/armon/go-radix/radix.go:141-153 | setting or clearing a leaf changes exactly its key |
| `BitmapStore.VlansAreUnique` | daemon/network.go:157-187 | in every interleaving no two live grants share a VLAN, all are in 1..4095, and bit v-1 is set exactly while v is held |
| `BitmapStore.VlanRefusedIff` | daemon/network.go:157-173 | in every run a VLAN request is refused if and only if all of 1..4095 are held; otherwise it tries for the smallest that is not |
| `BitmapStore.IpTriesLowest` | daemon/ipam.go:15-34 | while no request has found a subnet full, an IP request tries for the smallest position that is not held |
| `BitmapStore.IpsAreUniqueIffNeverFull` | daemon/ipam.go:15-51 | in the machine, whose release step clears the granted bit, live IP grants of a subnet stay distinct through a run if and only if no accepted request had read a full bitmap; then bit p-1 is set exactly while p is held; the program's release is that step for prefixes up to 29 (OwnedIsReleased) |
| `BitmapStore.OvergrantDuplicates` | daemon/ipam.go:29-34 | a request accepted on a full bitmap grants the last position a second time |
| `BitmapStore.FullSubnetGrantsTwice` | daemon/utils.go:230-239 | every subnet can be driven into such a duplicate grant by one request more than it has positions |
| `BitmapStore.AcceptedBase` | daemon/network.go:169-173 | although the store compares values, an accepted write replaces exactly the bitmap it was computed from |
| `BitmapStore.StepInv` | daemon/network.go:157-187 | every read and every accepted or rejected write keeps the invariant |
| `BitmapStore.RunInv` | daemon/ipam.go:15-51 | the invariant holds throughout every run without a request accepted on a full bitmap |
| `BitmapStore.VlanNeverOvergrants` | daemon/network.go:166-168 | the check against the VLAN count keeps full bitmaps from being granted |
| `Vlan.AllocateAttempt` | daemon/network.go:157-173 | the code between reading and writing makes an attempt of the machine for the lowest clear bit below 4095, or reports that no VLAN is left if and only if there is none; it expects the bytes it read, or 512 zeros |
| `Vlan.ReleaseAttempt` | daemon/network.go:175-187 | the code between reading and writing clears exactly the released VLAN's bit |
| `Ipam.RequestAttempt` | daemon/ipam.go:15-35 | the code between reading and writing makes an attempt of the machine and answers with the address of the position; it expects the bytes it read, or none |
| `Ipam.ReleaseAttempt` | daemon/ipam.go:37-51 | the code between reading and writing clears the bit of the address's position, reports a missing key, and stops on a position without a bit |
| `Ipam.PositionIsGrantedIff` | daemon/ipam.go:53-109 | the position computed from a granted address is the granted one if and only if it is below the size of the subnet |
| `Ipam.ReleaseClearsGranted` | daemon/ipam.go:37-51 | for every such position, releasing the address clears exactly the granted bit |
| `Ipam.PositionsFitIff` | daemon/ipam.go:53-109 | the position computed back from its address is the granted one for every position below the last bit, if and only if the prefix is at most 29; for a longer prefix a release clears another bit |
| `Ipam.OwnedIsReleased` | daemon/ipam.go:37-51 | for prefixes up to 29, what the owner of a position does to release its address is the release step of the machine, in every run without a request accepted on a full bitmap |
| `Ipam.GetIP` | daemon/ipam.go:80-109 | the base address plus the position modulo the size of the subnet, for prefixes 1 to 32 |
| `Ipam.GetBitPosition` | daemon/ipam.go:53-75 | the address modulo the size of the subnet |
| `Ipam.PositionOfAddress` | daemon/ipam.go:53-109 | getBitPosition undoes getIP up to the size of the subnet |
| `Ipam.AddressesDistinctIff` | daemon/ipam.go:15-25 | the positions of the bitmap name different addresses if and only if the prefix is at most 29; AlwaysApartIff says what that means for runs |
| `Ipam.AddressesAreUnique` | daemon/ipam.go:15-51 | while no request found the bitmap full, live grants have different addresses inside the subnet |
| `Ipam.AlwaysApartIff` | daemon/ipam.go:15-51 | live grants have different addresses through every run in which no request found the bitmap full, if and only if the prefix is at most 29 |
| `Ipam.SmallSubnetShares` | daemon/ipam.go:15-35 | for prefixes 30 to 32, a run in which the bitmap never is full and positions stay distinct, but two sessions hold one address |
| `Ipam.SharedIsReleasedWrongly` | daemon/ipam.go:37-75 | releasing the second of these grants indexes out of range for prefix 32; for 30 and 31 it clears a bit other than the granted one, and the next request gets position 1 while the first session still owns it |
| `Ipam.BitmapBytes` | daemon/ipam.go:16-22 | the number of bytes is the number of addresses over 8, rounded up |
| `Bits.TestAndSetBit` | daemon/utils.go:230-239 | sets the lowest clear bit; a full bitmap is left alone and gives the same answer as its last bit |
| `Bits.SetBit` | daemon/utils.go:218-220 | sets one bit |
| `Bits.ClearBit` | daemon/utils.go:222-224 | clears one bit |
| `Bits.TestBit` | daemon/utils.go:226-228 | tests one bit |
| `Bits.PutUpdates` | daemon/utils.go:218-224 | setting or clearing changes that bit and no other |
| `Subnets.NetworkRange` | daemon/utils.go:46-57 | the lowest and highest address; the block is exactly the interval between them |
| `Subnets.NetworkOverlaps` | daemon/utils.go:35-43 | true if and only if some address lies in both blocks |
| `Subnets.ContainsIsInBlock` | daemon/utils.go:36-41 | comparing under the mask decides membership in the block |
| `Subnets.RangeIsBlock` | daemon/utils.go:46-57 | an address is in the block if and only if it lies between first and last |
| `Subnets.CheckRouteOverlaps` | daemon/utils.go:20-32 | free if and only if no routed destination shares an address; a failed query is reported |
| `Subnets.GetAvailableSubnet` | daemon/bridge.go:99-111 | the first candidate that shares no address with any routed destination; a candidate that does not parse ends the search |
| `Gossip.RemoteMovesForward` | Godeps/_workspace/src/github.com/hashicorp/memberlist/state.go:591-889 | one message leaves a remote record alone or makes its (incarnation, alive < suspect < dead) pair strictly larger |
| `Gossip.RunMovesForward` | Godeps/_workspace/src/github.com/hashicorp/memberlist/state.go:591-916 | through any run, while a remote member stays in the map its record is unchanged or strictly newer |
| `Gossip.RevivedOnlyByNewerAlive` | Godeps/_workspace/src/github.com/hashicorp/memberlist/state.go:650-726 | a dead member comes back only by an alive message of a strictly newer incarnation |
| `GossipLaws.AliveIs` | Godeps/_workspace/src/github.com/hashicorp/memberlist/state.go:591-742 | an alive message about another member, in every case: taken over, with status, incarnation, meta data and first six versions, and passed on once, if and only if it is newer and from the same address, or about an unknown member at an incarnation above 0 |
| `GossipLaws.SuspectIs` | Godeps/_workspace/src/github.com/hashicorp/memberlist/state.go:746-799 | a suspicion of another member, in every case: recorded at its incarnation and passed on if and only if the member is alive and not newer |
| `GossipLaws.DeadIs` | Godeps/_workspace/src/github.com/hashicorp/memberlist/state.go:825-889 | the same for a declaration of death, of a member that is not dead yet |
| `GossipLaws.AccusedIs` | Godeps/_workspace/src/github.com/hashicorp/memberlist/state.go:746-870 | an accusation of the local member, in every case: answered with a higher incarnation and its own record, or recorded when it is leaving, or ignored |
| `GossipLaws.ClaimedIs` | Godeps/_workspace/src/github.com/hashicorp/memberlist/state.go:591-712 | an alive message of others under the local name, in every case |
| `GossipLaws.AnnouncedIs` | Godeps/_workspace/src/github.com/hashicorp/memberlist/state.go:591-742 | what the local member announces itself is taken over and sent |
| `GossipLaws.LeavingIs` | Godeps/_workspace/src/github.com/hashicorp/memberlist/memberlist.go:443-464 | leaving records the member as dead at its own incarnation and says so once |
| `GossipLaws.PushedIs` | Godeps/_workspace/src/github.com/hashicorp/memberlist/state.go:893-916 | an entry of a pushed table: a live one acts as an alive message, any other as a suspicion, so nobody is declared dead by a table |
| `GossipLaws.MergedEntry` | Godeps/_workspace/src/github.com/hashicorp/memberlist/state.go:893-916 | merging a state that names each member once does to each other member what its entry alone would do |
| `GossipLaws.ReturnsIff` | Godeps/_workspace/src/github.com/hashicorp/memberlist/state.go:693-719 | which messages the handlers return from: for other members all but an alive message taken over with one to five version bytes |
| `Gossip.Redelivery` | Godeps/_workspace/src/github.com/hashicorp/memberlist/state.go:591-889 | delivering any message a second time changes nothing |
| `Gossip.LateRedelivery` | Godeps/_workspace/src/github.com/hashicorp/memberlist/state.go:591-916 | a message about a remote member that took effect once never does again, however late, while the member stays in the map |
| `Gossip.MergeTwice` | Godeps/_workspace/src/github.com/hashicorp/memberlist/state.go:893-916 | merging a state that names each member once a second time changes nothing |
| `Gossip.MergeChangesNothingIff` | Godeps/_workspace/src/github.com/hashicorp/memberlist/state.go:893-916 | merging a state leaves the view alone if and only if every message in it is quiet there |
| `Gossip.MergeTwiceIff` | Godeps/_workspace/src/github.com/hashicorp/memberlist/state.go:893-916 | merging any state a second time changes nothing if and only if each of its messages is quiet in the view the first time left |
| `Gossip.MergeTwiceNeedsDistinctNodes` | Godeps/_workspace/src/github.com/hashicorp/memberlist/state.go:893-916 | a state that names a member twice for which the second merge does change something |
| `Gossip.LocalStaysAlive` | Godeps/_workspace/src/github.com/hashicorp/memberlist/state.go:650-708 | from setAlive until leave the local member is alive with an incarnation its counter has reached, whatever arrives |
| `Gossip.BumpKeepsLocalIff` | Godeps/_workspace/src/github.com/hashicorp/memberlist/state.go:523-526 | taking an incarnation keeps that bound if and only if the counter does not wrap, or the local incarnation is 0 |
| `Gossip.SetAlive` | Godeps/_workspace/src/github.com/hashicorp/memberlist/memberlist.go:307-319 | setAlive on an empty map establishes it |
| `Gossip.RefutationEndsIff` | Godeps/_workspace/src/github.com/hashicorp/memberlist/state.go:693-696 | the refutation loop ends if and only if the accusation is below the largest incarnation, and then with the first number tried above it |
| `Gossip.RefutationIsAbove` | Godeps/_workspace/src/github.com/hashicorp/memberlist/state.go:767-787 | a refutation broadcasts, and records, an incarnation strictly above the accusation |
| `Membership.Memberlist.NextIncarnation` | Godeps/_workspace/src/github.com/hashicorp/memberlist/state.go:523-526 | the counter plus one, wrapping at 32 bits |
| `Membership.Memberlist.RefutingIncarnation` | Godeps/_workspace/src/github.com/hashicorp/memberlist/state.go:693-696 | the loop computes the refuting incarnation |
| `Membership.Memberlist.AliveNode` | Godeps/_workspace/src/github.com/hashicorp/memberlist/state.go:591-742 | aliveNode on the shared records does what the protocol says and keeps list and map consistent, for every message except one that is accepted and carries one to five version bytes |
| `Membership.Memberlist.SuspectNode` | Godeps/_workspace/src/github.com/hashicorp/memberlist/state.go:746-799 | suspectNode does what the protocol says |
| `Membership.Memberlist.DeadNode` | Godeps/_workspace/src/github.com/hashicorp/memberlist/state.go:825-889 | deadNode does what the protocol says |
| `Membership.Memberlist.MergeState` | Godeps/_workspace/src/github.com/hashicorp/memberlist/state.go:893-916 | mergeState applies the entries one after the other, suspecting instead of killing |
| `Membership.Memberlist.SetAlive` | Godeps/_workspace/src/github.com/hashicorp/memberlist/memberlist.go:307-319 | takes an incarnation and announces it |
| `Membership.Memberlist.Leave` | Godeps/_workspace/src/github.com/hashicorp/memberlist/memberlist.go:443-464 | marks the member as leaving and declares it dead |
| `Membership.Memberlist.ResetNodes` | Godeps/_workspace/src/github.com/hashicorp/memberlist/state.go:274-292 | removes exactly the dead entries from list and map |
| `Membership.Memberlist.AddNode` | Godeps/_workspace/src/github.com/hashicorp/memberlist/state.go:604-630 | a new member enters list and map once, dead with incarnation 0, and changes places with the one at the random offset |
| `Membership.MoveDeadNodes` | Godeps/_workspace/src/github.com/hashicorp/memberlist/util.go:133-147 | ends with a permutation split exactly into live then dead |
| `Membership.ShuffleNodes` | Godeps/_workspace/src/github.com/hashicorp/memberlist/util.go:111-116 | the outcome of changing places in turn with a random element at or before it, which is a permutation |
| `Shuffling.EveryOrder` | Godeps/_workspace/src/github.com/hashicorp/memberlist/util.go:111-116 | every order of the nodes is the outcome of some random numbers |
| `Membership.NamesUnique` | Godeps/_workspace/src/github.com/hashicorp/memberlist/state.go:604-630 | consistent list and map have unique names |
| `Membership.ReapedConsistent` | Godeps/_workspace/src/github.com/hashicorp/memberlist/state.go:274-292 | dropping the dead part of the list and their names keeps list and map consistent |
| `BroadcastQueue.TransmitLimitedQueue.QueueBroadcast` | Godeps/_workspace/src/github.com/hashicorp/memberlist/queue.go:49-67 | the queue loses the message about the same node, which is finished, and gains the new one |
| `BroadcastQueue.TransmitLimitedQueue.Invalidate` | Godeps/_workspace/src/github.com/hashicorp/memberlist/queue.go:54-63 | although the loop skips an index after a removal, every message about the node goes |
| `BroadcastQueue.TransmitLimitedQueue.GetBroadcasts` | Godeps/_workspace/src/github.com/hashicorp/memberlist/queue.go:71-112 | sends the messages that fit, counts them, finishes only those that have then been sent as often as the limit, keeps the rest; a call that sends nothing leaves the queue alone |
| `BroadcastQueue.TransmitLimitedQueue.Select` | Godeps/_workspace/src/github.com/hashicorp/memberlist/queue.go:84-104 | the sweep with swap-removal computes the outcome for every item once |
| `BroadcastQueue.TransmitLimitedQueue.Reset` | Godeps/_workspace/src/github.com/hashicorp/memberlist/queue.go:122-129 | finishes everything once |
| `BroadcastQueue.TransmitLimitedQueue.Prune` | Godeps/_workspace/src/github.com/hashicorp/memberlist/queue.go:133-151 | finishes all but the last maxRetain messages |
| `BroadcastQueue.TransmitLimitedQueue.Perform` | Godeps/_workspace/src/github.com/hashicorp/memberlist/queue.go:49-151 | over every run: one message per node, non-increasing transmit counts that say how often each broadcast was sent, each broadcast queued or finished exactly once, and finished for good; with one transmit limit no broadcast is sent more often than it says, at least once, and one that was is finished |
| `BroadcastQueue.SentPlaces` | Godeps/_workspace/src/github.com/hashicorp/memberlist/queue.go:84-94 | the messages sent are those of the items, from the end of the queue to its front |
| `BroadcastQueue.LeftOut` | Godeps/_workspace/src/github.com/hashicorp/memberlist/queue.go:88-91 | a message that is left out would not have fitted any more |
| `BroadcastQueue.KeptCounted` | Godeps/_workspace/src/github.com/hashicorp/memberlist/queue.go:96-104 | an item that stays was counted exactly if it was sent, and is below the limit then |
| `BroadcastQueue.SentAtMost` | Godeps/_workspace/src/github.com/hashicorp/memberlist/queue.go:96-104 | no broadcast is sent more often than the limit says, and one that was sent so often is finished |
| `BroadcastQueue.ExpiredIsSpent` | Godeps/_workspace/src/github.com/hashicorp/memberlist/queue.go:97-102 | a call finishes only what has been sent as often as its limit says |
| `BroadcastQueue.QueuedInv` | Godeps/_workspace/src/github.com/hashicorp/memberlist/broadcast.go:21-30 | replacing by node keeps the invariant |
| `BroadcastQueue.SentInv` | Godeps/_workspace/src/github.com/hashicorp/memberlist/queue.go:84-110 | a sweep followed by any sort keeps the invariant |
| `BroadcastQueue.DroppedInv` | Godeps/_workspace/src/github.com/hashicorp/memberlist/queue.go:133-151 | finishing a prefix keeps the invariant |
| `BroadcastQueue.SentCost` | Godeps/_workspace/src/github.com/hashicorp/memberlist/queue.go:84-94 | messages picked cost what was counted and fit the limit |
| `BroadcastQueue.KeptIds` | Godeps/_workspace/src/github.com/hashicorp/memberlist/queue.go:96-103 | each broadcast goes on being queued or is finished, never both |
| `Framing.RoundTripIff` | Godeps/_workspace/src/github.com/hashicorp/memberlist/util.go:190-250 | decoding undoes encoding if and only if there are fewer than 256 messages, each shorter than 65536 bytes, and at most 127 of them or a payload that its own length table does not disturb |
| `Framing.RoundTrip` | Godeps/_workspace/src/github.com/hashicorp/memberlist/util.go:190-250 | up to 127 messages, each shorter than 65536 bytes, are decoded to themselves |
| `Framing.TooManyMessages` | Godeps/_workspace/src/github.com/hashicorp/memberlist/util.go:221-235 | 128 to 255 messages, the first of which starts with a byte other than the high length byte that the skipped part of the table begins with, are not |
| `Framing.Truncated` | Godeps/_workspace/src/github.com/hashicorp/memberlist/util.go:216-250 | for every truncation: which error, or a prefix of the messages that is as long as possible, with parts plus truncated equal to the count |
| `Framing.MakeCompoundMessage` | Godeps/_workspace/src/github.com/hashicorp/memberlist/util.go:190-211 | the bytes of a compound message and their number |
| `Framing.DecodeCompoundMessage` | Godeps/_workspace/src/github.com/hashicorp/memberlist/util.go:216-250 | the decoder with its 8-bit arithmetic; parts plus truncated is the count byte |
| `Framing.CutIff` | Godeps/_workspace/src/github.com/hashicorp/memberlist/util.go:237-249 | cutting recovers messages if and only if the lengths are theirs and the buffer starts with them |
| `Framing.Pkcs7Encode` | Godeps/_workspace/src/github.com/hashicorp/memberlist/security.go:39-45 | pads to a multiple of the block size with bytes that hold the number of bytes added |
| `Framing.Unpad` | Godeps/_workspace/src/github.com/hashicorp/memberlist/security.go:48-56 | decoding undoes the padding of every buffer |
| `Framing.EncryptPayload` | Godeps/_workspace/src/github.com/hashicorp/memberlist/security.go:88-136 | version byte, nonce, then the sealed text, of the message or of a padding that decodes to it; exactly encryptedLength bytes, at most the message plus encryptOverhead |
| `Framing.GetBroadcasts` | Godeps/_workspace/src/github.com/hashicorp/memberlist/broadcast.go:72-100 | exactly the queue's messages and then, while there is room, the delegate's, each framed as a user message; together they fit the limit |
| `Framing.GossipPacket` | Godeps/_workspace/src/github.com/hashicorp/memberlist/state.go:305-327 | every gossip packet fits 1400 bytes, without encryption and with both versions, compressed or not; it holds exactly what getBroadcasts gives for that space, or the compressed form if that is shorter, and none is sent if that is nothing |
| `Framing.PacketDecodesIff` | Godeps/_workspace/src/github.com/hashicorp/memberlist/util.go:190-250 | a gossip packet whose first message has a type above 3, such as alive, dead or user, is decoded to its messages if and only if there are at most 127 |
| `Framing.LongMessagesSurvive` | Godeps/_workspace/src/github.com/hashicorp/memberlist/util.go:190-250 | a gossip packet of messages of nine bytes and more always is |
| `Framing.UndecodedGossip` | Godeps/_workspace/src/github.com/hashicorp/memberlist/state.go:305-327 | with a delegate that has 128 empty messages, gossip sends, in every mode of encryption and compression, a packet that is not |
| `FramingLaws.CompoundLayout` | Godeps/_workspace/src/github.com/hashicorp/memberlist/util.go:190-211 | where each byte of a compound message stands: type 7, the count, the lengths with the high byte first, the messages one after the other |
| `FramingLaws.DecodeIs` | Godeps/_workspace/src/github.com/hashicorp/memberlist/util.go:216-250 | any buffer with up to 127 parts is cut up by the lengths in its table, each part where the one before ends, as long as a whole part is left |
| `FramingLaws.OutgoingIs` | Godeps/_workspace/src/github.com/hashicorp/memberlist/broadcast.go:72-100 | the messages of the queue come first, all of them; the delegate is asked if and only if more than its overhead is left, and each of its messages follows behind a byte 8 |
| `FramingLaws.CostIs` | Godeps/_workspace/src/github.com/hashicorp/memberlist/broadcast.go:80-84 | what messages cost: their bytes and the overhead for each |
| `FramingLaws.GossipBudget` | Godeps/_workspace/src/github.com/hashicorp/memberlist/state.go:305-310 | the space for messages: 1398 bytes, 1353 with encryption version 0, 1369 with version 1 |
| `FramingLaws.EncryptedIs` | Godeps/_workspace/src/github.com/hashicorp/memberlist/security.go:63-86 | encryption adds 29 bytes, and version 0 pads to the next multiple of sixteen |
| `TomlLexer.Lexer.ReadLiteral` | Godeps/_workspace/src/github.com/BurntSushi/toml/parse.go:417-475 | lexing and unescaping the encoder's literal gives the string back if and only if it is valid UTF-8 |
| `TomlLexer.Lexer.LexLiteral` | Godeps/_workspace/src/github.com/BurntSushi/toml/lex.go:385-394 | lexing the encoder's literal stops right behind its closing quote, with the quoted text as item, if and only if the string is not empty or a one-byte rune other than a quote follows |
| `TomlLexer.LexEmptyLiteral` | Godeps/_workspace/src/github.com/BurntSushi/toml/lex.go:385-394 | the empty literal at the start of a text is taken if and only if a one-byte rune other than a quote follows; before a character of two bytes it is not |
| `TomlLexer.Lexer.Run` | Godeps/_workspace/src/github.com/BurntSushi/toml/lex.go:472-488 | the string states emit the text up to the closing quote and go on behind it, or report an error; every escape in an emitted string can be replaced |
| `TomlLexer.Lexer.OpenString` | Godeps/_workspace/src/github.com/BurntSushi/toml/lex.go:385-394 | where lexing a string starts, with the second step back by the width of the rune after two quotes |
| `TomlLexer.Lexer.LexString` | Godeps/_workspace/src/github.com/BurntSushi/toml/lex.go:472-488 | one rune of a string |
| `TomlLexer.Lexer.LexStringEscape` | Godeps/_workspace/src/github.com/BurntSushi/toml/lex.go:572-598 | one escape character |
| `TomlLexer.Lexer.LexUnicodeEscape` | Godeps/_workspace/src/github.com/BurntSushi/toml/lex.go:600-622 | four or eight hexadecimal digits |
| `TomlLexer.Lexer.Next` | Godeps/_workspace/src/github.com/BurntSushi/toml/lex.go:126-138 | the next rune, or the end |
| `TomlLexer.Lexer.Accept` | Godeps/_workspace/src/github.com/BurntSushi/toml/lex.go:154-160 | consumes a rune only if it is the given one |
| `TomlLexer.Lexer.Pop` | Godeps/_workspace/src/github.com/BurntSushi/toml/lex.go:103-110 | the last pushed state, or an error |
| `TomlString.UnquoteQuoteIff` | Godeps/_workspace/src/github.com/BurntSushi/toml/encode.go:33-39 | unescaping a quoted string always succeeds, and returns it if and only if it is valid UTF-8 |
| `TomlString.ScannedIsWellEscaped` | Godeps/_workspace/src/github.com/BurntSushi/toml/lex.go:472-488 | what the lexer emits is well escaped and ends at a quote |
| `TomlString.WellEscapedScans` | Godeps/_workspace/src/github.com/BurntSushi/toml/lex.go:472-488 | every well escaped text is lexed as a whole |
| `TomlString.WellEscapedReplaces` | Godeps/_workspace/src/github.com/BurntSushi/toml/parse.go:417-475 | on a well escaped text replaceEscapes never reports a bug or slices out of range |
| `TomlString.QuotedIsWellEscaped` | Godeps/_workspace/src/github.com/BurntSushi/toml/encode.go:207-209 | the quoted form of any string is well escaped |
| `TomlString.ReplaceEscapes` | Godeps/_workspace/src/github.com/BurntSushi/toml/parse.go:417-475 | the loop computes the unescaped runes |
| `TomlString.AsciiEscapeToUnicode` | Godeps/_workspace/src/github.com/BurntSushi/toml/parse.go:477-493 | hexadecimal digits become a rune whose encoding is always valid, so its check cannot fail |
| `TomlEscapes.ShortEscape` | Godeps/_workspace/src/github.com/BurntSushi/toml/parse.go:457-463 | a backslash, u and the four hexadecimal digits of r, in either case, stand for the code point r |
| `TomlEscapes.LongEscape` | Godeps/_workspace/src/github.com/BurntSushi/toml/parse.go:464-470 | a backslash, U and the eight digits of r too, in the 32 bits of a rune |
| `TomlEscapes.EveryCodePoint` | Godeps/_workspace/src/github.com/BurntSushi/toml/parse.go:457-470 | every code point can be written, in either form where it fits |
| `TomlEscapes.SimpleEscapes` | Godeps/_workspace/src/github.com/BurntSushi/toml/parse.go:436-456 | the seven escapes of one character, by number |
| `TomlEscapes.EscapeIff` | Godeps/_workspace/src/github.com/BurntSushi/toml/parse.go:417-475 | nothing else after a backslash is replaced |
| `TomlEscapes.HexDigitsIff` | Godeps/_workspace/src/github.com/BurntSushi/toml/parse.go:477-493 | exactly the numerals in base 16 are taken for digits |
| `TomlEscapes.CharIff` | Godeps/_workspace/src/github.com/BurntSushi/toml/lex.go:472-488 | inside a string exactly line breaks, bare quotes and backslashes without an escape are refused |
| `TomlEscapes.QuotedIs` | Godeps/_workspace/src/github.com/BurntSushi/toml/encode.go:33-39 | the encoder writes five characters as escapes and everything else as it is |
| `Utf8.DecodeEncode` | Godeps/_workspace/src/github.com/BurntSushi/toml/lex.go:135-136 | decoding undoes encoding, whatever follows |
| `Utf8.DecodeBefore` | Godeps/_workspace/src/github.com/BurntSushi/toml/lex.go:135-136 | an ASCII byte ends the rune before it |
| `Utf8Table.DecodeIff` | Godeps/_workspace/src/github.com/BurntSushi/toml/lex.go:135-136 | decoding takes the code point whose bytes come next, and if there is none, one byte as U+FFFD |
| `Utf8Table.EncodedBytes` | Godeps/_workspace/src/github.com/BurntSushi/toml/lex.go:135-136 | sizes and byte ranges of the encoding are those of table 3-7 of the Unicode standard |
| `Utf8Table.EncodingKeepsOrder` | Godeps/_workspace/src/github.com/BurntSushi/toml/lex.go:135-136 | the bytes of a smaller code point come first in byte order |

## Left out

- LMDB's B-tree (split, merge, rebalance), cursors, sub-databases, spilling, nested transactions, compaction, file mapping and locks.
- Running out of memory, and the sizes to which the lists grow when they are enlarged.
- PageSave.SaveFreelist: the loop that reserves records for the reclaimed list, and may itself allocate and free pages, is not modelled; the records it leaves, with enough room and under keys of consumed records, are a parameter.
- PageEnv.Play: fewer than 2^64-1 operations, because transaction ids are not made to wrap; an operation that a caller may not ask for, such as freeing a page outside the tree or committing with a reservation that does not fit, is passed over, and so is an abort that would leave loose pages behind.
- The gap between reading the current transaction id and publishing it in the reader table: starting a reader is one step.
- Env: the dirty list is a set of page numbers with a count of free entries, so the order of dirty pages is not modelled.
- MidlSort.Sort: what C does after the sum of a midpoint has overflowed is undefined and is one outcome, in which the list is a permutation and nothing more is said.
- PageStore.LeakedLoosePageIsReused: without MDB_WRITEMAP the number of a leaked page is overwritten, which the machine does not model.
- Radix.Tree.AddChild: the sort after appending an edge is modelled by inserting the edge at its place, which is unique because labels are.
- Radix.Tree.constructor: NewFromMap, Minimum, Maximum, ToMap and Len are not modelled.
- CreateNetwork, DeleteNetwork and AddConnection: mostly calls to Open vSwitch, netlink and iptables.
- The retry by recursion after a rejected write: a session of the machine simply goes back to reading.
- Ipam.GetIP: IPv4 subnets in 4-byte form with a masked base address, as parsing gives them; IPv6 is not modelled, nor is prefix 0, for which the program indexes out of range.
- BitmapStore.IpsAreUniqueIffNeverFull: for prefixes 30 to 32 the program's release is not the machine's, as PositionsFitIff shows.
- BitmapStore.RunInv: a session that was granted the base address of a subnet never releases it, because the program indexes out of range for position 0.
- Suspicion timers: a dead message is an arbitrary input.
- Membership.Memberlist.AliveNode: an accepted alive message with one to five version bytes is excluded because the program indexes out of range for it; the conflict and event delegates are not modelled.
- Membership.Memberlist.SuspectNode: accusations of the local member with the largest incarnation are excluded because the program does not return.
- BroadcastQueue.TransmitLimitedQueue.GetBroadcasts: the transmit limit, a logarithm of the number of nodes, is a parameter.
- Framing.DecodeCompoundMessage: what is read past the end of a short buffer with 128 or more parts depends on its capacity and is one outcome, Overrun.
- Packets with piggybacked messages that are not sent by gossip: the first message's own length entry is not budgeted there.
- AES-GCM, LZW, msgpack and the network.
- TOML multi-line and raw strings, keys, tables, numbers and the line numbers in items.
- golang-lru, circbuf, the keyring, the hub, gorilla context and the command line.
