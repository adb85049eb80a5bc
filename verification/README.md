# tinydb, modelled and proved in Dafny

tinydb is a paged storage engine with a small SQL compiler. This project models its hard
parts and proves what they are for. Each module stands for a source file or for what several
of them do together.

**B+tree** (`NodeCodec`, `TreeShape`, `TreeContents`, `PagedBTree`). Nodes live in 4096-byte
page images of a `Pager` and are read back from them. A ghost shape gives every node an
interval of keys and a height; a ghost map says what the tree holds. Byte strings are
ordered through `Rank`, an order embedding into the reals; what it orders is proved apart
(`ByteStrings.LexLessIsBelow`). `insert`, `search`, `range` and
`delete` refine the finite map through leaf splits, inner splits and root growth. `Indexing`
puts several such trees, one per table and column, on one pager.

**Log, transactions, recovery** (`WalBytes`, `Replay`, `CrashSafety`, `Transactions`,
`Session`). The log is bytes, the protocol a state machine over single I/O steps in which a
crash may happen between any two. What a crash may leave is an assumption:

- of the log, any version it had since its last fsync: a suffix of appends may be lost, and
  the rewrite done by `truncate_before` happens as a whole or not at all;
- of the main file, anything in the pages written since its last fsync;
- pages a transaction writes exist before it, and are written whole;
- a transaction's id is not that of a COMMIT in the log. Ids restart at 1 when a database is
  opened (`src/tinydb/executor.py:527`), and the COMMIT of a transaction that wrote nothing
  survives recovery (`Replay.EmptyCommitSurvivesRecovery`), so this is a real assumption;
  `Replay.DroppedUnlessIdReused` shows that it is exactly what is needed.

**Pages** (`PageStore`, `CatalogPacking`, `CatalogStore`, `SlottedPages`, `RowCodec`). The
free list, the catalog packed into segments and chained behind page 1, the slotted page, and
the row format. `CatalogTexts` shows that the text of a segment says what the segment is.

**Joins** (`JoinAlgebra`, `JoinRows`, `JoinQueries`, `JoinMeaning`, `JoinWhere`, `JoinResults`,
`OrderBy`).
Names are resolved to positions, a left-deep plan is built and run by nested loops. What a
query denotes is defined by looking every column up by name, and the compiled plan produces
exactly that. `JoinResults` says for two tables which rows come out, by the values in their
columns.

**Index and table** (`TablePages`, `TableSpace`, `TableTrees`, `TableRows`, `TableIndex`). INSERT
and DELETE statements, and equality lookups by index and by scan. Here the parts above meet: rows
are encoded into slotted pages, keys go into B+trees, and both live in one pager as bytes. A
failing statement brings pages, page list and trees back from its snapshot. Which page a row goes
to is a function of the pages there are (`TableSpace.Placed`), so what the pages hold after a run
of statements is a function of what they held before (`TableRows.After`).

`ByteStrings` has `struct.pack` fields and byte order, `Wrappers` has `Option`.

CRC32 is an arbitrary function of the bytes, JSON reading is assumed to invert writing for
the texts at hand (`CatalogTexts.FaithfulReader` shows that it can), Python's `sorted` is any stable sort. A raised exception is a value of an
outcome type (`None`, `false` or a named case).

## What the proofs found

- `truncate_before(id + 1)` drops the transaction's own COMMIT record, against the comment
  at `src/tinydb/transaction.py:60-63` (`Replay.OwnCommitIsDropped`).
- The inner-node guard forgets the last child pointer. For keys of width `w` the page never
  overflows exactly when `4086 % (6 + w) >= 4` (`NodeCodec.GuardSufficesForWidth`).
- Freeing a page leaves the free list in order exactly when the page was live
  (`PageStore.Pager.FreePage`); one freed twice is handed out twice, and what else was on the
  list is lost (`PageStore.FreeTwiceThenAllocate`).
- A catalog that cannot be packed is refused only after its old chain has been cut down to
  the first page. The stored catalog is readable after that exactly when it had no other page
  (`CatalogStore.WriteCatalogChain`, `CatalogStore.RefusedCatalogLosesTables`).
- A slotted page admits rows it has no room for: the guard forgets the directory entry, and a
  tombstone is taken over without asking for space. The directory is read back exactly when
  16 + 6 slots + data <= 4094, or the data that lies over it has the same bytes
  (`SlottedPages.DirectorySurvives`); the longest row is written over its own entry
  (`SlottedPages.LongestRowOverwritesItsSlot`).
- A CHAR value shorter than its column, or a TIME with a fraction of a second, is not equal
  to what is stored for it. The duplicate check, which compares values, agrees with the index,
  which compares keys, exactly when the value is stored as it is or what is stored of it is not
  in the table (`TableRows.DuplicateCheckIsKeyCheck`). Otherwise the row is accepted and takes the
  index entry of the other one over (`TableIndex.PaddedRowTakesOver`): 'a' can be inserted twice
  into a CHAR(3) UNIQUE column, and the first row is lost to lookups
  (`TableIndex.PaddedDuplicate`).
- A scan compares a literal only with a column of the literal's own type, an index lookup with
  any column whose codec takes it. On a table with rows in it `WHERE id = 5` on a SMALLINT or
  BIGINT key, or a text that fits on a CHAR key, succeeds by index and raises TypeError by scan
  (`TableIndex.BigintScanRaises`). When the two agree is `TableRows.SameAnswer`, for every table
  and literal (`TableIndex.Table.SelectBothWays`, `TableRows.SameAnswerMeans`).
- With `USING (id)`, a WHERE on the right table's `id` reads the joined row at the right
  table's position of `id`. That is the merged key exactly when both tables have it at the
  same position (`JoinWhere.MergedKeyThroughRight`).
- Replay by sorted ids is replay in log order, whatever is written, exactly when the last
  committed write to each page belongs to the highest committed id that writes it
  (`Replay.OrderMatters`; `Replay.EarlierWriteWins` is a log where it does not). No such log is
  ever on the disk: one transaction is open at a time, and its writes are truncated away before
  the next one (`CrashSafety.OrderNeverMatters`).

## Model

| member | source | states |
|---|---|---|
| ByteStrings.LexLessIsBelow | src/tinydb/btree.py:323-343 | `a < b` on bytes holds if and only if a is a proper prefix of b or has the smaller byte where they first differ |
| ByteStrings.PackedInOrder | src/tinydb/index_manager.py:26-29 | big-endian numbers of one width are ordered as the numbers are |
| PagedBTree.BTree.Search | src/tinydb/btree.py:276-283 | returns the live value of the key in the map the tree refines, or None |
| PagedBTree.BTree.Insert | src/tinydb/btree.py:159-216 | whatever the keys: when it returns, the map has the key set to the value and nothing else changed, no foreign page is touched, new pages belong to the tree and are two more than its height at most; it returns when the leaf the key belongs to has room for it, and with keys of one good width always |
| PagedBTree.BTree.Delete | src/tinydb/btree.py:313-321 | the map without the key; same pages, same height |
| PagedBTree.BTree.Range | src/tinydb/btree.py:285-311 | exactly the values of the live keys in [start, end), in the order of `bytes` (`Below`: a proper prefix, or the smaller byte where two keys first differ); the leaf chain walk terminates |
| PagedBTree.BTree.DescendToLeaf | src/tinydb/btree.py:146-157 | reaches the one leaf whose interval contains the key |
| PagedBTree.BTree.InsertIntoParent | src/tinydb/btree.py:218-256 | a split whose new node hangs in the air is completed without changing the map; terminates although it splits upwards, the root grows when it must |
| PagedBTree.BTree.FindParent | src/tinydb/btree.py:258-274 | always returns the true parent of the node just split; the RuntimeError is unreachable |
| PagedBTree.BTree.SplitInner | src/tinydb/btree.py:240-255 | cutting an overfull inner node at its median keeps the map |
| PagedBTree.BTree.GrowRoot | src/tinydb/btree.py:224-230 | a split root gets a new root above it, the map is kept |
| PagedBTree.BTree.SplitLeaf | src/tinydb/btree.py:185-214 | cutting an overfull leaf and linking the halves keeps the map |
| PagedBTree.BTree.BisectLeft | src/tinydb/btree.py:323-332 | the first position whose key is not below the given one |
| PagedBTree.BTree.BisectRight | src/tinydb/btree.py:334-343 | the first position whose key is above the given one |
| PagedBTree.RunHistory | src/tinydb/btree.py:159-321 | after any history of inserts and deletes that raises nothing, search answers the last insert of the key not followed by its delete; with one good key width nothing raises unless page ids, of which n calls take n (n + 2) at most, come to 2^31 |
| PagedBTree.HeightBelowPages | src/tinydb/btree.py:218-256 | the tree is no higher than there are pages: every level has a node |
| PagedBTree.LevelsAreInhabited | src/tinydb/btree.py:218-256 | there is a node on every level from the leaves to the root |
| TreeShape.ParentOf | src/tinydb/btree.py:258-274 | descending by a key of a node's interval passes a node one level up that has it as child |
| TreeShape.SplitDangles | src/tinydb/btree.py:185-213 | after a split the new node lies directly right of the old one, inside the old interval, and the promoted separator is new in the parent |
| TreeShape.SplitInnerDangles | src/tinydb/btree.py:240-254 | the same for the halves of an inner node, with the median moved up |
| TreeShape.NewRootIsWhole | src/tinydb/btree.py:224-230 | a root above both halves is a complete tree, one level higher, all leaves at one depth |
| TreeContents.UpsertedAgrees | src/tinydb/btree.py:168-180 | rewriting one leaf position makes the leaf hold the updated map |
| TreeContents.SplitAgrees | src/tinydb/btree.py:185-214 | a split leaves what the tree holds unchanged |
| TreeContents.ChainIsInOrder | src/tinydb/btree.py:285-311 | the leaf chain from any leaf is the in-order list of the leaves from there on |
| Indexing.IndexManager.Insert | src/tinydb/index_manager.py:55-57 | sets the entry in that index and in no other; pages no tree owns keep their bytes; KeyError for an unknown index |
| Indexing.IndexManager.Delete | src/tinydb/index_manager.py:59-62 | removes the entry from that index and no other; pages no tree owns keep their bytes; an unknown index is ignored |
| Indexing.IndexManager.LookupKey | src/tinydb/index_manager.py:49-53 | the live value in that index's map, None for an unknown index |
| Indexing.IndexManager.Register | src/tinydb/index_manager.py:31-47 | a new empty index, the others unchanged |
| Indexing.IndexManager.ForgetTable | src/tinydb/index_manager.py:67-79 | exactly the indexes of the table are gone |
| Indexing.OneTreeMoved | src/tinydb/index_manager.py:55-62 | trees that share a pager stand when another one has changed its own pages and new ones |
| TreeContents.RunIsLastPut | src/tinydb/btree.py:159-321 | looking up the map of a history is the last insert not followed by a delete |
| NodeCodec.SerializeLeaf | src/tinydb/btree.py:37-57 | the page image of a leaf, or ValueError when the entries exceed 4086 bytes, or struct.error |
| NodeCodec.DeserializeLeaf | src/tinydb/btree.py:59-77 | the leaf a page image stands for, or an error |
| NodeCodec.LeafRoundTrip | src/tinydb/btree.py:37-77 | a stored leaf is read back with its keys, values, tombstones and next pointer |
| NodeCodec.SerializeInner | src/tinydb/btree.py:88-105 | the page image of an inner node, with the guard as written and the unchecked last child |
| NodeCodec.DeserializeInner | src/tinydb/btree.py:107-122 | the inner node a page image stands for, or an error |
| NodeCodec.InnerRoundTrip | src/tinydb/btree.py:88-122 | a stored inner node is read back with its keys and children |
| NodeCodec.GuardSufficesForWidth | src/tinydb/btree.py:97-104 | with keys of width w, what the guard admits leaves room for the last child exactly when 4086 % (6 + w) >= 4 |
| PageStore.Pager.AllocPage | src/tinydb/pager.py:396-432 | never returns a live page; what it returns is zeroed, the head of the free list if there is one; other pages keep their bytes; list and partition stay consistent |
| PageStore.Pager.PopHead | src/tinydb/pager.py:398-411 | the head of the list is handed out zeroed and its link becomes the head, whether or not the list is in order |
| PageStore.Pager.FreePage | src/tinydb/pager.py:434-448 | pushes the page on the list through the two headers; some free list and live set explain the store afterwards if and only if the page was live |
| PageStore.Pager.WritePage | src/tinydb/pager.py:462-474 | only whole pages are stored, and only that page changes |
| PageStore.Pager.WriteChainNext | src/tinydb/pager.py:531-540 | patches the first four bytes of the page |
| PageStore.PopIsConsistent | src/tinydb/pager.py:396-411 | popping keeps the list acyclic and live and free ids a partition of 2 to the next id |
| PageStore.PushIsConsistent | src/tinydb/pager.py:434-448 | so does pushing a live page |
| PageStore.PushOfDead | src/tinydb/pager.py:434-448 | no free list explains the store after a page that was not live has been pushed: the links come back to it |
| PageStore.FreeTwiceThenAllocate | src/tinydb/pager.py:396-448 | after a double free the next two allocations pop the same page, and the list is empty then |
| WalBytes.Wal.Append | src/tinydb/wal.py:117-133 | the file becomes the file of the records so far and this one |
| WalBytes.Wal.IterRecords | src/tinydb/wal.py:135-163 | exactly the records of which the file is made up, each as `append` writes it, CRC included; the offset behind them if anything else follows, where no record begins |
| WalBytes.Wal.TruncateBefore | src/tinydb/wal.py:165-174 | the file of exactly the records with that id or more; untouched when the log is corrupt |
| WalBytes.Wal.TruncateTo | src/tinydb/recovery.py:69-75 | cutting at the reported offset leaves a clean log of the same records |
| WalBytes.ItemOfRecord | src/tinydb/wal.py:96-99 | an encoded record is read back whatever follows it |
| WalBytes.ItemIsRecord | src/tinydb/wal.py:147-163 | whatever is read as a record is that record byte for byte as it is written, CRC included |
| WalBytes.ReadsOne | src/tinydb/wal.py:135-163 | a file is made up of records, and then of none, in one way only, and that is what is read |
| WalBytes.DamageIsReported | src/tinydb/wal.py:155-160 | a record with any other CRC is reported at its own offset with the records before it, whatever follows |
| WalBytes.BodyFields | src/tinydb/wal.py:96-99 | id, kind, page, length and data each stand at their own place in a record |
| WalBytes.AtLeastAre | src/tinydb/wal.py:165-174 | what truncation keeps are the records from that id on, all of them, in log order |
| WalBytes.TornTail | src/tinydb/wal.py:135-163 | a log cut at any byte after its header gives exactly the records wholly before the cut and the offset where the torn one begins, for any CRC |
| WalBytes.CutAtBad | src/tinydb/recovery.py:52-56 | cutting any unreadable log, however it came about, at the reported offset gives a clean log of its records |
| Replay.ReplayIsOverlay | src/tinydb/recovery.py:77-93 | replay lays a map fixed by the log over the pages |
| Replay.ReplayAgain | src/tinydb/recovery.py:25-62 | replaying again changes nothing, and damage to pages the log writes is repaired |
| Replay.ReplayIsRedo | src/tinydb/recovery.py:37-60 | with ids that do not decrease and one end per transaction, replay by sorted ids is redo of the committed page writes in log order |
| Replay.OrderMatters | src/tinydb/recovery.py:86-90 | for every log: replay by sorted ids is redo in log order, for all bytes written and all pages, if and only if the last committed write to each page belongs to the highest committed id that writes it |
| Replay.ReplayAt | src/tinydb/recovery.py:77-93 | replay leaves in a page the last write of the highest committed transaction that has one |
| Replay.CommittedMeans | src/tinydb/recovery.py:37-51 | a transaction is committed if and only if a COMMIT of it is in the log with no BEGIN or ROLLBACK of it behind |
| Replay.ReplayedPage | src/tinydb/recovery.py:77-93 | told from the records: a page has the last write of the highest committed transaction that writes it, and is untouched if none does |
| Replay.EarlierWriteWins | src/tinydb/recovery.py:86-90 | a log with the higher id first, on which replay brings the earlier write back |
| Replay.DroppedUnlessIdReused | src/tinydb/executor.py:527-527 | any records of an unfinished transaction are dropped if and only if its id is not that of a COMMIT in the log |
| Replay.EmptyCommitSurvivesRecovery | src/tinydb/recovery.py:58-60 | the COMMIT of a transaction that wrote nothing is kept by recovery |
| Replay.OwnCommitIsDropped | src/tinydb/transaction.py:60-64 | truncating before id + 1 removes the COMMIT of id, and everything once ids only grow |
| CrashSafety.StepKeeps | src/tinydb/transaction.py:37-82 | every step of the protocol keeps its invariant: begin, write, append, fsync, main write, truncate, rollback, crash, reopen |
| CrashSafety.CrashKeeps | src/tinydb/recovery.py:25-62 | a crash leaves a state whose recovery is the state before or after |
| CrashSafety.CrashesThatMayBe | src/tinydb/transaction.py:37-82 | what a crash could leave before a step it can leave after, until an fsync; a page being written may hold anything |
| CrashSafety.CrashAtomicity | src/tinydb/transaction.py:37-82 | at any point of any run of transactions, crashes and recoveries, whatever a crash leaves replays to the state before or after the transaction; these are one state except between append and fsync of the COMMIT |
| CrashSafety.OrderNeverMatters | src/tinydb/transaction.py:37-82 | whatever log a crash leaves at any point of any run has one writer at most, so that replay by sorted ids is redo in log order although ids restart |
| CrashSafety.CommittedForGood | src/tinydb/transaction.py:54-65 | while no COMMIT is appended, every crash and recovery leads back to the same state |
| CrashSafety.CutIsEarlierVersion | src/tinydb/wal.py:135-163 | a log file cut behind what was last fsynced parses to a version the log had since then |
| Transactions.Store.WriteMainPages | src/tinydb/transaction.py:56-58 | applies the writes to the main file one step at a time |
| Transactions.Store.WalTruncateBefore | src/tinydb/pager.py:338-349 | rewrites the log bytes as one step of the protocol |
| Transactions.Transaction.WritePage | src/tinydb/transaction.py:37-44 | log first, then the pending page; refused without effect once the transaction has ended |
| Transactions.Transaction.Commit | src/tinydb/transaction.py:46-72 | exactly the steps append, fsync, one main write per page, fsync, truncate; afterwards the main file has the writes; refused unless active |
| Transactions.Transaction.Rollback | src/tinydb/transaction.py:74-82 | appends ROLLBACK and truncates; refused unless active |
| Transactions.CommitCrash | src/tinydb/transaction.py:46-72 | a crash after n steps of a commit recovers to the old state for n = 0, to old or new for n = 1, to the new state for n >= 2 |
| Transactions.Scan | src/tinydb/recovery.py:37-51 | the dictionaries built from the log are each transaction's last writes and last status |
| Transactions.TodoIsApply | src/tinydb/recovery.py:86-90 | writing the committed transactions in sorted id order lays them over the pages |
| Transactions.Recover | src/tinydb/recovery.py:25-62 | the main file becomes the replay of the records the log is made up of, none with a wrong CRC and none behind one; the log is truncated; a torn tail is cut first, applied, and reported |
| Transactions.CrashWhileRecovering | src/tinydb/recovery.py:25-93 | a crash at any step of a recovery leaves the next one with the same answer |
| Session.Executor.ReadIsWork | src/tinydb/executor.py:601-610 | a read gives the latest write of the open transaction, else the page as at BEGIN |
| Session.Executor.WritePage | src/tinydb/executor.py:582-599 | changes what the session sees in that page only, and nothing that is committed |
| Session.Executor.FreePage | src/tinydb/executor.py:612-638 | through the transaction layer, the free list the session sees gains the page |
| Session.Executor.ExecBegin | src/tinydb/executor.py:661-668 | opens a transaction, changes nothing seen; a nested BEGIN is refused |
| Session.Executor.ExecCommit | src/tinydb/executor.py:670-680 | what the session sees is now committed and no read changes; a bare COMMIT is refused |
| Session.Executor.ExecRollback | src/tinydb/executor.py:682-695 | pages, catalog, page lists and index roots are those at BEGIN; a bare ROLLBACK is refused |
| Session.Executor.ExecInTxn | src/tinydb/executor.py:697-751 | a statement commits by itself outside a transaction; a failing one undoes the whole open transaction |
| Session.Executor.RunSession | src/tinydb/executor.py:562-751 | after any history, whatever records of unused ids the log had, a crash recovers the effect of exactly the writes that were committed |
| Session.OnlySurvivorsCount | src/tinydb/executor.py:661-751 | the committed state of a history is the effect of its surviving writes in order, as if the others had not been run |
| CatalogPacking.SplitSingleTable | src/tinydb/catalog.py:298-376 | the fragments hold the table's columns in order, at least one each, page ids on the first one; all fit exactly when the table is packable |
| CatalogPacking.SerializeSegments | src/tinydb/catalog.py:207-295 | CatalogCorrupt exactly when a table is not packable; otherwise every segment is at most 4080 bytes, has no name twice and adds to the ones before, and merging gives the tables back |
| CatalogPacking.AddTable | src/tinydb/catalog.py:258-291 | one turn of the packing loop keeps tables and sizes, or finds the table that cannot be packed |
| CatalogPacking.AllFitIsPackable | src/tinydb/catalog.py:319-331 | if all fragments fit, so does every column by itself |
| CatalogPacking.MergeFragments | src/tinydb/catalog.py:459-491 | merging the fragments of a split table rebuilds it with all columns in order |
| CatalogPacking.MergeNewTables | src/tinydb/catalog.py:459-491 | merging a segment of new tables appends them |
| CatalogPacking.MergeKnown | src/tinydb/catalog.py:459-491 | merging an entry for a known table appends its columns and takes its page ids if it has any; other tables stay |
| CatalogPacking.MergePagesOf | src/tinydb/catalog.py:414-456 | pages that carry the segments behind any link bytes read as the merge of the segments |
| CatalogPacking.LessInFirst | src/tinydb/catalog.py:207-295 | the first segments of a packed catalog hold less than all of it |
| CatalogTexts.TableText | src/tinydb/catalog.py:225-295 | name, columns and both page ids, each by its own field, the ids as decimal digits of their numbers |
| CatalogTexts.DumpsInjective | src/tinydb/catalog.py:225-295 | when names and columns are self-delimiting texts, as JSON strings and objects are, no two segments have one text |
| CatalogTexts.FaithfulReader | src/tinydb/catalog.py:414-456 | so there is a reader that inverts writing |
| CatalogStore.Reclaim | src/tinydb/pager.py:492-512 | the old overflow pages are on the free list, page 1 is the whole chain; the hop guard never fires |
| CatalogStore.WriteCatalogChain | src/tinydb/pager.py:476-529 | page ids do not run out while the next one and the weight of the catalog stay below 2^32; the new chain reads as the new catalog, other live pages are unchanged, old overflow pages are in the new chain or free; a refused catalog leaves the old chain cut to page 1, which reads as the old tables if and only if it was the whole chain |
| CatalogStore.RefusedCatalogLosesTables | src/tinydb/pager.py:476-529 | two tables stored over two pages are not what is read after a catalog with a 5000-byte column has been refused |
| CatalogStore.UnpackChain | src/tinydb/catalog.py:414-456 | reads the pages of the chain in order; the hop guard never fires |
| CatalogStore.ChainIsShort | src/tinydb/pager.py:496-509 | a chain is never longer than the hop guard allows |
| CatalogStore.SaveAndLoad | src/tinydb/pager.py:476-529 | writing a catalog over any older chain and loading it gives it back, unless the next page id and the weight of the catalog come to 2^32 |
| SlottedPages.SlottedPage.Insert | src/tinydb/slotted_page.py:132-159 | takes over the first tombstone long enough, else adds a slot, else PageFull; other rows are untouched; the space it uses includes the entry the guard forgets |
| SlottedPages.SlottedPage.Delete | src/tinydb/slotted_page.py:169-175 | only that slot's row is gone; ValueError out of range |
| SlottedPages.SlottedPage.Update | src/tinydb/slotted_page.py:177-190 | only that slot's row changes; refused for a dead slot or a longer row |
| SlottedPages.SlottedPage.Get | src/tinydb/slotted_page.py:192-208 | the slot's row; the range check never raises on a valid page |
| SlottedPages.SlottedPage.ToBytes | src/tinydb/slotted_page.py:80-100 | the page image, the data area written over whatever is there |
| SlottedPages.SlottedPage.Reload | src/tinydb/slotted_page.py:80-128 | storing and loading a roomy page changes nothing |
| SlottedPages.ImageReadsBack | src/tinydb/slotted_page.py:80-128 | every field of an image is read back when 16 + 6 slots + data <= 4094 |
| SlottedPages.DirectorySurvives | src/tinydb/slotted_page.py:80-128 | for any slots and data: slot count and directory are read back if and only if 16 + 6 slots + data <= 4094 or the data lying over them has the same bytes |
| SlottedPages.LongestRowOverwritesItsSlot | src/tinydb/slotted_page.py:149-153 | for a row of 4078 bytes on an empty page, the slot survives exactly when the row's first six bytes happen to spell it |
| SlottedPages.RunStored | src/tinydb/slotted_page.py:80-208 | any run of operations with the page stored and loaded after each gives what the run gives on rows alone, while space lasts |
| RowCodec.EncodeRow | src/tinydb/row_codec.py:23-45 | bitmap with exactly the NULL columns, then the values in order; refused exactly when lengths differ or a value does not encode |
| RowCodec.DecodeRow | src/tinydb/row_codec.py:48-70 | column by column from the bitmap; ValueError as soon as one fails |
| RowCodec.DecodesBack | src/tinydb/type_system.py:192-411 | a value of any modelled type is read back from where it was written, with the offset behind it |
| RowCodec.RowRoundTrip | src/tinydb/row_codec.py:23-70 | decoding a row's bytes with any tail reads exactly those bytes and gives the row back |
| RowCodec.RoundTrip | src/tinydb/row_codec.py:23-70 | refused exactly when a column does not take its value; else a bitmap and the values, and what comes back is what is stored of them, CHAR with spaces behind and TIME in whole seconds; that is the row itself exactly when no CHAR is shorter than its column and no TIME has a fraction |
| RowCodec.EncodesExactly | src/tinydb/type_system.py:192-411 | which values encode: the range of each integer width, text up to its length, every date and time |
| RowCodec.PayloadTakes | src/tinydb/row_codec.py:23-45 | a row encodes if and only if every column takes its value |
| RowCodec.CanonicalRowIsStored | src/tinydb/type_system.py:347-411 | what is stored of a row, value by value, and when it is the row |
| RowCodec.NullBitMeans | src/tinydb/row_codec.py:36-40 | column i is the bit of weight 2^(i mod 8) in byte i div 8 |
| RowCodec.SetBitSets | src/tinydb/row_codec.py:36-40 | or-ing in a bit sets that bit and no other |
| JoinAlgebra.LeftJoinMember | src/tinydb/_join_executor.py:269-299 | LEFT has exactly the matching pairs and, padded, the left rows that match nothing |
| JoinAlgebra.JoinMember | src/tinydb/_join_executor.py:234-369 | what each kind is made of: matching pairs, for CROSS all; left rows that match nothing for LEFT and FULL, right ones for RIGHT and FULL |
| JoinAlgebra.LeftSize | src/tinydb/_join_executor.py:269-299 | its size is inner plus unmatched left rows |
| JoinAlgebra.FullSize | src/tinydb/_join_executor.py:334-369 | FULL's size is inner plus unmatched rows of each side |
| JoinAlgebra.RightIsLeftSwapped | src/tinydb/_join_executor.py:301-332 | RIGHT is LEFT with sides swapped, row for row in the same order |
| JoinAlgebra.FullIsLeftAndRight | src/tinydb/_join_executor.py:334-369 | FULL and INNER together are LEFT and RIGHT together, as multisets |
| JoinAlgebra.JoinMapped | src/tinydb/_join_executor.py:234-369 | every kind of join commutes with a change of row representation that keeps the match predicate |
| JoinRows.CoalesceRow | src/tinydb/_join_executor.py:209-232 | the merged row, key columns coalesced left first |
| JoinRows.NullPadRight | src/tinydb/_join_executor.py:371-392 | padding on the right is merging with a row of NULLs |
| JoinRows.NullPadLeft | src/tinydb/_join_executor.py:394-418 | padding on the left is merging with a row of NULLs |
| JoinRows.CoalescedLeft | src/tinydb/_join_executor.py:209-232 | left columns keep their value, a NULL in a key column takes the right one |
| JoinRows.CoalescedRight | src/tinydb/_join_executor.py:209-232 | right columns that are no keys follow in order |
| JoinRows.NestedLoopInner | src/tinydb/_join_executor.py:247-267 | the merged matching pairs in order; raises exactly when a pair does |
| JoinRows.NestedLoopLeft | src/tinydb/_join_executor.py:269-299 | the same for LEFT |
| JoinRows.NestedLoopRight | src/tinydb/_join_executor.py:301-332 | the same for RIGHT |
| JoinRows.NestedLoopFull | src/tinydb/_join_executor.py:334-369 | the same for FULL, by the set of matched right indices |
| JoinRows.NestedLoopCross | src/tinydb/_join_executor.py:234-245 | every pair, whatever predicate is written |
| JoinQueries.FoldKeeps | src/tinydb/resolver.py:269-287 | rewriting atoms keeps the truth value of AND/OR/NOT trees and whether evaluation raises |
| JoinQueries.FoldFails | src/tinydb/resolver.py:269-287 | folding fails exactly when some atom does |
| JoinQueries.ResolveFails | src/tinydb/resolver.py:161-193 | a qualified name resolves exactly when its source has the column, a bare one exactly when one source has it |
| JoinQueries.CompareMeans | src/tinydb/executor.py:63-70 | each operator holds exactly when its relation does, on integers and on texts by their first different character; an order raises exactly on NULL or two types |
| JoinQueries.EvalTables | src/tinydb/_join_executor.py:451-524 | the truth tables of AND, OR and NOT, raising included |
| JoinQueries.EvalIsSat | src/tinydb/_join_executor.py:451-524 | where no atom raises, a condition is decided as the formula it is |
| JoinQueries.BuildOffsets | src/tinydb/_join_executor.py:138-160 | where each source's columns begin |
| JoinQueries.EvalPlan | src/tinydb/_join_executor.py:58-121 | the rows of the plan, or the exception of the first predicate that raises |
| JoinQueries.RowsAreWide | src/tinydb/_join_executor.py:181-207 | every row has the width of the output schema |
| JoinMeaning.BuildJoins | src/tinydb/plan.py:97-128 | the left-deep chain, each join with its own keys and folded ON |
| JoinMeaning.CommonAre | src/tinydb/resolver.py:131-132 | NATURAL keys are exactly the columns of the left schema that the right one has, in left order |
| JoinMeaning.NamedMember | src/tinydb/_join_executor.py:234-369 | what one more join of a chain is made of, kind by kind, as tuples of the rows it comes from |
| JoinMeaning.ColumnAtOffset | src/tinydb/_join_executor.py:138-160 | in any chain of ON and CROSS joins, s.c is at its offset: the scanned value, or NULL where padded |
| JoinMeaning.MatchKept | src/tinydb/_join_executor.py:420-524 | the compiled match decides on joined rows what the names say, ON by position or USING by key, raising included |
| JoinMeaning.CompiledJoinsMean | src/tinydb/_join_executor.py:88-121 | for any chain of joins of any kinds, the plan yields the rows of exactly the named tuples, in order, and raises exactly when a named predicate does |
| JoinWhere.BuildPositionMap | src/tinydb/resolver.py:476-485 | every kept column's position in the joined row, and no dropped one |
| JoinWhere.MapRemaps | src/tinydb/resolver.py:244-254 | a lookup in the built position map, with the source position as default, is the remapping the other rows speak of |
| JoinWhere.WherePositionKept | src/tinydb/resolver.py:207-255 | the remapped position holds the value the name stands for, merged keys included |
| JoinWhere.WhereKept | src/tinydb/resolver.py:196-287 | the folded and remapped condition has the truth value of the condition by name |
| JoinWhere.CompiledQueryMeans | src/tinydb/plan.py:97-132 | the plan of a query produces the rows of exactly the tuples it denotes by name, in order |
| JoinWhere.RefusedForNames | src/tinydb/resolver.py:161-193 | a query compiles if and only if every name in it is that of one column |
| JoinWhere.RunQuery | src/tinydb/plan.py:97-132 | compiling and evaluating a query gives exactly the rows it denotes, which `JoinResults` spells out; refused exactly when a key, ON or WHERE name is in no source it may be in, or a bare one in several |
| JoinWhere.MergedKeyThroughRight | src/tinydb/resolver.py:244-254 | a merged key named through the right table is read correctly in all rows if and only if it has the same position in both tables; if not, a pair an INNER join produces shows it |
| JoinResults.DenotesMember | src/tinydb/_join_executor.py:451-524 | a query denotes the tuples of its joins on which the condition, as a formula over column values, is true |
| JoinResults.AnswerMember | src/tinydb/_join_executor.py:234-369 | the rows of a join of two tables: matching pairs, and by kind the rows of either side that match nothing |
| JoinResults.ComparisonRows | src/tinydb/_join_executor.py:420-524 | ON one comparison: exactly the pairs of rows whose two values stand in the relation, side by side, and by kind the rows without partner with NULLs; it raises exactly when an order meets NULL or two types |
| JoinResults.KeyedRows | src/tinydb/_join_executor.py:420-440 | USING or NATURAL with one key: exactly the pairs with the same key, not NULL, the key once, and by kind the rows without partner, with their own key |
| OrderBy.SortByPasses | src/tinydb/_join_executor.py:599-607 | one stable pass per key, last key first: `AsAsked`, any two rows stand as the first key in which they differ asks, smaller first and NULL last, reversed if descending, and rows equal in all keys as they came |
| OrderBy.FirstKeyDecides | src/tinydb/_join_executor.py:602-606 | the first key in which two rows differ decides, by the values |
| OrderBy.SortIsAsAsked | src/tinydb/_join_executor.py:599-607 | being a stable sort by the keys and standing in the order asked for are one |
| OrderBy.ScanCompareIsLexicographic | src/tinydb/_executor_sort.py:33-55 | on columns of one type without NULL the comparator is the lexicographic order |
| OrderBy.SortByComparator | src/tinydb/_executor_sort.py:33-57 | one stable sort by the comparator of the scan path itself: `AsAsked` too |
| OrderBy.OneMorePass | src/tinydb/_join_executor.py:602-606 | a stable pass by one more key in front sorts by all of them |
| OrderBy.StableSortIsUnique | src/tinydb/_executor_sort.py:57-57 | there is only one stable sort |
| OrderBy.PassesAreOneSort | src/tinydb/_join_executor.py:599-607 | join path and scan path order rows the same, for any mix of ASC and DESC |
| OrderBy.SortBothWays | src/tinydb/_join_executor.py:599-607 | running both sorts on the same rows gives the same result, in the order asked for |
| TablePages.TablePages.Load | src/tinydb/executor.py:1040-1041 | the page object has the rows and the space the bytes of the page stand for |
| TablePages.TablePages.Store | src/tinydb/executor.py:1046-1046 | only that page changes, and it stands for the rows of the object |
| TablePages.TablePages.Append | src/tinydb/executor.py:1049-1057 | a page no one had, empty, at the end of the table's list |
| TableTrees.TableTrees.Put | src/tinydb/executor.py:1665-1680 | one column's map gains the entry, the others and all pages no tree owns stay; how many page ids it takes at most |
| TableTrees.TableTrees.Remove | src/tinydb/executor.py:1682-1697 | one column's map loses the entry, the others and all pages no tree owns stay |
| TableTrees.TableTrees.Snapshot | src/tinydb/_executor_snapshot.py:18-33 | copies of the trees from which they can be brought back whatever is done to the originals |
| TableTrees.TableTrees.Restore | src/tinydb/_executor_snapshot.py:36-49 | the copies become the trees and hold what they held at the snapshot |
| TableTrees.TreesStand | src/tinydb/_index_pager.py:37-70 | trees stand when data pages are written on their pager |
| TableSpace.PlacedOn | src/tinydb/executor.py:1037-1048 | the row goes to the first page that takes it, and overruns it exactly when its directory has no room left |
| TableSpace.PlacedNew | src/tinydb/executor.py:1049-1061 | when all pages are full it goes to a new one at the end |
| TableSpace.EnoughIds | src/tinydb/executor.py:1665-1680 | how many steps page ids last for, from the next id and the height of the highest index |
| TableIndex.Table.CheckRow | src/tinydb/executor.py:900-930 | accepts exactly the rows that have all columns, a value in every NOT NULL and primary key column, values their columns take, and no value of a unique column that a live row or an earlier row of the statement has; the bytes decode to the row with CHAR padded and TIME in whole seconds |
| TableIndex.Table.StoreRow | src/tinydb/executor.py:1021-1061 | the row is in a place that was free, on the page `Placed` says, all other rows and all trees are as they were; it fails exactly when `Placed` says so |
| TableIndex.Table.Tombstone | src/tinydb/executor.py:1511-1517 | exactly that row is gone, all trees are as they were |
| TableIndex.Table.RollBack | src/tinydb/executor.py:721-746 | rows, page bytes, page list and trees are those of the snapshot |
| TableIndex.Table.Insert | src/tinydb/executor.py:851-938 | done exactly on rows that may be inserted (`MayInsert`, by the flags of the columns); fails exactly when one may not, for one a NULL where a value is needed, and then changes nothing; else the rows are added where `Progress` says, the index entries set, and indexes that were exact are exact if and only if no key was taken; it leaves the model only behind rows that may be inserted, when `Progress` says a row overruns its page or page ids do not last |
| TableIndex.Table.ValidateUnique | src/tinydb/executor.py:942-969 | accepts exactly the rows that equal no live row and no earlier row of the statement in a unique column |
| TableIndex.Table.ScanUniqueKeys | src/tinydb/executor.py:991-1006 | the non-NULL values of the column in the table |
| TableIndex.Table.ScanTable | src/tinydb/executor.py:1186-1216 | every live row once, page by page in list order and slot by slot |
| TableIndex.Table.InsertIntoChain | src/tinydb/executor.py:1021-1061 | the row goes to a free place on the first page with room, a new page if need be; other rows stay; it fails exactly when the row is too long for a page or overruns the one that takes it |
| TableIndex.Table.IndexRow | src/tinydb/executor.py:1665-1680 | every indexed column that is not NULL has its key set to the row, whether or not it was there; it fails only when page ids run out |
| TableIndex.Table.UnindexRow | src/tinydb/executor.py:1682-1697 | every indexed column that is not NULL loses its key |
| TableIndex.Table.Delete | src/tinydb/executor.py:1484-1522 | exactly the selected rows are gone, their slots are tombstones, and exact indexes stay exact; nothing changes when the condition raises |
| TableIndex.Table.IndexedSelect | src/tinydb/executor.py:1344-1383 | exactly the rows that have the value the literal is stored as |
| TableIndex.Table.ScanSelect | src/tinydb/executor.py:1428-1441 | exactly the rows equal to the literal, in the order of the scan; TypeError exactly when there is a row and the literal is not of the column's type or range |
| TableIndex.Table.SelectBothWays | src/tinydb/executor.py:1344-1447 | fast path and scan agree, raising included, if and only if `SameAnswer` |
| TableIndex.RunStatements | src/tinydb/executor.py:851-1522 | after any run of INSERT and DELETE statements, failed ones included, the pages hold what `After` says and every live row has a value in each NOT NULL and primary key column; a run is cut short only when a row overruns its page or page ids do not last |
| TableIndex.RunOne | src/tinydb/executor.py:851-938 | exact indexes are exact after one statement if and only if it stores no key that is in the table or in an earlier row of it |
| TableIndex.WholeRunKeepsKeys | src/tinydb/executor.py:942-969 | a run whose rows are stored as they are takes no key twice |
| TableIndex.RunThenSelect | src/tinydb/executor.py:851-1522 | after such a run, if it takes no key twice (`KeepsKeys`, read off the pages before the run), unique columns are unique, NOT NULL ones filled, and the fast path gives the rows with the stored value, the scan those with the literal; the two agree if and only if `SameAnswer` |
| TableIndex.BigintScanRaises | src/tinydb/executor.py:73-102 | on a BIGINT key with the row 5 in it, WHERE id = 5 finds the row by index and raises by scan |
| TableIndex.PaddedRowTakesOver | src/tinydb/executor.py:942-969 | for any table and column: a row accepted although its key is taken leaves two live rows with one stored value, and the index has the new one only |
| TableIndex.PaddedDuplicate | src/tinydb/executor.py:851-938 | 'a' inserted twice into a fresh CHAR(3) UNIQUE column: both rows are live, the index has the second one only |
| TableRows.SameAnswerMeans | src/tinydb/type_system.py:61-110 | on an empty table index and scan agree on the literals the column takes; on one with rows exactly when the column does not take the literal, or is INT, BOOL, DATE or TIME and the literal of that type and no time with a fraction whose whole second is in the table |
| TableRows.ComparableMeans | src/tinydb/type_system.py:61-110 | a literal is compared with a column of its own type only: INT in range, BOOL, TEXT, DATE, TIME |
| TableRows.AcceptedMayInsert | src/tinydb/executor.py:900-930 | the constraints pipeline accepts a row if and only if it may be inserted, by the flags of the columns and the values |
| TableRows.NullStops | src/tinydb/executor.py:900-905 | a statement with a NULL where a value is needed does not get past that row |
| TableRows.StaysFilled | src/tinydb/executor.py:900-905 | a statement that goes through leaves a value in every NOT NULL and primary key column of every live row |
| TableRows.DuplicateCheckIsKeyCheck | src/tinydb/executor.py:942-969 | for any table, column and value: asking for the value and asking for its key agree if and only if the value is stored as it is or what is stored of it is not in the table |
| TableRows.EnteredIsExact | src/tinydb/executor.py:1665-1680 | indexes that were exact are exact with the row if and only if no other live row has what is stored of it in an indexed column |
| TableRows.RemovedIsExact | src/tinydb/executor.py:1682-1697 | exact indexes are exact without the row |
| TableRows.CutIsSwept | src/tinydb/executor.py:1506-1517 | tombstoning exactly the selected rows leaves the pages swept of them |
| TableRows.NoTwoShareAKey | src/tinydb/executor.py:942-969 | no two live rows share a non-NULL value of a unique column |
| TableRows.KeyDecides | src/tinydb/index_manager.py:26-29 | values with the same key are stored the same |
| TableRows.KeyOfStored | src/tinydb/type_system.py:347-411 | a value has the key of its stored form |
| TableRows.WholeMeans | src/tinydb/type_system.py:347-411 | a value is stored as it is unless it is a CHAR shorter than its column or a TIME with a fraction |
| TableRows.NumbersAreGoodKeys | src/tinydb/index_manager.py:26-29 | keys of SMALLINT, INT, BIGINT, BOOL, DATE and TIME columns have widths a tree can hold any number of |

## Left out

- PagedBTree.BTree.Insert: with keys of mixed widths, when the leaf has no room, a half of the split can overflow; then it raises, and nothing is promised about the tree but that foreign pages are untouched.
- PageStore.Pager.AllocPage: page ids beyond 32 bits are not refused by the allocator; the writers of links refuse them.
- Transactions.Transaction.WritePage: pages are written whole; PAGE_WRITE records that carry part of a page are not modelled.
- Transactions.Transaction.Commit: an I/O error inside a commit.
- Session.Executor.WritePage: writes outside any transaction, which no statement makes.
- Session.Executor.ExecRollback: pages allocated inside the transaction; `alloc_page` pops the free list in the main file directly and is not undone.
- Session.Executor.FreePage: free followed by allocation inside one transaction, for the same reason.
- CatalogStore.WriteCatalogChain: nothing is promised once page ids outgrow the 32-bit link; the next page id and the weight of the catalog say when that cannot be.
- JoinMeaning.CompiledJoinsMean: chains that mix USING or NATURAL keys with further joins, and keys on CROSS; the source computes wrong offsets there. The types of key columns (IncompatibleKeyTypes) are not modelled.
- JoinQueries.ResolveFails: sources are given with their schemas; unknown tables and duplicate aliases are refused before.
- JoinWhere.RunQuery: conditions that name a merged key through the right table; when that reads the right column is stated by MergedKeyThroughRight.
- OrderBy.SortByComparator: rows with NULL in a sort column, on which the scan path raises.
- RowCodec.DecodesBack: FLOAT, DECIMAL and TIMESTAMP, and UTF-8 itself.
- SlottedPages.SlottedPage.ToBytes: more than 4094 bytes of row data, where Python's slice assignment would grow the buffer.
- TableIndex.RunThenSelect: UPDATE, reopening a database, composite primary keys, TEXT and VARCHAR keys (not of one width), and what happens after a row was spilled to overflow pages, ran into its page's directory, or page ids were half used up; the run is cut short there. A run that takes a key twice is not looked up after; what it does is stated by `RunStatements`, `Insert` and `PaddedRowTakesOver`.
- TableIndex.Table.ScanSelect: columns declared INTEGER or BOOLEAN, whose type names the scan compares as written, so that it raises as for SMALLINT.
- TableIndex.Table.RollBack: pages allocated by the failed statement are given back; in tinydb they stay allocated.
- TableIndex.Table.StoreRow: the catalog rewrite that follows the allocation of a data page.
- TableIndex.Table.Insert: rows come in schema order; the column list of the statement is not modelled.
- Indexing.IndexManager.Insert: when a tree raises half way, nothing is promised about the indexes; the statement's rollback is modelled in Session and TableIndex.
- GROUP BY, aggregates, projection, LIMIT and OFFSET; DROP TABLE; the tokenizer and parser.
- Header upgrades, mmap, file locks and threads; the REPL.
