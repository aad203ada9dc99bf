# minirel, verified

A Dafny model of minirel's engine: the B+-tree index, snapshot-isolation MVCC, the
statements that change heap and indexes together, index pushdown, the buffer pool,
slotted heap pages and heap files, the log and what a restart reads from it, the Volcano
operators, and the expression parser. Every statement below is proved for all inputs,
all runs or all reachable states; `dafny verify dfyconfig.toml` checks the project.

## What is proved

**Index.** `BTree.BPlusTree` rewrites pages in place as the program does. Every method
keeps `Valid()`: separators strictly ascend, child `i` holds the half-open key interval
between its separators, all leaves lie at one depth, no leaf but the root is empty, every
non-root internal page has its minimum of keys, and the tree holds exactly a plain model
`refs` that maps each key to its RIDs in insertion order. On that basis `search`,
`range_scan`, `insert` and `delete` answer as the plain model does, over any run up to a
page overflow (`BTreeRuns.Run`), the leaf chain visits every leaf once, all entries of a key
share a leaf, and the height is logarithmic. Two limits of the code are stated exactly:

- `insert` raises if and only if the key already has `max_leaf_keys` entries (or, for a
  unique tree, is present).
- The comment that redistribution "always fits" (`btree.py:485-487`) is too strong:
  `delete` overflows a page if and only if the shrunken leaf's right sibling starts with a
  run of one key that does not fit beside it, more keys follow that run, and the left
  sibling cannot lend. That cannot happen while no key has more than
  `max_leaf_keys - max_leaf_keys // 2 + 1` entries. A valid tree with such an entry exists if
  and only if a leaf takes six entries or more (`BTreeOverflow.OverflowIff`), and inserts alone
  lead to one (`BTreeOverflow.ReachJam`).

`BTreePage` proves that pages read back as written, and that a node of `n` records fits its
page exactly up to the capacities the constructor computes, for keys of up to 1016 bytes;
beyond that size the floor of four entries promises pages that cannot be written.
`BTreeCodec` carries this over to the nodes of the tree proofs, for integer keys.

**Transactions.** `Mvcc` is a step system (begin, insert, guarded stamp, commit, abort). It
is a bisimulation of an abstract snapshot-isolation system, in which every transaction
works on a private copy of the committed table: the same steps are enabled and what
`is_visible` shows is the copy. Consequences: no step by others changes what a transaction
sees, every version has at most one stamp that survives, a committed stamp is final.

**Statements.** A row of an INSERT or UPDATE is a `Change` with one of four fates: fine; the
old version is claimed by somebody else; the values cannot be encoded or are too long for a
page (`Schema.StoredRow`, from the column types); or an index raises. `Changes.Apply` says for
each what becomes of heap and indexes, and `Database.Database` is proved to do just that, row
by row, for INSERT, UPDATE, DELETE and CREATE INDEX; a statement succeeds if and only if every
change, made after those before it, is fine. Index entries always stand for versions with that
key, once; `Gaps` are the versions an index lacks, and only the index that raised and those
behind it get one. Run on its own, a statement is atomic on the committed table and an index
that lacks only dead versions keeps to that. A caller who commits after a statement raised does
not have this: the refused row is then committed and missing from the index that refused it
(`Changes.RefusedThenCommitted`), and an UPDATE whose new values could not be stored has deleted
the row (`Changes.UnstorableThenCommitted`). Over any run of interleaved transactions and CREATE
INDEX, an index lacks exactly the versions that a raising index or its own backfill left out
(`DatabaseRuns.GapsOverRuns`).

CREATE INDEX tells the catalog the root page only at its end. If the backfill raises after the
first page was cut, the catalog keeps a leaf for a root: that happens if and only if some key has
too many versions and the heap scan does not start with them (`Indexes.Backfill`,
`BTreeStale.Load`). A lookup through such a stale root finds exactly the keys of that leaf, and
after one insert a scan for smaller keys ends inside it (`BTreeStale.StaleLookupIff`,
`StaleMisses`, `StaleScan`). The other claims are about the indexes that are not stale; what a
stale one does to later rows is a parameter of the model.

Where no index is stale, a change is fine if and only if nobody else has claimed the version it
replaces, its row can be stored, and no index objects: by keys it cannot compare the value with, a
full key, or, in a unique index, an entry under the value for a row the transaction sees and does
not replace (`Uniqueness.FineIff`). Storing one row in a column with a covering unique index and committing keeps the committed
column unique if and only if no row that was committed after the transaction began holds the
key, for values whose key survives encoding (`Uniqueness.CommitKeepsUniqueIff`). So a new
transaction keeps it, two overlapping ones need not (`Uniqueness.OverlapDuplicates`), and text
longer than eight bytes is never checked (`Uniqueness.LongTextIsNotChecked`).

**Expressions.** `evaluate` is pinned over integers, reals and characters: the six comparisons on
numbers by amount and on texts in dictionary order, NULL, mixed kinds, AND, OR and NOT with their
short circuit, column references, and what a filter takes for true (`ExprMeaning`). Ordering,
aggregation and filters rest on it, and `ParserMeaning.ConditionMeans` goes from the tokens of
`column op number` to the rows it accepts.

**Queries.** Where the sequential plan does not raise, pushing one `column = literal` conjunct
into an index scan returns the same rows if and only if the literal compares with the index keys
and, among the visible rows the residual does not reject, exactly those with its value have an
entry that meets it (`Pushdown.PushdownIff`, `Queries.IndexPlanIff`). An index covers what a
transaction sees if and only if no visible version is one of its gaps (`Indexes.CoversIff`).
`Queries.BaseScan` puts planner, scan and operators together: from a sound database and a WHERE,
the drained rows are those of the sequential plan, if the chosen index is to be trusted by these
conditions. `col = NULL` becomes an unbounded scan, and a TEXT value longer than eight bytes is
not found under itself: both are shown. Draining an operator tree gives its list meaning,
exceptions and their place included. Every row an aggregation returns has, per item, the count,
sum, average or extreme of its group's values, or the group-by value of the group's first row
(`AggregateMeaning.GroupedMeans`); a projected row shows exactly its items (`ProjectionMeaning`).

**Storage and log.** The buffer pool is transparent over a plain page map, and the page it
displaces was released no later than any other page that nobody holds. Heap pages are modelled
byte by byte and refine a map from RID to bytes. A row survives its encoding behind the two
stamps, stamping changes four bytes and no length, and a row can be stored if and only if its
values encode and its tuple passes the heap's size check (`RowCodec`). Any byte cut of the log parses as the longest
prefix of whole records. `Restart` follows the log file byte by byte over runs of steps,
checkpoints and crashes at any byte:

- From a new database, ids are dense: the log has the BEGIN of exactly the ids handed out, as
  long as each restart reads a part of what was written, which it does while no torn bytes stand
  in the file. After a crash an id stamped on a page is handed out again if and only if its BEGIN
  did not survive; its new owner then sees the stale row.
- In such a log a restart goes wrong about exactly the ids that began before the last checkpoint
  and did not commit: aborts that the checkpoint made it forget.
- While restarts read a part of what was written and meet neither of these cases, a new
  snapshot sees, of the rows on disk and before replay, exactly the committed ones.
- The program appends behind torn bytes. Records appended there are read back if and only if
  there were none. Behind a torn record with a whole header that lacks m bytes, the log can be
  read if and only if fewer than m were appended, and then without them, so that a whole committed
  transaction disappears without a crash losing a byte (`Restart.CommittedIsLost`). From the m-th
  byte on, the record's body is JSON text with a control character in it, and no open succeeds any
  more (`Wal.TornRecordBlocks`, `Restart.RestartIff`): one lost byte and the next BEGIN suffice
  (`Restart.ReopenFails`). Behind the first byte of a record, a BEGIN is read as a record that
  nobody wrote (`Wal.ShortTearForges`).

**Parser.** The token cursor reads an expression tree exactly when the tokens are a form of
the grammar, the grammar is unambiguous, and every printed tree parses back.

## How the model reads

- Tree keys are `int`. The tree code only compares keys, and a run meets finitely many, which
  can be numbered in their order; so the theorems about a run with TEXT keys are those about
  their numbers. What encoding does to TEXT is `BTreePage` and `Pushdown.IndexKey`.
- The tree and the heap file work on the page map that the buffer pool shows its callers.
- Exceptions are result values. `None` from a scan, an `open` or a filter is a raised
  exception; `Answer.raises` marks where one ends a row stream.
- Generators (`range_scan`, `scan`) are run to exhaustion.
- `marks`, `refs`, `book` and `chain` are ghost: the program has no such fields.
- Python's `int(text)`, `float(text)` and `str(value)` are parameters (`Schema.Casts`), and so is
  which bodies `json.loads` accepts (`Wal.Decoder`); it is only used that a text with a byte from
  1 to 5 behind printable characters is not accepted, and that what was written is.

## Model

| member | source | states |
|---|---|---|
| BTree.BPlusTree.constructor | src/minirel/index/btree.py:89-94 | a new tree is valid and empty |
| BTree.BPlusTree.FindLeafPath | src/minirel/index/btree.py:170-186 | the path runs from the root through parents to the one leaf whose interval has the key |
| BTree.BPlusTree.Search | src/minirel/index/btree.py:188-198 | exactly the RIDs stored under the key, oldest first |
| BTree.BPlusTree.RangeScan | src/minirel/index/btree.py:200-228 | exactly the pairs of the range in ascending key order, RIDs of a key oldest first; it terminates |
| BTree.BPlusTree.Height | src/minirel/index/btree.py:629-641 | the depth at which every leaf lies |
| BTree.BPlusTree.Insert | src/minirel/index/btree.py:263-300 | adds the pair and keeps the invariant; raises exactly when unique and present, or when the key already fills a page, and then nothing changes; the exact new pages where the leaf has room or the root is a full leaf; no page ever loses its start or level |
| BTree.BPlusTree.CutLeaf | src/minirel/index/btree.py:289-300 | the overfull leaf is cut and its parent told; tree and contents as specified |
| BTree.BPlusTree.InsertIntoParent | src/minirel/index/btree.py:302-337 | a half-done split of any page is completed into a valid tree with the same contents, up to a new root |
| BTree.BPlusTree.CutInner | src/minirel/index/btree.py:325-337 | an internal page one key over is cut around its middle key, up to a new root |
| BTree.BPlusTree.BorrowFromRight | src/minirel/index/btree.py:411-444 | lends the leading run exactly when `CanLend`; contents and shape kept |
| BTree.BPlusTree.BorrowFromLeft | src/minirel/index/btree.py:446-471 | lends the trailing run, likewise |
| BTree.BPlusTree.MergePair | src/minirel/index/btree.py:495-500 | two leaves become one; only the parent may be short afterwards |
| BTree.BPlusTree.RedistributePair | src/minirel/index/btree.py:501-509 | two leaves cut anew at a fitting split point keep tree and contents |
| BTree.BPlusTree.CombineWithRight | src/minirel/index/btree.py:488-509 | merges or redistributes; fails exactly in the overflow condition |
| BTree.BPlusTree.CombineWithLeft | src/minirel/index/btree.py:510-535 | merges or redistributes and never fails |
| BTree.BPlusTree.FixupLeaf | src/minirel/index/btree.py:402-535 | repairs a short leaf, or fails exactly in the overflow condition |
| BTree.BPlusTree.RotateInternal | src/minirel/index/btree.py:548-581 | rotates one child through the parent, or leaves everything alone because neither sibling can spare one |
| BTree.BPlusTree.FixupInternal | src/minirel/index/btree.py:537-606 | repairs a short internal page; only the parent may be short afterwards |
| BTree.BPlusTree.GluePair | src/minirel/index/btree.py:583-606 | two internal pages become one; only the parent may be short afterwards |
| BTree.BPlusTree.MaybeShrinkRoot | src/minirel/index/btree.py:613-625 | a root with one child is replaced by it; the tree is valid again |
| BTree.BPlusTree.FixupAfterDelete | src/minirel/index/btree.py:365-400 | walking up from the leaf ends in a valid tree, or in the overflow |
| BTree.BPlusTree.Delete | src/minirel/index/btree.py:341-363 | removes the first such pair; not found exactly when absent; overflows exactly when the siblings jam |
| BTreeEntries.SearchSlice | src/minirel/index/btree.py:194-196 | what the two bisections delimit are the RIDs of the key |
| BTreeEntries.InsertEntryRids | src/minirel/index/btree.py:271-273 | inserting behind the run appends to that key's RIDs and to no other |
| BTreeEntries.RemoveAtRids | src/minirel/index/btree.py:347-358 | removing the first match removes that RID's first occurrence under its key only |
| BTreeSplit.SplitPoint | src/minirel/index/btree.py:235-261 | cuts between two different keys: at the middle, else at the first boundary behind it, else at the last before it; none exactly when all keys are equal |
| BTreeSplit.SplitPointUnique | src/minirel/index/btree.py:235-261 | the split point is determined by the entries |
| BTreeSplit.LeadingRun | src/minirel/index/btree.py:424-426 | the length of the first run of equal keys |
| BTreeSplit.TrailingRun | src/minirel/index/btree.py:451-453 | the length of the last run of equal keys |
| BTreeSplit.RedistributeRight | src/minirel/index/btree.py:488-509 | the right half fits; the left half overflows if and only if the leading run does not fit and keys follow it |
| BTreeSplit.RedistributeLeft | src/minirel/index/btree.py:510-533 | both halves fit |
| BTreeSteps.SplitLeafShape | src/minirel/index/btree.py:289-300 | cutting a leaf and linking the halves keeps the tree invariant |
| BTreeSteps.MergeLeafShape | src/minirel/index/btree.py:495-500 | merging neighbours keeps it, the leaf chain included |
| BTreeSteps.GrowRootShape | src/minirel/index/btree.py:305-311 | a new root above the old one keeps it |
| BTreeSteps.ShrinkRootShape | src/minirel/index/btree.py:613-625 | dropping a one-child root keeps it |
| BTreeInner.SplitInnerShape | src/minirel/index/btree.py:325-337 | cutting an internal page around the key that moves up keeps it |
| BTreeInner.MergeInnerShape | src/minirel/index/btree.py:583-606 | gluing internal pages around the parent separator keeps it |
| BTreeInsert.UncuttableLeaf | src/minirel/index/btree.py:275-289 | an overfull leaf has no cut if and only if the key filled the leaf before |
| BTreeDelete.FindEntry | src/minirel/index/btree.py:347-355 | the first entry with this key and RID; none exactly when the RID is not under the key |
| BTreeDelete.ShortRunsNeverOverflow | src/minirel/index/btree.py:473-487 | no leaf overflows on delete while runs are at most half a page plus one |
| BTreeDelete.StuckIffJams | src/minirel/index/btree.py:402-509 | the condition met during the fix-up is the one readable off the tree before the call |
| BTreeOverflow.OverflowIff | src/minirel/index/btree.py:473-509 | a valid tree with an entry whose deletion overflows exists exactly for leaves of six entries or more |
| BTreeOverflow.JammedTree | src/minirel/index/btree.py:473-509 | the witness for each such capacity is a valid tree |
| BTreeOverflow.JamsNeedsSix | src/minirel/index/btree.py:473-509 | below six no valid tree overflows |
| BTreeOverflow.ReachJam | src/minirel/index/btree.py:263-300 | inserts into an empty tree that lead to a delete that overflows, for every such capacity |
| BTreeStale.Load | src/minirel/database.py:218-222 | the backfill on the tree itself: the page it started from stays the first leaf, and is still the root exactly if no more entries went in than fit one page |
| BTreeStale.StaleLookupIff | src/minirel/index/btree.py:188-198 | a lookup that takes a leaf for the root is right exactly for the keys of that leaf and absent ones |
| BTreeStale.StaleMisses | src/minirel/index/btree.py:188-198 | behind a stale root there always is a stored key it misses |
| BTreeStale.StaleScan | src/minirel/index/btree.py:200-228 | after an insert through a stale root, a scan for a smaller key of another leaf ends empty in the first |
| BTreeScan.ScanUnique | src/minirel/index/btree.py:200-228 | the model determines the scan's list |
| BTreeScan.LeafShare | src/minirel/index/btree.py:211-215 | one leaf's part of a range scan, and when the scan may stop |
| BTreeRuns.ChainIsComplete | src/minirel/index/btree.py:200-228 | following `next_leaf` from the leftmost leaf visits every leaf exactly once |
| BTreeRuns.ChainVisits | src/minirel/index/btree.py:206-216 | from any leaf, exactly the later leaves, in key order |
| BTreeRuns.DuplicatesShareALeaf | src/minirel/index/btree.py:235-261 | all entries of a key lie in one leaf |
| BTreeRuns.HeightBound | src/minirel/index/btree.py:79-87 | height h >= 2 needs at least 2 * (min_internal_keys + 1)^(h - 2) distinct keys |
| BTreeRuns.Apply | src/minirel/index/btree.py:188-400 | every insert, delete, search and range scan replies and changes contents as the plain model, or is a delete that overflows, which needs a long run |
| BTreeRuns.Run | src/minirel/index/btree.py:188-400 | any operation sequence gives the model's replies to its end or to the first delete that overflows the tree reached, and a final scan the contents |
| BTreePage.WriteNode | src/minirel/index/btree.py:129-166 | writes head and records; fails exactly when they run over the page |
| BTreePage.ReadNode | src/minirel/index/btree.py:114-154 | the node a page holds; fails exactly when its count runs over the page |
| BTreePage.WriteThenRead | src/minirel/index/btree.py:114-166 | reading back what was written gives the node, whatever the page held |
| BTreeCodec.RawSurvives | src/minirel/index/btree.py:98-166 | a node with storable keys is recovered from its records |
| BTreeCodec.SaveThenLoad | src/minirel/index/btree.py:114-166 | a node written and read is the same node exactly up to the tree's capacities; beyond them the write raises |
| BTreePage.CapacityIsExact | src/minirel/index/btree.py:79-87 | writes succeed exactly up to the computed capacities for keys of at most 1016 bytes; beyond, four entries do not fit |
| BTreePage.RecordsInjective | src/minirel/index/btree.py:114-166 | a record determines its key and its RID or child |
| BTreePage.IntKeySurvives | src/minirel/index/btree.py:98-107 | a 64-bit key decodes to itself |
| BTreePage.TextKeySurvives | src/minirel/index/btree.py:98-107 | a text key decodes to itself if and only if it fits and does not end in a zero byte |
| MvccProof.InvNext | src/minirel/transaction.py:105-126 | every step keeps the state invariant |
| MvccProof.ViewIsStable | src/minirel/transaction.py:128-137 | no step of another transaction changes what a transaction sees |
| MvccProof.BeginSeesCommitted | src/minirel/transaction.py:105-111 | a new snapshot sees exactly the committed rows |
| MvccProof.GuardsAgree | src/minirel/transaction.py:139-152 | a step is allowed exactly when the snapshot-isolation specification allows it |
| MvccProof.ConflictIff | src/minirel/transaction.py:139-152 | the write check raises exactly when another transaction, running or committed, has stamped the version |
| MvccProof.StepRefines | src/minirel/transaction.py:105-152 | one step of the code is one step of the specification, guards both ways |
| MvccProof.RunRefines | src/minirel/transaction.py:105-152 | so is any run: what a transaction sees is its start state plus its own writes |
| MvccProof.StartAgrees | src/minirel/transaction.py:90-99 | a quiet state refines the specification whose committed table is its live rows |
| MvccProof.RepeatableRead | src/minirel/transaction.py:128-137 | over any steps of others a view stays the same |
| MvccProof.LiveCommit | src/minirel/transaction.py:113-118 | commit adds a transaction's inserts to the committed table and takes out its stamps |
| MvccProof.LiveSame | src/minirel/transaction.py:105-126 | no other step changes the committed table |
| MvccProof.OneSurvivingStamp | src/minirel/transaction.py:139-152 | of two stamps on a version the earlier one's transaction has aborted |
| MvccProof.CommittedStampIsFinal | src/minirel/transaction.py:139-152 | a stamp whose transaction committed is never overwritten: no lost update |
| Statements.WritesExactly | src/minirel/database.py:299-387 | a statement's steps add exactly its inserts and stamps and leave the committed table alone |
| Statements.StatementIsAtomic | src/minirel/database.py:171-185 | commit publishes all of a statement's writes, abort none |
| Statements.VersionsStay | src/minirel/database.py:325-387 | versions are never removed and keep creator and values |
| Schema.CoerceTyped | src/minirel/types.py:77-105 | what is stored has the column's type, and a value that has it is stored as it is |
| Schema.NumbersStored | src/minirel/types.py:77-105 | what integers, reals, booleans and NULL become in INT and FLOAT columns: the amount, without its fraction and within 64 bits for INT |
| Schema.OthersStored | src/minirel/types.py:77-105 | what BOOL and TEXT columns make of a value, and INT and FLOAT columns of a text |
| Schema.StoredIsTyped | src/minirel/types.py:108-121 | a stored row has the schema's types, value by value what its columns make of it |
| Schema.StoredTwice | src/minirel/types.py:77-121 | storing a row that was read back changes nothing |
| RowCodec.ValueSurvives | src/minirel/types.py:77-105 | a value encoded anywhere among other bytes is read back, and exactly its bytes are consumed |
| RowCodec.EncodedSize | src/minirel/types.py:108-111 | the bytes of a row are the widths of its values |
| RowCodec.DecodeRow | src/minirel/types.py:114-121 | the loop with a moving offset gives back the encoded row |
| RowCodec.TupleSurvives | src/minirel/types.py:124-147 | a packed tuple has the two stamps and the payload it was packed with |
| RowCodec.StampKeepsRest | src/minirel/types.py:150-155 | stamping changes the second stamp only, and not the length |
| RowCodec.StorableIff | src/minirel/types.py:108-131 | a row can be stored exactly if its values encode and its tuple fits a page |
| Indexes.CheckUnique | src/minirel/database.py:242-269 | objects exactly when another row visible to the snapshot holds a key that Python calls equal; a deleted row does not |
| Indexes.SearchKeyMeets | src/minirel/index/btree.py:188-198 | a lookup meets exactly the keys equal to the value, so 1, TRUE and 1.0 alike |
| Indexes.FillIndexes | src/minirel/database.py:280-297 | the loop: stops at the first index that raises; those before it have the entry, all others are as before |
| Indexes.FilledKeeps | src/minirel/database.py:280-297 | the new version lacks an entry exactly in the indexes that did not take it; entries stay sound |
| Indexes.Backfill | src/minirel/database.py:218-222 | raises exactly when some key has more versions than fit, and then leaves a stale root exactly if the scan does not start with that key; otherwise which versions lack an entry |
| Indexes.StaleRootHappens | src/minirel/database.py:218-222 | one version of a key and more of another than fit leave a stale root |
| Indexes.ListedIsFaithful | src/minirel/database.py:271-318 | a scan of a sound index lists every version but its gaps, once, under its key |
| Indexes.CoversIff | src/minirel/database.py:271-318 | a sound index, reached through its root, covers what a transaction sees exactly when no visible version lacks its entry |
| Changes.ApplyKeeps | src/minirel/database.py:305-362 | a change keeps heap, headers and indexes sound, makes exactly its steps, and opens gaps only where an index raised |
| Changes.TraceKeeps | src/minirel/database.py:299-364 | so do the changes of a statement, one after the other |
| Changes.TraceUnique | src/minirel/database.py:299-364 | the tables a statement passes through are determined |
| Changes.TraceGaps | src/minirel/database.py:299-364 | changes that are fine open no gap |
| Changes.FineWrites | src/minirel/database.py:299-364 | a statement whose changes are fine inserts their stored rows and stamps what they replace |
| Changes.RefusedThenCommitted | src/minirel/database.py:271-318 | committing after an index raised publishes the row, which exactly that index and those behind it lack |
| Changes.UnstorableThenCommitted | src/minirel/database.py:348-355 | committing after an UPDATE could not encode its row takes the row out of the committed table |
| Changes.CreatedOk | src/minirel/database.py:209-223 | a new index, stale or with gaps or complete, leaves the table sound |
| DatabaseRuns.ActKeeps | src/minirel/database.py:171-387 | one action of a client keeps the table sound and opens gaps exactly where something was left out |
| DatabaseRuns.ActPublishes | src/minirel/transaction.py:113-126 | only a commit changes the committed table: it adds what its transaction inserted and takes out what it stamped |
| DatabaseRuns.RunKeeps | src/minirel/database.py:171-387 | so every state of a run of interleaved transactions is sound |
| DatabaseRuns.GapsOverRuns | src/minirel/database.py:171-387 | over any such run an index lacks exactly the versions that a raising index or its own backfill left out |
| Database.Database.StoreRow | src/minirel/database.py:305-317 | encode, store, index: the fate and the new table are those of `PutRow` |
| Database.Database.StampRow | src/minirel/database.py:339-348 | stamps exactly when the conflict check passes, else changes nothing |
| Database.Database.ExecuteInsert | src/minirel/database.py:299-318 | the rows in order up to the first that is not fine, each from the table the one before left |
| Database.Database.ExecuteDelete | src/minirel/database.py:366-387 | stamps the matches in order, stopping exactly at a row whose stamp the conflict check rejects |
| Database.Database.UpdateRow | src/minirel/database.py:339-362 | conflict check, stamp, encode, store, index; a row that does not encode leaves the stamp alone |
| Database.Database.ExecuteUpdate | src/minirel/database.py:325-364 | likewise per match, from the values it had before the statement |
| Database.RanIff | src/minirel/database.py:299-364 | a statement succeeds exactly when every change, made after those before it, is fine |
| Database.FailureMeans | src/minirel/database.py:299-364 | it fails at a claimed version, at values that cannot be stored, or at an index of the table; without indexes exactly at the first two |
| Database.RanGaps | src/minirel/database.py:271-364 | what an index lacks afterwards: what it lacked before, and the version of a refused change |
| Database.AssignAt | src/minirel/database.py:342-346 | the last assignment to a column wins, other columns keep their value |
| Database.Database.ExecuteCreateIndex | src/minirel/database.py:209-223 | succeeds exactly for a new name, a known column of type INT or TEXT (checked in catalog.py:96-102) and no key with more versions than a page of entries; after a failed backfill the name is taken, and the index is stale or has exactly the gaps stated |
| Database.Database.Begin | src/minirel/transaction.py:105-111 | the begin step |
| Database.Database.Commit | src/minirel/transaction.py:113-118 | the commit step, refused exactly when the transaction is not active |
| Database.Database.Abort | src/minirel/transaction.py:120-126 | the abort step, likewise |
| Database.Database.AutoInsert | src/minirel/database.py:171-185 | an INSERT on its own is all or nothing on the committed table, and indexes that lack only dead versions keep to that |
| Database.Database.AutoDelete | src/minirel/database.py:171-185 | likewise for DELETE, failing exactly at a conflict |
| Database.Database.AutoUpdate | src/minirel/database.py:171-185 | likewise for UPDATE |
| Database.Database.Conclude | src/minirel/database.py:171-185 | commit or abort after any run of changes: the published table, and the gaps |
| Uniqueness.RefusedMeans | src/minirel/database.py:242-297 | the index that refuses a row objects to it, and no index before it does |
| Uniqueness.FineIff | src/minirel/database.py:242-297 | a change is fine exactly if the old version is free, the row can be stored, and no index objects, stated by what the transaction sees |
| Uniqueness.CommitKeepsUniqueIff | src/minirel/database.py:242-269 | a committed change keeps the column unique exactly when no row committed since the transaction began holds its key |
| Uniqueness.NewTransactionSeesAll | src/minirel/database.py:171-185 | there is none when the transaction has just begun |
| Uniqueness.OverlapDuplicates | src/minirel/database.py:242-269 | two overlapping transactions both store a key in a unique index |
| Uniqueness.KeySurvivesIff | src/minirel/index/btree.py:98-107 | the value looked up is the key stored exactly for whole numbers and for text that fits its key |
| Uniqueness.LongTextIsNotChecked | src/minirel/database.py:242-269 | a unique index objects to no text longer than eight bytes |
| ExprMeaning.ComparesInts | src/minirel/expr.py:54-84 | the six operators on integers |
| ExprMeaning.ComparesReals | src/minirel/expr.py:54-84 | the six operators on reals |
| ExprMeaning.ComparesNumbers | src/minirel/expr.py:54-84 | the six operators on booleans, integers and reals of any two kinds, by amount |
| ExprMeaning.ComparesTexts | src/minirel/expr.py:54-84 | the six operators on texts: the first differing character decides, and a proper prefix is less |
| ExprMeaning.ComparesKinds | src/minirel/expr.py:54-84 | between a text and a number only (in)equality is defined |
| ExprMeaning.ComparesNull | src/minirel/expr.py:82-84 | with NULL on a side no comparison holds |
| ExprMeaning.BeforeIsEarlier | src/minirel/expr.py:54-61 | the order of texts is dictionary order |
| ExprMeaning.LessThanMeans | src/minirel/expr.py:54-61 | the order that sorting, MIN and MAX use, on numbers and texts |
| ExprMeaning.TruthyMeans | src/minirel/expr.py:93-94 | what counts as false |
| ExprMeaning.ConnectivesMean | src/minirel/expr.py:71-79 | AND, OR and NOT, with the right side evaluated only if it matters |
| ExprMeaning.RaisesMean | src/minirel/expr.py:64-90 | where evaluating raises |
| ExprMeaning.JudgeMeans | src/minirel/executor.py:139-151 | a filter rejects exactly what counts as false and raises exactly when evaluating does |
| ExprMeaning.ResolveMeans | src/minirel/expr.py:28-51 | a reference finds the key it spells out, an unqualified one else the only key ending in its name |
| Planner.FlattenKeepsMeaning | src/minirel/planner.py:49-62 | judging the conjuncts left to right is judging the WHERE, exceptions included |
| Planner.RebuildAnd | src/minirel/planner.py:65-71 | the rebuilt tree judges every row as the conjuncts do |
| Planner.DropConjunct | src/minirel/planner.py:90-127 | what leaving one conjunct out can do to a verdict |
| Planner.PushableIff | src/minirel/planner.py:74-87 | a conjunct can be pushed exactly when it equates an indexed column of the table with a literal, in either order |
| Planner.BuildBaseScan | src/minirel/planner.py:90-127 | pushes the first usable equality and keeps exactly the others |
| Pushdown.ResolveOwnColumn | src/minirel/expr.py:28-51 | both spellings of an own column find its value |
| Pushdown.IndexKeyMeans | src/minirel/index/btree.py:98-107 | the key of a text is its first eight characters without trailing NULs, that of a number the number |
| Pushdown.PullContents | src/minirel/executor.py:86-154 | a filtered scan returns exactly the visible accepted rows, raising exactly when a visible row raises |
| Pushdown.PushdownIff | src/minirel/planner.py:90-127 | if the sequential plan does not raise, both plans return the same rows, each once, exactly when the literal compares with the keys and, of the visible rows the residual does not reject, exactly those with its value are met |
| Pushdown.CoveringMeets | src/minirel/planner.py:90-127 | for a covering index that is a matter of the keys alone |
| Pushdown.TypedPushdown | src/minirel/planner.py:90-127 | that is the case for every literal of the column's type and keys that fit |
| Pushdown.TextTellsIff | src/minirel/index/btree.py:98-107 | when exactly a text key tells a literal |
| Pushdown.NullMeetsEverything | src/minirel/planner.py:120-122 | `col = NULL` meets every row, though it accepts none |
| Pushdown.LongTextIsLost | src/minirel/index/btree.py:98-107 | a ten-byte text is not found under itself and is found under its first eight bytes |
| Queries.TableIsTyped | src/minirel/types.py:114-121 | a sound database gives every statement a well-typed table |
| Queries.TableShows | src/minirel/executor.py:86-135 | the table a statement scans shows exactly what its transaction sees |
| Queries.DeadGapsCover | src/minirel/database.py:171-185 | an index that lacks only versions of aborted transactions covers what anybody sees |
| Queries.RaisesIff | src/minirel/index/btree.py:188-228 | an index scan raises exactly when there are keys and the literal is not of their kind |
| Queries.NumbersTrusted | src/minirel/planner.py:90-127 | on an INT column a number is told, so the plan is wrong exactly about visible gaps with that value |
| Queries.IndexPlanIff | src/minirel/planner.py:90-127 | on a sound database, with any gaps, the planner's plan through an index that is not stale agrees with the sequential plan exactly when it is to be trusted |
| Queries.BaseScan | src/minirel/planner.py:90-127 | plan, open and drain: the rows are the sequential plan's, as often, if the plan uses no index or one to be trusted |
| BufferPool.BufferPoolManager.constructor | src/minirel/storage/buffer_pool.py:49-64 | an empty pool shows the disk |
| BufferPool.BufferPoolManager.EvictOne | src/minirel/storage/buffer_pool.py:66-77 | a free frame, else that of the page released longest ago, saved if dirty; which page left and what remains queued; none exactly when all frames are held |
| BufferPool.BufferPoolManager.Pin | src/minirel/storage/buffer_pool.py:79-92 | one more holder, the map's contents |
| BufferPool.BufferPoolManager.FetchPage | src/minirel/storage/buffer_pool.py:86-103 | returns the last written contents; the one page it may displace was released no later than any idle page; when it fails, and the frame a missing page leaks |
| BufferPool.BufferPoolManager.NewPage | src/minirel/storage/buffer_pool.py:105-120 | a zero page under the next id, held once, with the same choice of victim; the page stays allocated if no frame is left |
| BufferPool.BufferPoolManager.Admit | src/minirel/storage/buffer_pool.py:66-120 | making room for a page and loading it |
| BufferPool.BufferPoolManager.UnpinPage | src/minirel/storage/buffer_pool.py:122-137 | one holder less; the last one queues the frame as newest and dates the release |
| BufferPool.BufferPoolManager.FlushPage | src/minirel/storage/buffer_pool.py:139-147 | saves the page if dirty and touches nothing else |
| BufferPool.BufferPoolManager.FlushAll | src/minirel/storage/buffer_pool.py:149-152 | afterwards nothing is dirty, and the disk is the page map if no unmarked write is outstanding |
| BufferPool.BufferPoolManager.WriteInPlace | src/minirel/storage/buffer_pool.py:86-103 | a holder's write changes the map at that page only |
| BufferPool.VictimIsOldest | src/minirel/storage/buffer_pool.py:66-77 | no idle page was released before the page at the head of the queue |
| BufferPool.LaterReleasedStays | src/minirel/storage/buffer_pool.py:66-137 | of two pages released one after the other the next fetch keeps the later one |
| BufferPool.AllSaved | src/minirel/storage/buffer_pool.py:149-152 | with nothing dirty or unmarked the disk equals the map |
| BufferPool.UnheldIsUntouched | src/minirel/storage/buffer_pool.py:122-137 | a page nobody holds has no unmarked write, so a quiet pool flushes completely |
| HeapPage.StoreRefines | src/minirel/storage/heap_file.py:149-155 | storing a row adds one tuple in a slot that was not live; extents stay disjoint |
| HeapPage.OverwriteRefines | src/minirel/storage/heap_file.py:184-188 | overwriting changes that tuple only |
| HeapPage.DeleteRefines | src/minirel/storage/heap_file.py:203-207 | freeing a slot removes that tuple only |
| HeapPage.EmptyPage | src/minirel/storage/heap_file.py:69-71 | a formatted page is empty and takes any row the size check lets through |
| HeapPage.RelinkRefines | src/minirel/storage/heap_file.py:143 | rewriting the link keeps all tuples |
| HeapFile.FindLastPage | src/minirel/storage/heap_file.py:87-108 | walks the links to the last page, a repeated page or a missing one; it terminates on any file |
| HeapFile.SoundFileOpens | src/minirel/storage/heap_file.py:77-108 | on a sound file that is the last page of the chain |
| HeapFile.FindSlot | src/minirel/storage/heap_file.py:126-131 | the first deleted slot, else one more |
| HeapFile.Measure | src/minirel/storage/heap_file.py:124-137 | a row finds room exactly when the measured bytes suffice |
| HeapFile.HeapFile.constructor | src/minirel/storage/heap_file.py:77-85 | a new file is empty and leaves other pages alone |
| HeapFile.HeapFile.Open | src/minirel/storage/heap_file.py:77-85 | reopening a sound file gives its contents |
| HeapFile.HeapFile.Insert | src/minirel/storage/heap_file.py:110-157 | too long exactly by the size check; else one new RID, nothing else moves, one more page exactly when the last has no room |
| HeapFile.HeapFile.Get | src/minirel/storage/heap_file.py:159-170 | the tuple exactly if the RID is live |
| HeapFile.HeapFile.UpdateInPlace | src/minirel/storage/heap_file.py:172-190 | overwrites exactly a live tuple of the same length |
| HeapFile.HeapFile.Delete | src/minirel/storage/heap_file.py:192-209 | frees exactly a live slot |
| HeapFile.HeapFile.Scan | src/minirel/storage/heap_file.py:211-225 | every live tuple once, in ascending RID order |
| HeapFile.ListsUnique | src/minirel/storage/heap_file.py:211-225 | the contents determine that list |
| Wal.IterRecords | src/minirel/wal.py:107-120 | the loop computes the parse of the bytes, raising exactly at a whole record of unknown type or with a body that does not decode |
| Wal.RoundTrip | src/minirel/wal.py:67-72 | written records parse back |
| Wal.ParseCut | src/minirel/wal.py:107-120 | a log cut at any byte parses as a prefix of its records |
| Wal.SurvivorsLongest | src/minirel/wal.py:107-120 | that prefix is the longest one whose bytes survived |
| Wal.AppendAfterCleanEnd | src/minirel/wal.py:67-72 | appending behind a whole log extends it |
| Wal.ParseConsumes | src/minirel/wal.py:107-120 | the bytes are the records read, encoded, and a residue |
| Wal.TornRecordSwallows | src/minirel/wal.py:107-120 | a torn record with a whole header that lacks m bytes takes the next m appended for its body; until then nothing is read, and from then on the body decides |
| Wal.TornRecordBlocks | src/minirel/wal.py:107-120 | behind a torn record the log can be read exactly while fewer than m bytes were appended; then every open raises |
| Wal.ShortTearForges | src/minirel/wal.py:107-120 | behind the first byte of a record, the BEGIN of t reads as a record of that kind for transaction 1 + 256 t |
| Wal.TornTailHides | src/minirel/wal.py:107-120 | the records before the tear are all that is read exactly while fewer bytes were appended than it lacks |
| Wal.AppendKeptIff | src/minirel/wal.py:63-72 | what is appended behind left-over bytes is read back exactly when there were none |
| Recovery.ReadSinceLastCheckpoint | src/minirel/wal.py:126-141 | exactly the records behind the last CHECKPOINT |
| Recovery.NextTxnIdAfterRecovery | src/minirel/transaction.py:194-202 | one more than the largest id in the log |
| Recovery.UncommittedIff | src/minirel/transaction.py:167-191 | an id is in the restart set exactly when it began behind the checkpoint and did not commit |
| Recovery.ReplayListMeans | src/minirel/transaction.py:155-164 | wherever the log is cut, the replay list is exactly the operations behind the last checkpoint whose COMMIT stands there, in log order |
| Recovery.RestartClassifies | src/minirel/transaction.py:167-202 | for which ids the restart counts exactly the committed ones |
| Recovery.ReplayIsAtomic | src/minirel/transaction.py:155-164 | for every cut the replay list has all operations since the checkpoint of a transaction whose COMMIT survived, in order, and none of another |
| Recovery.AbortBeforeCheckpointIsForgotten | src/minirel/transaction.py:188-191 | a transaction aborted before the checkpoint counts as committed |
| Recovery.BegunIffBelow | src/minirel/transaction.py:194-202 | in a log whose BEGINs are in id order the ids below the next one are exactly those that began |
| Recovery.OrderlyClassifies | src/minirel/transaction.py:167-202 | there the restart is wrong about exactly the ids that began before the checkpoint and did not commit |
| Restart.TxnKeeps | src/minirel/transaction.py:105-126 | every logged step keeps log, headers and state in agreement |
| Restart.NoteKeeps | src/minirel/database.py:291-297 | so does an operation record without a step of its own |
| Restart.CheckpointKeeps | src/minirel/database.py:140-150 | so does a checkpoint with no active transaction |
| Restart.CrashKeeps | src/minirel/database.py:101-105 | so does a benign crash and restart, at any byte of the file and with any pages on disk, before replay |
| Restart.RunsAreSound | src/minirel/database.py:94-150 | from a new database so does any run whose crashes are benign, each going on with the heap as it was on disk, before replay |
| Restart.LiveIsCommitted | src/minirel/transaction.py:128-137 | with nothing active the live rows are those whose creator committed and whose remover did not |
| Restart.SeenAfterCrash | src/minirel/transaction.py:99-137 | after a benign crash a new snapshot sees, of the rows on disk and before replay, exactly the committed ones |
| Restart.CleanIsReadable | src/minirel/wal.py:107-120 | with no torn bytes in the file every crash leaves a prefix of the log |
| Restart.ReadsAllIff | src/minirel/wal.py:63-120 | an undamaged file reads back in full exactly when no torn bytes stand before appended records |
| Restart.TornFileLoses | src/minirel/wal.py:63-120 | behind a torn record everything since the restart is lost while it is shorter than what is missing |
| Restart.RestartIff | src/minirel/wal.py:63-120 | behind a torn record a crash can be followed by a restart exactly if it keeps less of the file than completes the record |
| Restart.ReopenFails | src/minirel/wal.py:63-120 | after a crash that loses the last byte of an operation record, no restart is possible once the next BEGIN is in the file |
| Restart.IdsAreDense | src/minirel/transaction.py:105-202 | over any readable run the log has the BEGIN of exactly the ids handed out |
| Restart.ReissuedIff | src/minirel/transaction.py:194-202 | an id stamped on disk is handed out again exactly when its BEGIN did not survive |
| Restart.StaleRowIsSeen | src/minirel/transaction.py:128-137 | its new owner sees the stale row |
| Restart.LostBeginIsReissued | src/minirel/transaction.py:194-202 | from a new database: a page on disk before the log, and the row of an unfinished transaction is seen |
| Restart.TearLeaves | src/minirel/wal.py:63-120 | a crash inside a record leaves its first bytes in the file |
| Restart.CommittedIsLost | src/minirel/wal.py:63-120 | behind a tear that lacks more than 18 bytes a begun and committed transaction is not read by the next restart |
| Sorting.SortRows | src/minirel/executor.py:248-260 | the passes from last key to first; raises exactly when some key cannot be evaluated or compared |
| Sorting.SortOrders | src/minirel/executor.py:253-258 | they give a permutation in lexicographic order, mixed directions, full ties in input order |
| Sorting.OrderedUnique | src/minirel/executor.py:253-258 | only one list is so ordered, so any stable sort gives it |
| Aggregation.FoldCounts | src/minirel/executor.py:308-331 | COUNT counts the non-NULL values, SUM and AVG add them up |
| Aggregation.FoldBest | src/minirel/executor.py:319-322 | MIN and MAX are a value of the group that no value beats |
| Aggregation.FoldRowsIsFold | src/minirel/executor.py:363-368 | the running state over rows is the fold of the argument's values |
| Aggregation.FirstKeysOrdered | src/minirel/executor.py:355-362 | every key once, in the order of its first row |
| Aggregation.BuildTable | src/minirel/executor.py:350-368 | one entry per key with its first row's values and the fold of its rows; raises exactly when some group's fold does |
| Aggregation.CountStarConserves | src/minirel/executor.py:363-368 | the COUNT(*) values add up to the number of input rows |
| Aggregation.KeysMeet | src/minirel/executor.py:356 | two values are one group key exactly when Python calls them equal |
| Aggregation.Aggregate | src/minirel/executor.py:350-393 | the grouped rows, or one row of empty aggregates for no input and no GROUP BY |
| AggregateMeaning.FoldAnswers | src/minirel/executor.py:308-331 | the result of an aggregate over values: how many, their sum, their average, an extreme of them |
| AggregateMeaning.InputsMean | src/minirel/executor.py:363-368 | the values are those of the argument on the rows, 1 each for a star, and raise exactly when one does |
| AggregateMeaning.SameGroupIff | src/minirel/executor.py:355-362 | two rows are in one group exactly when their group-by values are equal to Python |
| AggregateMeaning.RowsWithPicks | src/minirel/executor.py:355-368 | the rows of a group are exactly those with its key, in input order |
| AggregateMeaning.GroupedMeans | src/minirel/executor.py:350-380 | each returned row has under each item's name its aggregate's answer over the group, or the group-by value of the group's first row |
| AggregateMeaning.EmptyRowMeans | src/minirel/executor.py:382-391 | over no input the aggregates answer for no values |
| AggregateMeaning.NoInputMeans | src/minirel/executor.py:382-391 | there is one row for no input exactly without GROUP BY |
| AggregateMeaning.OutNameMeans | src/minirel/executor.py:231-238 | the name of an output column |
| AggregateMeaning.LowerMeans | src/minirel/executor.py:231-238 | a default name has the letters of the function's, in small letters |
| Executor.Open | src/minirel/executor.py:43-49 | an opened operator has its plan's meaning before it; raises exactly when `OpenFails` |
| Executor.Next | src/minirel/executor.py:139-293 | delivers the first row of what is to come, the end, or the exception |
| Executor.NextVisible | src/minirel/executor.py:89-94 | a scan skips reclaimed and invisible tuples |
| Executor.NextKept | src/minirel/executor.py:147-151 | a filter's next row |
| Executor.NextMatch | src/minirel/executor.py:178-192 | a join's next row; the loop terminates |
| Executor.OpenJoin | src/minirel/executor.py:171-176 | opening a join pulls its first left row |
| Executor.Drain | src/minirel/executor.py:43-49 | iterating a tree yields its list meaning, rows before an exception included |
| Executor.JoinIsFilteredProduct | src/minirel/executor.py:157-192 | a join is its ON filter over the left-major cross product |
| Executor.ProductAt | src/minirel/executor.py:157-192 | which pair stands where in that product |
| Executor.KeptContents | src/minirel/executor.py:139-151 | a filter keeps exactly the accepted rows as often as they came; `ExprMeaning` says which are accepted |
| Executor.MergeGet | src/minirel/executor.py:189 | in a merged row the right side wins |
| ProjectionMeaning.StarShows | src/minirel/executor.py:208-225 | `SELECT *` shows the columns whose keys have no dot and no leading double underscore, in order |
| ProjectionMeaning.SelectRaises | src/minirel/executor.py:208-225 | a select list raises exactly when one of its items does |
| ProjectionMeaning.SelectShows | src/minirel/executor.py:208-225 | otherwise the row has the items' values under their names, in order |
| ProjectionMeaning.LaterItemWins | src/minirel/executor.py:208-225 | of two items with one name the later one shows |
| ProjectionMeaning.ProjectMeans | src/minirel/executor.py:208-225 | a lone star shows the bare columns, anything else its items |
| ProjectionMeaning.ScanShows | src/minirel/executor.py:86-135 | a base scan delivers the rows of the visible versions, in their order |
| Executor.SortedContents | src/minirel/executor.py:241-271 | ORDER BY delivers a permutation in order by Python's own comparison, each key ascending or descending, ties in input order |
| Executor.OpenFailsIsFailure | src/minirel/executor.py:248-260 | an exception from `open` leaves no row |
| Executor.FilteredScanIsPull | src/minirel/executor.py:86-154 | the drained filter over a scan is the scan of the pushdown theorem |
| Parser.Parser.ParseExpr | src/minirel/sql/parser.py:274-275 | the object's parse is the specified one; the cursor never leaves the list |
| Parser.Parser.ParseOrExpr | src/minirel/sql/parser.py:277-281 | OR chains, left-associative |
| Parser.Parser.ParseAndExpr | src/minirel/sql/parser.py:283-287 | AND chains |
| Parser.Parser.ParseNotExpr | src/minirel/sql/parser.py:289-292 | NOT |
| Parser.Parser.ParseComparisonExpr | src/minirel/sql/parser.py:294-301 | at most one comparison |
| Parser.Parser.ParsePrimaryExpr | src/minirel/sql/parser.py:303-354 | primaries, unary minus, parentheses |
| Parser.Parser.ParseArgument | src/minirel/sql/parser.py:341-348 | call arguments, the stray star included |
| Parser.Parser.Match | src/minirel/sql/parser.py:56-73 | takes the token exactly if it is next |
| Parser.PrintThenParse | src/minirel/sql/parser.py:274-354 | printing a tree and parsing it gives the tree back |
| ParserMeaning.ComparisonTree | src/minirel/sql/parser.py:294-301 | `!=` stands for `<>`, every other comparison for itself |
| ParserMeaning.ComparisonParses | src/minirel/sql/parser.py:294-301 | so it is read wherever it stands |
| ParserMeaning.ParseComparison | src/minirel/sql/parser.py:294-301 | and by the parser object |
| ParserMeaning.ConditionMeans | src/minirel/expr.py:54-84 | `column op number`, parsed and evaluated, accepts exactly the rows whose value is so related to the number |
| ParserMeaning.UpperMeans | src/minirel/sql/parser.py:341-348 | an aggregate's name is read in capitals, letter by letter |
| ParserMeaning.MinusMeans | src/minirel/sql/parser.py:306-316 | a minus negates numbers and booleans and is refused elsewhere |
| ParserProof.ExprComplete | src/minirel/sql/parser.py:274-354 | every form of the grammar is read to its tree |
| ParserProof.OrSound | src/minirel/sql/parser.py:274-354 | whatever is read is a form of the grammar |
| ParserProof.ParsesExactlyTheGrammar | src/minirel/sql/parser.py:274-354 | a tree is read from a stretch of tokens if and only if they are a form of it that the next token does not continue |
| ParserProof.Unambiguous | src/minirel/sql/parser.py:9-14 | no token list stands for two trees: precedence and associativity are fixed |
| ParserProof.RoundTrip | src/minirel/sql/parser.py:274-354 | printing with the fewest parentheses round-trips in any surroundings |
| ParserProof.ParsedIsPrintable | src/minirel/sql/parser.py:303-354 | the parser returns printable trees only |

## Left out

- Database.Database.ExecuteInsert: the RIDs the heap hands out are parameters, required to be free and distinct, which `HeapFile.HeapFile.Insert` proves of them.
- Database.Database.ExecuteUpdate: the rows the WHERE matched are a parameter, required to be visible to the transaction, which `Pushdown.PullContents` proves of a plan's output.
- Database.Database.Begin: requires ids below the "infinity" stamp; the program hands out ids without an upper check.
- Database.Database.ExecuteCreateIndex: an index with a stale root is only a name from then on; whether its tree raises on a row is a parameter (`Indexes.Whim`), its contents are not modelled beyond `BTreeStale`.
- Indexes.FillIndexes: represents each tree by its contents, which `BTree.BPlusTree` proves for keys that survive encoding. TEXT longer than eight bytes and a fractional number for an INT column descend by the value given and are stored under the cut one, so a run of equal keys may end up in two leaves.
- Schema.StoredIsTyped: FLOAT is `real`, so NaN, infinities and rounding are not modelled, and `encode_value` of a FLOAT never overflows.
- BTree.BPlusTree.Delete: says nothing about the tree after a page overflow; the program then leaves half-written pages.
- HeapFile.HeapFile.Insert: requires page ids below 2^32 - 1, the id that means "no page"; the program does not check it.
- HeapFile.HeapFile.Get: a RID of a page that belongs to another file is outside its contract; likewise for UpdateInPlace and Delete.
- BufferPool.BufferPoolManager.UnpinPage: requires that a page written by its holder is unpinned as dirty by its last holder, the discipline all callers keep; the counters are not modelled.
- Executor.Next: operators are values whose next state is returned, not objects with fields; aliasing between operators is not captured. `close` has no effect.
- BTree.BPlusTree.FindLeafPath: the 2^32 limit on page ids is not modelled; `next_leaf` is an option.
- Wal.IterRecords: which bodies `json.loads` accepts is a parameter, so its detection of UTF-16 and UTF-32 is not modelled.
- Physical replay of logged operations into heap and trees: it re-appends without the logged RID, so equality with the state before the crash does not hold in general.
- The double unpin of a full page in `HeapFile.insert`, and two `HeapFile` objects on one table with a stale last page: one object over a page map is modelled.
- Uniqueness.CommitKeepsUniqueIff: is about one change followed by its commit; commits of others in between are further rows the transaction cannot see.
- Expressions in VALUES and SET: a change has their values; an exception from evaluating one, which comes before the row is touched, is not an outcome.
- JSON and base64 encodings. UTF-8 and the bytes of a double are parameters with inverses (`RowCodec.Codec`); text is a sequence of one-byte characters, FLOAT is `real`.
- Disk files, fsync and locks; catalog persistence; lexer regular expressions; statement grammar; REPL and result formatting.
- `build_select_plan`, which only composes operators, and WHERE on right-table columns, which the program does not support.
