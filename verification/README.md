# SpaceDB in Dafny

A model of SpaceDB, a small SQL database in Go, and proofs about it, from the bytes of the
storage engines up to SQL statements.

- **Transactions** (`storage/storage.go`, `storage/mvcc_key.go`). `Protocol.dfy` is the
  multi-version protocol as a state machine whose operations are lists of engine calls; a crash
  can fall between any two of them. `SnapshotIsolation.dfy` says what callers should see, with no
  versions, marks or scans in it, only a list of committed write sets. `Simulation.dfy` proves that
  every run of the first answers like the second, and `Histories.dfy` draws the consequences.
  `Mvcc.dfy` is the code itself, classes over encoded byte keys, proved to make exactly the
  protocol's engine calls and to give its answers, over either engine; `Service.dfy` and
  `Store.dfy` put both together. In `Restart.dfy` the store is over a log on disk: the process
  dies between any two engine calls, and another one opens the file.
- **Engines** (`storage/memory.go`, `storage/disk.go`, `storage/disk_log.go`). The record format
  and the index it determines are in `DiskLog.dfy`; `DiskEngine.dfy` holds the engine with its
  compaction, `DiskScan.dfy` the scans, with updates going on meanwhile, and the agreement with
  the memory engine. `Engine.dfy` is the interface the transactions use, with either engine
  behind it, and `LogRoom.dfy` says which writes a log on disk has room for.
- **Rows** (`engine/`, `schema/`, `types/`, the statements of `executor/`). Key encodings and
  their order, and the row layer: transactions that make their requests to the shared store, with
  any requests of other sessions in between. INSERT, UPDATE and DELETE are loops over rows, proved
  to be one step on the tables. `RowHistory.dfy` carries the invariant of the row layer through
  every interleaving of transactions, and `StatementRun.dfy` the effect of each statement;
  `Conditions.dfy` says when a statement can be carried out, in terms of the rows, and in
  `Session.dfy` a session executes statements, with begin, commit and rollback; in `Recovery.dfy`
  the process dies while it does so, and the next one finds the whole statement or nothing of it.
- **Queries** (`parser/`, `planner/`, `executor/join.go`, `executor/aggregate.go`). FROM clauses
  with RIGHT JOIN rewritten twice on the way, and GROUP BY.

`dafny verify dfyconfig.toml` verifies everything.

## Where the code and the expectation part

- A crash leaves the versions of an unfinished transaction behind for good. They are never read,
  but they refuse every later write of their keys: `MvccHistories.CrashLocksKeys`, and
  `MvccHistories.CrashLocksExample` for a run in which it happens.
- `MemoryEngine.Get` of a key stored with a nil value looks like a missing key, where the disk
  engine finds an empty value. `DiskScans.GetAgreesUnlessNil` says the two agree exactly when no
  nil value is stored under the key.
- After a RIGHT JOIN the engine holds the columns of the right table first, and an ON operand of a
  later join means the first column of its name in that order. Where the two orders find a name in
  the same place both readings agree, and elsewhere some row tells them apart:
  `FromNames.SamePlaceExact`. So `FromNames.InPlacePlan` has the guarantee for whole FROM clauses,
  which without a RIGHT JOIN always holds (`FromNames.NoRightJoinInPlace`);
  `FromNames.AfterRightJoinExact` says exactly when a clause after a RIGHT JOIN, directly or past
  LEFT and CROSS JOINs, is safe on all contents, `FromNames.SharedNameDiffers` gives contents on which an unsafe one is wrong, and
  `FromNames.SharedNameExample` is a query with such a clause.
- Integers and floats are compared as floats, so ties between them do not chain. MIN and MAX are
  right all the same: `SqlValues.StrictChains`, `GroupBy.ExtremeExact`.
- Encoded floats sort by value except that -0 sorts just below +0: `RowKeys.OrderedFloatOrder`.
- `README.md` of the repository (lines 70 to 77) calls commit, rollback, conflict detection,
  primary keys, filters, joins, aggregates and the disk engine unimplemented. The code has them,
  and the model follows the code.

## Assumptions

- Versions stay below 2^64 - 1, since the code adds 1 to them unchecked.
- A transaction is not used after its commit or rollback; `Session.Execute` never does.
- Engine calls succeed, except that a log on disk refuses records that are too large; each operation of a transaction holds one lock throughout and is one step,
  except that a crash may cut it between two engine calls.
- The JSON encodings of rows and tables are an abstract pair of functions that undo each other
  (`RowCodecs.LosslessExists`: there are such functions).
- Floats are 64-bit patterns other than NaN and -0: the grammar has no unary minus, so no statement
  can produce one.
- Table names hold no zero byte: they are identifiers.
- Go maps are iterated in arbitrary order, and the proofs hold for every order.
- The other sessions of a store also keep to the writes of the row layer. Each transaction of the
  row layer does so whatever the others do, and if every transaction does, the whole run does:
  `RowHistories.AllKeepTo`.

## Model

| member | source | states |
|---|---|---|
| ByteStrings.PrefixRange | storage/memory.go:94-115 | a key lies in [p, prefixEnd(p)) exactly when it starts with p, for all byte strings, including those of 0xff bytes only |
| ByteStrings.ComputePrefixEnd | storage/memory.go:104-115 | the backward loop over the bytes computes that upper bound |
| ByteStrings.BigEndianOrder | storage/mvcc_key.go:252-256 | fixed-width big-endian numbers sort as the numbers do |
| MvccKeys.AppendEscapedRawKey | storage/mvcc_key.go:199-210 | the loop appends the escaped form of the raw key |
| MvccKeys.DecodeRawKey | storage/mvcc_key.go:221-249 | the loop returns the raw key and the remaining bytes, and fails exactly on bytes that are no terminated key |
| MvccKeys.DecodeRawExact | storage/mvcc_key.go:221-249 | decoding succeeds with a key and a rest exactly on the terminated key followed by that rest |
| MvccKeys.DecodeEncode | storage/mvcc_key.go:32-125 | every encoded key, of all four kinds, decodes to itself |
| MvccKeys.EncodeDecode | storage/mvcc_key.go:54-125 | every byte string the decoder accepts is the encoding of what it returns |
| MvccKeys.EncodeInjective | storage/mvcc_key.go:32-49 | no two keys, of the same or of different kinds, have the same encoding |
| MvccKeys.VersionedOrder | storage/mvcc_key.go:32-49 | versioned keys sort by raw key, then by version |
| MvccKeys.EscapedPrefix | storage/mvcc_key.go:195-216 | an escaped prefix starts an encoded key exactly when the prefix starts the raw key |
| MvccKeys.VersionedPrefixSelects | storage/mvcc_key.go:181-184 | the scan prefix selects exactly the versioned keys whose raw keys start with the given bytes |
| MvccKeys.TxnWritePrefixSelects | storage/mvcc_key.go:172-175 | the prefix of a transaction's write records selects exactly those |
| MvccProtocol.ViewIsGet | storage/storage.go:181-274 | the contents a transaction scans are the keys whose Get finds something, with what it finds |
| MvccProtocol.CommitPrefix | storage/storage.go:111-139 | what any number of the engine calls of a commit leaves in the store |
| MvccProtocol.RollbackPrefix | storage/storage.go:141-171 | what any number of the engine calls of a rollback leaves in the store |
| MvccSimulation.ConflictIsExact | storage/storage.go:304-332 | checking the newest version in the window refuses a write exactly when some version of the key is invisible to the writer |
| MvccSimulation.ConflictMatches | storage/storage.go:304-332 | a write is refused exactly when another open transaction, or one committed since the writer began, wrote the key |
| MvccSimulation.ReadMatches | storage/storage.go:181-209 | Get returns the transaction's own last write, else the value left by the transactions committed before it began, in commit order |
| MvccSimulation.ViewMatches | storage/storage.go:217-274 | the same for everything a transaction can scan |
| MvccSimulation.DuringDurable | storage/storage.go:86-91 | after any number of an operation's engine calls the store is that of a state of the specification |
| MvccSimulation.StepSimulates | storage/storage.go:54-359 | each step, crashes included, keeps the store and the handles related to the specification |
| MvccSimulation.SnapshotIsolationHolds | storage/storage.go:26-359 | every run of interleaved operations and crashes is answered as snapshot isolation answers it |
| MvccHistories.ConflictCheckExact | storage/storage.go:304-332 | in every reachable state the conflict check passes exactly when every stored version of the key is visible to the writer |
| MvccHistories.FirstUpdaterWins | storage/storage.go:298-359 | of two committed writers of a key one committed before the other began, and versions follow commit order |
| MvccHistories.ReadsAreStable | storage/storage.go:26-31 | no step of others changes anything a transaction reads or scans |
| MvccHistories.MetadataInvariant | storage/storage.go:334-356 | active marks are the unfinished transactions, write records belong to them, and those of a running one name its stored versions; without crashes the marks are exactly the handles |
| MvccHistories.RollbackIsExactUndo | storage/storage.go:141-171 | rollback removes the transaction's versions, write records and mark, and nothing else |
| MvccHistories.RolledBackIsGone | storage/storage.go:141-171 | nothing a rolled-back transaction wrote is stored in any later state |
| MvccHistories.CrashIsAtomic | storage/storage.go:127-136 | after a crash between any two engine calls and any later run, a transaction's writes are all seen if its commit had cleared the active mark, and otherwise none bears on any read |
| MvccHistories.CrashLocksKeys | storage/storage.go:304-332 | a version left by a crash makes every later write of its key fail |
| MvccHistories.CrashLocksExample | storage/storage.go:127-136 | begin, write, and a crash in the commit: such a version is left, and a later transaction's write of the key fails |
| MemoryEngines.MemoryEngine.Set | storage/memory.go:20-23 | the new contents of the map |
| MemoryEngines.MemoryEngine.Get | storage/memory.go:25-32 | the stored slice, nil for a missing key |
| MemoryEngines.MemoryEngine.Delete | storage/memory.go:34-37 | the new contents of the map |
| MemoryEngines.SortByKey | storage/memory.go:59-61 | an ascending arrangement of the same pairs |
| MemoryEngines.Collect | storage/memory.go:39-61 | exactly the pairs within the bounds, in ascending key order, for every order of map iteration |
| MemoryEngines.MemoryEngine.ScanRange | storage/memory.go:39-73 | those pairs, forwards or backwards |
| MemoryEngines.MemoryEngine.Scan | storage/memory.go:77-79 | the pairs within the bounds, ascending |
| MemoryEngines.MemoryEngine.ScanReverse | storage/memory.go:81-83 | the pairs within the bounds, descending |
| MemoryEngines.MemoryEngine.ScanPrefix | storage/memory.go:86-88 | the pairs whose keys have the prefix, ascending |
| MemoryEngines.MemoryEngine.ScanPrefixReverse | storage/memory.go:90-92 | the pairs whose keys have the prefix, descending |
| MvccImages.ValueRoundTrip | storage/storage.go:282-295 | a stored value decodes to itself, a deletion being distinct from an empty value |
| MvccImages.CallRepresents | storage/storage.go:334-356 | an engine call on encoded keys has on the bytes the effect of the protocol's call on the records |
| MvccImages.CrashRepresents | storage/storage.go:86-91 | the bytes left by any number of an operation's calls represent the records left by as many protocol calls |
| MvccScans.AggregateVersions | storage/storage.go:228-271 | the loop over all versions under a prefix yields the newest visible value of each key, deletions left out, in key order |
| MvccScans.FirstVisible | storage/storage.go:191-208 | the newest-first scan stops at the newest visible version |
| MvccScans.NewestIsVisible | storage/storage.go:311-332 | looking at the first entry of the reverse scan decides the conflict check |
| Mvcc.MVCC.Begin | storage/storage.go:54-100 | takes the next version and the active marks, and makes the protocol's engine calls |
| Mvcc.MvccTransaction.Commit | storage/storage.go:111-139 | makes the protocol's engine calls, in order: write records, then the active mark |
| Mvcc.MvccTransaction.Rollback | storage/storage.go:141-171 | makes the protocol's engine calls, in order: each record with its version, then the active mark |
| Mvcc.MvccTransaction.Get | storage/storage.go:181-209 | the newest visible version of the key |
| Mvcc.MvccTransaction.ScanPrefix | storage/storage.go:217-274 | in strictly ascending order exactly the keys with the prefix whose Get finds something, with what it finds |
| Mvcc.MvccTransaction.WindowStart | storage/storage.go:304-309 | the smallest active version, or the one after the transaction's own |
| Mvcc.MvccTransaction.CanWrite | storage/storage.go:304-332 | the outcome of the protocol's conflict check |
| Mvcc.MvccTransaction.Write | storage/storage.go:298-359 | refuses on a conflict, changing nothing; otherwise makes the protocol's two engine calls |
| MvccService.Serve | storage/storage.go:54-359 | the byte-level code answers one request as the protocol does and stays in step with it |
| Stores.Store.Request | storage/storage.go:54-359 | in every state the store can reach, one more request is answered as snapshot isolation answers it |
| Stores.Store.Others | storage/storage.go:26-31 | whatever other sessions ask meanwhile, nothing is asked on behalf of the given transaction, and the store stays in step |
| Stores.ServeAll | storage/storage.go:26-359 | the byte-level code answers every script of requests, in any interleaving, as snapshot isolation does |
| Engines.Engine.Set | storage/engine.go:15 | over either engine the contents gain the pair; on disk the log gains its record |
| Engines.Engine.Delete | storage/engine.go:19 | over either engine the contents lose the key; on disk the log gains its tombstone |
| Engines.Engine.Get | storage/engine.go:17 | over either engine the stored value; of one stored with nil, an empty value on disk and nil in memory |
| Engines.Engine.ScanRange | storage/engine.go:21-25 | over either engine the pairs within the bounds, forwards or backwards |
| Engines.Engine.ScanPrefix | storage/engine.go:27-28 | over either engine the pairs whose keys have the prefix, ascending |
| Engines.Engine.Torn | storage/disk_log.go:56-112 | the file as it was after any number of the updates is a beginning of the present one, and holds the records of just those updates |
| Engines.LoadedCalls | storage/disk.go:455-503 | a log that has taken any calls is read back as the map those calls make |
| LogRoom.RoomyExact | storage/disk_log.go:56-76 | the condition on the sizes of a key and value holds exactly if the log takes both records of the write, that is, if the encoded value is below 2^31 bytes and the record below 2^32 |
| LogRoom.GoodEnd | storage/storage.go:111-171 | what was written with room can be committed and rolled back with room |
| Restarts.MomentOf | storage/storage.go:86-91 | however many engine calls a process has made, it was within some request, after some number of its calls |
| Restarts.FileHolds | storage/disk.go:225-287 | after any number of the engine calls the file holds the records the protocol has after as many |
| Restarts.FileAtMoment | storage/disk.go:455-503 | at every moment what the file holds are the protocol's records after a crash at that moment |
| Restarts.OpenLog | storage/disk.go:43-86 | opening a log, with or without compaction, gives a store over exactly the protocol's records |
| Restarts.Reopen | storage/disk.go:43-86 | a process that opens the file a dead one left goes on as after the crash at that moment |
| Restarts.Die | storage/storage.go:54-359 | a process that dies after any number of an operation's engine calls leaves a file from which the next one goes on |
| Restarts.ServeDurably | storage/storage.go:26-359 | every script of requests and of crashes between any two engine calls, served by the disk engine, is answered as snapshot isolation answers it, with only the file kept over a crash, compacted on opening or not |
| DiskLogs.ParseAtExact | storage/disk_log.go:133-152 | reading an entry at an offset accepts exactly the well-formed record that stands there |
| DiskLogs.WellFormedExact | storage/disk_log.go:56-76 | a record is accepted exactly if the length of its value is below 2^31 and its whole length below 2^32 |
| DiskLogs.RebuildExact | storage/disk.go:455-503 | rebuilding succeeds exactly on concatenations of well-formed records, and yields the index they determine |
| DiskLogs.LogUnambiguous | storage/disk_log.go:56-112 | a log is the concatenation of at most one sequence of records, deletions distinct from empty values |
| DiskLogs.IndexPoints | storage/disk.go:225-287 | the index of a sequence of records has the undeleted keys, each with the position of its last record |
| DiskLogs.ReadsBack | storage/disk.go:300-322 | reading at an indexed position gives the value last written |
| DiskLogs.ConsistentAppend | storage/disk.go:225-287 | appending a record and updating the index keeps the index that of the log |
| DiskEngines.DiskLog.WriteEntry | storage/disk_log.go:56-112 | appends the encoded record, a tombstone without its value, and returns its position; refuses exactly a value of 2^31 bytes or more or a record of 2^32 or more, and then changes nothing |
| DiskEngines.CheckEntry | storage/disk.go:468-485 | one turn of the rebuild loop reads what the format defines at the offset |
| DiskEngines.WalkLog | storage/disk.go:467-500 | the offset loop ends and computes the index of the whole log, or fails |
| DiskEngines.RebuildKeydir | storage/disk.go:455-503 | the outcome for the whole file |
| DiskEngines.DiskEngine.Set | storage/disk.go:225-246 | the contents gain the pair; the index stays the one a rebuild would compute; the log only grows |
| DiskEngines.DiskEngine.Delete | storage/disk.go:272-287 | the contents lose the key; the index stays the one a rebuild would compute; the log only grows |
| DiskEngines.DiskEngine.Get | storage/disk.go:250-269 | the value last written to an undeleted key, through the index |
| DiskEngines.DiskEngine.Compact | storage/disk.go:88-195 | the same contents; one record for each live key, in key order; the new index is a rebuild of the new log; the log is never longer than before |
| DiskEngines.DiskEngine.Rewrite | storage/disk.go:113-136 | the rewrite loop copies the live pairs into a log whose index it builds |
| DiskEngines.Open | storage/disk.go:43-75 | opens exactly the concatenations of well-formed records, with the contents they replay to |
| Compaction.ReplayPuts | storage/disk.go:113-136 | the live pairs, written one record each, replay to the same map |
| Compaction.WeightOfReplay | storage/disk.go:88-195 | the live pairs of a log take no more bytes than the log |
| DiskScans.AscendRange | storage/disk.go:353-369 | the ascending walk over the index yields exactly the keys in range |
| DiskScans.DescendRange | storage/disk.go:371-390 | the descending walk, which stops early, yields them backwards |
| DiskScans.SnapshotRange | storage/disk.go:331-391 | the index entries within the bounds, in order, nothing for an empty range |
| DiskScans.Scan | storage/disk.go:410-440 | yields the pairs as they were when it began, whatever is set and deleted between its reads |
| DiskScans.ScanPrefix | storage/disk.go:443-450 | the same for the keys with a prefix |
| DiskScans.EnginesAgree | storage/memory.go:20-37 | after any sequence of calls the two engines hold the same map, nil counting as empty |
| DiskScans.GetAgreesUnlessNil | storage/memory.go:25-32 | Get gives the same on both exactly when the key does not hold a nil value |
| DiskScans.ScansAgree | storage/disk.go:331-450 | every scan gives the same keys and bytes in the same order on both |
| SqlValues.CompareSwaps | types/value.go:50-116 | exchanging the operands negates the comparison, and keeps its error, for all values |
| SqlValues.CompareExact | types/value.go:50-116 | values that are not NULL compare as their contents stand to each other: false below true, integers and floats by value, strings by bytes; an error exactly between different kinds |
| SqlValues.CompareOrders | types/value.go:50-116 | within a type the comparison is a total order whose ties are equal values |
| SqlValues.IntegerAsFloatMonotone | types/value.go:90-108 | converting integers to floats, to nearest with ties to even, keeps their order |
| SqlValues.NearestFloat | types/value.go:90-108 | the converted integer is the value of a float, no float is nearer to the integer, and if another is as near the chosen pattern is even |
| SqlValues.SmallIsExact | types/value.go:90-108 | integers up to 2^53 in size convert exactly, as multiples of the value of the pattern of 1.0 |
| SqlValues.StrictChains | types/value.go:50-116 | for all comparable values, integers with floats included, a strict comparison chains with one that is not |
| RowKeys.OrderedFloatOrder | engine/kv.go:374-386 | the flipped bits of floats sort by value, with -0 just below +0 as the only exception |
| RowKeys.PrimaryKeyOrder | engine/kv.go:350-398 | encoded keys of one type sort exactly as the values compare |
| RowKeys.PrimaryKeyInjective | engine/kv.go:350-398 | values of any types with the same encoding are equal |
| RowKeys.RowKeyInjective | engine/kv.go:327-347 | a row key determines its table and its primary key |
| RowKeys.RowPrefixSelects | engine/kv.go:288-318 | a table's prefix matches exactly its own rows, and no table key |
| RowKeys.RowKeyOrder | engine/kv.go:327-347 | the rows of a table sort by primary key |
| Schemas.Validate | schema/schema.go:27-71 | accepts exactly the tables with a name, columns, defaults that are NULL or of the column's type, and exactly one primary key, which is not nullable |
| Schemas.PrimaryKeyValue | schema/schema.go:76-95 | the cell under the first primary-key column; an error exactly if the row has the wrong length or there is no such column |
| Schemas.ColumnIndex | schema/schema.go:98-110 | the first column of that name, or an error if there is none |
| Schemas.ValidateRow | engine/kv.go:79-103 | accepts exactly the rows of the right length whose cells are of the column's type, or NULL where that is allowed |
| Schemas.PrimaryKeysComparable | engine/kv.go:79-103 | valid rows of a valid table have primary keys of one type, never NULL |
| Expressions.IndexOf | executor/expression.go:43-53 | the first column of that name |
| Expressions.EvaluateExact | executor/expression.go:16-82 | an expression evaluates to a value exactly if that is what it denotes: a literal itself, a column the cell under the first of its name, a comparison unknown with a NULL and otherwise whether the operands stand in the relation; it fails exactly if it denotes nothing |
| Expressions.TrueComparison | executor/expression.go:55-129 | a comparison is true exactly if its operands are of one kind and equal, greater or less as it says |
| Expressions.ThreeValued | executor/expression.go:92-129 | NULL makes every comparison unknown; otherwise exactly one of <, = and > is true, or all fail |
| Expressions.ExchangeSides | executor/expression.go:55-82 | exchanging operands and inputs and mirroring the comparison changes nothing, errors included |
| Expressions.Filter | executor/filter.go:19-55 | keeps exactly the rows of which the predicate is true, in order: for `column = literal`, and likewise with < and >, those whose cell and literal are not NULL and stand in that relation; fails exactly if the predicate has no value on some row, so always on rows with a function call or a column that does not exist |
| Expressions.SelectedFrom | executor/filter.go:27-50 | what is kept is a subsequence, of exactly the positions where the predicate is true |
| RowCodecs.LosslessExists | engine/kv.go:136-140 | some encoding of rows and tables loses nothing |
| RowStores.RowWriteSound | engine/kv.go:105-256 | every write the row layer makes keeps every stored row valid, under the key of its own primary key, in an existing table |
| RowStores.RowWriteDisciplined | engine/kv.go:105-256 | and never touches a table of the transaction's snapshot |
| RowStores.ScanIsExact | engine/kv.go:202-228 | what is under a table's prefix are exactly its rows, strictly ascending by primary key |
| KvTransactions.KvTransaction.Write | engine/kv.go:142-185 | asks the store, with the requests of others before it: sets or deletes the key in the transaction's view, or meets a conflict of snapshot isolation or has no room in the log, and changes nothing |
| KvTransactions.KvTransaction.Get | engine/kv.go:258-278 | what the transaction's snapshot and its own writes say, whatever others do meanwhile |
| KvTransactions.KvTransaction.GetTable | engine/kv.go:258-278 | the table of that name if there is one; an error exactly for the empty name |
| KvTransactions.KvTransaction.CreateTable | engine/kv.go:230-256 | refused exactly if the table is invalid or exists; otherwise adds it |
| KvTransactions.KvTransaction.CreateRow | engine/kv.go:105-143 | refused exactly if the table is missing, the row invalid or its key in use; otherwise adds the row |
| KvTransactions.KvTransaction.UpdateRow | engine/kv.go:145-186 | refused exactly if the row is invalid or moves to a key in use; otherwise replaces the row, moving its key; what a conflict or a too large record half-way leaves |
| KvTransactions.KvTransaction.DeleteRow | engine/kv.go:188-200 | removes the row's key and nothing else |
| KvTransactions.KvTransaction.ScanTable | engine/kv.go:202-228 | never fails on sound contents, and returns exactly the rows under the table's prefix, of which RowStores.ScanIsExact says what they are |
| RowStores.DecodeRows | engine/kv.go:213-225 | decodes the entries in order, failing exactly on a row of the wrong length |
| Statements.Source | executor/executor.go:121-146 | exactly the rows of the table, without a WHERE clause, or those of which it is true, each once, in order of primary key; an error exactly if the clause has no value on some row |
| Statements.ChosenExact | executor/filter.go:19-55 | the rows UPDATE and DELETE work on are exactly those rows |
| Statements.Delete | executor/executor.go:441-472 | removes the keys of exactly the rows asked for and counts them; refused exactly if the table is missing or the clause has no value on some row |
| Moves.MoveStep | engine/kv.go:145-186 | one more row moved after the others is one more move in the batch |
| Moves.TargetInUse | engine/kv.go:165-171 | moves with one common target that is in use cannot be a clean batch |
| Updates.Resolve | executor/executor.go:382-403 | succeeds exactly if every assigned column exists and is assigned a constant, in every order of the map |
| Updates.Assign | executor/executor.go:419-422 | the row with, for every assigned name, the literal in the cell of the first column of that name, and every other cell as it was, in every order of the assignments |
| Updates.AssignedExact | executor/executor.go:419-422 | that is the only such row |
| Updates.KeysAfter | executor/executor.go:412-422 | an assignment to the primary key gives every row the same key; otherwise no key changes |
| Updates.DuplicateIsReal | engine/kv.go:165-171 | a duplicate key met on the way is a duplicate in the result of the whole statement |
| Updates.Update | executor/executor.go:372-430 | updating row by row succeeds only if all rows can be updated at once, with that effect, and refuses only if they cannot; otherwise a write conflict or the size of a record stopped it |
| Inserts.Positions | executor/executor.go:633-636 | the map from names to columns has the last column of each name |
| Inserts.MakeInsertRow | executor/executor.go:610-666 | the row the column list, the values and the defaults determine, and an error exactly if they determine none |
| Inserts.InsertedUnique | executor/executor.go:610-666 | they never determine two rows |
| Inserts.OrderIsList | executor/executor.go:610-666 | a VALUES list in table order means the same row as with its columns listed |
| Inserts.Constants | planner/value.go:13-40 | the values of the expressions, and an error exactly if one is not a constant |
| Inserts.Insert | executor/executor.go:80-114 | inserting row by row succeeds only if all rows can be added at once, with that effect, and refuses only if they cannot; otherwise a write conflict or the size of a record stopped it |
| RowMeanings.RebasedChange | executor/executor.go:372-430 | where the written keys are as they were in the snapshot, the writes make of later contents the same change |
| RowMeanings.ChangeMeaning | executor/executor.go:372-430 | a change of sound contents takes away exactly its old rows and adds exactly its new ones, with the number of rows that leaves, even where keys move; no other table changes |
| StatementEffects.WroteDid | executor/executor.go:80-472 | a statement's writes, committed to contents that others have changed meanwhile, carry it out there: DELETE removes exactly the rows of its snapshot that it asks for, UPDATE puts in their place exactly these rows with the assigned cells, INSERT adds exactly its rows; all else stays, and its count and the row counts are right |
| Conditions.DoableExact | executor/executor.go:80-472 | a statement can be done exactly if the table is there, the WHERE clause has a value on every row, the new rows are valid, and no two rows of the table would have the same primary key; CREATE TABLE exactly if the table is valid and there is none of the name |
| Conditions.OversizedExact | storage/disk_log.go:56-76 | a statement is stopped for size only if a row it adds or takes away, or the table it creates, is too large for a record |
| Conditions.TableCreated | engine/kv.go:230-256 | CREATE TABLE adds the table, without rows, and changes no other table or row |
| StatementRuns.CompletedIsCarriedOut | engine/engine.go:69-73 | in every interleaving with crashes, a statement whose commit completes is one step of the history that carries it out on the contents of that moment |
| StatementRuns.IncompleteIsNothing | engine/engine.go:59-67 | one that is rolled back, or that a crash overtakes, is never in the history |
| StatementRuns.CrashedIsNothing | engine/engine.go:50-73 | a crash at any moment while a statement runs leaves nothing of it in any later state |
| StatementRuns.IncompleteIsUnread | engine/engine.go:59-67 | and no later transaction reads anything of it |
| StatementRuns.AloneNeverClashes | storage/storage.go:304-332 | with no other session at work and nothing left behind on its table, a statement meets no conflict |
| Sessions.RanForGood | engine/engine.go:50-73 | a statement that reports success is for ever one step of the history that carries it out with its count; one that reports an error is never in the history |
| Sessions.Session.Execute | engine/engine.go:50-73 | begin, the statement, commit or rollback, with any requests of others in between: the above for the store as it is then; alone, with nothing left behind on the table and room in the log, it succeeds exactly if the statement can be done |
| Recoveries.DiedAnytime | engine/engine.go:50-73 | whenever a process dies once the statement has begun, and whatever is asked later: the statement is carried out for ever if its commit had been reached, and otherwise is never in the history |
| Recoveries.ReachedExact | storage/storage.go:111-139 | the commit had been reached exactly if every engine call up to its last had been made |
| Recoveries.Outcome | engine/engine.go:50-73 | after any number of the engine calls: the whole statement if they are all, and otherwise nothing |
| Recoveries.ExecuteAndDie | engine/engine.go:50-73 | a statement over a log on disk, with any requests of others, and a crash after any number of engine calls: the process that opens the file finds it carried out exactly if it succeeded and every call up to its commit is in the file, and otherwise nothing of it |
| RowHistories.TablePersists | engine/kv.go:230-256 | a committed table never changes again |
| RowHistories.RebasedSound | engine/kv.go:105-256 | writes that are sound over a transaction's snapshot are sound over what others committed since |
| RowHistories.EveryStateSound | engine/kv.go:79-256 | in every interleaving of row-layer transactions, with crashes, every committed state and every running transaction's view holds only valid tables and valid rows, each under its own key |
| RowHistories.RowRunGoesOn | engine/kv.go:105-256 | a transaction of the row layer among others that keep to its writes keeps the run one of row-layer writes |
| RowHistories.AllKeepTo | engine/kv.go:105-256 | if each transaction that begins on sound contents keeps to the row layer's writes, the whole run does, in every interleaving |
| Joins.MatchRow | executor/join.go:39-60 | the inner loop appends the matches of one row; it fails exactly if the predicate fails on a pair |
| Joins.WhenExact | executor/join.go:39-60 | a pair matches exactly if there is no condition or the condition is true, and fails exactly if it has no value |
| Joins.EqualCellsMatch | executor/join.go:39-60 | under `ON c = d` exactly the pairs match whose two cells are not NULL and equal |
| Joins.NestedLoopJoin | executor/join.go:23-73 | the matches of each left row in turn, or for an outer join the row with NULLs if it has none; an error exactly if the predicate fails on some pair |
| Joins.SqlJoinExact | executor/join.go:37-70 | the joins of SQL, to which the loops are compared: every matching pair once, and every row of the preserved side without a match once, with NULLs |
| Joins.LeftwardJoin | executor/join.go:37-70 | CROSS, INNER and LEFT JOIN give the matching pairs and, for LEFT JOIN, the unmatched left rows with NULLs, whatever the order of rows and columns of the left input |
| Joins.RightwardJoin | executor/join.go:37-70 | the loops run with exchanged inputs give the matching pairs and the unmatched right rows with NULLs |
| Joins.PreservedRows | executor/join.go:37-70 | a row of the preserved side appears max(1, matches) times, in one block, blocks in input order |
| FromClauses.ParseFrom | parser/parser.go:660-729 | joins associate to the left, and a RIGHT JOIN has its operands exchanged |
| FromClauses.Execute | executor/join.go:23-73 | running a plan bottom-up gives what the plan's joins define, or an error |
| FromMeanings.TreeBuilds | planner/plan.go:391-445 | every parsed FROM clause passes the planner |
| FromMeanings.FailsExchanged | parser/parser.go:708-711 | some pair fails after both exchanges exactly if some pair fails as written |
| FromMeanings.LeftwardClause | planner/plan.go:391-421 | a CROSS, INNER or LEFT JOIN clause is that join of what precedes it with its table |
| FromMeanings.RightwardClause | planner/plan.go:404-409 | a RIGHT JOIN clause, exchanged in the parser and in the planner, is the right outer join as written, up to the order of the column blocks |
| FromMeanings.FromMeansJoins | planner/plan.go:391-421 | every FROM clause, of any length, on any contents: the plan fails exactly when a table is missing or a condition cannot be evaluated, and otherwise gives the rows of the SQL joins as written |
| FromNames.SamePlaceExact | executor/expression.go:43-53 | a name means the same column in every row in both orders of columns exactly if both orders find it in the same place |
| FromNames.ClauseSame | executor/expression.go:43-53 | a join clause whose names are in their places gives the same in both readings, errors included |
| FromNames.MisplacedDiffers | executor/expression.go:43-53 | for any columns, in any order, a clause that compares a misplaced name with a column of its table gives different rows on some contents |
| FromNames.InPlaceAgrees | executor/expression.go:43-53 | whole FROM clauses whose names are in their places mean the same in both readings |
| FromNames.NoRightJoinInPlace | planner/plan.go:391-421 | without a RIGHT JOIN all names are in their places, repeated names included |
| FromNames.PlaceAfterRightJoin | parser/parser.go:708-711 | after a RIGHT JOIN a name of its table is in its place exactly if no earlier table has it |
| FromNames.InPlacePlan | planner/plan.go:391-421 | with every name in its place the plan means the text of the FROM clause |
| FromNames.SharedNameDiffers | planner/plan.go:404-409 | a name shared by the table of a RIGHT JOIN and an earlier one, compared in the next clause or past LEFT and CROSS JOINs: whatever precedes, there are contents on which the plan does not mean the text |
| FromNames.AfterRightJoinExact | planner/plan.go:404-409 | the clause after a RIGHT JOIN, directly or past LEFT and CROSS JOINs, that compares one of its columns means the text on all contents exactly if no earlier table has the name |
| FromNames.SharedNameExample | planner/plan.go:404-409 | a three-table query and contents on which the plan does not mean the text |
| GroupBy.GroupRows | executor/aggregate.go:60-87 | an error exactly if there is no such column; otherwise one group for each key, in order of first occurrence, each holding exactly the rows of its key, in order |
| GroupBy.WithKeyKeeps | executor/aggregate.go:65-87 | the rows of a group are exactly those with its key, each once, in order |
| GroupBy.CountColumn | executor/aggregate.go:220-236 | an error exactly if there is no such column; otherwise the count of its cells |
| GroupBy.CountIsSize | executor/aggregate.go:226-231 | which is the number of rows whose cell is not NULL |
| GroupBy.GroupCounts | executor/aggregate.go:65-105 | the counts of the groups add up to the ungrouped count |
| GroupBy.CalculateExtreme | executor/aggregate.go:252-292 | an error exactly if there is no such column or two of its cells cannot be compared; otherwise a cell that beats all others, NULL if there is none |
| GroupBy.ExtremeExact | executor/aggregate.go:258-290 | the same for every column of mixed types, in every order of the rows |
| GroupBy.BeatsExact | executor/aggregate.go:258-290 | for a minimum no cell is below the result, for a maximum none above |
| GroupBy.TieKeepsFirst | executor/aggregate.go:258-290 | a further row changes the result exactly if its cell is below it, above it for a maximum; in a tie the value found first stays |
| GroupBy.ExtremeOfExtremes | executor/aggregate.go:239-292 | on a column of one type the extreme of the groups' extremes is the ungrouped extreme |
| GroupBy.TableColumnUniform | engine/kv.go:79-103 | the columns of a table are of one type |

## Left out

- `cmd/`: sockets, signals, logging.
- File handling, file locks, the rename and restore paths of compaction, and closing an engine: the model keeps the log bytes, the rewrite loop and the swap.
- The B-tree behind the index: it is a sorted map, walked in both directions.
- Goroutines and locks: every operation is one step, or a sequence of engine calls when a crash cuts it.
- JSON encodings: an abstract inverse pair, so bytes that do not decode appear only as the errors the callers handle.
- The lexer and the rest of the parser: there is nothing in the repository to compare them with.
- SUM and AVG, and how aggregates are assembled into a result row: floating-point addition, or single expressions.
- ORDER BY, LIMIT, OFFSET and projection: library sorting and single slices.
- Error texts and result formatting.
- Serializability: the protocol gives snapshot isolation only and does not validate reads.
- Sessions.Session.Execute: covers CREATE TABLE, INSERT, UPDATE and DELETE; a SELECT changes nothing and its parts are modelled on their own.
- Stores.ServeAll: runs without crashes, over the memory engine; Restarts.ServeDurably has crashes, over the disk engine.
- Restarts.ServeDurably: the writes of the script are those the log has room for; a crash falls between two engine calls, not inside the write of one record, and not inside a compaction.
- KvTransactions.KvTransaction.Write: a write the log has no room for is refused before it is asked for, where the code looks for a conflict and may set the write record first; the rollback that follows removes that record.
- FromNames.AfterRightJoinExact: the clauses between the RIGHT JOIN and the one in question are LEFT and CROSS JOINs, and the tables before the RIGHT JOIN and of the LEFT JOINs are others than the remaining ones; past an INNER JOIN or another RIGHT JOIN there are FromNames.InPlacePlan and, for a single clause, FromNames.MisplacedDiffers.
