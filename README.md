# Katana storage, state and primitives in Dafny

This project models the core of the katana Starknet sequencer node:

- **the storage engine as its callers see it** (`mdbx.dfy`, `tables.dfy`). Plain tables hold
  one value per key in key order. Dup-sorted tables hold several ordered values per key. The
  model covers the cursors over both kinds of table: `first`, `next`, `current`, `set`, `seek`,
  `upsert`, `insert`, `walk`, `seek_by_key_subkey`, `next_dup_val`, `delete_current` and
  `walk_dup`. It also covers the creation of every table with the right flags, table
  statistics, and the environment builder.
- **the state providers** (`state.dfy`, `block_list.dfy`).
  - The latest-state reads go straight to the `ContractInfo`, `Classes`,
    `CompiledClassHashes` and `ContractStorage` tables.
  - The historical reads are pinned to a block. They find the most recent change at or
    before that block through a block list's rank and select, then read the change history
    at that block.
  - The writer updates the latest tables.
- **database opening and versioning** (`db_version.dfy`, `db.dfy`, `files.dfy`).
  - The version file `db.version` holds a big-endian `u32` and is created read-only.
  - `Db::new` creates or checks the version file, then builds the environment and creates
    the tables.
  - `Db::open`, `Db::open_ro` and `Db::in_memory` are modelled too.
  - The file system is a class holding a map from paths to nodes.
- **the sampled gas-price buffer** (`gas_buffer.dfy`). This is a sliding window over a
  double-ended queue that evicts its oldest sample once full. Its average is a ceiling
  division of a saturating `u128` sum.
- **the Starknet protocol version** (`starknet_version.dfy`). This covers parsing `x.y.z.w`
  into four `u8` segments, printing it back with a trailing zero segment dropped, and mapping
  it to the official release list.
- **transactions** (`transaction.dfy`). This covers the versions and types of the
  transaction enums, the projections between executable, referenced and stored
  transactions, and which hash primitive each variant is hashed with.
- **the block-id argument** of the RPC command line (`block_id.dfy`). It accepts
  `latest`, `pending`, a `0x` hash, or a decimal `u64` block number.

`decimal.dfy` models Rust's unsigned-integer `FromStr`, which accepts an optional leading
`+` and reports `Empty`, `InvalidDigit` or `PosOverflow`. It also models the decimal
`Display` of a natural number. `wrappers.dfy` holds `Option` and `Result`.

Where the engine or the operating system decides an outcome, the model fixes it:

- a read-write environment build succeeds when the path is a directory, and creates the
  data file `mdbx.dat`;
- a read-only build also needs that data file;
- creating a table that exists with other flags fails with `Incompatible`.

The code that calls these parts relies on exactly these behaviours.

## Model

| member | source | states |
|---|---|---|
| Decimal.Scan | crates/primitives/src/version.rs:40 | the digit loop of an unsigned `from_str`: Ok exactly when every character is a digit and the number they denote is at most the maximum, and then that number; its errors are `InvalidDigit` or `PosOverflow`, never `Empty` |
| Decimal.ParseUnsigned | crates/primitives/src/version.rs:40 | `Empty` exactly for the empty string; Ok exactly when, after one optional `+`, every character is a decimal digit and the value is at most the type's maximum; the value is then that number |
| Decimal.ParseExamples | crates/primitives/src/version.rs:40 | `007` reads as 7 and `+5` as 5; `256` overflows a `u8` |
| Decimal.ToDecimal | crates/primitives/src/version.rs:66-71 | the printed form of a number is non-empty, all digits, denotes that number, has no leading zero and no `.` |
| Decimal.ParseToDecimal | crates/primitives/src/version.rs:40 | parsing the printed form of any number up to the maximum gives the number back |
| BlockLists.Rank | crates/storage/provider/src/providers/db/state.rs:426 | the rank of a block in a list is at most the list's length |
| BlockLists.RankSplitsList | crates/storage/provider/src/providers/db/state.rs:423-426 | in a strictly increasing list, the first `rank(n)` entries are at most `n` and the rest are above `n` |
| BlockLists.Select | crates/storage/provider/src/providers/db/state.rs:430 | `select(i)` is Some exactly when `i` is an index, and gives the entry there |
| BlockLists.RecentChangeFromBlock | crates/storage/provider/src/providers/db/state.rs:419-432 | None exactly when every change is after the block; otherwise the greatest change at or before the block |
| BlockLists.RecentChangeExamples | crates/storage/provider/src/providers/db/state.rs:438-453 | the seven cases over the list [1, 2, 5, 6, 10] |
| BlockLists.RecentChangeMonotone | crates/storage/provider/src/providers/db/state.rs:419-432 | pinning to a later block never yields an earlier change |
| BlockLists.RecentChangeStable | crates/storage/provider/src/providers/db/state.rs:419-432 | two blocks with no change between them see the same change |
| Tables.Get | crates/storage/db/src/mdbx/mod.rs:326-327 | a plain-table read finds a value exactly when a row has the key, and the value is that row's |
| Tables.Put | crates/storage/db/src/mdbx/mod.rs:320-323 | after a put, the key reads the new value, every other key reads as before, and the row count grows only for a new key |
| Tables.Delete | crates/storage/db/src/mdbx/mod.rs:350-356 | after a delete, the key is absent, every other key reads as before, and the row count drops only if the key was there |
| Tables.DupInsert | crates/storage/db/src/mdbx/mod.rs:512-522 | a dup-sorted put adds exactly the entry to the set of entries, kept sorted, at the entry's ordered position |
| Tables.RemoveAt | crates/storage/provider/src/providers/db/state.rs:45 | deleting the entry at a position removes exactly that entry and keeps the others in order |
| Tables.SeekByKeySubkey | crates/storage/provider/src/providers/db/state.rs:41 | Some exactly when some duplicate of the key has a subkey at or above the requested one; the result is the least such duplicate |
| Tables.SeekExact | crates/storage/provider/src/providers/db/state.rs:41-48 | with one value per subkey, the seek finds the entry of that exact subkey whenever there is one |
| Mdbx.Cursor.constructor | crates/storage/db/src/mdbx/mod.rs:379 | a new cursor is unpositioned over its table's rows |
| Mdbx.Cursor.First | crates/storage/db/src/mdbx/mod.rs:441-442 | moves to and returns the first row, or returns None on an empty table |
| Mdbx.Cursor.Next | crates/storage/db/src/mdbx/mod.rs:380-387 | an unpositioned cursor moves to the first row, a positioned one to the following row; None and no move past the end |
| Mdbx.Cursor.Current | crates/storage/db/src/mdbx/mod.rs:484 | the row under the cursor, or None when unpositioned |
| Mdbx.Cursor.Set | crates/storage/db/src/mdbx/mod.rs:399-408 | returns the row with exactly the key, positioning on it, or None without moving |
| Mdbx.Cursor.Seek | crates/storage/db/src/mdbx/mod.rs:445 | returns the first row at or after the key, positioning on it, or None without moving |
| Mdbx.Cursor.Upsert | crates/storage/db/src/mdbx/mod.rs:399-408 | the table becomes `Put(rows, k, v)` and the cursor sits on the written row |
| Mdbx.Cursor.Insert | crates/storage/db/src/mdbx/mod.rs:482-495 | fails with `Write(table, KeyExist, key)`, changing nothing, exactly when the key exists; otherwise behaves as upsert |
| Mdbx.Cursor.Walk | crates/storage/db/src/mdbx/mod.rs:445-447 | yields the rows from the first key at or after the start, or from the first row; a row is yielded exactly when its key is at or after the start |
| Mdbx.WalkCovers | crates/storage/db/src/mdbx/mod.rs:459-466 | the walked suffix holds exactly the rows whose key is at or after the start |
| Mdbx.DupCursor.constructor | crates/storage/db/src/mdbx/mod.rs:410 | a new dup cursor is unpositioned over its table's entries |
| Mdbx.DupCursor.Current | crates/storage/provider/src/providers/db/state.rs:44-45 | the entry under the cursor, or None when unpositioned |
| Mdbx.DupCursor.SeekByKeySubkey | crates/storage/db/src/mdbx/mod.rs:415-421 | returns `Tables.SeekByKeySubkey` of the rows and positions on it; no move when nothing is found |
| Mdbx.DupCursor.NextDupVal | crates/storage/db/src/mdbx/mod.rs:525-533 | an unpositioned cursor moves to the first entry; a positioned one moves to the next entry of the same key, or returns None without moving |
| Mdbx.DupCursor.DeleteCurrent | crates/storage/provider/src/providers/db/state.rs:43-48 | fails with `Invalid` when unpositioned; otherwise removes exactly the current entry |
| Mdbx.DupCursor.Upsert | crates/storage/db/src/mdbx/mod.rs:410-422 | the rows become `DupInsert(rows, entry)` and the cursor sits on the written entry, so an old value under the same subkey is kept beside it |
| Mdbx.DupCursor.DrainDups | crates/storage/db/src/mdbx/mod.rs:539-547 | repeated `next_dup_val` from a position yields exactly the rest of that key's group |
| Mdbx.DupCursor.WalkDup | crates/storage/db/src/mdbx/mod.rs:535-548 | yields the run from the seek position to the end of the key's group: exactly the entries of the key at or after the subkey |
| Mdbx.GroupIsSeekRange | crates/storage/db/src/mdbx/mod.rs:535-548 | the run from the seek position to the end of the group holds exactly the matching entries |
| Mdbx.FlagsFor | crates/storage/db/src/mdbx/mod.rs:132-135 | a table is created `DUP_SORT` exactly when its type is dup-sort |
| Mdbx.CreateDb | crates/storage/db/src/mdbx/mod.rs:137 | creating a table fails exactly when it exists with other flags; otherwise the table exists with its flags |
| Mdbx.CreateAllSucceeds | crates/storage/db/src/mdbx/mod.rs:128-143 | with consistent table definitions, creating all tables succeeds, gives each its flags and keeps the tables already there |
| Mdbx.CreateAllIdempotent | crates/storage/db/src/mdbx/mod.rs:128-143 | creating the tables a second time changes nothing |
| Mdbx.Env.constructor | crates/storage/db/src/mdbx/mod.rs:99-102 | an environment records its directory and settings and holds no table yet |
| Mdbx.Env.CreateDefaultTables | crates/storage/db/src/mdbx/mod.rs:128-143 | the tables become `CreateAll(old tables, all)`, or the first error is returned with the tables unchanged |
| Mdbx.Env.Stats | crates/storage/db/src/mdbx/mod.rs:174-188 | succeeds exactly when every defined table exists, and reports exactly their names |
| Mdbx.CreateThenStats | crates/storage/db/src/mdbx/mod.rs:281-311 | after table creation, stats are found for every table and each dup-sort flag matches its type |
| Mdbx.EnvBuilder.constructor | crates/storage/db/src/mdbx/mod.rs:39-46 | read-only mode, 32000 readers, a one-terabyte maximum size and a four-gigabyte growth step |
| Mdbx.EnvBuilder.MaxReaders | crates/storage/db/src/mdbx/mod.rs:49-52 | sets the reader limit and nothing else |
| Mdbx.EnvBuilder.Write | crates/storage/db/src/mdbx/mod.rs:54-57 | sets durable read-write mode and nothing else |
| Mdbx.EnvBuilder.Sync | crates/storage/db/src/mdbx/mod.rs:59-62 | sets read-write mode with the given sync mode and nothing else |
| Mdbx.EnvBuilder.MaxSize | crates/storage/db/src/mdbx/mod.rs:64-67 | sets the maximum size and nothing else |
| Mdbx.EnvBuilder.GrowthStep | crates/storage/db/src/mdbx/mod.rs:69-72 | sets the growth step and nothing else |
| Mdbx.EnvBuilder.Build | crates/storage/db/src/mdbx/mod.rs:75-103 | succeeds exactly when the path is a directory and, in read-only mode, the data file exists; the environment carries the builder's settings and no tables; only a read-write build adds the data file |
| Mdbx.PutThenGet | crates/storage/db/src/mdbx/mod.rs:313-333 | after one put into an empty table, the key reads the value and the table has one entry |
| Mdbx.PutThenDelete | crates/storage/db/src/mdbx/mod.rs:335-357 | one put then a delete leaves zero entries |
| Mdbx.WalkFromStart | crates/storage/db/src/mdbx/mod.rs:450-467 | walking keys 0, 1 and 2 from no start yields the three rows in order |
| Mdbx.InsertTwice | crates/storage/db/src/mdbx/mod.rs:469-505 | the first insert of a new key succeeds, the second fails with `KeyExist`, and the cursor still shows the inserted row |
| Mdbx.UpsertKeepsDuplicate | crates/storage/db/src/mdbx/mod.rs:410-422 | after two upserts under one subkey, the seek returns the smaller value and `next_dup_val` returns the other |
| Mdbx.DupSortOrderRows | crates/storage/db/src/mdbx/mod.rs:512-522 | entries put in the order (0,0), (2,2), (1,1) are stored sorted by subkey |
| Mdbx.DupSortOrder | crates/storage/db/src/mdbx/mod.rs:524-533 | `next_dup_val` yields the three entries in subkey order |
| Mdbx.DupWalkFromSubkey | crates/storage/db/src/mdbx/mod.rs:535-548 | a dup walk from subkey 1 first yields the entry (1,1) |
| Files.FileSystem.CreateDirAll | crates/storage/db/src/lib.rs:48-50 | succeeds exactly when no prefix of the path is a file; every prefix is then a directory; the only nodes added are those directories; a file at the path itself is `AlreadyExists`, a file at an ancestor `NotADirectory` |
| Files.FileSystem.CreateDir | crates/storage/db/src/lib.rs:100 | succeeds exactly when the parent is a directory and the path is free; adds exactly that directory |
| Files.FileSystem.CreateFile | crates/storage/db/src/version.rs:57 | succeeds exactly when the file can be created there; the file is then empty and writable; on failure nothing changes |
| Files.FileSystem.SetReadOnly | crates/storage/db/src/version.rs:58-61 | marks exactly that file read-only and keeps its contents |
| Files.FileSystem.WriteAll | crates/storage/db/src/version.rs:62 | appends the bytes to exactly that file |
| Files.FileSystem.RemoveFile | crates/storage/db/src/lib.rs:247 | succeeds exactly when the path is a file, and removes exactly it |
| DbVersion.ToBeBytes | crates/storage/db/src/version.rs:62 | a version is written as four bytes |
| DbVersion.FromToBeBytes | crates/storage/db/src/version.rs:82 | decoding the four big-endian bytes of a version gives the version back |
| DbVersion.FromBeBytes | crates/storage/db/src/version.rs:81-82 | any four bytes decode to a version whose big-endian encoding is those bytes |
| DbVersion.IsBlockCompatibleVersion | crates/storage/db/src/version.rs:68-70 | exactly the versions 5, 6 and 7 can still have their block data read |
| DbVersion.DefaultVersionFilePath | crates/storage/db/src/version.rs:85-87 | the version file is the child of the directory named `db.version` |
| DbVersion.ResolveVersionPath | crates/storage/db/src/version.rs:55 | a directory path resolves to its `db.version` file; any other path is used as is |
| DbVersion.GetDbVersion | crates/storage/db/src/version.rs:73-83 | `FileNotFound` exactly when nothing is at the resolved path; `MalformedContent` exactly when it holds other than four bytes; a directory there is an I/O error; otherwise the version whose encoding is its contents |
| DbVersion.GetDbVersionFrame | crates/storage/db/src/version.rs:73-83 | the version read depends only on the path and its `db.version` child |
| DbVersion.ReadAfterCreate | crates/storage/db/src/version.rs:50-83 | reading back a freshly written version file gives the written version |
| DbVersion.CreateDbVersionFile | crates/storage/db/src/version.rs:50-65 | succeeds exactly when the resolved file can be created; it then holds the version's four bytes, is read-only and reads back as the version; a failure is an I/O error with nothing changed |
| Database.RequireMigration | crates/storage/db/src/lib.rs:144-146 | a database needs no migration only when it is at the current version, which is block compatible |
| Database.EmptyDirHasNoVersionFile | crates/storage/db/src/lib.rs:47 | an empty database directory holds no version file |
| Database.DecideVersion | crates/storage/db/src/lib.rs:47-81 | in an empty location, creates the directory and the current version file; otherwise a current or block-compatible version is used, an incompatible one is `MismatchVersion(7, found)`, a missing file is recreated and any other read error is returned; the result is the version on disk; nothing is removed |
| Database.New | crates/storage/db/src/lib.rs:46-87 | covers every version outcome as above; on success, `require_migration` holds exactly when the version is older than the current one, the environment is durable read-write in that directory, and the tables are those created from the definitions |
| Database.InMemory | crates/storage/db/src/lib.rs:99-112 | a temporary database at the current version with 10 GiB maximum size, a 512 MiB growth step, no sync, and all tables created |
| Database.OpenInner | crates/storage/db/src/lib.rs:124-142 | succeeds with the version on disk when the environment can be built and the version file is readable; a non-directory path is an environment error; read-only opening changes no file |
| Database.Open | crates/storage/db/src/lib.rs:115-117 | opening read-write yields a durable read-write environment and the version on disk |
| Database.OpenRo | crates/storage/db/src/lib.rs:120-122 | opening read-only yields a read-only environment and the version on disk, and changes no file |
| Database.NewInEmptyDir | crates/storage/db/src/lib.rs:194-207 | a database created in an empty directory is at version 7 with a read-only version file holding 7 |
| Database.NewTwice | crates/storage/db/src/lib.rs:209-220 | opening the same directory again succeeds with the same version |
| Database.NewWithMalformedVersionFile | crates/storage/db/src/lib.rs:222-230 | a version file that is not four bytes long makes `Db::new` fail with `MalformedContent` |
| Database.NewWithMismatchedVersion | crates/storage/db/src/lib.rs:232-240 | a version file holding 99 makes `Db::new` fail with `MismatchVersion(7, 99)` |
| Database.NewAfterVersionFileRemoved | crates/storage/db/src/lib.rs:242-252 | a populated directory without its version file gets a new version file at the current version |
| State.LatestClass | crates/storage/provider/src/providers/db/state.rs:106-108 | the class stored under the hash, if any |
| State.LatestCompiledClassHash | crates/storage/provider/src/providers/db/state.rs:110-116 | the compiled class hash stored under the class hash, if any |
| State.LatestNonce | crates/storage/provider/src/providers/db/state.rs:123-126 | the nonce of the contract's info row, if the contract has one |
| State.LatestClassHash | crates/storage/provider/src/providers/db/state.rs:128-134 | the class hash of the contract's info row, if the contract has one |
| State.LatestStorage | crates/storage/provider/src/providers/db/state.rs:136-147 | Some exactly when the contract has an entry for that exact storage key, and then a value of such an entry |
| State.LatestStorageExact | crates/storage/provider/src/providers/db/state.rs:136-147 | with one value per slot, a read gives `v` exactly when the entry (address, key, v) is stored |
| State.IsClassDeclaredBeforeBlock | crates/storage/provider/src/providers/db/state.rs:224-228 | true exactly when the class-declaration table holds a row for the class whose block is at or before the pinned block |
| State.HistoricalClass | crates/storage/provider/src/providers/db/state.rs:235-241 | the latest class, but only when the class was declared at or before the pinned block |
| State.HistoricalCompiledClassHash | crates/storage/provider/src/providers/db/state.rs:243-252 | the latest compiled class hash, but only when the class was declared at or before the pinned block |
| State.ClassVisibilityMonotone | crates/storage/provider/src/providers/db/state.rs:224-228 | a class visible at a block stays visible, with the same value, at every later block |
| State.NonceChangeBlock | crates/storage/provider/src/providers/db/state.rs:260-263 | None without a change set for the contract; otherwise the most recent nonce change at or before the block |
| State.ClassChangeBlock | crates/storage/provider/src/providers/db/state.rs:286-289 | None without a change set for the contract; otherwise the most recent class change at or before the block |
| State.StorageChangeBlock | crates/storage/provider/src/providers/db/state.rs:313-316 | None without a change list for the slot; otherwise the most recent change at or before the block |
| State.HistoricalNonce | crates/storage/provider/src/providers/db/state.rs:259-279 | Ok(None) without a change; otherwise the seek in the nonce history at that block, failing with `MissingContractNonceChangeEntry` when the seek finds nothing, and Ok(None) when it lands on another contract |
| State.HistoricalClassHash | crates/storage/provider/src/providers/db/state.rs:281-305 | the same, over the class change history, with `MissingContractClassChangeEntry` |
| State.HistoricalStorage | crates/storage/provider/src/providers/db/state.rs:307-333 | the same, over the storage change history keyed by (contract, key), with `MissingStorageChangeEntry`; a hit must match both contract and key |
| State.HistoricalIgnoresLatest | crates/storage/provider/src/providers/db/state.rs:255-333 | historical nonce, class-hash and storage reads depend only on the change sets and histories, never on the latest tables |
| State.HistoricalReadsStable | crates/storage/provider/src/providers/db/state.rs:255-333 | two pinned blocks with no change between them read the same nonce, class hash and storage value |
| State.WithNonce | crates/storage/provider/src/providers/db/state.rs:21-31 | the contract's nonce becomes the new one and its class hash is kept (0 for a new contract); other contracts and other tables are unchanged |
| State.WithClassHash | crates/storage/provider/src/providers/db/state.rs:55-69 | the contract's class hash becomes the new one and its nonce is kept (0 for a new contract); other contracts and other tables are unchanged |
| State.WithClass | crates/storage/provider/src/providers/db/state.rs:73-78 | the class is stored under the hash; other hashes and other tables are unchanged |
| State.WithCompiledClassHash | crates/storage/provider/src/providers/db/state.rs:80-89 | the compiled hash is stored under the class hash; other hashes and other tables are unchanged |
| State.WithStorage | crates/storage/provider/src/providers/db/state.rs:33-53 | the new entry is stored, other slots keep exactly their entries, and the table grows by at most one |
| State.WithStorageSingleValued | crates/storage/provider/src/providers/db/state.rs:33-53 | a storage write keeps one value per slot, so the old value under the slot is replaced |
| State.SetStorageThenRead | crates/storage/provider/src/providers/db/state.rs:33-53 | after a write, the latest read of the slot gives the written value, and every other slot reads as before |
| State.DbProvider.SetNonce | crates/storage/provider/src/providers/db/state.rs:21-31 | the state becomes `WithNonce(old state, address, nonce)` |
| State.DbProvider.SetClassHashOfContract | crates/storage/provider/src/providers/db/state.rs:55-69 | the state becomes `WithClassHash(old state, address, class hash)` |
| State.DbProvider.SetStorage | crates/storage/provider/src/providers/db/state.rs:33-53 | the storage table becomes `WithStorage(old table, address, key, value)` and nothing else changes |
| State.DbProvider.SetClass | crates/storage/provider/src/providers/db/state.rs:73-78 | the state becomes `WithClass(old state, hash, class)` |
| State.DbProvider.SetCompiledClassHashOfClassHash | crates/storage/provider/src/providers/db/state.rs:80-89 | the state becomes `WithCompiledClassHash(old state, hash, compiled hash)` |
| GasBuffer.Window | crates/oracle/gas/src/sampled/buffer.rs:55-57 | the window of a history is its last `cap` elements, or all of it when shorter |
| GasBuffer.WindowStep | crates/oracle/gas/src/sampled/buffer.rs:58-62 | pushing onto a window and re-windowing equals windowing the extended history |
| GasBuffer.SlidingWindowBuffer.constructor | crates/oracle/gas/src/sampled/buffer.rs:51-53 | an empty buffer with the requested capacity |
| GasBuffer.SlidingWindowBuffer.Len | crates/oracle/gas/src/sampled/buffer.rs:70-72 | the number of samples held, never above the capacity |
| GasBuffer.SlidingWindowBuffer.IsEmpty | crates/oracle/gas/src/sampled/buffer.rs:84-86 | true exactly when no sample is held |
| GasBuffer.SlidingWindowBuffer.Capacity | crates/oracle/gas/src/sampled/buffer.rs:96-98 | the current capacity |
| GasBuffer.SlidingWindowBuffer.Iter | crates/oracle/gas/src/sampled/buffer.rs:101-103 | the samples from oldest to newest |
| GasBuffer.SlidingWindowBuffer.Pop | crates/oracle/gas/src/sampled/buffer.rs:65-67 | removes and returns the oldest sample, or None when empty; the capacity is kept |
| GasBuffer.SlidingWindowBuffer.Push | crates/oracle/gas/src/sampled/buffer.rs:58-62 | evicts and returns the oldest sample exactly when the buffer is full with non-zero capacity; the new sample is appended; with non-zero capacity the contents are the window of the history |
| GasBuffer.SlidingWindowBuffer.PushAll | crates/oracle/gas/src/sampled/buffer.rs:127-143 | pushing a sequence keeps the window of the whole history, and the evicted samples followed by the contents are the old contents followed by the pushed samples |
| GasBuffer.SaturatingAdd | crates/oracle/gas/src/sampled/buffer.rs:35 | the sum, or `u128::MAX` when the sum would exceed it |
| GasBuffer.SumGasPrices | crates/oracle/gas/src/sampled/buffer.rs:32-44 | each component is the true total capped at `u128::MAX`; a non-empty sum of non-zero prices is non-zero |
| GasBuffer.DivCeil | crates/oracle/gas/src/sampled/buffer.rs:24-25 | the least `q` with `q * b >= a`, never above `a`, and positive for a positive `a` |
| GasBuffer.AveragePrices | crates/oracle/gas/src/sampled/buffer.rs:18-28 | the minimum prices for no samples; otherwise each component is the ceiling of the capped sum over the count; non-zero samples give a non-zero average |
| GasBuffer.GasPricesBuffer.constructor | crates/oracle/gas/src/sampled/buffer.rs:9-11 | an empty window of the given size |
| GasBuffer.GasPricesBuffer.Push | crates/oracle/gas/src/sampled/buffer.rs:13-15 | the capacity stays, except that a zero-size buffer grows to room for 4; the contents are the last `capacity` samples of the history with the new prices, so a zero-size buffer then holds just the new prices |
| GasBuffer.GasPricesBuffer.Average | crates/oracle/gas/src/sampled/buffer.rs:18-28 | the average of the samples in the window |
| GasBuffer.BufferSizeLimit | crates/oracle/gas/src/sampled/buffer.rs:121-144 | five pushes fill a size-5 buffer with 0..4 in order, and the next five pushes evict 0..4 in order |
| GasBuffer.AverageExamples | crates/oracle/gas/src/sampled/buffer.rs:146-221 | the five average tests: empty, single, three samples, the ceiling case and the large-numbers case |
| ProtocolVersion.Split | crates/primitives/src/version.rs:32 | splitting at `.` gives at least one part, no part holds a `.`, and joining the parts with `.` gives the text back |
| ProtocolVersion.SplitJoin | crates/primitives/src/version.rs:32 | splitting a join of dot-free parts gives the parts back |
| ProtocolVersion.SegmentValue | crates/primitives/src/version.rs:40 | an empty segment is 0; any other is read as a `u8` |
| ProtocolVersion.ReadSegments | crates/primitives/src/version.rs:38-41 | Ok exactly when every segment reads, and then their values in order; otherwise the error of the first segment that fails |
| ProtocolVersion.ParseVersion | crates/primitives/src/version.rs:27-44 | `InvalidFormat` exactly for the empty string or more than four parts; otherwise Ok exactly when every segment reads, with the missing segments zero; a segment error is the error of the first failing segment |
| ProtocolVersion.Parse | crates/primitives/src/version.rs:27-44 | the buffer-filling loop returns `ParseVersion(version)` |
| ProtocolVersion.FillBuffer | crates/primitives/src/version.rs:38-41 | the loop returns the segments' reading, and on success leaves the values in the buffer followed by zeros |
| ProtocolVersion.ReadSegmentsPrefixErr | crates/primitives/src/version.rs:39-40 | once a prefix of the segments fails, reading all of them fails with the same error |
| ProtocolVersion.ToString | crates/primitives/src/version.rs:60-77 | the printed form has three dot-separated parts when the last segment is zero and four otherwise, each the decimal form of its segment |
| ProtocolVersion.Format | crates/primitives/src/version.rs:60-77 | the formatting loop produces `ToString(v)` |
| ProtocolVersion.ReadDecimalSegments | crates/primitives/src/version.rs:40 | reading back printed segments gives the values |
| ProtocolVersion.ParseJoined | crates/primitives/src/version.rs:27-44 | parsing one to four printed segments joined by dots gives them, padded with zeros |
| ProtocolVersion.ParseToString | crates/primitives/src/version.rs:27-77 | parsing the printed form of any version gives the version back |
| ProtocolVersion.ToApiVersion | crates/primitives/src/version.rs:114-144 | Ok only for the segments of an official release (and `0.13.1.1`, which maps to `V0_13_3`); otherwise `InvalidVersionError` carrying the version |
| ProtocolVersion.ReleaseRoundTrip | crates/primitives/src/version.rs:118-140 | every official release's segments map back to that release |
| ProtocolVersion.CurrentIsARelease | crates/primitives/src/version.rs:134 | the current version `0.13.1.1` maps to `V0_13_3`, and `1.9.0.0` is not a release |
| ProtocolVersion.ParseValid | crates/primitives/src/version.rs:151-156 | `"1.9.0.0"` parses to [1, 9, 0, 0] and prints as `"1.9.0"` |
| ProtocolVersion.ParseMissingParts | crates/primitives/src/version.rs:159-164 | `"1.9.0"` parses to [1, 9, 0, 0] |
| ProtocolVersion.ParseInvalidDigit | crates/primitives/src/version.rs:167-170 | `"0.fv.1.0"` is rejected |
| ProtocolVersion.ParseMissingDigitDefaultsToZero | crates/primitives/src/version.rs:173-178 | `"1..."` parses to [1, 0, 0, 0] and prints as `"1.0.0"` |
| ProtocolVersion.ParseFourParts | crates/primitives/src/version.rs:181-186 | `"1.2.3.4"` parses to [1, 2, 3, 4] and prints the same |
| ProtocolVersion.ParseInvalidFormats | crates/primitives/src/version.rs:189-194 | `""` and `"1.2.3.4.5"` are `InvalidFormat` |
| Transactions.Version | crates/primitives/src/transaction.rs:74-94 | an L1 handler or deploy reports its stored version; the other kinds report their variant's version: invoke 0, 1 or 3, declare 0 to 3, deploy-account 1 or 3 |
| Transactions.VersionIdentifiesVariant | crates/primitives/src/transaction.rs:74-94 | for two transactions of one versioned kind, equal versions exactly when they are the same variant |
| Transactions.Type | crates/primitives/src/transaction.rs:97-105 | each transaction kind reports its own type, in both directions |
| Transactions.TxFromRef | crates/primitives/src/transaction.rs:116-125 | a reference converts to the transaction of the same kind, never a deploy |
| Transactions.ExecutableTxRef | crates/primitives/src/transaction.rs:146-153 | an executable transaction refers to its inner transaction; a declare refers to the declare without its class |
| Transactions.ExecutableType | crates/primitives/src/transaction.rs:155-162 | an executable transaction is never a deploy |
| Transactions.RefKeepsType | crates/primitives/src/transaction.rs:116-162 | converting an executable transaction through its reference keeps its type |
| Transactions.L1Bounds | crates/primitives/src/transaction.rs:316-340 | a version 3 hash commits to the L1 gas bounds of either form of mapping |
| Transactions.L2Bounds | crates/primitives/src/transaction.rs:316-340 | a full mapping commits to its L2 gas bounds; a mapping with L1 gas only commits to zero L2 gas bounds |
| Transactions.L1DataBounds | crates/primitives/src/transaction.rs:316-340 | L1 data gas bounds are committed exactly when all three bounds are given, and then they are the mapping's L1 data gas bounds |
| Transactions.BoundsDetermineMapping | crates/primitives/src/transaction.rs:316-350 | the three committed bounds determine the resource-bounds mapping, so two different mappings never hash the same inputs |
| Transactions.InvokeHash | crates/primitives/src/transaction.rs:300-352 | a V1 invoke is hashed by the V1 primitive over sender, calldata, max fee, chain id, nonce and the query flag; a V3 invoke by the V3 primitive, which also commits to the tip, the three bounds, the paymaster data, both data-availability modes and the account deployment data |
| Transactions.DeclareHash | crates/primitives/src/transaction.rs:481-546 | each declare version is hashed by its own primitive: V0 over sender, class hash, max fee and chain id; V1 adds the nonce; V2 adds the compiled class hash; V3 replaces the max fee by the tip and bounds and adds the paymaster data, modes and account deployment data |
| Transactions.L1HandlerHash | crates/primitives/src/transaction.rs:575-584 | an L1 handler is hashed over its version, contract address, entry point selector, calldata, chain id and nonce, with no query flag |
| Transactions.DeployAccountHash | crates/primitives/src/transaction.rs:666-714 | a V1 deploy-account is hashed over its address, constructor calldata, class hash, salt, max fee, chain id, nonce and the query flag; a V3 one replaces the max fee by the tip and bounds and adds the paymaster data and modes |
| Transactions.CalculateHash | crates/primitives/src/transaction.rs:137-144 | an invoke is hashed by the invoke hash, an L1 handler by the L1-handler hash, a declare by the declare hash of its transaction without its class, and a deploy-account by the deploy-account hash |
| Transactions.HashIgnoresSignature | crates/primitives/src/transaction.rs:137-144 | no variant commits to its signature: re-signing a transaction leaves its hash unchanged |
| Transactions.L1HandlerHashIgnoresQuery | crates/primitives/src/transaction.rs:575-584 | an L1 handler's hash does not depend on the query flag |
| Transactions.NewQuery | crates/primitives/src/transaction.rs:186-194 | keeps the transaction and records its hash under the given query flag |
| Transactions.New | crates/primitives/src/transaction.rs:176-184 | keeps the transaction and records its non-query hash |
| Transactions.NewIsNonQuery | crates/primitives/src/transaction.rs:176-194 | `new` is `new_query` with the flag off |
| Transactions.ToTxWithHash | crates/primitives/src/transaction.rs:746-756 | the stored transaction keeps the hash and the type |
| Transactions.StoredKeepsIdentity | crates/primitives/src/transaction.rs:737-756 | storing keeps the hash, a declare's class hash and a deploy-account's contract address, and keeps an invoke or L1 handler transaction whole |
| BlockIds.FromStr | bin/katana/src/cli/rpc/starknet.rs:409-426 | `latest` and `pending` are their tags, and only they are tags; other text starting with `0x` is a hash exactly when the hex parser accepts it, else `InvalidBlockHash`; all other text is a block number exactly when it parses as a `u64`, else `InvalidBlockNumber` with the parse error |
| BlockIds.NumberRoundTrip | bin/katana/src/cli/rpc/starknet.rs:419-422 | the decimal form of any `u64` reads back as that block number |
| BlockIds.HexIsNeverANumber | bin/katana/src/cli/rpc/starknet.rs:414-417 | text starting with `0x` is never read as a block number |
| BlockIds.FromStrExamples | bin/katana/src/cli/rpc/starknet.rs:419-422 | `+5` is block 5; the empty string is an `Empty` number error; `Latest` is rejected; `-1` is an `InvalidDigit` number error |

## Left out

- MDBX engine internals are not modelled:
  - page geometry and page size;
  - readahead and coalescing flags;
  - MVCC snapshot isolation and the single-writer lock;
  - commit and abort of transactions.
- A write made through a transaction is modelled as applied directly to the table rows.
- Mdbx.EnvBuilder.Build always opens an environment with no tables: table contents are not persisted in the data file across opens. A reopened environment (`Database.OpenInner`, the second open in `Database.NewTwice`) therefore starts empty. The "table exists with other flags" path of `Mdbx.CreateDb` and the idempotence of creating every table (`Mdbx.CreateAllIdempotent`) are stated on a table map, not across a reopen.
- The error paths of transaction creation, commit and table opening are not modelled. `crates/storage/db/src/mdbx/cursor.rs` and `tx.rs` are not part of this model. The cursor contract follows the engine's documented behaviour as the tests in `crates/storage/db/src/mdbx/mod.rs` exercise it.
- Database errors raised by a read inside the state providers are not modelled. The `?` on `get` and `cursor_dup` never fails in the model.
- Metrics and stats reporting are not modelled: the gauges, page counts and freelist size in `crates/storage/db/src/mdbx/mod.rs:191-235`. `Env.Stats` reports only which tables exist.
- Trie roots, state roots and multiproofs are not modelled. The state.rs sections at 150-198 and 336-411 hold foreign Merkle hashing.
- The file system is reduced to a map from paths to nodes. Permission bits beyond read-only, `tempfile` naming and I/O failures other than the modelled ones are not captured. The creation of the temporary directory in `Db::in_memory` is a `CreateDir` of a given fresh path.
- `is_database_empty` lives in `crates/storage/db/src/utils.rs`, which is not part of this model. It is modelled as "the path is absent, or is a directory without children".
- Database.InMemory does not claim success: whether the temporary directory can be created depends on the path given.
- The ignored ephemeral-deletion test (`crates/storage/db/src/lib.rs:254-284`) is not modelled. It tests deletion on drop, which the source does not implement.
- The environment's `path()` and the database's `version()` and `path()` accessors are plain field reads of the modelled records.
- The transaction hash primitives (`compute_*_tx_hash`) are parameters of the model, gathered in `Transactions.Hashers`. Felt hex parsing (`Felt::from_hex`) is also a parameter, of `BlockIds.FromStr`.
- Transactions.CalculateHash is not defined for a version 0 invoke. The source reaches `todo!()` there (transaction.rs:302-304), which panics.
- Transactions.ClassHash and Transactions.ContractAddress are field projections with no contract of their own. What they promise is stated by `Transactions.StoredKeepsIdentity`.
- `DeclareTxWithClass::new` (transaction.rs:207-212) is the datatype constructor `DeclareTxWithClass`.
- The serde and arbitrary derives and the human-readable round-trip tests for versions are not modelled. Their string form is covered by `ProtocolVersion.ParseToString`.
- Field elements are unbounded naturals. Their order is taken to be the byte order of their big-endian encoding, which the dup-sorted tables sort by.
- Block numbers, nonces and storage values are unbounded naturals. Only the block-id parser bounds a block number by `u64::MAX`.
- The storage change set is a map keyed by (contract, storage key). Only point lookups are made on it.
- GasBuffer.SlidingWindowBuffer.Push models the capacity of `VecDeque::with_capacity(n)` as exactly `n`. It models growth from capacity 0 as growth to 4, the standard library's minimum non-zero capacity for small elements. The standard library only promises "at least `n`"; with more room, a full-looking buffer would not evict.
- GasBuffer.SumGasPrices models `u128` saturating addition explicitly. Gas prices are `u128` values; their non-zero invariant is `GasBuffer.NonZero`.
- The gas sampling worker, the samplers and their network access (`crates/oracle/gas/src/sampled/mod.rs`, `starknet.rs`, `ethereum.rs`) are not modelled. They are async and networked.
- The RPC client, command dispatch and output printing in `bin/katana/src/cli/rpc/` are not modelled; only the block-id argument parser is.
