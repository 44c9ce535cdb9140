/**
 * The state of a Starknet node as stored in the database, and the providers that read
 * it: the latest state (the current tables), the state pinned at a past block
 * (reconstructed from the change sets and change histories), and the writer that
 * updates the latest tables.
 *
 * Contract addresses, class hashes, storage keys, storage values and nonces are field
 * elements; they are modelled as naturals, whose order is the byte order of their
 * big-endian encoding.
 */
module State {
  import opened Wrappers
  import opened Tables
  import opened BlockLists
  import Mdbx

  /** A contract's class and nonce, as kept in the `ContractInfo` table. */
  datatype ContractInfo = ContractInfo(nonce: nat, classHash: nat)

  /** `GenericContractInfo::default()`: nonce 0 and class hash 0. */
  const DEFAULT_CONTRACT_INFO := ContractInfo(0, 0)

  /** The blocks at which a contract's class and its nonce changed (`ContractInfoChangeSet`). */
  datatype ContractInfoChangeList = ContractInfoChangeList(classChangeList: BlockList, nonceChangeList: BlockList)

  /** A storage slot: the contract and the key within its storage. */
  datatype ContractStorageKey = ContractStorageKey(contractAddress: nat, key: nat)

  /** A class definition; its contents play no part in the state logic. */
  datatype ContractClass = ContractClass(definition: seq<nat>)

  datatype ProviderError =
    | MissingContractNonceChangeEntry(block: nat, contractAddress: nat)
    | MissingContractClassChangeEntry(block: nat, contractAddress: nat)
    | MissingStorageChangeEntry(block: nat, storageKey: nat, contractAddress: nat)

  /**
   * The tables the providers read, in one read transaction.
   *  - `contractStorage`: key contract address, subkey the storage key, value the storage value;
   *  - `nonceChangeHistory`, `classChangeHistory`: key block number, subkey contract address,
   *    value the nonce / class hash the contract got in that block;
   *  - `storageChangeHistory`: key block number, subkey (contract address, storage key),
   *    value the storage value written in that block.
   * `storageChangeSet` is keyed by a (contract, key) pair, so it is kept as a map: only
   * point lookups are made on it.
   */
  datatype Snapshot = Snapshot(
    contractInfo: PlainRows<ContractInfo>,
    classes: PlainRows<ContractClass>,
    compiledClassHashes: PlainRows<nat>,
    classDeclarationBlock: PlainRows<nat>,
    contractStorage: DupRows,
    contractInfoChangeSet: PlainRows<ContractInfoChangeList>,
    nonceChangeHistory: DupRows,
    classChangeHistory: DupRows,
    storageChangeSet: map<ContractStorageKey, BlockList>,
    storageChangeHistory: DupRows)

  /** The subkey of a table whose subkey is a single word. */
  function Word(w: nat): SubKey {
    SubKey(w, 0)
  }

  /**
   * A dup-sorted table with single-word subkeys as the writer keeps it: every subkey is
   * one word, and each (key, subkey) holds at most one value.
   */
  predicate SingleValued(rows: DupRows) {
    && UniqueSubkeys(Elems(rows))
    && forall e :: e in rows ==> e.sub.lo == 0
  }

  // ----- Seeking an exact subkey -----

  /**
   * `seek_by_key_subkey(key, w)` lands on an entry whose subkey's first word is `w`
   * exactly when the key has such an entry.
   */
  lemma SeekFindsWord(rows: DupRows, key: nat, w: nat)
    ensures var r := SeekByKeySubkey(rows, key, Word(w));
            r.Some? && r.value.sub.hi == w <==> exists e :: e in rows && e.key == key && e.sub.hi == w
  {
    var r := SeekByKeySubkey(rows, key, Word(w));
    if e :| e in rows && e.key == key && e.sub.hi == w {
      assert AtOrAfter(e, key, Word(w));
      assert r.value == e || EntryLess(r.value, e);
    }
  }

  /** `seek_by_key_subkey(key, sub)` lands on subkey `sub` exactly when the key has an entry with that subkey. */
  lemma SeekFindsSub(rows: DupRows, key: nat, sub: SubKey)
    ensures var r := SeekByKeySubkey(rows, key, sub);
            r.Some? && r.value.sub == sub <==> exists e :: e in rows && e.key == key && e.sub == sub
  {
    var r := SeekByKeySubkey(rows, key, sub);
    if e :| e in rows && e.key == key && e.sub == sub {
      assert AtOrAfter(e, key, sub);
      assert r.value == e || EntryLess(r.value, e);
    }
  }

  // ----- The latest state -----

  /** `LatestStateProvider::class`. */
  function LatestClass(db: Snapshot, hash: nat): (r: Option<ContractClass>)
    ensures r.Some? <==> exists i :: 0 <= i < |db.classes| && db.classes[i].key == hash
    ensures forall i :: 0 <= i < |db.classes| && db.classes[i].key == hash ==> r == Some(db.classes[i].value)
  {
    Get(db.classes, hash)
  }

  /** `LatestStateProvider::compiled_class_hash_of_class_hash`. */
  function LatestCompiledClassHash(db: Snapshot, hash: nat): (r: Option<nat>)
    ensures r.Some? <==> exists i :: 0 <= i < |db.compiledClassHashes| && db.compiledClassHashes[i].key == hash
    ensures forall i :: 0 <= i < |db.compiledClassHashes| && db.compiledClassHashes[i].key == hash ==>
              r == Some(db.compiledClassHashes[i].value)
  {
    Get(db.compiledClassHashes, hash)
  }

  /** `LatestStateProvider::nonce`: the nonce of the contract's record, if it has one. */
  function LatestNonce(db: Snapshot, address: nat): (r: Option<nat>)
    ensures r.Some? <==> exists i :: 0 <= i < |db.contractInfo| && db.contractInfo[i].key == address
    ensures forall i :: 0 <= i < |db.contractInfo| && db.contractInfo[i].key == address ==>
              r == Some(db.contractInfo[i].value.nonce)
  {
    var info := Get(db.contractInfo, address);
    if info.Some? then Some(info.value.nonce) else None
  }

  /** `LatestStateProvider::class_hash_of_contract`: the class hash of the contract's record, if it has one. */
  function LatestClassHash(db: Snapshot, address: nat): (r: Option<nat>)
    ensures r.Some? <==> exists i :: 0 <= i < |db.contractInfo| && db.contractInfo[i].key == address
    ensures forall i :: 0 <= i < |db.contractInfo| && db.contractInfo[i].key == address ==>
              r == Some(db.contractInfo[i].value.classHash)
  {
    var info := Get(db.contractInfo, address);
    if info.Some? then Some(info.value.classHash) else None
  }

  /**
   * `LatestStateProvider::storage`: seeks the contract's duplicates from the storage key
   * on, and answers only if the entry found has exactly that key.
   */
  function LatestStorage(rows: DupRows, address: nat, storageKey: nat): (r: Option<nat>)
    ensures r.Some? <==> exists e :: e in rows && e.key == address && e.sub.hi == storageKey
    ensures r.Some? ==> exists e :: e in rows && e.key == address && e.sub.hi == storageKey && e.value == r.value
  {
    SeekFindsWord(rows, address, storageKey);
    match SeekByKeySubkey(rows, address, Word(storageKey))
    case Some(entry) => if entry.sub.hi == storageKey then Some(entry.value) else None
    case None => None
  }

  /** With one value per slot, the latest storage read returns exactly the stored value. */
  lemma LatestStorageExact(rows: DupRows, address: nat, storageKey: nat, v: nat)
    requires SingleValued(rows)
    ensures LatestStorage(rows, address, storageKey) == Some(v) <==> DupEntry(address, Word(storageKey), v) in rows
  {
    var r := LatestStorage(rows, address, storageKey);
    var target := DupEntry(address, Word(storageKey), v);
    if target in rows {
      var e :| e in rows && e.key == address && e.sub.hi == storageKey && e.value == r.value;
      assert e.sub == target.sub;
      assert e in Elems(rows) && target in Elems(rows);
    }
    if r == Some(v) {
      var e :| e in rows && e.key == address && e.sub.hi == storageKey && e.value == v;
      assert e == target;
    }
  }

  // ----- The state at a past block -----

  /** `is_class_declared_before_block`: the class was declared, at or before `blockNumber`. */
  predicate IsClassDeclaredBeforeBlock(db: Snapshot, blockNumber: nat, hash: nat)
    ensures IsClassDeclaredBeforeBlock(db, blockNumber, hash) <==>
              exists i :: 0 <= i < |db.classDeclarationBlock| && db.classDeclarationBlock[i].key == hash &&
                          db.classDeclarationBlock[i].value <= blockNumber
  {
    var declared := Get<nat>(db.classDeclarationBlock, hash);
    declared.Some? && declared.value <= blockNumber
  }

  /** `HistoricalStateProvider::class`: the class, hidden until the block that declares it. */
  function HistoricalClass(db: Snapshot, blockNumber: nat, hash: nat): (r: Option<ContractClass>)
    ensures r.Some? <==> IsClassDeclaredBeforeBlock(db, blockNumber, hash) && LatestClass(db, hash).Some?
    ensures r.Some? ==> r == LatestClass(db, hash)
  {
    if IsClassDeclaredBeforeBlock(db, blockNumber, hash) then Get(db.classes, hash) else None
  }

  /** `HistoricalStateProvider::compiled_class_hash_of_class_hash`, hidden in the same way. */
  function HistoricalCompiledClassHash(db: Snapshot, blockNumber: nat, hash: nat): (r: Option<nat>)
    ensures r.Some? <==> IsClassDeclaredBeforeBlock(db, blockNumber, hash) && LatestCompiledClassHash(db, hash).Some?
    ensures r.Some? ==> r == LatestCompiledClassHash(db, hash)
  {
    if IsClassDeclaredBeforeBlock(db, blockNumber, hash) then Get(db.compiledClassHashes, hash) else None
  }

  /** Once a class is visible at a block, it stays visible, unchanged, at every later block. */
  lemma {:induction false} ClassVisibilityMonotone(db: Snapshot, p: nat, q: nat, hash: nat)
    requires p <= q
    ensures HistoricalClass(db, p, hash).Some? ==> HistoricalClass(db, q, hash) == HistoricalClass(db, p, hash)
    ensures HistoricalCompiledClassHash(db, p, hash).Some? ==>
              HistoricalCompiledClassHash(db, q, hash) == HistoricalCompiledClassHash(db, p, hash)
  {
  }

  /** The block of the most recent nonce change of `address` at or before `blockNumber`. */
  function NonceChangeBlock(db: Snapshot, blockNumber: nat, address: nat): (r: Option<nat>)
    ensures Get(db.contractInfoChangeSet, address).None? ==> r.None?
    ensures Get(db.contractInfoChangeSet, address).Some? ==>
              var list := Get(db.contractInfoChangeSet, address).value.nonceChangeList;
              && (r.None? <==> forall x :: x in list ==> x > blockNumber)
              && (r.Some? ==> r.value in list && r.value <= blockNumber)
              && (r.Some? ==> forall x :: x in list && x <= blockNumber ==> x <= r.value)
  {
    var changes := Get(db.contractInfoChangeSet, address);
    if changes.None? then None else RecentChangeFromBlock(blockNumber, changes.value.nonceChangeList)
  }

  /** The block of the most recent class change of `address` at or before `blockNumber`. */
  function ClassChangeBlock(db: Snapshot, blockNumber: nat, address: nat): (r: Option<nat>)
    ensures Get(db.contractInfoChangeSet, address).None? ==> r.None?
    ensures Get(db.contractInfoChangeSet, address).Some? ==>
              var list := Get(db.contractInfoChangeSet, address).value.classChangeList;
              && (r.None? <==> forall x :: x in list ==> x > blockNumber)
              && (r.Some? ==> r.value in list && r.value <= blockNumber)
              && (r.Some? ==> forall x :: x in list && x <= blockNumber ==> x <= r.value)
  {
    var changes := Get(db.contractInfoChangeSet, address);
    if changes.None? then None else RecentChangeFromBlock(blockNumber, changes.value.classChangeList)
  }

  /** The block of the most recent write to the slot at or before `blockNumber`. */
  function StorageChangeBlock(db: Snapshot, blockNumber: nat, address: nat, storageKey: nat): (r: Option<nat>)
    ensures ContractStorageKey(address, storageKey) !in db.storageChangeSet ==> r.None?
    ensures ContractStorageKey(address, storageKey) in db.storageChangeSet ==>
              var list := db.storageChangeSet[ContractStorageKey(address, storageKey)];
              && (r.None? <==> forall x :: x in list ==> x > blockNumber)
              && (r.Some? ==> r.value in list && r.value <= blockNumber)
              && (r.Some? ==> forall x :: x in list && x <= blockNumber ==> x <= r.value)
  {
    var key := ContractStorageKey(address, storageKey);
    if key !in db.storageChangeSet then None else RecentChangeFromBlock(blockNumber, db.storageChangeSet[key])
  }

  /**
   * `HistoricalStateProvider::nonce`: with no recorded change at or before the pinned
   * block, no nonce; otherwise the history entry of the change block for the contract,
   * an error if that block has no entry at or after the contract, and no nonce if the
   * entry found belongs to another contract.
   */
  function HistoricalNonce(db: Snapshot, blockNumber: nat, address: nat): (r: Result<Option<nat>, ProviderError>)
    ensures NonceChangeBlock(db, blockNumber, address).None? ==> r == Ok(None)
    ensures NonceChangeBlock(db, blockNumber, address).Some? ==>
              var num := NonceChangeBlock(db, blockNumber, address).value;
              && (r.Err? <==> forall e :: e in db.nonceChangeHistory ==> !AtOrAfter(e, num, Word(address)))
              && (r.Err? ==> r.error == MissingContractNonceChangeEntry(num, address))
              && (r.Ok? && r.value.Some? <==> exists e :: e in db.nonceChangeHistory && e.key == num && e.sub.hi == address)
              && (r.Ok? && r.value.Some? ==>
                    exists e :: e in db.nonceChangeHistory && e.key == num && e.sub.hi == address && e.value == r.value.value)
  {
    var num := NonceChangeBlock(db, blockNumber, address);
    if num.None? then Ok(None)
    else
      SeekFindsWord(db.nonceChangeHistory, num.value, address);
      match SeekByKeySubkey(db.nonceChangeHistory, num.value, Word(address))
      case None => Err(MissingContractNonceChangeEntry(num.value, address))
      case Some(entry) => if entry.sub.hi == address then Ok(Some(entry.value)) else Ok(None)
  }

  /** `HistoricalStateProvider::class_hash_of_contract`, built like the nonce read over the class history. */
  function HistoricalClassHash(db: Snapshot, blockNumber: nat, address: nat): (r: Result<Option<nat>, ProviderError>)
    ensures ClassChangeBlock(db, blockNumber, address).None? ==> r == Ok(None)
    ensures ClassChangeBlock(db, blockNumber, address).Some? ==>
              var num := ClassChangeBlock(db, blockNumber, address).value;
              && (r.Err? <==> forall e :: e in db.classChangeHistory ==> !AtOrAfter(e, num, Word(address)))
              && (r.Err? ==> r.error == MissingContractClassChangeEntry(num, address))
              && (r.Ok? && r.value.Some? <==> exists e :: e in db.classChangeHistory && e.key == num && e.sub.hi == address)
              && (r.Ok? && r.value.Some? ==>
                    exists e :: e in db.classChangeHistory && e.key == num && e.sub.hi == address && e.value == r.value.value)
  {
    var num := ClassChangeBlock(db, blockNumber, address);
    if num.None? then Ok(None)
    else
      SeekFindsWord(db.classChangeHistory, num.value, address);
      match SeekByKeySubkey(db.classChangeHistory, num.value, Word(address))
      case None => Err(MissingContractClassChangeEntry(num.value, address))
      case Some(entry) => if entry.sub.hi == address then Ok(Some(entry.value)) else Ok(None)
  }

  /**
   * `HistoricalStateProvider::storage`: as the nonce read, over the storage history,
   * whose subkey is the (contract, storage key) pair; the entry found must match both.
   */
  function HistoricalStorage(db: Snapshot, blockNumber: nat, address: nat, storageKey: nat): (r: Result<Option<nat>, ProviderError>)
    ensures StorageChangeBlock(db, blockNumber, address, storageKey).None? ==> r == Ok(None)
    ensures StorageChangeBlock(db, blockNumber, address, storageKey).Some? ==>
              var num := StorageChangeBlock(db, blockNumber, address, storageKey).value;
              var sub := SubKey(address, storageKey);
              && (r.Err? <==> forall e :: e in db.storageChangeHistory ==> !AtOrAfter(e, num, sub))
              && (r.Err? ==> r.error == MissingStorageChangeEntry(num, storageKey, address))
              && (r.Ok? && r.value.Some? <==> exists v :: DupEntry(num, sub, v) in db.storageChangeHistory)
              && (r.Ok? && r.value.Some? ==> DupEntry(num, sub, r.value.value) in db.storageChangeHistory)
  {
    var num := StorageChangeBlock(db, blockNumber, address, storageKey);
    if num.None? then Ok(None)
    else
      var sub := SubKey(address, storageKey);
      SeekFindsSub(db.storageChangeHistory, num.value, sub);
      match SeekByKeySubkey(db.storageChangeHistory, num.value, sub)
      case None => Err(MissingStorageChangeEntry(num.value, storageKey, address))
      case Some(entry) =>
        if entry.sub.hi == address && entry.sub.lo == storageKey then
          assert entry == DupEntry(num.value, sub, entry.value);
          Ok(Some(entry.value))
        else Ok(None)
  }

  /**
   * The historical reads consult only the change sets, the change histories and the
   * class tables: the latest contract records and storage play no part.
   */
  lemma HistoricalIgnoresLatest(db: Snapshot, db': Snapshot, blockNumber: nat, address: nat, storageKey: nat)
    requires db'.contractInfoChangeSet == db.contractInfoChangeSet
    requires db'.nonceChangeHistory == db.nonceChangeHistory
    requires db'.classChangeHistory == db.classChangeHistory
    requires db'.storageChangeSet == db.storageChangeSet
    requires db'.storageChangeHistory == db.storageChangeHistory
    ensures HistoricalNonce(db', blockNumber, address) == HistoricalNonce(db, blockNumber, address)
    ensures HistoricalClassHash(db', blockNumber, address) == HistoricalClassHash(db, blockNumber, address)
    ensures HistoricalStorage(db', blockNumber, address, storageKey) == HistoricalStorage(db, blockNumber, address, storageKey)
  {
  }

  /**
   * Between two changes a historical read does not move: pinned at `p` or at any later
   * `q` with no nonce, class or storage change of the contract in `(p, q]`, the answer
   * is the same.
   */
  lemma {:induction false} HistoricalReadsStable(db: Snapshot, p: nat, q: nat, address: nat, storageKey: nat)
    requires p <= q
    requires Get(db.contractInfoChangeSet, address).Some? ==>
               var changes := Get(db.contractInfoChangeSet, address).value;
               forall x :: x in changes.nonceChangeList + changes.classChangeList ==> x <= p || x > q
    requires ContractStorageKey(address, storageKey) in db.storageChangeSet ==>
               forall x :: x in db.storageChangeSet[ContractStorageKey(address, storageKey)] ==> x <= p || x > q
    ensures HistoricalNonce(db, q, address) == HistoricalNonce(db, p, address)
    ensures HistoricalClassHash(db, q, address) == HistoricalClassHash(db, p, address)
    ensures HistoricalStorage(db, q, address, storageKey) == HistoricalStorage(db, p, address, storageKey)
  {
    var changes := Get(db.contractInfoChangeSet, address);
    if changes.Some? {
      var c := changes.value;
      forall x | x in c.nonceChangeList ensures x <= p || x > q {
        assert x in c.nonceChangeList + c.classChangeList;
      }
      forall x | x in c.classChangeList ensures x <= p || x > q {
        assert x in c.nonceChangeList + c.classChangeList;
      }
      RecentChangeStable(c.nonceChangeList, p, q);
      RecentChangeStable(c.classChangeList, p, q);
    }
    var key := ContractStorageKey(address, storageKey);
    if key in db.storageChangeSet {
      RecentChangeStable(db.storageChangeSet[key], p, q);
    }
  }

  // ----- Writes to the latest state -----

  /** The record `set_nonce` leaves: the old record with the new nonce, or a default record with it. */
  function WithNonce(db: Snapshot, address: nat, nonce: nat): (r: Snapshot)
    ensures LatestNonce(r, address) == Some(nonce)
    ensures LatestClassHash(r, address) == if LatestClassHash(db, address).Some? then LatestClassHash(db, address) else Some(0)
    ensures forall a :: a != address ==> LatestNonce(r, a) == LatestNonce(db, a) && LatestClassHash(r, a) == LatestClassHash(db, a)
    ensures r.(contractInfo := db.contractInfo) == db
  {
    var info := Get(db.contractInfo, address);
    var value := if info.Some? then info.value.(nonce := nonce) else DEFAULT_CONTRACT_INFO.(nonce := nonce);
    db.(contractInfo := Put(db.contractInfo, address, value))
  }

  /** The record `set_class_hash_of_contract` leaves: the old record with the new class hash, or a default record with it. */
  function WithClassHash(db: Snapshot, address: nat, classHash: nat): (r: Snapshot)
    ensures LatestClassHash(r, address) == Some(classHash)
    ensures LatestNonce(r, address) == if LatestNonce(db, address).Some? then LatestNonce(db, address) else Some(0)
    ensures forall a :: a != address ==> LatestNonce(r, a) == LatestNonce(db, a) && LatestClassHash(r, a) == LatestClassHash(db, a)
    ensures r.(contractInfo := db.contractInfo) == db
  {
    var info := Get(db.contractInfo, address);
    var value := if info.Some? then info.value.(classHash := classHash) else DEFAULT_CONTRACT_INFO.(classHash := classHash);
    db.(contractInfo := Put(db.contractInfo, address, value))
  }

  /** The `Classes` table after `set_class`. */
  function WithClass(db: Snapshot, hash: nat, contractClass: ContractClass): (r: Snapshot)
    ensures LatestClass(r, hash) == Some(contractClass)
    ensures forall h :: h != hash ==> LatestClass(r, h) == LatestClass(db, h)
    ensures r.(classes := db.classes) == db
  {
    db.(classes := Put(db.classes, hash, contractClass))
  }

  /** The `CompiledClassHashes` table after `set_compiled_class_hash_of_class_hash`. */
  function WithCompiledClassHash(db: Snapshot, hash: nat, compiledHash: nat): (r: Snapshot)
    ensures LatestCompiledClassHash(r, hash) == Some(compiledHash)
    ensures forall h :: h != hash ==> LatestCompiledClassHash(r, h) == LatestCompiledClassHash(db, h)
    ensures r.(compiledClassHashes := db.compiledClassHashes) == db
  {
    db.(compiledClassHashes := Put(db.compiledClassHashes, hash, compiledHash))
  }

  /**
   * The `ContractStorage` table after `set_storage`: the entry the seek lands on is
   * removed if it holds exactly this storage key, then the new entry is added. Only
   * entries of this slot can go, and the new entry is there.
   */
  function WithStorage(rows: DupRows, address: nat, storageKey: nat, value: nat): (r: DupRows)
    ensures DupEntry(address, Word(storageKey), value) in r
    ensures forall x: DupEntry :: x.key != address || x.sub.hi != storageKey ==> (x in r <==> x in rows)
    ensures |r| <= |rows| + 1
  {
    var e := DupEntry(address, Word(storageKey), value);
    var i := SeekDup(rows, address, Word(storageKey));
    var kept := if i < |rows| && rows[i].sub.hi == storageKey then RemoveAt(rows, i) else rows;
    assert e in Elems(DupInsert(kept, e));
    assert forall x: DupEntry :: x.key != address || x.sub.hi != storageKey ==> (x in kept <==> x in rows) by {
      assert forall x: DupEntry :: x in Elems(kept) <==> x in kept;
      assert forall x: DupEntry :: x in Elems(rows) <==> x in rows;
    }
    assert forall x: DupEntry :: x in Elems(DupInsert(kept, e)) <==> x in DupInsert(kept, e);
    DupInsert(kept, e)
  }

  /**
   * From a table holding at most one value per slot, `set_storage` leaves exactly one
   * entry for the slot, holding the new value, and every other entry as it was.
   */
  lemma {:induction false} WithStorageSingleValued(rows: DupRows, address: nat, storageKey: nat, value: nat)
    requires SingleValued(rows)
    ensures var r := WithStorage(rows, address, storageKey, value);
            && SingleValued(r)
            && (forall x :: x in r && x.key == address && x.sub.hi == storageKey ==> x == DupEntry(address, Word(storageKey), value))
  {
    var e := DupEntry(address, Word(storageKey), value);
    var i := SeekDup(rows, address, Word(storageKey));
    var kept := if i < |rows| && rows[i].sub.hi == storageKey then RemoveAt(rows, i) else rows;
    var r := WithStorage(rows, address, storageKey, value);
    assert r == DupInsert(kept, e);
    // Before the insert, the slot has no entry left.
    SeekFindsWord(rows, address, storageKey);
    assert forall x :: x in kept ==> x.key != address || x.sub.hi != storageKey by {
      assert forall x: DupEntry :: x in Elems(kept) <==> x in kept;
      assert forall x: DupEntry :: x in Elems(rows) <==> x in rows;
    }
    assert forall x: DupEntry :: x in Elems(r) <==> x in r;
    assert forall x: DupEntry :: x in Elems(kept) <==> x in kept;
    assert forall x: DupEntry :: x in Elems(rows) <==> x in rows;
    forall a, b | a in Elems(r) && b in Elems(r) && a.key == b.key && a.sub == b.sub
      ensures a == b
    {
      if a != e && b != e {
        assert a in Elems(rows) && b in Elems(rows);
      }
    }
  }

  /** After `set_storage`, the latest storage read gives the new value and every other slot reads as before. */
  lemma {:induction false} SetStorageThenRead(rows: DupRows, address: nat, storageKey: nat, value: nat)
    requires SingleValued(rows)
    ensures var r := WithStorage(rows, address, storageKey, value);
            && LatestStorage(r, address, storageKey) == Some(value)
            && forall a, k :: a != address || k != storageKey ==> LatestStorage(r, a, k) == LatestStorage(rows, a, k)
  {
    var r := WithStorage(rows, address, storageKey, value);
    WithStorageSingleValued(rows, address, storageKey, value);
    LatestStorageExact(r, address, storageKey, value);
    forall a, k | a != address || k != storageKey
      ensures LatestStorage(r, a, k) == LatestStorage(rows, a, k)
    {
      var before, after := LatestStorage(rows, a, k), LatestStorage(r, a, k);
      if after.Some? {
        LatestStorageExact(r, a, k, after.value);
        LatestStorageExact(rows, a, k, after.value);
      }
      if before.Some? {
        LatestStorageExact(rows, a, k, before.value);
        LatestStorageExact(r, a, k, before.value);
      }
    }
  }

  /**
   * `DbProvider` as a `StateWriter` and `ContractClassWriter`: each write runs in its own
   * read-write transaction, which commits when the write returns.
   */
  class DbProvider {
    var db: Snapshot

    constructor (db: Snapshot)
      ensures this.db == db
    {
      this.db := db;
    }

    /** `set_nonce`. */
    method SetNonce(address: nat, nonce: nat)
      modifies this
      ensures db == WithNonce(old(db), address, nonce)
    {
      var info := Get(db.contractInfo, address);
      var value := if info.Some? then info.value.(nonce := nonce) else DEFAULT_CONTRACT_INFO.(nonce := nonce);
      db := db.(contractInfo := Put(db.contractInfo, address, value));
    }

    /** `set_class_hash_of_contract`. */
    method SetClassHashOfContract(address: nat, classHash: nat)
      modifies this
      ensures db == WithClassHash(old(db), address, classHash)
    {
      var info := Get(db.contractInfo, address);
      var value := if info.Some? then info.value.(classHash := classHash) else DEFAULT_CONTRACT_INFO.(classHash := classHash);
      db := db.(contractInfo := Put(db.contractInfo, address, value));
    }

    /**
     * `set_storage`: a dup cursor on `ContractStorage` seeks the slot, deletes the entry
     * it lands on if that entry holds exactly this storage key (an upsert alone would
     * keep it as a second duplicate), then upserts the new value.
     */
    method SetStorage(address: nat, storageKey: nat, value: nat)
      modifies this
      ensures db == old(db).(contractStorage := WithStorage(old(db).contractStorage, address, storageKey, value))
    {
      var cursor := new Mdbx.DupCursor("ContractStorage", db.contractStorage);
      var entry := cursor.SeekByKeySubkey(address, Word(storageKey));
      if entry.Some? && entry.value.sub.hi == storageKey {
        var _ := cursor.DeleteCurrent();
      }
      cursor.Upsert(address, Word(storageKey), value);
      db := db.(contractStorage := cursor.rows);
    }

    /** `set_class`. */
    method SetClass(hash: nat, contractClass: ContractClass)
      modifies this
      ensures db == WithClass(old(db), hash, contractClass)
    {
      db := db.(classes := Put(db.classes, hash, contractClass));
    }

    /** `set_compiled_class_hash_of_class_hash`. */
    method SetCompiledClassHashOfClassHash(hash: nat, compiledHash: nat)
      modifies this
      ensures db == WithCompiledClassHash(old(db), hash, compiledHash)
    {
      db := db.(compiledClassHashes := Put(db.compiledClassHashes, hash, compiledHash));
    }
  }
}
