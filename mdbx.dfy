/**
 * The key-value environment the storage layer runs on, seen through the contract its
 * callers rely on: cursors over a plain table (ordered unique keys) and over a
 * dup-sorted table (several ordered values per key), the creation of every table with
 * the right flags, and the builder that opens an environment in a directory.
 *
 * A cursor owns the rows of its table as seen by its transaction; `pos` is the index
 * of the row it is positioned on. A positioning call that finds nothing leaves the
 * cursor where it was.
 */
module Mdbx {
  import opened Wrappers
  import opened Tables
  import opened Files

  const GIGABYTE: nat := 1024 * 1024 * 1024
  const TERABYTE: nat := GIGABYTE * 1024

  /** Slightly below the engine's own reader limit of 32767. */
  const DEFAULT_MAX_READERS: nat := 32_000
  const DEFAULT_MAX_SIZE: nat := TERABYTE
  const DEFAULT_GROWTH_STEP: int := 4 * GIGABYTE

  /** The name of the data file the engine keeps in the environment directory. */
  const DATA_FILE_NAME: string := "mdbx.dat"

  datatype SyncMode = Durable | NoMetaSync | SafeNoSync | UtterlyNoSync

  datatype Mode = ReadOnly | ReadWrite(syncMode: SyncMode)

  /** The engine's own error codes that the model produces. */
  datatype MdbxError = KeyExist | Incompatible | Invalid | NotFound

  datatype DatabaseError =
    | OpenEnv(error: MdbxError)
    | CreateTable(name: string, error: MdbxError)
    | OpenDb(name: string, error: MdbxError)
    | Write(table: string, error: MdbxError, key: nat)
    | Delete(table: string, error: MdbxError)

  // ----- Cursor over a plain table -----

  /** The index a walk starts at: the first key at or after `start`, or the first row. */
  function WalkStart<V>(rows: PlainRows<V>, start: Option<nat>): (i: nat)
    ensures i <= |rows|
  {
    if start.Some? then LowerBound(rows, start.value) else 0
  }

  class Cursor<V> {
    const table: string
    var rows: PlainRows<V>
    var pos: Option<nat>

    predicate Valid()
      reads this
    {
      pos.Some? ==> pos.value < |rows|
    }

    constructor (table: string, rows: PlainRows<V>)
      ensures Valid()
      ensures this.table == table && this.rows == rows && pos == None
    {
      this.table := table;
      this.rows := rows;
      pos := None;
    }

    /** `first`: the row with the smallest key. */
    method First() returns (r: Option<Row<V>>)
      requires Valid()
      modifies this
      ensures Valid() && rows == old(rows)
      ensures |rows| == 0 ==> r == None && pos == old(pos)
      ensures |rows| > 0 ==> r == Some(rows[0]) && pos == Some(0)
    {
      if |rows| == 0 {
        return None;
      }
      pos := Some(0);
      return Some(rows[0]);
    }

    /** `next`: the row after the current one; on an unpositioned cursor, the first row. */
    method Next() returns (r: Option<Row<V>>)
      requires Valid()
      modifies this
      ensures Valid() && rows == old(rows)
      ensures var n := if old(pos).None? then 0 else old(pos).value + 1;
              && (n < |rows| ==> r == Some(rows[n]) && pos == Some(n))
              && (n >= |rows| ==> r == None && pos == old(pos))
    {
      var n := if pos.None? then 0 else pos.value + 1;
      if n < |rows| {
        pos := Some(n);
        return Some(rows[n]);
      }
      return None;
    }

    /** `current`: the row the cursor is on. */
    method Current() returns (r: Option<Row<V>>)
      requires Valid()
      ensures pos.None? ==> r == None
      ensures pos.Some? ==> r == Some(rows[pos.value])
    {
      if pos.None? {
        return None;
      }
      return Some(rows[pos.value]);
    }

    /** `set`: the row with exactly key `k`. */
    method Set(k: nat) returns (r: Option<Row<V>>)
      requires Valid()
      modifies this
      ensures Valid() && rows == old(rows)
      ensures r == (if Get(rows, k).Some? then Some(Row(k, Get(rows, k).value)) else None)
      ensures r.Some? ==> pos == Some(LowerBound(rows, k))
      ensures r.None? ==> pos == old(pos)
    {
      var i := LowerBound(rows, k);
      if i < |rows| && rows[i].key == k {
        pos := Some(i);
        return Some(rows[i]);
      }
      return None;
    }

    /** `seek` (set-range): the first row whose key is at least `k`. */
    method Seek(k: nat) returns (r: Option<Row<V>>)
      requires Valid()
      modifies this
      ensures Valid() && rows == old(rows)
      ensures LowerBound(rows, k) < |rows| ==> r == Some(rows[LowerBound(rows, k)]) && pos == Some(LowerBound(rows, k))
      ensures LowerBound(rows, k) == |rows| ==> r == None && pos == old(pos)
    {
      var i := LowerBound(rows, k);
      if i < |rows| {
        pos := Some(i);
        return Some(rows[i]);
      }
      return None;
    }

    /** `upsert`: writes `v` under `k`, replacing any value there, and stays on it. */
    method Upsert(k: nat, v: V)
      requires Valid()
      modifies this
      ensures Valid()
      ensures rows == Put(old(rows), k, v)
      ensures pos == Some(LowerBound(old(rows), k)) && rows[pos.value] == Row(k, v)
    {
      var i := LowerBound(rows, k);
      rows := Put(rows, k, v);
      pos := Some(i);
    }

    /**
     * `insert`: writes `v` under a key that is not there yet and stays on it; an
     * existing key is refused with the table, the engine's `KeyExist` and the key, and
     * the cursor does not move.
     */
    method Insert(k: nat, v: V) returns (r: Result<(), DatabaseError>)
      requires Valid()
      modifies this
      ensures Valid()
      ensures r.Err? <==> Get(old(rows), k).Some?
      ensures r.Err? ==> r.error == Write(table, KeyExist, k) && rows == old(rows) && pos == old(pos)
      ensures r.Ok? ==> rows == Put(old(rows), k, v) && pos == Some(LowerBound(old(rows), k)) && rows[pos.value] == Row(k, v)
    {
      if Get(rows, k).Some? {
        return Err(Write(table, KeyExist, k));
      }
      Upsert(k, v);
      return Ok(());
    }

    /**
     * `walk(start)` followed by draining the walker: positions at `start` (or at the
     * first row) and collects rows with `next` until it returns nothing.
     */
    method Walk(start: Option<nat>) returns (items: seq<Row<V>>)
      requires Valid()
      modifies this
      ensures Valid() && rows == old(rows)
      ensures items == rows[WalkStart(rows, start)..]
      ensures forall j :: 0 <= j < |rows| ==> (rows[j] in items <==> start.None? || rows[j].key >= start.value)
    {
      var s := WalkStart(rows, start);
      var first: Option<Row<V>>;
      if start.Some? {
        first := Seek(start.value);
      } else {
        first := First();
      }
      items := DrainRows(s, first);
      WalkCovers(rows, start);
    }

    /**
     * Drains a walker whose first item `first` was found at index `s`: collects it and
     * every following row with `next`.
     */
    method DrainRows(s: nat, first: Option<Row<V>>) returns (items: seq<Row<V>>)
      requires Valid() && s <= |rows|
      requires first.Some? ==> s < |rows| && pos == Some(s) && first.value == rows[s]
      requires first.None? ==> s == |rows|
      modifies this
      ensures Valid() && rows == old(rows)
      ensures items == rows[s..]
    {
      var cur := first;
      var k := s;
      items := [];
      while cur.Some?
        invariant Valid() && rows == old(rows)
        invariant s <= k <= |rows|
        invariant items == rows[s..k]
        invariant cur.Some? ==> k < |rows| && pos == Some(k) && cur.value == rows[k]
        invariant cur.None? ==> k == |rows|
        decreases |rows| - k
      {
        assert rows[s..k + 1] == rows[s..k] + [rows[k]];
        items := items + [cur.value];
        k := k + 1;
        cur := Next();
      }
    }
  }

  /** The rows from the walk's start position on are exactly those at or after `start`. */
  lemma WalkCovers<V>(rows: PlainRows<V>, start: Option<nat>)
    ensures forall j :: 0 <= j < |rows| ==> (rows[j] in rows[WalkStart(rows, start)..] <==> start.None? || rows[j].key >= start.value)
  {
    var s := WalkStart(rows, start);
    forall j | 0 <= j < |rows| && rows[j] in rows[s..]
      ensures start.None? || rows[j].key >= start.value
    {
      var m :| 0 <= m < |rows| - s && rows[s..][m] == rows[j];
      assert rows[s + m] == rows[j];
    }
  }

  // ----- Cursor over a dup-sorted table -----

  class DupCursor {
    const table: string
    var rows: DupRows
    var pos: Option<nat>

    predicate Valid()
      reads this
    {
      pos.Some? ==> pos.value < |rows|
    }

    constructor (table: string, rows: DupRows)
      ensures Valid()
      ensures this.table == table && this.rows == rows && pos == None
    {
      this.table := table;
      this.rows := rows;
      pos := None;
    }

    /** `current`: the entry the cursor is on. */
    method Current() returns (r: Option<DupEntry>)
      requires Valid()
      ensures pos.None? ==> r == None
      ensures pos.Some? ==> r == Some(rows[pos.value])
    {
      if pos.None? {
        return None;
      }
      return Some(rows[pos.value]);
    }

    /**
     * `seek_by_key_subkey`: the first duplicate of `key` whose subkey is at least `sub`;
     * it never moves on to another key.
     */
    method SeekByKeySubkey(key: nat, sub: SubKey) returns (r: Option<DupEntry>)
      requires Valid()
      modifies this
      ensures Valid() && rows == old(rows)
      ensures r == Tables.SeekByKeySubkey(rows, key, sub)
      ensures r.Some? <==> SeekDup(rows, key, sub) < |rows|
      ensures r.Some? ==> r.value == rows[SeekDup(rows, key, sub)]
      ensures r.Some? ==> pos == Some(SeekDup(rows, key, sub))
      ensures r.None? ==> pos == old(pos)
    {
      var i := SeekDup(rows, key, sub);
      if i < |rows| {
        pos := Some(i);
        return Some(rows[i]);
      }
      return None;
    }

    /**
     * `next_dup_val`: the next duplicate of the current key; on an unpositioned
     * cursor, the first entry of the table.
     */
    method NextDupVal() returns (r: Option<DupEntry>)
      requires Valid()
      modifies this
      ensures Valid() && rows == old(rows)
      ensures old(pos).None? && |rows| > 0 ==> r == Some(rows[0]) && pos == Some(0)
      ensures old(pos).None? && |rows| == 0 ==> r == None && pos == old(pos)
      ensures old(pos).Some? ==>
                var n := old(pos).value + 1;
                if n < |rows| && rows[n].key == rows[n - 1].key then r == Some(rows[n]) && pos == Some(n)
                else r == None && pos == old(pos)
    {
      if pos.None? {
        if |rows| == 0 {
          return None;
        }
        pos := Some(0);
        return Some(rows[0]);
      }
      var n := pos.value + 1;
      if n < |rows| && rows[n].key == rows[n - 1].key {
        pos := Some(n);
        return Some(rows[n]);
      }
      return None;
    }

    /**
     * `delete_current`: removes the entry under the cursor, which then rests on the
     * entry that followed it; an unpositioned cursor has nothing to delete.
     */
    method DeleteCurrent() returns (r: Result<(), DatabaseError>)
      requires Valid()
      modifies this
      ensures Valid()
      ensures r.Err? <==> old(pos).None?
      ensures r.Err? ==> r.error == Delete(table, Invalid) && rows == old(rows) && pos == old(pos)
      ensures r.Ok? ==> rows == RemoveAt(old(rows), old(pos).value)
      ensures r.Ok? ==> pos == if old(pos).value < |rows| then old(pos) else None
    {
      if pos.None? {
        return Err(Delete(table, Invalid));
      }
      var i := pos.value;
      rows := RemoveAt(rows, i);
      pos := if i < |rows| then Some(i) else None;
      return Ok(());
    }

    /** `upsert`: adds `value` (which starts with `sub`) among the duplicates of `key`, replacing nothing. */
    method Upsert(key: nat, sub: SubKey, value: nat)
      requires Valid()
      modifies this
      ensures Valid()
      ensures rows == DupInsert(old(rows), DupEntry(key, sub, value))
      ensures pos == Some(DupLowerBound(old(rows), DupEntry(key, sub, value)))
      ensures rows[pos.value] == DupEntry(key, sub, value)
    {
      var e := DupEntry(key, sub, value);
      var i := DupLowerBound(rows, e);
      rows := DupInsert(rows, e);
      pos := Some(i);
    }

    /**
     * Drains a dup walker whose first item `first` was found at index `s`: collects it
     * and every following duplicate of `key` with `next_dup_val`.
     */
    method DrainDups(key: nat, s: nat, first: Option<DupEntry>) returns (items: seq<DupEntry>)
      requires Valid() && s <= |rows|
      requires first.Some? ==> s < GroupEnd(rows, key, s) && pos == Some(s) && first.value == rows[s]
      requires first.None? ==> s == GroupEnd(rows, key, s)
      modifies this
      ensures Valid() && rows == old(rows)
      ensures items == rows[s..GroupEnd(rows, key, s)]
    {
      var end := GroupEnd(rows, key, s);
      var cur := first;
      var k := s;
      items := [];
      while cur.Some?
        invariant Valid() && rows == old(rows)
        invariant s <= k <= end
        invariant items == rows[s..k]
        invariant cur.Some? ==> k < end && pos == Some(k) && cur.value == rows[k]
        invariant cur.None? ==> k == end
        decreases |rows| - k
      {
        assert rows[s..k + 1] == rows[s..k] + [rows[k]];
        items := items + [cur.value];
        k := k + 1;
        GroupEndStep(rows, key, s, k);
        cur := NextDupVal();
      }
    }

    /**
     * `walk_dup(Some(key), Some(sub))` followed by draining the walker: seeks the first
     * duplicate of `key` at or after `sub`, then collects with `next_dup_val`.
     */
    method WalkDup(key: nat, sub: SubKey) returns (items: seq<DupEntry>)
      requires Valid()
      modifies this
      ensures Valid() && rows == old(rows)
      ensures items == rows[SeekDup(rows, key, sub)..GroupEnd(rows, key, SeekDup(rows, key, sub))]
      ensures forall e :: e in items <==> e in rows && AtOrAfter(e, key, sub)
    {
      var s := SeekDup(rows, key, sub);
      var first := SeekByKeySubkey(key, sub);
      GroupEndStep(rows, key, s, s);
      items := DrainDups(key, s, first);
      GroupIsSeekRange(rows, key, sub);
    }
  }

  /** An index inside or just past the group of `key` starting at `s` is inside exactly when it holds that key. */
  lemma GroupEndStep(rows: DupRows, key: nat, s: nat, n: nat)
    requires s <= |rows|
    requires s <= n <= GroupEnd(rows, key, s)
    ensures n < GroupEnd(rows, key, s) <==> n < |rows| && rows[n].key == key
  {
  }

  /** A row lies between the seek position and the end of the key's group exactly when it matches the seek. */
  lemma GroupIndex(rows: DupRows, key: nat, sub: SubKey, j: nat)
    requires j < |rows|
    ensures var s := SeekDup(rows, key, sub);
            s <= j < GroupEnd(rows, key, s) <==> AtOrAfter(rows[j], key, sub)
  {
    var s := SeekDup(rows, key, sub);
    var end := GroupEnd(rows, key, s);
    if s <= j < end && j > s {
      assert EntryLess(rows[s], rows[j]);
    }
    if AtOrAfter(rows[j], key, sub) && end <= j {
      assert false;
    }
  }

  /** The run from the seek position to the end of the key's group holds exactly the matching entries. */
  lemma GroupIsSeekRange(rows: DupRows, key: nat, sub: SubKey)
    ensures var s := SeekDup(rows, key, sub);
            forall e :: e in rows[s..GroupEnd(rows, key, s)] <==> e in rows && AtOrAfter(e, key, sub)
  {
    var s := SeekDup(rows, key, sub);
    var end := GroupEnd(rows, key, s);
    forall e ensures e in rows[s..end] <==> e in rows && AtOrAfter(e, key, sub) {
      if e in rows[s..end] {
        var m :| 0 <= m < end - s && rows[s..end][m] == e;
        GroupIndex(rows, key, sub, s + m);
      }
      if e in rows && AtOrAfter(e, key, sub) {
        var j :| 0 <= j < |rows| && rows[j] == e;
        GroupIndex(rows, key, sub, j);
        assert rows[s..end][j - s] == e;
      }
    }
  }

  // ----- Tables and the environment -----

  datatype TableType = Table | DupSort

  datatype TableDef = TableDef(name: string, tableType: TableType)

  /** The creation flags a table is opened with; `dupSort` is `DUP_SORT`. */
  datatype DatabaseFlags = DatabaseFlags(dupSort: bool)

  function FlagsFor(t: TableType): (f: DatabaseFlags)
    ensures f.dupSort <==> t == DupSort
  {
    match t
    case Table => DatabaseFlags(false)
    case DupSort => DatabaseFlags(true)
  }

  /** `create_db(name, flags)`: opens the table if it exists with the same flags, creates it otherwise. */
  function CreateDb(tables: map<string, DatabaseFlags>, t: TableDef): (r: Result<map<string, DatabaseFlags>, DatabaseError>)
    ensures r.Err? <==> t.name in tables && tables[t.name] != FlagsFor(t.tableType)
    ensures r.Ok? ==> r.value == tables[t.name := FlagsFor(t.tableType)]
  {
    if t.name in tables && tables[t.name] != FlagsFor(t.tableType) then Err(CreateTable(t.name, Incompatible))
    else Ok(tables[t.name := FlagsFor(t.tableType)])
  }

  /** Creating each table of `all` in order; the first failure aborts the whole transaction. */
  function CreateAll(tables: map<string, DatabaseFlags>, all: seq<TableDef>): Result<map<string, DatabaseFlags>, DatabaseError>
    decreases |all|
  {
    if |all| == 0 then Ok(tables)
    else
      match CreateDb(tables, all[0])
      case Err(e) => Err(e)
      case Ok(next) => CreateAll(next, all[1..])
  }

  /** No name is declared twice with two different table types. */
  predicate ConsistentDefs(all: seq<TableDef>) {
    forall i, j :: 0 <= i < |all| && 0 <= j < |all| && all[i].name == all[j].name ==> all[i].tableType == all[j].tableType
  }

  /** Every table of `all` already exists with the flags its type calls for. */
  predicate Agrees(tables: map<string, DatabaseFlags>, all: seq<TableDef>) {
    forall t :: t in all && t.name in tables ==> tables[t.name] == FlagsFor(t.tableType)
  }

  /**
   * When the declarations are consistent and agree with what already exists, creating
   * them succeeds, every table ends up with `DUP_SORT` exactly when it is dup-sorted,
   * and nothing else is touched.
   */
  lemma {:induction false} CreateAllSucceeds(tables: map<string, DatabaseFlags>, all: seq<TableDef>)
    requires ConsistentDefs(all) && Agrees(tables, all)
    ensures CreateAll(tables, all).Ok?
    ensures forall t :: t in all ==> t.name in CreateAll(tables, all).value && CreateAll(tables, all).value[t.name] == FlagsFor(t.tableType)
    ensures forall n :: n in tables ==> n in CreateAll(tables, all).value && CreateAll(tables, all).value[n] == tables[n]
    ensures forall n :: n in CreateAll(tables, all).value ==> n in tables || exists t :: t in all && t.name == n
    decreases |all|
  {
    if |all| > 0 {
      var next := tables[all[0].name := FlagsFor(all[0].tableType)];
      assert CreateDb(tables, all[0]) == Ok(next);
      var rest := all[1..];
      assert forall t :: t in rest ==> t in all;
      assert ConsistentDefs(rest) by {
        forall i, j | 0 <= i < |rest| && 0 <= j < |rest| && rest[i].name == rest[j].name
          ensures rest[i].tableType == rest[j].tableType
        {
          assert rest[i] == all[i + 1] && rest[j] == all[j + 1];
        }
      }
      assert Agrees(next, rest) by {
        forall t | t in rest && t.name in next ensures next[t.name] == FlagsFor(t.tableType) {
          if t.name == all[0].name {
            var k :| 0 <= k < |rest| && rest[k] == t;
            assert all[k + 1] == t;
          }
        }
      }
      CreateAllSucceeds(next, rest);
    }
  }

  /** Creating tables that all exist with the right flags changes nothing: the creation is "if necessary". */
  lemma {:induction false} CreateAllIdempotent(tables: map<string, DatabaseFlags>, all: seq<TableDef>)
    requires forall t :: t in all ==> t.name in tables && tables[t.name] == FlagsFor(t.tableType)
    ensures CreateAll(tables, all) == Ok(tables)
  {
    if |all| > 0 {
      assert all[0] in all;
      assert tables[all[0].name := FlagsFor(all[0].tableType)] == tables;
      assert forall t :: t in all[1..] ==> t in all;
      CreateAllIdempotent(tables, all[1..]);
    }
  }

  class Env {
    /** The directory the environment lives in. */
    const dir: Path
    /** The settings the environment was opened with. */
    const mode: Mode
    const maxReaders: nat
    const maxSize: nat
    const growthStep: int
    /** The tables the environment holds, with their flags. */
    var tables: map<string, DatabaseFlags>

    constructor (dir: Path, mode: Mode, maxReaders: nat, maxSize: nat, growthStep: int)
      ensures this.dir == dir && this.mode == mode && this.maxReaders == maxReaders
      ensures this.maxSize == maxSize && this.growthStep == growthStep
      ensures tables == map[]
    {
      this.dir := dir;
      this.mode := mode;
      this.maxReaders := maxReaders;
      this.maxSize := maxSize;
      this.growthStep := growthStep;
      tables := map[];
    }

    /**
     * `create_default_tables`: in one write transaction, `create_db` for every table of
     * `all` with `DUP_SORT` exactly for the dup-sorted ones, then commit; an error
     * aborts the transaction and leaves the tables as they were.
     */
    method CreateDefaultTables(all: seq<TableDef>) returns (r: Result<(), DatabaseError>)
      modifies this
      ensures CreateAll(old(tables), all).Ok? ==> r.Ok? && tables == CreateAll(old(tables), all).value
      ensures CreateAll(old(tables), all).Err? ==> r == Err(CreateAll(old(tables), all).error) && tables == old(tables)
    {
      var txn := tables;
      var i := 0;
      while i < |all|
        invariant 0 <= i <= |all|
        invariant CreateAll(tables, all) == CreateAll(txn, all[i..])
      {
        assert all[i..][1..] == all[i + 1..];
        match CreateDb(txn, all[i])
        case Err(e) =>
          return Err(e);
        case Ok(next) =>
          txn := next;
        i := i + 1;
      }
      tables := txn;
      return Ok(());
    }

    /**
     * `stats`: opens every table of `all` in a read transaction and collects one
     * statistics record per table name; a table that does not exist fails with `OpenDb`.
     */
    method Stats(all: seq<TableDef>) returns (r: Result<set<string>, DatabaseError>)
      ensures r.Ok? <==> forall t :: t in all ==> t.name in tables
      ensures r.Ok? ==> r.value == set t | t in all :: t.name
    {
      var names: set<string> := {};
      var i := 0;
      while i < |all|
        invariant 0 <= i <= |all|
        invariant forall j :: 0 <= j < i ==> all[j].name in tables
        invariant names == set t | t in all[..i] :: t.name
      {
        if all[i].name !in tables {
          return Err(OpenDb(all[i].name, MdbxError.NotFound));
        }
        assert all[..i + 1] == all[..i] + [all[i]];
        names := names + {all[i].name};
        i := i + 1;
      }
      assert all[..i] == all;
      return Ok(names);
    }
  }

  /** Creating the default tables and then asking for statistics lists every table. */
  method CreateThenStats(env: Env, all: seq<TableDef>) returns (r: Result<set<string>, DatabaseError>)
    requires ConsistentDefs(all) && Agrees(env.tables, all)
    modifies env
    ensures r.Ok? && r.value == set t | t in all :: t.name
    ensures forall t :: t in all ==> t.name in env.tables && (env.tables[t.name].dupSort <==> t.tableType == DupSort)
  {
    CreateAllSucceeds(env.tables, all);
    var created := env.CreateDefaultTables(all);
    r := env.Stats(all);
  }

  // ----- Builder -----

  class EnvBuilder {
    var mode: Mode
    var maxReaders: nat
    var maxSize: nat
    var growthStep: int

    /** `DbEnvBuilder::new`: read-only, 32000 readers, 1 TiB, growing by 4 GiB. */
    constructor ()
      ensures mode == ReadOnly && maxReaders == DEFAULT_MAX_READERS
      ensures maxSize == DEFAULT_MAX_SIZE && growthStep == DEFAULT_GROWTH_STEP
    {
      mode := ReadOnly;
      maxReaders := DEFAULT_MAX_READERS;
      maxSize := DEFAULT_MAX_SIZE;
      growthStep := DEFAULT_GROWTH_STEP;
    }

    method MaxReaders(n: nat)
      modifies this
      ensures maxReaders == n
      ensures mode == old(mode) && maxSize == old(maxSize) && growthStep == old(growthStep)
    {
      maxReaders := n;
    }

    /** `write`: read-write with durable syncing. */
    method Write()
      modifies this
      ensures mode == ReadWrite(Durable)
      ensures maxReaders == old(maxReaders) && maxSize == old(maxSize) && growthStep == old(growthStep)
    {
      mode := ReadWrite(Durable);
    }

    /** `sync`: read-write with the given sync mode. */
    method Sync(syncMode: SyncMode)
      modifies this
      ensures mode == ReadWrite(syncMode)
      ensures maxReaders == old(maxReaders) && maxSize == old(maxSize) && growthStep == old(growthStep)
    {
      mode := ReadWrite(syncMode);
    }

    method MaxSize(n: nat)
      modifies this
      ensures maxSize == n
      ensures mode == old(mode) && maxReaders == old(maxReaders) && growthStep == old(growthStep)
    {
      maxSize := n;
    }

    method GrowthStep(n: int)
      modifies this
      ensures growthStep == n
      ensures mode == old(mode) && maxReaders == old(maxReaders) && maxSize == old(maxSize)
    {
      growthStep := n;
    }

    /**
     * `build`: opens the environment in directory `path`. In read-write mode the engine
     * creates its data file when it is missing; in read-only mode the data file must
     * already be there.
     */
    method Build(fs: FileSystem, path: Path) returns (r: Result<Env, DatabaseError>)
      modifies fs
      ensures r.Ok? <==> IsDir(old(fs.nodes), path) && (mode.ReadWrite? || IsFile(old(fs.nodes), path + [DATA_FILE_NAME]))
      ensures r.Ok? ==> fresh(r.value) && r.value.dir == path && r.value.tables == map[]
      ensures r.Ok? ==> r.value.mode == mode && r.value.maxReaders == maxReaders
      ensures r.Ok? ==> r.value.maxSize == maxSize && r.value.growthStep == growthStep
      ensures r.Ok? && mode.ReadWrite? && path + [DATA_FILE_NAME] !in old(fs.nodes) ==>
                fs.nodes == old(fs.nodes)[path + [DATA_FILE_NAME] := File([], false)]
      ensures !(r.Ok? && mode.ReadWrite? && path + [DATA_FILE_NAME] !in old(fs.nodes)) ==> fs.nodes == old(fs.nodes)
    {
      var data := path + [DATA_FILE_NAME];
      if !IsDir(fs.nodes, path) {
        return Err(OpenEnv(MdbxError.NotFound));
      }
      if mode.ReadOnly? && !IsFile(fs.nodes, data) {
        return Err(OpenEnv(MdbxError.NotFound));
      }
      if mode.ReadWrite? && data !in fs.nodes {
        fs.nodes := fs.nodes[data := File([], false)];
      }
      var env := new Env(path, mode, maxReaders, maxSize, growthStep);
      return Ok(env);
    }
  }

  // ----- The behaviour the storage layer relies on -----

  /** A key put in one write transaction is read back later, and the table then has one entry. */
  lemma PutThenGet<V>(k: nat, v: V)
    ensures var rows: PlainRows<V> := [];
            Get(Put(rows, k, v), k) == Some(v) && |Put(rows, k, v)| == 1
  {
  }

  /** Deleting the only key empties the table again. */
  lemma PutThenDelete<V>(k: nat, v: V)
    ensures var rows: PlainRows<V> := [];
            |Tables.Delete(Put(rows, k, v), k)| == 0
  {
  }

  /** Rows holding keys 0 to n - 1, each with value 0. */
  function ZeroRows(n: nat): (r: PlainRows<nat>)
    ensures |r| == n && forall i :: 0 <= i < n ==> r[i] == Row(i, 0)
  {
    seq(n, (i: nat) => Row(i, 0))
  }

  /** Putting key n after keys 0 to n - 1 appends its row. */
  lemma PutNextKey(n: nat)
    ensures Put(ZeroRows(n), n, 0) == ZeroRows(n + 1)
  {
    PutAfterLast(ZeroRows(n), n, 0);
  }

  /** The rows after putting keys 0, 1 and 2, each with value 0, into an empty table. */
  lemma PutInOrderRows()
    ensures var empty: PlainRows<nat> := [];
            Put(Put(Put(empty, 0, 0), 1, 0), 2, 0) == [Row(0, 0), Row(1, 0), Row(2, 0)]
  {
    assert ZeroRows(0) == [];
    PutNextKey(0);
    PutNextKey(1);
    PutNextKey(2);
    assert ZeroRows(3) == [Row(0, 0), Row(1, 0), Row(2, 0)];
  }

  /** Keys 0, 1 and 2 put into an empty table are walked from the start in order, and the walk then ends. */
  method WalkFromStart() returns (items: seq<Row<nat>>)
    ensures items == [Row(0, 0), Row(1, 0), Row(2, 0)]
  {
    var empty: PlainRows<nat> := [];
    var rows := Put(Put(Put(empty, 0, 0), 1, 0), 2, 0);
    PutInOrderRows();
    var cursor := new Cursor<nat>("BlockHashes", rows);
    items := cursor.Walk(None);
  }

  /**
   * Inserting a new key succeeds and leaves the cursor on it; inserting it again fails
   * with `KeyExist` and the cursor stays on the same row.
   */
  method InsertTwice(rows: PlainRows<nat>, k: nat) returns (first: Result<(), DatabaseError>, second: Result<(), DatabaseError>, current: Option<Row<nat>>)
    requires Get(rows, k).None?
    ensures first.Ok?
    ensures second == Err(Write("BlockHashes", KeyExist, k))
    ensures current == Some(Row(k, 0))
  {
    var cursor := new Cursor<nat>("BlockHashes", rows);
    first := cursor.Insert(k, 0);
    second := cursor.Insert(k, 0);
    current := cursor.Current();
  }

  /**
   * Upserting a value whose subkey is already stored under the key adds a second
   * duplicate: seeking the subkey finds the first value, and the next duplicate is the
   * new one.
   */
  method UpsertKeepsDuplicate(key: nat, sub: nat, v1: nat, v2: nat) returns (seeked: Option<DupEntry>, next: Option<DupEntry>)
    requires v1 < v2
    ensures seeked == Some(DupEntry(key, SubKey(sub, 0), v1))
    ensures next == Some(DupEntry(key, SubKey(sub, 0), v2))
  {
    var cursor := new DupCursor("ContractStorage", []);
    cursor.Upsert(key, SubKey(sub, 0), v1);
    assert cursor.rows == [DupEntry(key, SubKey(sub, 0), v1)];
    cursor.Upsert(key, SubKey(sub, 0), v2);
    assert cursor.rows == [DupEntry(key, SubKey(sub, 0), v1), DupEntry(key, SubKey(sub, 0), v2)];
    seeked := cursor.SeekByKeySubkey(key, SubKey(sub, 0));
    next := cursor.NextDupVal();
  }

  /** The rows after upserting (0,0), (2,2), (1,1) under one key. */
  lemma DupSortOrderRows(key: nat)
    ensures var e0, e1, e2 := DupEntry(key, SubKey(0, 0), 0), DupEntry(key, SubKey(1, 0), 1), DupEntry(key, SubKey(2, 0), 2);
            DupInsert(DupInsert(DupInsert([], e0), e2), e1) == [e0, e1, e2]
  {
    var e0, e1, e2 := DupEntry(key, SubKey(0, 0), 0), DupEntry(key, SubKey(1, 0), 1), DupEntry(key, SubKey(2, 0), 2);
    assert DupInsert([], e0) == [e0];
    assert DupLowerBound([e0], e2) == 1;
    assert DupInsert([e0], e2) == [e0, e2];
    assert DupLowerBound([e0, e2], e1) == 1;
  }

  /**
   * Values put under one key in the order (0,0), (2,2), (1,1) are read back ordered by
   * subkey with `next_dup_val`.
   */
  method DupSortOrder(key: nat) returns (a: Option<DupEntry>, b: Option<DupEntry>, c: Option<DupEntry>)
    ensures a == Some(DupEntry(key, SubKey(0, 0), 0))
    ensures b == Some(DupEntry(key, SubKey(1, 0), 1))
    ensures c == Some(DupEntry(key, SubKey(2, 0), 2))
  {
    var writer := new DupCursor("ContractStorage", []);
    writer.Upsert(key, SubKey(0, 0), 0);
    writer.Upsert(key, SubKey(2, 0), 2);
    writer.Upsert(key, SubKey(1, 0), 1);
    DupSortOrderRows(key);
    var reader := new DupCursor("ContractStorage", writer.rows);
    a := reader.NextDupVal();
    b := reader.NextDupVal();
    c := reader.NextDupVal();
  }

  /** A dup walk from subkey 1 over the same values starts at (1,1) and yields (1,1) then (2,2). */
  method DupWalkFromSubkey(key: nat) returns (walked: seq<DupEntry>)
    ensures walked == [DupEntry(key, SubKey(1, 0), 1), DupEntry(key, SubKey(2, 0), 2)]
  {
    var writer := new DupCursor("ContractStorage", []);
    writer.Upsert(key, SubKey(0, 0), 0);
    writer.Upsert(key, SubKey(2, 0), 2);
    writer.Upsert(key, SubKey(1, 0), 1);
    DupSortOrderRows(key);
    var rows := writer.rows;
    DupWalkRange(key);
    var walker := new DupCursor("ContractStorage", rows);
    walked := walker.WalkDup(key, SubKey(1, 0));
  }

  /** In the rows (0,0), (1,1), (2,2) of one key, the seek to subkey 1 lands on index 1 and the key's group ends at 3. */
  lemma DupWalkRange(key: nat)
    ensures var rows: DupRows := [DupEntry(key, SubKey(0, 0), 0), DupEntry(key, SubKey(1, 0), 1), DupEntry(key, SubKey(2, 0), 2)];
            SeekDup(rows, key, SubKey(1, 0)) == 1 && GroupEnd(rows, key, 1) == 3
  {
    var rows: DupRows := [DupEntry(key, SubKey(0, 0), 0), DupEntry(key, SubKey(1, 0), 1), DupEntry(key, SubKey(2, 0), 2)];
    assert AtOrAfter(rows[1], key, SubKey(1, 0)) && !AtOrAfter(rows[0], key, SubKey(1, 0));
    assert GroupEnd(rows, key, 3) == 3;
  }
}
